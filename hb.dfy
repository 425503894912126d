/**
 * makeRSS_HinataBlog.py: the rewrite-policy blog feeds. For each source the
 * ledger is read whole, the three match lists are zipped into (link, title,
 * date) triples, triples with unseen full links are prepended (their titles
 * HTML-unescaped), the whole ledger is rewritten and the first 300 rows form
 * the window.
 */
module HinataBlog {
  import opened Common
  import opened Ledger
  import opened Dedup

  /** One ledger row, in the CSV's field order. */
  datatype BRow = BRow(title: string, link: string, pubDate: string)

  /** One entry of the source list. */
  datatype Source = Source(url: string, xmlFile: string, csvFile: string)

  /** What the three patterns found on a source's page. */
  datatype Matches = Matches(links: seq<string>, titles: seq<string>, dates: seq<string>)

  type Triple = (string, string, string)

  const Site: string := "https://www.hinatazaka46.com"

  function BLink(r: BRow): string {
    r.link
  }

  /** The dedup key: the site prefix followed by the matched href. */
  function FullLink(t: Triple): string {
    Site + t.0
  }

  /** Every triple passes; only its link is checked. */
  predicate Always(t: Triple) {
    true
  }

  /** The row of a triple; html.unescape is passed in. */
  function ToRow(t: Triple, unescape: string -> string): (r: BRow)
    ensures r.link == FullLink(t) && r.title == unescape(t.1) && r.pubDate == t.2
  {
    BRow(unescape(t.1), Site + t.0, t.2)
  }

  function ToRows(ts: seq<Triple>, unescape: string -> string): (rs: seq<BRow>)
    ensures |rs| == |ts| && forall i :: 0 <= i < |ts| ==> rs[i] == ToRow(ts[i], unescape)
  {
    seq(|ts|, i requires 0 <= i < |ts| => ToRow(ts[i], unescape))
  }

  lemma ToRowsSnoc(ts: seq<Triple>, t: Triple, unescape: string -> string)
    ensures ToRows(ts + [t], unescape) == ToRows(ts, unescape) + [ToRow(t, unescape)]
  {
  }

  /** The candidate triples of a page: zip, so as many as the shortest list. */
  function Candidates(m: Matches): (r: seq<Triple>)
    ensures |r| == Min(|m.links|, Min(|m.titles|, |m.dates|))
    ensures forall i :: 0 <= i < |r| ==> r[i] == (m.links[i], m.titles[i], m.dates[i])
  {
    Zip3(m.links, m.titles, m.dates)
  }

  /** The new rows of one source against the known links. */
  function NewRows(m: Matches, unescape: string -> string, known: set<string>): seq<BRow> {
    ToRows(Sieve(Candidates(m), known, FullLink, Always).accepted, unescape)
  }

  /** The loop of lines 70-80. */
  method SelectNew(m: Matches, unescape: string -> string, known: set<string>)
    returns (newItems: seq<BRow>, links: set<string>)
    ensures newItems == NewRows(m, unescape, known)
    ensures links == Sieve(Candidates(m), known, FullLink, Always).keys
  {
    var cands := Zip3(m.links, m.titles, m.dates);
    ghost var acc: seq<Triple> := [];
    newItems, links := [], known;
    var i := 0;
    while i < |cands|
      invariant 0 <= i <= |cands|
      invariant newItems == ToRows(acc, unescape)
      invariant var r := Sieve(cands[i..], links, FullLink, Always);
        Sieve(cands, known, FullLink, Always) == Sifted(acc + r.accepted, r.keys)
    {
      var (link, title, date) := cands[i];
      assert cands[i..][1..] == cands[i + 1..];
      SieveStep(cands, known, acc, cands[i..], links, FullLink, Always);
      var fullLink := Site + link;
      if fullLink !in links {
        ToRowsSnoc(acc, cands[i], unescape);
        acc := acc + [cands[i]];
        newItems := newItems + [BRow(unescape(title), fullLink, date)];
        links := links + {fullLink};
      }
      i := i + 1;
    }
  }

  /** The ledger's rows after one source: the new rows, then every old row. */
  ghost function AllItems(f: CsvFile<BRow>, m: Matches, unescape: string -> string): seq<BRow> {
    NewRows(m, unescape, KeysOf(Rows(f), BLink)) + Rows(f)
  }

  /** One iteration of the source loop (lines 52-110), the fetch replaced by
      what the patterns matched. */
  method RunSource(ledger: RewriteLedger<BRow>, m: Matches, unescape: string -> string) returns (window: seq<BRow>)
    modifies ledger
    ensures ledger.file == Saved(old(ledger.file), AllItems(old(ledger.file), m, unescape))
    ensures window == FirstN(AllItems(old(ledger.file), m, unescape), MaxXmlItems)
  {
    var allItems, existing := ledger.Load(BLink);
    var newItems, links := SelectNew(m, unescape, existing);
    allItems := newItems + allItems;
    ledger.Save(allItems);
    window := FirstN(allItems, MaxXmlItems);
  }

  /** The module-level loop: the sources in list order, each on its own ledger. */
  method RunAll(srcs: seq<Source>, ledgers: seq<RewriteLedger<BRow>>, pages: seq<Matches>, unescape: string -> string)
    returns (windows: seq<seq<BRow>>)
    requires |ledgers| == |srcs| == |pages|
    requires forall i, j :: 0 <= i < j < |ledgers| ==> ledgers[i] != ledgers[j]
    modifies set i | 0 <= i < |ledgers| :: ledgers[i]
    ensures |windows| == |srcs|
    ensures forall i :: 0 <= i < |srcs| ==>
      ledgers[i].file == Saved(old(ledgers[i].file), AllItems(old(ledgers[i].file), pages[i], unescape))
      && windows[i] == FirstN(AllItems(old(ledgers[i].file), pages[i], unescape), MaxXmlItems)
  {
    ghost var f0 := seq(|ledgers|, k reads ledgers requires 0 <= k < |ledgers| => ledgers[k].file);
    windows := [];
    var i := 0;
    while i < |srcs|
      invariant 0 <= i <= |srcs| && |windows| == i
      invariant forall k :: 0 <= k < |srcs| ==> f0[k] == old(ledgers[k].file)
      invariant forall k :: 0 <= k < i ==> SourceDone(f0[k], pages[k], unescape, ledgers[k].file, windows[k])
      invariant forall k :: i <= k < |srcs| ==> ledgers[k].file == f0[k]
    {
      assert forall k :: 0 <= k < |srcs| && k != i ==> ledgers[k] != ledgers[i];
      var w := RunSource(ledgers[i], pages[i], unescape);
      assert SourceDone(f0[i], pages[i], unescape, ledgers[i].file, w);
      windows := windows + [w];
      i := i + 1;
    }
  }

  /** Source k's ledger and window are what one run makes of its old file. */
  ghost predicate SourceDone(f0: CsvFile<BRow>, m: Matches, unescape: string -> string, f: CsvFile<BRow>, w: seq<BRow>) {
    f == Saved(f0, AllItems(f0, m, unescape)) && w == FirstN(AllItems(f0, m, unescape), MaxXmlItems)
  }

  // ---------------------------------------------------------------------------
  // Properties of one source.

  /** New rows have distinct full links, none of them already in the ledger. */
  lemma NewRowsFresh(m: Matches, unescape: string -> string, known: set<string>)
    ensures var n := NewRows(m, unescape, known);
      && (forall i, j :: 0 <= i < j < |n| ==> n[i].link != n[j].link)
      && (forall i :: 0 <= i < |n| ==> n[i].link !in known)
  {
    SieveDistinct(Candidates(m), known, FullLink, Always);
    SieveSound(Candidates(m), known, FullLink, Always);
  }

  /** The saved ledger opens with the new rows and then holds every old row
      in its old order; the window opens with the first min(300, |new|) new
      rows and, when they all fit, continues with the first old rows. */
  lemma KeepsOld(f: CsvFile<BRow>, m: Matches, unescape: string -> string)
    ensures var n := NewRows(m, unescape, KeysOf(Rows(f), BLink));
      var rows := Rows(Saved(f, AllItems(f, m, unescape)));
      var k := Min(MaxXmlItems, |n|);
      && |rows| == |n| + |Rows(f)| && rows[..|n|] == n && rows[|n|..] == Rows(f)
      && FirstN(rows, MaxXmlItems)[..k] == n[..k]
      && (|n| <= MaxXmlItems ==> FirstN(rows, MaxXmlItems)[|n|..] == FirstN(Rows(f), MaxXmlItems - |n|))
  {
    var n := NewRows(m, unescape, KeysOf(Rows(f), BLink));
    assert Rows(Saved(f, AllItems(f, m, unescape))) == n + Rows(f);
    assert (n + Rows(f))[..|n|] == n;
    PrependKeepsOld(n, Rows(f), MaxXmlItems);
  }

  /** A ledger whose links are distinct keeps them distinct after the source. */
  lemma SourceKeepsLinksDistinct(f: CsvFile<BRow>, m: Matches, unescape: string -> string)
    requires KeysDistinct(Rows(f), BLink)
    ensures KeysDistinct(Rows(Saved(f, AllItems(f, m, unescape))), BLink)
  {
    var known := KeysOf(Rows(f), BLink);
    var n := NewRows(m, unescape, known);
    NewRowsFresh(m, unescape, known);
    assert KeysDistinct(n, BLink);
    assert forall j :: 0 <= j < |n| ==> BLink(n[j]) !in KeysOf(Rows(f), BLink);
    assert Rows(Saved(f, AllItems(f, m, unescape))) == n + Rows(f);
    ConcatKeysDistinct(Rows(f), n, BLink);
  }

  /** The keys of the new rows are the accepted triples' full links. */
  lemma NewRowKeys(m: Matches, unescape: string -> string, known: set<string>)
    ensures var r := Sieve(Candidates(m), known, FullLink, Always);
      KeysOf(NewRows(m, unescape, known), BLink) == set i | 0 <= i < |r.accepted| :: FullLink(r.accepted[i])
  {
    var r := Sieve(Candidates(m), known, FullLink, Always);
    var n := NewRows(m, unescape, known);
    var la := set i | 0 <= i < |r.accepted| :: FullLink(r.accepted[i]);
    forall k | k in KeysOf(n, BLink) ensures k in la {
      var i :| 0 <= i < |n| && BLink(n[i]) == k;
      assert FullLink(r.accepted[i]) == k;
    }
    forall k | k in la ensures k in KeysOf(n, BLink) {
      var i :| 0 <= i < |r.accepted| && FullLink(r.accepted[i]) == k;
      assert BLink(n[i]) == k;
    }
  }

  /** Re-running on identical page content adds nothing and leaves the
      rows as they are. */
  lemma RerunAddsNothing(f: CsvFile<BRow>, m: Matches, unescape: string -> string)
    ensures var f2 := Saved(f, AllItems(f, m, unescape));
      NewRows(m, unescape, KeysOf(Rows(f2), BLink)) == [] && AllItems(f2, m, unescape) == AllItems(f, m, unescape)
  {
    var cs := Candidates(m);
    var known := KeysOf(Rows(f), BLink);
    var all := AllItems(f, m, unescape);
    var f2 := Saved(f, all);
    var r := Sieve(cs, known, FullLink, Always);
    SieveDistinct(cs, known, FullLink, Always);
    SieveComplete(cs, known, FullLink, Always);
    NewRowKeys(m, unescape, known);
    KeysOfConcat(NewRows(m, unescape, known), Rows(f), BLink);
    assert Rows(f2) == all;
    assert KeysOf(Rows(f2), BLink) == r.keys;
    SieveNothingNew(cs, r.keys, FullLink, Always);
    assert AllItems(f2, m, unescape) == [] + all;
  }
}
