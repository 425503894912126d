/**
 * makeRSS_NogizakaBlog.py: the append-policy blog feeds. For each source the
 * three match lists are zipped into (link, title, date) triples, an optional
 * phrase filter is applied to the title, triples with unseen full links are
 * appended, and the window of the last 300 rows, newest first, is rendered
 * on every run.
 */
module NogizakaBlog {
  import opened Common
  import opened Ledger
  import opened Dedup

  /** One ledger row, in the CSV's field order. */
  datatype BRow = BRow(title: string, link: string, pubDate: string)

  /** One entry of the source list. */
  datatype Source = Source(url: string, xmlFile: string, csvFile: string, includePhrase: seq<string>)

  /** What the three patterns found on a source's page. */
  datatype Matches = Matches(links: seq<string>, titles: seq<string>, dates: seq<string>)

  type Triple = (string, string, string)

  const Site: string := "https://www.nogizaka46.com"

  function BLink(r: BRow): string {
    r.link
  }

  /** The dedup key: the site prefix followed by the matched href. */
  function FullLink(t: Triple): string {
    Site + t.0
  }

  /** No phrases accept every title; otherwise one of them must occur in it. */
  predicate PhraseOk(phrases: seq<string>, t: Triple) {
    phrases == [] || AnyIn(phrases, t.1)
  }

  function PhraseFilter(phrases: seq<string>): Triple -> bool {
    t => PhraseOk(phrases, t)
  }

  function ToRow(t: Triple): (r: BRow)
    ensures r.link == FullLink(t) && r.title == t.1 && r.pubDate == t.2
  {
    BRow(t.1, Site + t.0, t.2)
  }

  function ToRows(ts: seq<Triple>): (rs: seq<BRow>)
    ensures |rs| == |ts| && forall i :: 0 <= i < |ts| ==> rs[i] == ToRow(ts[i])
  {
    seq(|ts|, i requires 0 <= i < |ts| => ToRow(ts[i]))
  }

  lemma ToRowsSnoc(ts: seq<Triple>, t: Triple)
    ensures ToRows(ts + [t]) == ToRows(ts) + [ToRow(t)]
  {
  }

  /** The candidate triples of a page: zip, so as many as the shortest list. */
  function Candidates(m: Matches): (r: seq<Triple>)
    ensures |r| == Min(|m.links|, Min(|m.titles|, |m.dates|))
    ensures forall i :: 0 <= i < |r| ==> r[i] == (m.links[i], m.titles[i], m.dates[i])
  {
    Zip3(m.links, m.titles, m.dates)
  }

  /** The new rows of one source against the known links. */
  function NewRows(phrases: seq<string>, m: Matches, known: set<string>): seq<BRow> {
    ToRows(Sieve(Candidates(m), known, FullLink, PhraseFilter(phrases)).accepted)
  }

  /** The loop of lines 84-95. */
  method SelectNew(m: Matches, phrases: seq<string>, known: set<string>)
    returns (newItems: seq<BRow>, links: set<string>)
    ensures newItems == NewRows(phrases, m, known)
    ensures links == Sieve(Candidates(m), known, FullLink, PhraseFilter(phrases)).keys
  {
    var cands := Zip3(m.links, m.titles, m.dates);
    ghost var acc: seq<Triple> := [];
    newItems, links := [], known;
    var i := 0;
    while i < |cands|
      invariant 0 <= i <= |cands|
      invariant newItems == ToRows(acc)
      invariant var r := Sieve(cands[i..], links, FullLink, PhraseFilter(phrases));
        Sieve(cands, known, FullLink, PhraseFilter(phrases)) == Sifted(acc + r.accepted, r.keys)
    {
      var (link, title, date) := cands[i];
      assert cands[i..][1..] == cands[i + 1..];
      SieveStep(cands, known, acc, cands[i..], links, FullLink, PhraseFilter(phrases));
      if phrases == [] || AnyIn(phrases, title) {
        var fullLink := Site + link;
        if fullLink !in links {
          ToRowsSnoc(acc, cands[i]);
          acc := acc + [cands[i]];
          newItems := newItems + [BRow(title, fullLink, date)];
          links := links + {fullLink};
        }
      }
      i := i + 1;
    }
  }

  /** The ledger after one source: unchanged when nothing is new. */
  ghost function SourceFile(f: CsvFile<BRow>, src: Source, m: Matches): CsvFile<BRow> {
    Appended(f, NewRows(src.includePhrase, m, KeysOf(Rows(f), BLink)))
  }

  /** The window rendered for one source: always, newest first. */
  ghost function SourceWindow(f: CsvFile<BRow>, src: Source, m: Matches): seq<BRow> {
    Reverse(LastN(Rows(SourceFile(f, src, m)), MaxXmlItems))
  }

  /** One iteration of the source loop (lines 59-124), the fetch replaced by
      what the patterns matched. */
  method RunSource(ledger: AppendLedger<BRow>, src: Source, m: Matches) returns (window: seq<BRow>)
    modifies ledger
    ensures ledger.file == SourceFile(old(ledger.file), src, m)
    ensures window == SourceWindow(old(ledger.file), src, m)
  {
    var existing := ledger.LoadKeys(BLink);
    var newItems, links := SelectNew(m, src.includePhrase, existing);
    ledger.Append(newItems);
    window := ledger.ReadNewestFirst(MaxXmlItems);
  }

  /** The module-level loop: the sources in list order, each on its own ledger. */
  method RunAll(srcs: seq<Source>, ledgers: seq<AppendLedger<BRow>>, pages: seq<Matches>)
    returns (windows: seq<seq<BRow>>)
    requires |ledgers| == |srcs| == |pages|
    requires forall i, j :: 0 <= i < j < |ledgers| ==> ledgers[i] != ledgers[j]
    modifies set i | 0 <= i < |ledgers| :: ledgers[i]
    ensures |windows| == |srcs|
    ensures forall i :: 0 <= i < |srcs| ==>
      ledgers[i].file == SourceFile(old(ledgers[i].file), srcs[i], pages[i])
      && windows[i] == SourceWindow(old(ledgers[i].file), srcs[i], pages[i])
  {
    ghost var f0 := seq(|ledgers|, k reads ledgers requires 0 <= k < |ledgers| => ledgers[k].file);
    windows := [];
    var i := 0;
    while i < |srcs|
      invariant 0 <= i <= |srcs| && |windows| == i
      invariant forall k :: 0 <= k < |srcs| ==> f0[k] == old(ledgers[k].file)
      invariant forall k :: 0 <= k < i ==> SourceDone(f0[k], srcs[k], pages[k], ledgers[k].file, windows[k])
      invariant forall k :: i <= k < |srcs| ==> ledgers[k].file == f0[k]
    {
      assert forall k :: 0 <= k < |srcs| && k != i ==> ledgers[k] != ledgers[i];
      var w := RunSource(ledgers[i], srcs[i], pages[i]);
      assert SourceDone(f0[i], srcs[i], pages[i], ledgers[i].file, w);
      windows := windows + [w];
      i := i + 1;
    }
  }

  /** Source k's ledger and window are what one run makes of its old file. */
  ghost predicate SourceDone(f0: CsvFile<BRow>, src: Source, m: Matches, f: CsvFile<BRow>, w: seq<BRow>) {
    f == SourceFile(f0, src, m) && w == SourceWindow(f0, src, m)
  }

  // ---------------------------------------------------------------------------
  // Properties of one source.

  /** New rows have distinct full links, none of them known, and titles that
      pass the phrase filter. */
  lemma NewRowsFresh(phrases: seq<string>, m: Matches, known: set<string>)
    ensures var n := NewRows(phrases, m, known);
      && (forall i, j :: 0 <= i < j < |n| ==> n[i].link != n[j].link)
      && (forall i :: 0 <= i < |n| ==> n[i].link !in known && (phrases == [] || AnyIn(phrases, n[i].title)))
  {
    SieveDistinct(Candidates(m), known, FullLink, PhraseFilter(phrases));
    SieveSound(Candidates(m), known, FullLink, PhraseFilter(phrases));
  }

  /** With no phrases, every zipped triple whose full link is unseen gives
      a new row with that link. */
  lemma NoPhrasesTakeAll(m: Matches, known: set<string>)
    ensures var n := NewRows([], m, known);
      var cs := Candidates(m);
      forall j :: 0 <= j < |cs| && FullLink(cs[j]) !in known ==>
        exists i :: 0 <= i < |n| && n[i].link == FullLink(cs[j])
  {
    var cs := Candidates(m);
    var r := Sieve(cs, known, FullLink, PhraseFilter([]));
    var n := NewRows([], m, known);
    SieveTakesUnseen(cs, known, FullLink, PhraseFilter([]));
    forall j | 0 <= j < |cs| && FullLink(cs[j]) !in known
      ensures exists i :: 0 <= i < |n| && n[i].link == FullLink(cs[j])
    {
      var i :| 0 <= i < |r.accepted| && FullLink(r.accepted[i]) == FullLink(cs[j]);
      assert n[i].link == FullLink(cs[j]);
    }
  }

  /** The window is re-rendered even when nothing is new: then it is the
      newest-first tail of the unchanged ledger. */
  lemma WindowWithoutNews(f: CsvFile<BRow>, src: Source, m: Matches)
    requires NewRows(src.includePhrase, m, KeysOf(Rows(f), BLink)) == []
    ensures SourceFile(f, src, m) == f
    ensures SourceWindow(f, src, m) == Reverse(LastN(Rows(f), MaxXmlItems))
    ensures |SourceWindow(f, src, m)| == Min(MaxXmlItems, |Rows(f)|)
  {
  }

  /** The window holds min(300, ledger size) rows and opens with the newest
      min(300, |new|) new rows, the last-appended first; when they all fit,
      the newest old rows follow. */
  lemma WindowNewestFirst(f: CsvFile<BRow>, src: Source, m: Matches)
    ensures var n := NewRows(src.includePhrase, m, KeysOf(Rows(f), BLink));
      var k := Min(MaxXmlItems, |n|);
      && |SourceWindow(f, src, m)| == Min(MaxXmlItems, |Rows(f)| + |n|)
      && SourceWindow(f, src, m)[..k] == Reverse(n)[..k]
      && (|n| <= MaxXmlItems ==>
            SourceWindow(f, src, m)[|n|..] == Reverse(LastN(Rows(f), MaxXmlItems - |n|)))
  {
    var n := NewRows(src.includePhrase, m, KeysOf(Rows(f), BLink));
    NewestFirst(Rows(f), n, MaxXmlItems);
    if n == [] {
      assert Rows(f) + n == Rows(f);
    }
  }

  /** The links of the new rows are the full links of the accepted triples. */
  lemma NewRowKeys(phrases: seq<string>, m: Matches, known: set<string>)
    ensures var r := Sieve(Candidates(m), known, FullLink, PhraseFilter(phrases));
      KeysOf(NewRows(phrases, m, known), BLink) == set i | 0 <= i < |r.accepted| :: FullLink(r.accepted[i])
  {
    var r := Sieve(Candidates(m), known, FullLink, PhraseFilter(phrases));
    KeysOfMapped(r.accepted, NewRows(phrases, m, known), FullLink, BLink);
  }

  /** A ledger whose links are distinct keeps them distinct after the source. */
  lemma SourceKeepsLinksDistinct(f: CsvFile<BRow>, src: Source, m: Matches)
    requires KeysDistinct(Rows(f), BLink)
    ensures KeysDistinct(Rows(SourceFile(f, src, m)), BLink)
  {
    var known := KeysOf(Rows(f), BLink);
    var n := NewRows(src.includePhrase, m, known);
    NewRowsFresh(src.includePhrase, m, known);
    assert KeysDistinct(n, BLink);
    AppendedKeysDistinct(f, n, BLink);
  }

  /** Running the source again on the same page appends nothing; the window
      is rendered again, unchanged. */
  lemma RerunAddsNothing(f: CsvFile<BRow>, src: Source, m: Matches)
    ensures var f2 := SourceFile(f, src, m);
      SourceFile(f2, src, m) == f2 && SourceWindow(f2, src, m) == SourceWindow(f, src, m)
  {
    var phrases := src.includePhrase;
    var cs := Candidates(m);
    var known := KeysOf(Rows(f), BLink);
    var r := Sieve(cs, known, FullLink, PhraseFilter(phrases));
    var n := NewRows(phrases, m, known);
    var f2 := SourceFile(f, src, m);
    SieveDistinct(cs, known, FullLink, PhraseFilter(phrases));
    SieveComplete(cs, known, FullLink, PhraseFilter(phrases));
    NewRowKeys(phrases, m, known);
    KeysOfConcat(Rows(f), n, BLink);
    assert Rows(f2) == Rows(f) + n;
    assert KeysOf(Rows(f2), BLink) == r.keys;
    SieveNothingNew(cs, r.keys, FullLink, PhraseFilter(phrases));
  }
}
