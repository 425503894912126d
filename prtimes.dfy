/**
 * makeRSS_PRTIMES.py: the append-policy keyword feeds. For each configured
 * feed the ledger's links are loaded, the fetched items are gated (title and
 * link, unseen link, description and date, a keyword in title or
 * description), new rows are appended, and the window is the last 300 rows
 * newest first.
 */
module PRTimes {
  import opened Common
  import opened Ledger
  import opened Dedup

  /** One ledger row, in the CSV's field order. */
  datatype PRow = PRow(title: string, link: string, description: string, pubDate: string)

  /** One <item> of the fetched feed: what each of the four patterns matched. */
  datatype RawItem = RawItem(title: Option<string>, link: Option<string>,
                             description: Option<string>, date: Option<string>)

  /** One entry of the feed list. */
  datatype Feed = Feed(url: string, includeWords: seq<string>, outputFile: string)

  function PLink(r: PRow): string {
    r.link
  }

  /** The dedup key of an item; only items with a link are ever keyed. */
  function RawLink(c: RawItem): string {
    if c.link.Some? then c.link.value else ""
  }

  /** some word of the list occurs in the title or in the description */
  predicate Mentions(words: seq<string>, title: string, description: string) {
    exists i :: 0 <= i < |words| && (IsSubstring(words[i], title) || IsSubstring(words[i], description))
  }

  lemma NoWordsNoMention(title: string, description: string)
    ensures !Mentions([], title, description)
  {
  }

  /** For any word list, the test is that some word occurs, at some offset,
      in the title or in the description. */
  lemma MentionsOccurs(words: seq<string>, title: string, description: string)
    ensures Mentions(words, title, description) <==>
      exists i :: 0 <= i < |words| && (OccursIn(words[i], title) || OccursIn(words[i], description))
  {
    forall i | 0 <= i < |words|
      ensures (IsSubstring(words[i], title) || IsSubstring(words[i], description))
          <==> (OccursIn(words[i], title) || OccursIn(words[i], description))
    {
      IsSubstringCorrect(words[i], title);
      IsSubstringCorrect(words[i], description);
    }
  }

  /** With one word, the test is substring occurrence in either text. */
  lemma MentionsOne(w: string, title: string, description: string)
    ensures Mentions([w], title, description) <==> OccursIn(w, title) || OccursIn(w, description)
  {
    MentionsOccurs([w], title, description);
    assert [w][0] == w;
  }

  predicate Complete(c: RawItem) {
    c.title.Some? && c.link.Some? && c.description.Some? && c.date.Some?
  }

  /** All gates other than the known-link test. */
  predicate Wanted(words: seq<string>, c: RawItem) {
    Complete(c) && Mentions(words, c.title.value, c.description.value)
  }

  function WantedBy(words: seq<string>): RawItem -> bool {
    c => Wanted(words, c)
  }

  function ToRow(c: RawItem): (r: PRow)
    requires Complete(c)
    ensures r.link == RawLink(c)
  {
    PRow(c.title.value, c.link.value, c.description.value, c.date.value)
  }

  function ToRows(cs: seq<RawItem>): (rs: seq<PRow>)
    requires forall i :: 0 <= i < |cs| ==> Complete(cs[i])
    ensures |rs| == |cs| && forall i :: 0 <= i < |cs| ==> rs[i] == ToRow(cs[i])
  {
    seq(|cs|, i requires 0 <= i < |cs| => ToRow(cs[i]))
  }

  lemma ToRowsSnoc(cs: seq<RawItem>, c: RawItem)
    requires forall i :: 0 <= i < |cs| ==> Complete(cs[i])
    requires Complete(c)
    ensures ToRows(cs + [c]) == ToRows(cs) + [ToRow(c)]
  {
  }

  /** The new rows of one feed against the known links. */
  function NewRows(words: seq<string>, items: seq<RawItem>, known: set<string>): seq<PRow> {
    SieveSound(items, known, RawLink, WantedBy(words));
    ToRows(Sieve(items, known, RawLink, WantedBy(words)).accepted)
  }

  /** The item loop's invariant after i items: the rows so far are those of
      the accepted items so far, and these followed by what the remaining
      items give against the links so far are what the whole loop accepts. */
  ghost predicate SelectInv(items: seq<RawItem>, words: seq<string>, known: set<string>, i: nat,
                            acc: seq<RawItem>, newItems: seq<PRow>, links: set<string>)
  {
    && i <= |items|
    && (forall k :: 0 <= k < |acc| ==> Complete(acc[k]))
    && newItems == ToRows(acc)
    && (var r := Sieve(items[i..], links, RawLink, WantedBy(words));
        Sieve(items, known, RawLink, WantedBy(words)) == Sifted(acc + r.accepted, r.keys))
  }

  /** One pass of the item loop, with its gates in the source's order. */
  method SelectItem(items: seq<RawItem>, words: seq<string>, known: set<string>, i: nat,
                    ghost acc: seq<RawItem>, newItems: seq<PRow>, links: set<string>)
    returns (ghost acc2: seq<RawItem>, newItems2: seq<PRow>, links2: set<string>)
    requires i < |items| && SelectInv(items, words, known, i, acc, newItems, links)
    ensures SelectInv(items, words, known, i + 1, acc2, newItems2, links2)
  {
    var it := items[i];
    assert items[i..][1..] == items[i + 1..];
    SieveStep(items, known, acc, items[i..], links, RawLink, WantedBy(words));
    assert WantedBy(words)(it) <==> Wanted(words, it);
    acc2, newItems2, links2 := acc, newItems, links;
    if it.title.Some? && it.link.Some? && it.link.value !in links {
      if it.description.Some? && it.date.Some? {
        if Mentions(words, it.title.value, it.description.value) {
          ToRowsSnoc(acc, it);
          acc2 := acc + [it];
          newItems2 := newItems + [PRow(it.title.value, it.link.value, it.description.value, it.date.value)];
          links2 := links + {it.link.value};
        }
      }
    }
  }

  /** The item loop of lines 61-92. */
  method SelectNew(items: seq<RawItem>, words: seq<string>, known: set<string>)
    returns (newItems: seq<PRow>, links: set<string>)
    ensures newItems == NewRows(words, items, known)
    ensures links == Sieve(items, known, RawLink, WantedBy(words)).keys
  {
    ghost var acc: seq<RawItem> := [];
    newItems, links := [], known;
    var i := 0;
    assert items[0..] == items;
    while i < |items|
      invariant 0 <= i <= |items|
      invariant SelectInv(items, words, known, i, acc, newItems, links)
    {
      acc, newItems, links := SelectItem(items, words, known, i, acc, newItems, links);
      i := i + 1;
    }
    assert items[i..] == [];
    assert acc + [] == acc;
  }

  /** The ledger after one feed: unchanged when nothing is new. */
  ghost function FeedFile(f: CsvFile<PRow>, feed: Feed, items: seq<RawItem>): CsvFile<PRow> {
    Appended(f, NewRows(feed.includeWords, items, KeysOf(Rows(f), PLink)))
  }

  /** The XML window of one feed: none when nothing is new, otherwise the
      last 300 rows of the updated ledger, newest first. */
  ghost function FeedXml(f: CsvFile<PRow>, feed: Feed, items: seq<RawItem>): Option<seq<PRow>> {
    var n := NewRows(feed.includeWords, items, KeysOf(Rows(f), PLink));
    if n == [] then None else Some(Reverse(LastN(Rows(Appended(f, n)), MaxXmlItems)))
  }

  /** fetch_and_update_feed (lines 44-129), the fetch replaced by its items. */
  method RunFeed(ledger: AppendLedger<PRow>, feed: Feed, items: seq<RawItem>) returns (xml: Option<seq<PRow>>)
    modifies ledger
    ensures ledger.file == FeedFile(old(ledger.file), feed, items)
    ensures xml == FeedXml(old(ledger.file), feed, items)
  {
    var existing := ledger.LoadKeys(PLink);
    var newItems, links := SelectNew(items, feed.includeWords, existing);
    if newItems == [] {
      return None;
    }
    ledger.Append(newItems);
    var w := ledger.ReadNewestFirst(MaxXmlItems);
    xml := Some(w);
  }

  /** main (lines 131-146): the feeds in list order, each on its own ledger. */
  method RunAll(feeds: seq<Feed>, ledgers: seq<AppendLedger<PRow>>, fetched: seq<seq<RawItem>>)
    returns (xmls: seq<Option<seq<PRow>>>)
    requires |ledgers| == |feeds| == |fetched|
    requires forall i, j :: 0 <= i < j < |ledgers| ==> ledgers[i] != ledgers[j]
    modifies set i | 0 <= i < |ledgers| :: ledgers[i]
    ensures |xmls| == |feeds|
    ensures forall i :: 0 <= i < |feeds| ==>
      ledgers[i].file == FeedFile(old(ledgers[i].file), feeds[i], fetched[i])
      && xmls[i] == FeedXml(old(ledgers[i].file), feeds[i], fetched[i])
  {
    ghost var f0 := seq(|ledgers|, k reads ledgers requires 0 <= k < |ledgers| => ledgers[k].file);
    xmls := [];
    var i := 0;
    while i < |feeds|
      invariant 0 <= i <= |feeds| && |xmls| == i
      invariant forall k :: 0 <= k < |feeds| ==> f0[k] == old(ledgers[k].file)
      invariant forall k :: 0 <= k < i ==> FeedDone(f0[k], feeds[k], fetched[k], ledgers[k].file, xmls[k])
      invariant forall k :: i <= k < |feeds| ==> ledgers[k].file == f0[k]
    {
      assert forall k :: 0 <= k < |feeds| && k != i ==> ledgers[k] != ledgers[i];
      var x := RunFeed(ledgers[i], feeds[i], fetched[i]);
      assert FeedDone(f0[i], feeds[i], fetched[i], ledgers[i].file, x);
      xmls := xmls + [x];
      i := i + 1;
    }
  }

  /** Feed k's ledger and XML are what one run makes of its old file. */
  ghost predicate FeedDone(f0: CsvFile<PRow>, feed: Feed, fetched: seq<RawItem>, f: CsvFile<PRow>, x: Option<seq<PRow>>) {
    f == FeedFile(f0, feed, fetched) && x == FeedXml(f0, feed, fetched)
  }

  // ---------------------------------------------------------------------------
  // Properties of one feed.

  /** New rows have distinct links, none of them known, and each is a
      complete item mentioning a word. */
  lemma NewRowsFresh(words: seq<string>, items: seq<RawItem>, known: set<string>)
    ensures var n := NewRows(words, items, known);
      && (forall i, j :: 0 <= i < j < |n| ==> n[i].link != n[j].link)
      && (forall i :: 0 <= i < |n| ==> n[i].link !in known && Mentions(words, n[i].title, n[i].description))
  {
    SieveDistinct(items, known, RawLink, WantedBy(words));
    SieveSound(items, known, RawLink, WantedBy(words));
  }

  /** An empty keyword list accepts nothing, so the feed is skipped. */
  lemma NoWordsSkips(f: CsvFile<PRow>, feed: Feed, items: seq<RawItem>)
    requires feed.includeWords == []
    ensures FeedFile(f, feed, items) == f && FeedXml(f, feed, items) == None
  {
    var known := KeysOf(Rows(f), PLink);
    SieveNothingNew(items, known, RawLink, WantedBy([]));
  }

  /** When the feed does write a window, it holds min(300, ledger size)
      rows and opens with the newest min(300, |new|) new rows, the
      last-appended first; when they all fit, the newest old rows follow. */
  lemma WindowNewestFirst(f: CsvFile<PRow>, feed: Feed, items: seq<RawItem>)
    ensures var n := NewRows(feed.includeWords, items, KeysOf(Rows(f), PLink));
      var m := Min(MaxXmlItems, |n|);
      n != [] ==> (FeedXml(f, feed, items).Some?
        && |FeedXml(f, feed, items).value| == Min(MaxXmlItems, |Rows(f)| + |n|)
        && FeedXml(f, feed, items).value[..m] == Reverse(n)[..m]
        && (|n| <= MaxXmlItems ==>
              FeedXml(f, feed, items).value[|n|..] == Reverse(LastN(Rows(f), MaxXmlItems - |n|))))
  {
    var n := NewRows(feed.includeWords, items, KeysOf(Rows(f), PLink));
    NewestFirst(Rows(f), n, MaxXmlItems);
  }

  /** The links of the new rows are the accepted items' links. */
  lemma NewRowKeys(words: seq<string>, items: seq<RawItem>, known: set<string>)
    ensures var r := Sieve(items, known, RawLink, WantedBy(words));
      KeysOf(NewRows(words, items, known), PLink) == set i | 0 <= i < |r.accepted| :: RawLink(r.accepted[i])
  {
    var r := Sieve(items, known, RawLink, WantedBy(words));
    var n := NewRows(words, items, known);
    var la := set i | 0 <= i < |r.accepted| :: RawLink(r.accepted[i]);
    forall k | k in KeysOf(n, PLink) ensures k in la {
      var i :| 0 <= i < |n| && PLink(n[i]) == k;
      assert RawLink(r.accepted[i]) == k;
    }
    forall k | k in la ensures k in KeysOf(n, PLink) {
      var i :| 0 <= i < |r.accepted| && RawLink(r.accepted[i]) == k;
      assert PLink(n[i]) == k;
    }
  }

  /** A ledger whose links are distinct keeps them distinct after the feed. */
  lemma FeedKeepsLinksDistinct(f: CsvFile<PRow>, feed: Feed, items: seq<RawItem>)
    requires KeysDistinct(Rows(f), PLink)
    ensures KeysDistinct(Rows(FeedFile(f, feed, items)), PLink)
  {
    var known := KeysOf(Rows(f), PLink);
    var n := NewRows(feed.includeWords, items, known);
    NewRowsFresh(feed.includeWords, items, known);
    assert KeysDistinct(n, PLink);
    AppendedKeysDistinct(f, n, PLink);
  }

  /** Running the feed again on the same items adds nothing. */
  lemma RerunSkips(f: CsvFile<PRow>, feed: Feed, items: seq<RawItem>)
    ensures var f2 := FeedFile(f, feed, items);
      FeedFile(f2, feed, items) == f2 && FeedXml(f2, feed, items) == None
  {
    var words := feed.includeWords;
    var known := KeysOf(Rows(f), PLink);
    var r := Sieve(items, known, RawLink, WantedBy(words));
    var n := NewRows(words, items, known);
    var f2 := FeedFile(f, feed, items);
    SieveDistinct(items, known, RawLink, WantedBy(words));
    SieveComplete(items, known, RawLink, WantedBy(words));
    NewRowKeys(words, items, known);
    KeysOfConcat(Rows(f), n, PLink);
    assert Rows(f2) == Rows(f) + n;
    assert KeysOf(Rows(f2), PLink) == r.keys;
    SieveNothingNew(items, r.keys, RawLink, WantedBy(words));
  }
}
