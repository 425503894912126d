/**
 * makeRSS_HatenaBookmark.py: the rewrite-policy feed. The ledger is read
 * whole (or, on the first run, migrated from the previous XML output), up to
 * five listing pages are fetched, entries with unseen links are prepended,
 * the whole ledger is rewritten and the first 300 rows form the window.
 */
module Hatena {
  import opened Common
  import opened Ledger
  import opened Dedup

  /** One ledger row, with the fields the CSV header names. */
  datatype HRow = HRow(title: string, link: string, description: string, pubDate: string)

  function LinkOf(r: HRow): string {
    r.link
  }

  /** Every listing entry passes the gates; only its link is checked. */
  predicate Always(r: HRow) {
    true
  }

  const MaxPages: nat := 5
  const StartUrl: string := "https://b.hatena.ne.jp/entrylist/it/AI%E3%83%BB%E6%A9%9F%E6%A2%B0%E5%AD%A6%E7%BF%92"
  const Origin: string := "https://b.hatena.ne.jp"

  // ---------------------------------------------------------------------------
  // Migration from the previous XML output.

  /** A child element of an <item>: present, with its text (None when the
      element has no text). */
  datatype XmlElem = XmlElem(text: Option<string>)

  datatype XmlItem = XmlItem(title: Option<XmlElem>, link: Option<XmlElem>,
                             description: Option<XmlElem>, pubDate: Option<XmlElem>)

  /** The result of ET.parse on the XML file. */
  datatype XmlDoc = Malformed | Parsed(items: seq<XmlItem>)

  /** An item is migrated only when it has both a title and a link element. */
  predicate Migratable(x: XmlItem) {
    x.title.Some? && x.link.Some?
  }

  /** `elem.text or ''` */
  function TextOr(e: XmlElem): string {
    if e.text.Some? then e.text.value else ""
  }

  /** An absent element (or one without text) gives ''. */
  function ElemText(e: Option<XmlElem>): string {
    if e.Some? then TextOr(e.value) else ""
  }

  function MigrateItem(x: XmlItem): (r: HRow)
    requires Migratable(x)
    ensures x.title.value.text.Some? ==> r.title == x.title.value.text.value
    ensures x.title.value.text.None? ==> r.title == ""
    ensures x.link.value.text.Some? ==> r.link == x.link.value.text.value
    ensures x.link.value.text.None? ==> r.link == ""
    ensures x.description.Some? && x.description.value.text.Some? ==> r.description == x.description.value.text.value
    ensures x.description.None? || x.description.value.text.None? ==> r.description == ""
    ensures x.pubDate.Some? && x.pubDate.value.text.Some? ==> r.pubDate == x.pubDate.value.text.value
    ensures x.pubDate.None? || x.pubDate.value.text.None? ==> r.pubDate == ""
  {
    HRow(TextOr(x.title.value), TextOr(x.link.value), ElemText(x.description), ElemText(x.pubDate))
  }

  /** The rows migrated from the parsed items, in document order. */
  function Migrated(xs: seq<XmlItem>): seq<HRow> {
    if xs == [] then []
    else Migrated(xs[..|xs| - 1]) + (if Migratable(xs[|xs| - 1]) then [MigrateItem(xs[|xs| - 1])] else [])
  }

  /** A row is migrated exactly when some item with a title and a link gives it. */
  lemma {:induction false} MigratedMembers(xs: seq<XmlItem>, r: HRow)
    ensures r in Migrated(xs) <==> exists i :: 0 <= i < |xs| && Migratable(xs[i]) && MigrateItem(xs[i]) == r
  {
    if xs != [] {
      var p := xs[..|xs| - 1];
      MigratedMembers(p, r);
      GivenBySnoc(xs, r);
    }
  }

  /** Some item of xs with a title and a link gives r. */
  ghost predicate GivenBy(xs: seq<XmlItem>, r: HRow) {
    exists i :: 0 <= i < |xs| && Migratable(xs[i]) && MigrateItem(xs[i]) == r
  }

  /** An item gives r when it is among the first |xs| - 1 items or is the last one. */
  lemma GivenBySnoc(xs: seq<XmlItem>, r: HRow)
    requires xs != []
    ensures var p, x := xs[..|xs| - 1], xs[|xs| - 1];
      GivenBy(xs, r) <==> GivenBy(p, r) || (Migratable(x) && MigrateItem(x) == r)
  {
    var p, x := xs[..|xs| - 1], xs[|xs| - 1];
    if GivenBy(p, r) {
      var i :| 0 <= i < |p| && Migratable(p[i]) && MigrateItem(p[i]) == r;
      assert xs[i] == p[i];
    }
    if GivenBy(xs, r) {
      var i :| 0 <= i < |xs| && Migratable(xs[i]) && MigrateItem(xs[i]) == r;
      if i < |p| {
        assert p[i] == xs[i];
      }
    }
  }

  /** Migration keeps document order: it distributes over concatenation. */
  lemma {:induction false} MigratedAppend(a: seq<XmlItem>, b: seq<XmlItem>)
    ensures Migrated(a + b) == Migrated(a) + Migrated(b)
    decreases |b|
  {
    if b == [] {
      assert a + b == a;
    } else {
      var b' := b[..|b| - 1];
      assert (a + b)[..|a + b| - 1] == a + b';
      assert (a + b)[|a + b| - 1] == b[|b| - 1];
      MigratedAppend(a, b');
    }
  }

  /** The migrated rows for the given situation: nothing when the CSV exists,
      when there is no XML file, or when it does not parse. */
  function MigrationOf(csvExists: bool, xml: Option<XmlDoc>): seq<HRow> {
    if csvExists || xml.None? || xml.value.Malformed? then [] else Migrated(xml.value.items)
  }

  /** migrate_xml_to_csv (lines 22-53). */
  method Migrate(csvExists: bool, xml: Option<XmlDoc>) returns (items: seq<HRow>, links: set<string>)
    ensures items == MigrationOf(csvExists, xml)
    ensures links == KeysOf(items, LinkOf)
  {
    items, links := [], {};
    if csvExists || xml.None? {
      return;
    }
    match xml.value {
      case Malformed =>
        return;
      case Parsed(xs) =>
        var i := 0;
        while i < |xs|
          invariant 0 <= i <= |xs|
          invariant items == Migrated(xs[..i])
          invariant links == KeysOf(items, LinkOf)
        {
          assert xs[..i + 1][..i] == xs[..i];
          var x := xs[i];
          if x.title.Some? && x.link.Some? {
            var row := HRow(TextOr(x.title.value), TextOr(x.link.value), ElemText(x.description), ElemText(x.pubDate));
            KeysOfSnoc(items, row, LinkOf);
            items := items + [row];
            links := links + {row.link};
          } else {
            assert items + [] == items;
          }
          i := i + 1;
        }
        assert xs[..|xs|] == xs;
    }
  }

  // ---------------------------------------------------------------------------
  // The page loop.

  /** requests.get(url): the status and, for a 200 page, the entries the
      article pattern matched and the next-page path, if the pattern found one. */
  datatype Page = Page(status: int, entries: seq<HRow>, nextPath: Option<string>)

  function NextUrl(p: Page): Option<string> {
    if p.nextPath.Some? then Some(Origin + p.nextPath.value) else None
  }

  /** The entries of the pages the loop reads, at most `budget` requests
      from `url`, stopping on a non-200 status or a missing next link. */
  function PageEntries(url: Option<string>, budget: nat, fetch: string -> Page): seq<HRow>
    decreases budget
  {
    if url.None? || budget == 0 then []
    else
      var p := fetch(url.value);
      if p.status != 200 then [] else p.entries + PageEntries(NextUrl(p), budget - 1, fetch)
  }

  /** The number of requests the loop makes. */
  function Requests(url: Option<string>, budget: nat, fetch: string -> Page): (r: nat)
    ensures r <= budget
    ensures url.Some? && budget > 0 ==> r >= 1
    decreases budget
  {
    if url.None? || budget == 0 then 0
    else
      var p := fetch(url.value);
      if p.status != 200 then 1 else 1 + Requests(NextUrl(p), budget - 1, fetch)
  }

  /** A non-200 first page ends the loop after one request with no entries. */
  lemma FailedPageStops(url: string, budget: nat, fetch: string -> Page)
    requires budget > 0 && fetch(url).status != 200
    ensures PageEntries(Some(url), budget, fetch) == [] && Requests(Some(url), budget, fetch) == 1
  {
  }

  /** A page without a next link is the last one read. */
  lemma LastPageStops(url: string, budget: nat, fetch: string -> Page)
    requires budget > 0 && fetch(url).status == 200 && fetch(url).nextPath.None?
    ensures PageEntries(Some(url), budget, fetch) == fetch(url).entries
    ensures Requests(Some(url), budget, fetch) == 1
  {
    assert fetch(url).entries + [] == fetch(url).entries;
  }

  /** The while loop of lines 91-128, with the link dedup of lines 105-118. */
  method FetchNew(fetch: string -> Page, known: set<string>)
    returns (newItems: seq<HRow>, keys: set<string>, requests: nat)
    ensures Sifted(newItems, keys) == Sieve(PageEntries(Some(StartUrl), MaxPages, fetch), known, LinkOf, Always)
    ensures requests == Requests(Some(StartUrl), MaxPages, fetch) && requests <= MaxPages
  {
    var url: Option<string> := Some(StartUrl);
    var currentPage := 1;
    newItems, keys, requests := [], known, 0;
    while url.Some? && currentPage <= MaxPages
      invariant 1 <= currentPage <= MaxPages + 1
      invariant var r := Sieve(PageEntries(url, MaxPages + 1 - currentPage, fetch), keys, LinkOf, Always);
        Sieve(PageEntries(Some(StartUrl), MaxPages, fetch), known, LinkOf, Always) == Sifted(newItems + r.accepted, r.keys)
      invariant Requests(Some(StartUrl), MaxPages, fetch) == requests + Requests(url, MaxPages + 1 - currentPage, fetch)
      decreases MaxPages + 1 - currentPage
    {
      var p := fetch(url.value);
      requests := requests + 1;
      if p.status != 200 {
        break;
      }
      ghost var rest := PageEntries(NextUrl(p), MaxPages - currentPage, fetch);
      SieveAppend(p.entries, rest, keys, LinkOf, Always);
      var more, keys2 := FilterNew(p.entries, keys, LinkOf, Always);
      ConcatAssoc(newItems, more, Sieve(rest, keys2, LinkOf, Always).accepted);
      newItems, keys := newItems + more, keys2;
      url := NextUrl(p);
      currentPage := currentPage + 1;
    }
  }

  // ---------------------------------------------------------------------------
  // The run.

  /** The rows the run starts from: migrated from the XML when there is no
      CSV and there is an XML file, otherwise the CSV's rows. */
  function Prior(file: CsvFile<HRow>, xml: Option<XmlDoc>): seq<HRow> {
    if file.Absent? && xml.Some? then MigrationOf(false, xml) else Rows(file)
  }

  /** The new entries of a run. */
  ghost function NewEntries(file: CsvFile<HRow>, xml: Option<XmlDoc>, fetch: string -> Page): seq<HRow> {
    Sieve(PageEntries(Some(StartUrl), MaxPages, fetch), KeysOf(Prior(file, xml), LinkOf), LinkOf, Always).accepted
  }

  /** main() (lines 65-163): load or migrate, fetch, prepend, save, and cut
      the window of the first 300 rows. */
  method Run(ledger: RewriteLedger<HRow>, xml: Option<XmlDoc>, fetch: string -> Page) returns (window: seq<HRow>)
    modifies ledger
    ensures var all := NewEntries(old(ledger.file), xml, fetch) + Prior(old(ledger.file), xml);
      ledger.file == Saved(old(ledger.file), all) && window == FirstN(all, MaxXmlItems)
  {
    var allItems, existingLinks;
    if ledger.file.Absent? && xml.Some? {
      allItems, existingLinks := Migrate(false, xml);
    } else {
      allItems, existingLinks := ledger.Load(LinkOf);
    }
    var newItems, keys, requests := FetchNew(fetch, existingLinks);
    allItems := newItems + allItems;
    ledger.Save(allItems);
    window := FirstN(allItems, MaxXmlItems);
  }

  /** New entries have distinct links, none already in the ledger. */
  lemma NewEntriesFresh(file: CsvFile<HRow>, xml: Option<XmlDoc>, fetch: string -> Page)
    ensures var n := NewEntries(file, xml, fetch);
      && (forall i, j :: 0 <= i < j < |n| ==> n[i].link != n[j].link)
      && (forall i, k :: 0 <= i < |n| && 0 <= k < |Prior(file, xml)| ==> n[i].link != Prior(file, xml)[k].link)
  {
    var cands := PageEntries(Some(StartUrl), MaxPages, fetch);
    var known := KeysOf(Prior(file, xml), LinkOf);
    SieveDistinct(cands, known, LinkOf, Always);
    SieveSound(cands, known, LinkOf, Always);
    var n := NewEntries(file, xml, fetch);
    forall i, k | 0 <= i < |n| && 0 <= k < |Prior(file, xml)| ensures n[i].link != Prior(file, xml)[k].link {
      assert LinkOf(Prior(file, xml)[k]) in known;
    }
  }

  /** The saved ledger holds exactly the rows the run prepared, also when
      there are none and nothing is written. */
  lemma SavedRows(file: CsvFile<HRow>, xml: Option<XmlDoc>, fetch: string -> Page)
    ensures var all := NewEntries(file, xml, fetch) + Prior(file, xml);
      Rows(Saved(file, all)) == all
  {
    var all := NewEntries(file, xml, fetch) + Prior(file, xml);
    if all == [] && file.Absent? && xml.Some? {
      assert Rows(file) == [];
    }
  }

  /** The saved ledger opens with the new entries and then holds every old
      row in its old order; the window opens with the first
      min(300, |new|) new entries and, when they all fit, continues with
      the first old rows. */
  lemma RunKeepsOld(file: CsvFile<HRow>, xml: Option<XmlDoc>, fetch: string -> Page)
    ensures var n := NewEntries(file, xml, fetch);
      var p := Prior(file, xml);
      var rows := Rows(Saved(file, n + p));
      var m := Min(MaxXmlItems, |n|);
      && |rows| == |n| + |p| && rows[..|n|] == n && rows[|n|..] == p
      && FirstN(rows, MaxXmlItems)[..m] == n[..m]
      && (|n| <= MaxXmlItems ==> FirstN(rows, MaxXmlItems)[|n|..] == FirstN(p, MaxXmlItems - |n|))
  {
    var n := NewEntries(file, xml, fetch);
    var p := Prior(file, xml);
    SavedRows(file, xml, fetch);
    assert (n + p)[..|n|] == n;
    PrependKeepsOld(n, p, MaxXmlItems);
  }

  /** When the rows the run starts from have distinct links, so has the
      saved ledger. */
  lemma RunKeepsLinksDistinct(file: CsvFile<HRow>, xml: Option<XmlDoc>, fetch: string -> Page)
    requires KeysDistinct(Prior(file, xml), LinkOf)
    ensures KeysDistinct(Rows(Saved(file, NewEntries(file, xml, fetch) + Prior(file, xml))), LinkOf)
  {
    var n := NewEntries(file, xml, fetch);
    var p := Prior(file, xml);
    var cands := PageEntries(Some(StartUrl), MaxPages, fetch);
    var known := KeysOf(p, LinkOf);
    SieveKeysDistinct(cands, known, LinkOf, Always);
    SieveSound(cands, known, LinkOf, Always);
    SavedRows(file, xml, fetch);
    ConcatKeysDistinct(p, n, LinkOf);
  }

  /** A second run over the same pages adds nothing and rewrites the same rows. */
  lemma RerunAddsNothing(file: CsvFile<HRow>, xml: Option<XmlDoc>, fetch: string -> Page)
    ensures var all := NewEntries(file, xml, fetch) + Prior(file, xml);
      var file2 := Saved(file, all);
      NewEntries(file2, xml, fetch) == [] && Prior(file2, xml) == all
  {
    var all := NewEntries(file, xml, fetch) + Prior(file, xml);
    var cands := PageEntries(Some(StartUrl), MaxPages, fetch);
    var known := KeysOf(Prior(file, xml), LinkOf);
    var file2 := Saved(file, all);
    SieveDistinct(cands, known, LinkOf, Always);
    var r := Sieve(cands, known, LinkOf, Always);
    SieveComplete(cands, known, LinkOf, Always);
    KeysOfConcat(r.accepted, Prior(file, xml), LinkOf);
    if all == [] {
      assert Prior(file2, xml) == all by {
        if file.Absent? && xml.Some? {
          assert Prior(file, xml) == [];
        }
      }
    }
    assert Prior(file2, xml) == all;
    assert KeysOf(all, LinkOf) == r.keys;
    SieveNothingNew(cands, r.keys, LinkOf, Always);
  }
}
