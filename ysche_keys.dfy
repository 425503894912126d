/**
 * Y_Sche.py's record shape, its composite dedup key and its window order.
 * A schedule link is held in parsed form: host, path, and the query as its
 * (name, value) pairs in order.
 */
module YScheKeys {
  import opened Common

  datatype Url = Url(host: string, path: string, query: seq<(string, string)>)

  /** One CSV row: FIELDNAMES = pubDate, title, link, category, start_time. */
  datatype SchedRow = SchedRow(pubDate: string, title: string, link: Url, category: string, startTime: string)

  /** path.split("/")[-1]: the text after the last '/', or all of it. */
  function LastSegment(path: string): (r: string)
    ensures |r| <= |path| && r == path[|path| - |r|..]
    ensures forall i :: 0 <= i < |r| ==> r[i] != '/'
    ensures |r| < |path| ==> path[|path| - |r| - 1] == '/'
  {
    if path == [] || path[|path| - 1] == '/' then []
    else LastSegment(path[..|path| - 1]) + [path[|path| - 1]]
  }

  /** parse_qs(query).get(name, [''])[0]: the first value given for name. */
  function FirstValue(query: seq<(string, string)>, name: string): (r: string)
    ensures (forall i :: 0 <= i < |query| ==> query[i].0 != name) ==> r == ""
    ensures forall i | 0 <= i < |query| && query[i].0 == name && (forall j :: 0 <= j < i ==> query[j].0 != name) :: r == query[i].1
  {
    if query == [] then ""
    else if query[0].0 == name then query[0].1
    else FirstValue(query[1..], name)
  }

  /** The query parameters that take part in the key, in key order. */
  const Tracked: seq<string> := ["pri1", "wd00", "wd01", "wd02"]

  /** extract_url_part: last path segment and the first values of the tracked
      parameters, joined by '_'. */
  function ExtractUrlPart(u: Url): string {
    LastSegment(u.path) + "_" + FirstValue(u.query, "pri1") + "_" + FirstValue(u.query, "wd00")
      + "_" + FirstValue(u.query, "wd01") + "_" + FirstValue(u.query, "wd02")
  }

  /** The key depends on nothing but the last path segment and the first
      values of the tracked parameters: not on the host, not on the rest of
      the path, not on any other parameter. */
  lemma ExtractUrlPartDependsOnly(u: Url, v: Url)
    requires LastSegment(u.path) == LastSegment(v.path)
    requires forall k :: k in Tracked ==> FirstValue(u.query, k) == FirstValue(v.query, k)
    ensures ExtractUrlPart(u) == ExtractUrlPart(v)
  {
    assert "pri1" in Tracked && "wd00" in Tracked && "wd01" in Tracked && "wd02" in Tracked;
  }

  /** Inserting a parameter with another name anywhere leaves the first value
      of a name unchanged. */
  lemma {:induction false} FirstValueInsert(q: seq<(string, string)>, at: nat, p: (string, string), name: string)
    requires at <= |q| && p.0 != name
    ensures FirstValue(q[..at] + [p] + q[at..], name) == FirstValue(q, name)
  {
    var q' := q[..at] + [p] + q[at..];
    if at == 0 {
      assert q'[0] == p && q'[1..] == q;
      assert FirstValue(q', name) == FirstValue(q'[1..], name);
    } else {
      var r := q[1..];
      assert q'[0] == q[0];
      assert q'[1..] == r[..at - 1] + [p] + r[at - 1..];
      FirstValueInsert(r, at - 1, p, name);
      if q[0].0 != name {
        assert FirstValue(q', name) == FirstValue(q'[1..], name);
        assert FirstValue(q, name) == FirstValue(r, name);
      }
    }
  }

  /** A volatile parameter (outside the tracked ones) never changes the key. */
  lemma VolatileParamIgnored(u: Url, at: nat, p: (string, string))
    requires at <= |u.query| && p.0 !in Tracked
    ensures ExtractUrlPart(Url(u.host, u.path, u.query[..at] + [p] + u.query[at..])) == ExtractUrlPart(u)
  {
    var v := Url(u.host, u.path, u.query[..at] + [p] + u.query[at..]);
    forall k | k in Tracked ensures FirstValue(v.query, k) == FirstValue(u.query, k) {
      FirstValueInsert(u.query, at, p, k);
    }
    ExtractUrlPartDependsOnly(u, v);
  }

  /** With none of the tracked parameters, the key is the segment and four
      empty fields. */
  lemma ExtractUrlPartMissing(u: Url)
    requires forall i :: 0 <= i < |u.query| ==> u.query[i].0 !in Tracked
    ensures ExtractUrlPart(u) == LastSegment(u.path) + "____"
  {
    assert "pri1" in Tracked && "wd00" in Tracked && "wd01" in Tracked && "wd02" in Tracked;
  }

  /** The ledger key (row['pubDate'], extract_url_part(row['link'])). */
  function RowKey(r: SchedRow): (string, string) {
    (r.pubDate, ExtractUrlPart(r.link))
  }

  // ---------------------------------------------------------------------------
  // Ordering of the window: items.sort(key=pubDate, reverse=True).

  /** Python's str < : lexicographic by code point. */
  predicate StrLt(a: string, b: string) {
    if a == [] then b != []
    else if b == [] then false
    else if a[0] != b[0] then a[0] < b[0]
    else StrLt(a[1..], b[1..])
  }

  lemma {:induction false} StrLtTrans(a: string, b: string, c: string)
    requires StrLt(a, b) && StrLt(b, c)
    ensures StrLt(a, c)
  {
    if a != [] && b != [] && c != [] && a[0] == b[0] && b[0] == c[0] {
      StrLtTrans(a[1..], b[1..], c[1..]);
    }
  }

  lemma {:induction false} StrLtAsym(a: string, b: string)
    requires StrLt(a, b)
    ensures !StrLt(b, a)
  {
    if a != [] && b != [] && a[0] == b[0] {
      StrLtAsym(a[1..], b[1..]);
    }
  }

  lemma {:induction false} StrLtTotal(a: string, b: string)
    ensures StrLt(a, b) || a == b || StrLt(b, a)
  {
    if a != [] && b != [] && a[0] == b[0] {
      StrLtTotal(a[1..], b[1..]);
      if a[1..] == b[1..] {
        assert a == [a[0]] + a[1..] && b == [b[0]] + b[1..];
      }
    }
  }

  /** Non-increasing by pubDate. */
  ghost predicate SortedDesc(s: seq<SchedRow>) {
    forall i, j :: 0 <= i < j < |s| ==> !StrLt(s[i].pubDate, s[j].pubDate)
  }

  /** The rows of s whose pubDate is d, in their order in s. */
  function WithDate(s: seq<SchedRow>, d: string): seq<SchedRow> {
    if s == [] then []
    else (if s[0].pubDate == d then [s[0]] else []) + WithDate(s[1..], d)
  }

  /** Places x before the first row with a smaller pubDate, so after every
      row whose pubDate is not smaller. */
  function Insert(r: seq<SchedRow>, x: SchedRow): seq<SchedRow> {
    if r == [] then [x]
    else if StrLt(r[0].pubDate, x.pubDate) then [x] + r
    else [r[0]] + Insert(r[1..], x)
  }

  /** Stable sort by pubDate, descending (insertion order as reference). */
  function SortByDateDesc(s: seq<SchedRow>): seq<SchedRow> {
    if s == [] then [] else Insert(SortByDateDesc(s[..|s| - 1]), s[|s| - 1])
  }

  lemma {:induction false} StrLtIrreflexive(a: string)
    ensures !StrLt(a, a)
  {
    if a != [] {
      StrLtIrreflexive(a[1..]);
    }
  }

  lemma {:induction false} InsertMultiset(r: seq<SchedRow>, x: SchedRow)
    ensures multiset(Insert(r, x)) == multiset(r) + multiset{x}
  {
    if r != [] && !StrLt(r[0].pubDate, x.pubDate) {
      InsertMultiset(r[1..], x);
      assert r == [r[0]] + r[1..];
    }
  }

  lemma SortedDescTail(r: seq<SchedRow>)
    requires SortedDesc(r) && r != []
    ensures SortedDesc(r[1..])
  {
    var rest := r[1..];
    forall i, j | 0 <= i < j < |rest| ensures !StrLt(rest[i].pubDate, rest[j].pubDate) {
      assert rest[i] == r[i + 1] && rest[j] == r[j + 1];
    }
  }

  /** x above the head of a non-increasing r stays above every row of r. */
  lemma AboveAll(r: seq<SchedRow>, x: SchedRow, j: nat)
    requires SortedDesc(r) && j < |r| && StrLt(r[0].pubDate, x.pubDate)
    ensures StrLt(r[j].pubDate, x.pubDate)
  {
    if j > 0 {
      StrLtTotal(r[0].pubDate, r[j].pubDate);
      if r[0].pubDate != r[j].pubDate {
        StrLtTrans(r[j].pubDate, r[0].pubDate, x.pubDate);
      }
    }
  }

  /** A row not below any row of a non-increasing t can head it. */
  lemma ConsSorted(h: SchedRow, t: seq<SchedRow>)
    requires SortedDesc(t)
    requires forall j :: 0 <= j < |t| ==> !StrLt(h.pubDate, t[j].pubDate)
    ensures SortedDesc([h] + t)
  {
    var u := [h] + t;
    forall i, j | 0 <= i < j < |u| ensures !StrLt(u[i].pubDate, u[j].pubDate) {
      assert u[j] == t[j - 1];
      if i > 0 {
        assert u[i] == t[i - 1];
      }
    }
  }

  lemma {:induction false} InsertSorted(r: seq<SchedRow>, x: SchedRow)
    requires SortedDesc(r)
    ensures SortedDesc(Insert(r, x))
  {
    if r == [] {
    } else if StrLt(r[0].pubDate, x.pubDate) {
      forall j | 0 <= j < |r| ensures !StrLt(x.pubDate, r[j].pubDate) {
        AboveAll(r, x, j);
        StrLtAsym(r[j].pubDate, x.pubDate);
      }
      ConsSorted(x, r);
    } else {
      var rest := r[1..];
      SortedDescTail(r);
      InsertSorted(rest, x);
      InsertMultiset(rest, x);
      var ins := Insert(rest, x);
      forall j | 0 <= j < |ins| ensures !StrLt(r[0].pubDate, ins[j].pubDate) {
        var e := ins[j];
        assert e in multiset(ins);
        if e != x {
          assert e in multiset(rest);
          var k :| 0 <= k < |rest| && rest[k] == e;
          assert r[k + 1] == e;
        }
      }
      ConsSorted(r[0], ins);
    }
  }

  /** In a non-increasing r whose head is below top, no row has pubDate top. */
  lemma {:induction false} WithDateNone(r: seq<SchedRow>, top: string)
    requires SortedDesc(r) && r != [] && StrLt(r[0].pubDate, top)
    ensures WithDate(r, top) == []
  {
    WithDateNoneFrom(r, 0, top);
  }

  lemma {:induction false} WithDateNoneFrom(r: seq<SchedRow>, k: nat, top: string)
    requires SortedDesc(r) && k <= |r| && r != [] && StrLt(r[0].pubDate, top)
    ensures WithDate(r[k..], top) == []
    decreases |r| - k
  {
    if k < |r| {
      WithDateNoneFrom(r, k + 1, top);
      assert r[k..][1..] == r[k + 1..];
      if r[k].pubDate == top {
        AboveAll(r, SchedRow(top, "", Url("", "", []), "", ""), k);
        StrLtIrreflexive(top);
      }
    }
  }

  lemma {:induction false} InsertWithDate(r: seq<SchedRow>, x: SchedRow, d: string)
    requires SortedDesc(r)
    ensures WithDate(Insert(r, x), d) == WithDate(r, d) + WithDate([x], d)
  {
    if r == [] {
    } else if StrLt(r[0].pubDate, x.pubDate) {
      var t := [x] + r;
      assert t[1..] == r;
      if x.pubDate == d {
        WithDateNone(r, d);
      }
    } else {
      SortedDescTail(r);
      InsertWithDate(r[1..], x, d);
      assert ([r[0]] + Insert(r[1..], x))[1..] == Insert(r[1..], x);
    }
  }

  /** Python's sort(key=pubDate, reverse=True) promises, and the reference
      meets: the result is non-increasing by pubDate, is a permutation of the
      input, and rows with equal pubDate keep their input order (stability). */
  lemma {:induction false} SortByDateDescCorrect(s: seq<SchedRow>)
    ensures SortedDesc(SortByDateDesc(s))
    ensures multiset(SortByDateDesc(s)) == multiset(s)
    ensures forall d :: WithDate(SortByDateDesc(s), d) == WithDate(s, d)
  {
    if s != [] {
      var init := s[..|s| - 1];
      var x := s[|s| - 1];
      SortByDateDescCorrect(init);
      InsertSorted(SortByDateDesc(init), x);
      InsertMultiset(SortByDateDesc(init), x);
      assert s == init + [x];
      forall d ensures WithDate(SortByDateDesc(s), d) == WithDate(s, d) {
        InsertWithDate(SortByDateDesc(init), x, d);
        WithDateAppend(init, [x], d);
      }
    }
  }

  lemma {:induction false} WithDateAppend(a: seq<SchedRow>, b: seq<SchedRow>, d: string)
    ensures WithDate(a + b, d) == WithDate(a, d) + WithDate(b, d)
  {
    if a == [] {
      assert a + b == b;
    } else {
      assert (a + b)[1..] == a[1..] + b;
      WithDateAppend(a[1..], b, d);
    }
  }
}
