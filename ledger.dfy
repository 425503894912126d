/**
 * The per-source CSV ledger. A file is absent, or present with a header
 * flag and its data rows; an existing file of size zero is Present(false, []).
 * Two write policies occur: append_csv (Y_Sche, PRTIMES, NB) adds rows at the
 * tail, save_csv (HatenaBookmark, HB) rewrites the whole file.
 */
module Ledger {
  import opened Common

  datatype CsvFile<R> = Absent | Present(hasHeader: bool, rows: seq<R>)

  /** The rows a csv.DictReader yields; a missing file yields none. */
  function Rows<R>(f: CsvFile<R>): seq<R> {
    if f.Present? then f.rows else []
  }

  /** os.path.exists(f) and os.path.getsize(f) > 0 */
  predicate HasContent<R>(f: CsvFile<R>) {
    f.Present? && (f.hasHeader || f.rows != [])
  }

  /** The file after append_csv(f, items). */
  function Appended<R>(f: CsvFile<R>, items: seq<R>): (r: CsvFile<R>)
    ensures items == [] ==> r == f
    ensures items != [] ==> r.Present? && Rows(r) == Rows(f) + items
    ensures items != [] ==> (r.hasHeader <==> !HasContent(f) || f.hasHeader)
  {
    if items == [] then f
    else Present(if HasContent(f) then f.hasHeader else true, Rows(f) + items)
  }

  /** The file after save_csv(f, items): whole-file rewrite with a header. */
  function Saved<R>(f: CsvFile<R>, items: seq<R>): (r: CsvFile<R>)
    ensures items == [] ==> r == f
    ensures items != [] ==> r == Present(true, items)
  {
    if items == [] then f else Present(true, items)
  }

  /** A file whose data rows sit under a header line, or that has no rows:
      the only shape the scripts' own writes leave on disk. */
  predicate HeaderOk<R>(f: CsvFile<R>) {
    f.Present? && f.rows != [] ==> f.hasHeader
  }

  /** append_csv and save_csv keep a file well-shaped, and append_csv into a
      missing or empty file writes the header. */
  lemma WritesKeepHeader<R>(f: CsvFile<R>, items: seq<R>)
    ensures HeaderOk(f) ==> HeaderOk(Appended(f, items)) && HeaderOk(Saved(f, items))
    ensures !HasContent(f) && items != [] ==> Appended(f, items).hasHeader
  {
  }

  /** The set of keys of the given rows. */
  ghost function KeysOf<R, K>(rows: seq<R>, key: R -> K): set<K> {
    set i | 0 <= i < |rows| :: key(rows[i])
  }

  lemma KeysOfSnoc<R, K>(rows: seq<R>, x: R, key: R -> K)
    ensures KeysOf(rows + [x], key) == KeysOf(rows, key) + {key(x)}
  {
    var s := rows + [x];
    forall k | k in KeysOf(s, key) ensures k in KeysOf(rows, key) + {key(x)} {
      var i :| 0 <= i < |s| && key(s[i]) == k;
      if i < |rows| {
        assert key(rows[i]) == k;
      }
    }
    forall k | k in KeysOf(rows, key) ensures k in KeysOf(s, key) {
      var i :| 0 <= i < |rows| && key(rows[i]) == k;
      assert s[i] == rows[i];
    }
    assert s[|rows|] == x;
  }

  lemma KeysOfTake<R, K>(rows: seq<R>, i: nat, key: R -> K)
    requires i < |rows|
    ensures KeysOf(rows[..i + 1], key) == KeysOf(rows[..i], key) + {key(rows[i])}
  {
    assert rows[..i + 1] == rows[..i] + [rows[i]];
    KeysOfSnoc(rows[..i], rows[i], key);
  }

  lemma KeysOfConcat<R, K>(a: seq<R>, b: seq<R>, key: R -> K)
    ensures KeysOf(a + b, key) == KeysOf(a, key) + KeysOf(b, key)
  {
    var s := a + b;
    forall k | k in KeysOf(s, key) ensures k in KeysOf(a, key) + KeysOf(b, key) {
      var i :| 0 <= i < |s| && key(s[i]) == k;
      if i < |a| {
        assert s[i] == a[i];
      } else {
        assert s[i] == b[i - |a|];
      }
    }
    forall k | k in KeysOf(a, key) + KeysOf(b, key) ensures k in KeysOf(s, key) {
      if k in KeysOf(a, key) {
        var i :| 0 <= i < |a| && key(a[i]) == k;
        assert s[i] == a[i];
      } else {
        var i :| 0 <= i < |b| && key(b[i]) == k;
        assert s[|a| + i] == b[i];
      }
    }
  }

  /** Rows made one for one from candidates, keeping each candidate's key,
      have the candidates' key set, and distinct keys exactly when the
      candidates have. */
  lemma KeysOfMapped<C, R, K>(cs: seq<C>, rs: seq<R>, ckey: C -> K, key: R -> K)
    requires |rs| == |cs| && forall i :: 0 <= i < |cs| ==> key(rs[i]) == ckey(cs[i])
    ensures KeysOf(rs, key) == set i | 0 <= i < |cs| :: ckey(cs[i])
    ensures KeysDistinct(rs, key) <==> KeysDistinct(cs, ckey)
  {
    var ks := set i | 0 <= i < |cs| :: ckey(cs[i]);
    forall k | k in KeysOf(rs, key) ensures k in ks {
      var i :| 0 <= i < |rs| && key(rs[i]) == k;
      assert ckey(cs[i]) == k;
    }
    forall k | k in ks ensures k in KeysOf(rs, key) {
      var i :| 0 <= i < |cs| && ckey(cs[i]) == k;
      assert key(rs[i]) == k;
    }
  }

  /** Two key-distinct row lists with no key in common stay key-distinct
      when joined, in either order. */
  lemma ConcatKeysDistinct<R, K>(a: seq<R>, b: seq<R>, key: R -> K)
    requires KeysDistinct(a, key) && KeysDistinct(b, key)
    requires forall j :: 0 <= j < |b| ==> key(b[j]) !in KeysOf(a, key)
    ensures KeysDistinct(a + b, key) && KeysDistinct(b + a, key)
  {
    forall i | 0 <= i < |a| ensures key(a[i]) in KeysOf(a, key) {
    }
    var ab, ba := a + b, b + a;
    forall i, j | 0 <= i < j < |ab| ensures key(ab[i]) != key(ab[j]) {
      if j < |a| {
        assert ab[i] == a[i] && ab[j] == a[j];
      } else if i >= |a| {
        assert ab[i] == b[i - |a|] && ab[j] == b[j - |a|];
      } else {
        assert ab[i] == a[i] && ab[j] == b[j - |a|];
      }
    }
    forall i, j | 0 <= i < j < |ba| ensures key(ba[i]) != key(ba[j]) {
      if j < |b| {
        assert ba[i] == b[i] && ba[j] == b[j];
      } else if i >= |b| {
        assert ba[i] == a[i - |b|] && ba[j] == a[j - |b|];
      } else {
        assert ba[i] == b[i] && ba[j] == a[j - |b|];
      }
    }
  }

  /** append_csv of rows with distinct keys none of which the file holds
      keeps the file's keys distinct. */
  lemma AppendedKeysDistinct<R, K>(f: CsvFile<R>, items: seq<R>, key: R -> K)
    requires KeysDistinct(Rows(f), key) && KeysDistinct(items, key)
    requires forall j :: 0 <= j < |items| ==> key(items[j]) !in KeysOf(Rows(f), key)
    ensures KeysDistinct(Rows(Appended(f, items)), key)
  {
    ConcatKeysDistinct(Rows(f), items, key);
    if items == [] {
      assert Rows(f) + items == Rows(f);
    }
  }

  /** deque.append(x) on a deque with maxlen n: x goes to the right, and a
      full deque drops its leftmost element. */
  function Push<T>(d: seq<T>, x: T, n: nat): (r: seq<T>)
    ensures |d| <= n ==> |r| == Min(n, |d| + 1)
    ensures n > 0 ==> |r| > 0 && r[|r| - 1] == x
  {
    var e := d + [x];
    if |e| > n then e[1..] else e
  }

  /** One step of filling a deque with maxlen n. */
  lemma {:induction false} LastNSnoc<T>(s: seq<T>, x: T, n: nat)
    ensures LastN(s + [x], n) == Push(LastN(s, n), x, n)
  {
    var t := s + [x];
    var d := LastN(s, n) + [x];
    if |d| > n {
      assert |s| >= n;
      assert d[1..] == t[|t| - n..];
    } else {
      assert |s| < n || n == 0 || |s| + 1 <= n;
      assert d == t[|t| - Min(n, |t|)..];
    }
  }

  /** The deque after one more row of the file. */
  lemma LastNTake<T>(rows: seq<T>, i: nat, n: nat)
    requires i < |rows|
    ensures LastN(rows[..i + 1], n) == Push(LastN(rows[..i], n), rows[i], n)
  {
    assert rows[..i + 1] == rows[..i] + [rows[i]];
    LastNSnoc(rows[..i], rows[i], n);
  }

  /** Counting from the end, the tail holds the same rows as the whole list. */
  lemma {:induction false} LastNFromEnd<T>(s: seq<T>, n: nat, j: nat)
    requires j < Min(n, |s|)
    ensures Reverse(LastN(s, n))[j] == s[|s| - 1 - j]
  {
    ReverseIndex(LastN(s, n), j);
  }

  /** The newest min(n, |items|) new rows open the window, the last one first. */
  lemma {:induction false} NewestFirstHead<R>(rows: seq<R>, items: seq<R>, n: nat)
    ensures var m := Min(n, |items|);
      Reverse(LastN(rows + items, n))[..m] == Reverse(items)[..m]
  {
    var all := rows + items;
    var w := Reverse(LastN(all, n));
    var m := Min(n, |items|);
    forall k | 0 <= k < m ensures w[k] == Reverse(items)[k] {
      LastNFromEnd(all, n, k);
      ReverseIndex(items, k);
    }
  }

  /** When all new rows fit, the newest old rows follow them, newest first. */
  lemma {:induction false} NewestFirstTail<R>(rows: seq<R>, items: seq<R>, n: nat)
    requires |items| <= n
    ensures Reverse(LastN(rows + items, n))[|items|..] == Reverse(LastN(rows, n - |items|))
  {
    var all := rows + items;
    var i := |items|;
    var w := Reverse(LastN(all, n));
    var v := Reverse(LastN(rows, n - i));
    var u := w[i..];
    assert |u| == |v|;
    forall k | 0 <= k < |v| ensures u[k] == v[k] {
      var j := |rows| - 1 - k;
      assert 0 <= j < |rows| && |all| - 1 - (i + k) == j;
      LastNFromEnd(all, n, i + k);
      LastNFromEnd(rows, n - i, k);
      assert u[k] == w[i + k] == all[j] == rows[j];
    }
  }

  /** The newest-first window of the append policy: the newest min(n, |items|)
      new rows open it, the last one first; when all of them fit, the
      newest old rows follow, also newest first. */
  lemma {:induction false} NewestFirst<R>(rows: seq<R>, items: seq<R>, n: nat)
    ensures |Reverse(LastN(rows + items, n))| == Min(n, |rows| + |items|)
    ensures var m := Min(n, |items|);
      Reverse(LastN(rows + items, n))[..m] == Reverse(items)[..m]
    ensures |items| <= n ==>
      Reverse(LastN(rows + items, n))[|items|..] == Reverse(LastN(rows, n - |items|))
  {
    NewestFirstHead(rows, items, n);
    if |items| <= n {
      NewestFirstTail(rows, items, n);
    }
  }

  /** The head window of the prepend policy: the first min(n, |newItems|)
      new rows open it in their order; when all of them fit, the first old
      rows follow in their old order. */
  lemma {:induction false} PrependKeepsOld<R>(newItems: seq<R>, prior: seq<R>, n: nat)
    ensures |FirstN(newItems + prior, n)| == Min(n, |newItems| + |prior|)
    ensures var m := Min(n, |newItems|);
      FirstN(newItems + prior, n)[..m] == newItems[..m]
    ensures |newItems| <= n ==>
      FirstN(newItems + prior, n)[|newItems|..] == FirstN(prior, n - |newItems|)
  {
    var all := newItems + prior;
    var w := FirstN(all, n);
    var m := Min(n, |newItems|);
    assert w[..m] == all[..m];
    assert all[..m] == newItems[..m];
    if |newItems| <= n {
      assert w[|newItems|..] == all[|newItems|..Min(n, |all|)];
      assert all[|newItems|..Min(n, |all|)] == prior[..Min(n - |newItems|, |prior|)];
    }
  }

  /** A ledger written by append_csv (the file's only state is `file`). */
  class AppendLedger<R> {
    var file: CsvFile<R>

    constructor (f: CsvFile<R>)
      ensures file == f
    {
      file := f;
    }

    /** The file has a header above any rows. */
    predicate Valid()
      reads this
    {
      HeaderOk(file)
    }

    /** load_existing_keys / load_existing_links: the keys of every row. */
    method LoadKeys<K>(key: R -> K) returns (keys: set<K>)
      ensures keys == KeysOf(Rows(file), key)
    {
      var rows := Rows(file);
      keys := {};
      var i := 0;
      while i < |rows|
        invariant 0 <= i <= |rows|
        invariant keys == KeysOf(rows[..i], key)
      {
        KeysOfTake(rows, i, key);
        keys := keys + {key(rows[i])};
        i := i + 1;
      }
      assert rows[..|rows|] == rows;
    }

    /** append_csv: no-op on an empty list, otherwise rows go to the tail and
        a header is written only into an absent or empty file. */
    method Append(items: seq<R>)
      modifies this
      ensures file == Appended(old(file), items)
      ensures old(Valid()) ==> Valid()
    {
      if items == [] {
        return;
      }
      var exists_ := HasContent(file);
      var header := if exists_ then file.hasHeader else true;
      file := Present(header, Rows(file) + items);
    }

    /** deque(reader, maxlen=n): the last n rows, in file order. */
    method ReadTail(n: nat) returns (last: seq<R>)
      ensures last == LastN(Rows(file), n)
    {
      var rows := Rows(file);
      last := [];
      var i := 0;
      while i < |rows|
        invariant 0 <= i <= |rows|
        invariant last == LastN(rows[..i], n)
      {
        LastNTake(rows, i, n);
        last := Push(last, rows[i], n);
        i := i + 1;
      }
      assert rows[..|rows|] == rows;
    }

    /** read_last_n_lines of PRTIMES and NB: the last n rows, newest first;
        a missing file gives []. */
    method ReadNewestFirst(n: nat) returns (w: seq<R>)
      ensures w == Reverse(LastN(Rows(file), n))
      ensures file.Absent? ==> w == []
      ensures |w| == Min(n, |Rows(file)|)
    {
      if file.Absent? {
        return [];
      }
      var last := ReadTail(n);
      w := Reverse(last);
    }
  }

  /** A ledger written by save_csv, read whole by load_existing_csv. */
  class RewriteLedger<R> {
    var file: CsvFile<R>

    constructor (f: CsvFile<R>)
      ensures file == f
    {
      file := f;
    }

    /** The file has a header above any rows. */
    predicate Valid()
      reads this
    {
      HeaderOk(file)
    }

    /** load_existing_csv: every row in file order and the set of their keys;
        a missing file gives ([], {}). */
    method Load<K>(key: R -> K) returns (items: seq<R>, keys: set<K>)
      ensures items == Rows(file)
      ensures keys == KeysOf(items, key)
    {
      var rows := Rows(file);
      items, keys := [], {};
      var i := 0;
      while i < |rows|
        invariant 0 <= i <= |rows|
        invariant items == rows[..i]
        invariant keys == KeysOf(rows[..i], key)
      {
        KeysOfTake(rows, i, key);
        assert rows[..i + 1] == rows[..i] + [rows[i]];
        items := items + [rows[i]];
        keys := keys + {key(rows[i])};
        i := i + 1;
      }
      assert rows[..|rows|] == rows;
    }

    /** save_csv: no-op on an empty list, otherwise the whole file is rewritten. */
    method Save(items: seq<R>)
      modifies this
      ensures file == Saved(old(file), items)
      ensures old(Valid()) ==> Valid()
    {
      if items == [] {
        return;
      }
      file := Present(true, items);
    }
  }
}
