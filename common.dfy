/** Sequence and string helpers shared by every feed script. */
module Common {

  datatype Option<+T> = None | Some(value: T)

  /** MAX_XML_ITEMS: the largest number of items a feed document holds. */
  const MaxXmlItems: nat := 300

  function Min(a: nat, b: nat): (r: nat)
    ensures r <= a && r <= b && (r == a || r == b)
  {
    if a <= b then a else b
  }

  /** The sequence in the opposite order. */
  function Reverse<T>(s: seq<T>): (r: seq<T>)
    ensures |r| == |s|
  {
    if s == [] then [] else Reverse(s[1..]) + [s[0]]
  }

  lemma {:induction false} ReverseIndex<T>(s: seq<T>, k: nat)
    requires k < |s|
    ensures Reverse(s)[k] == s[|s| - 1 - k]
  {
    if k < |s| - 1 {
      ReverseIndex(s[1..], k);
    }
  }

  /** The last min(n, |s|) elements of s, in their order in s (a deque with maxlen n). */
  function LastN<T>(s: seq<T>, n: nat): (r: seq<T>)
    ensures |r| == Min(n, |s|)
  {
    s[|s| - Min(n, |s|)..]
  }

  /** The first min(n, |s|) elements of s (Python's s[:n]). */
  function FirstN<T>(s: seq<T>, n: nat): (r: seq<T>)
    ensures |r| == Min(n, |s|)
  {
    s[..Min(n, |s|)]
  }

  lemma ConcatAssoc<X>(a: seq<X>, b: seq<X>, c: seq<X>)
    ensures a + b + c == a + (b + c)
  {
  }

  // ---------------------------------------------------------------------------
  // Substring test: Python's `w in s` on strings.

  /** w occurs in s starting at offset i. */
  ghost predicate OccursAt(w: string, s: string, i: int) {
    0 <= i <= |s| - |w| && s[i..i + |w|] == w
  }

  /** Reference definition: w occurs in s at some offset. */
  ghost predicate OccursIn(w: string, s: string) {
    exists i :: OccursAt(w, s, i)
  }

  predicate IsPrefix(w: string, s: string) {
    |w| <= |s| && s[..|w|] == w
  }

  /** Executable substring test, scanning offsets from the left. */
  predicate IsSubstring(w: string, s: string)
    decreases |s|
  {
    IsPrefix(w, s) || (|s| > 0 && IsSubstring(w, s[1..]))
  }

  lemma {:induction false} IsSubstringCorrect(w: string, s: string)
    ensures IsSubstring(w, s) <==> OccursIn(w, s)
    decreases |s|
  {
    if IsPrefix(w, s) {
      assert OccursAt(w, s, 0);
    } else if |s| > 0 {
      IsSubstringCorrect(w, s[1..]);
      if OccursIn(w, s[1..]) {
        var i :| OccursAt(w, s[1..], i);
        assert s[1..][i..i + |w|] == s[i + 1..i + 1 + |w|];
        assert OccursAt(w, s, i + 1);
      }
      if OccursIn(w, s) {
        var i :| OccursAt(w, s, i);
        if i == 0 {
          assert false;
        }
        assert s[1..][i - 1..i - 1 + |w|] == s[i..i + |w|];
        assert OccursAt(w, s[1..], i - 1);
      }
    }
  }

  /** Python's any(word in s for word in words). */
  predicate AnyIn(words: seq<string>, s: string) {
    exists i :: 0 <= i < |words| && IsSubstring(words[i], s)
  }

  /** No two elements of s share a key. */
  ghost predicate KeysDistinct<C, K>(s: seq<C>, keyOf: C -> K) {
    forall i, j :: 0 <= i < j < |s| ==> keyOf(s[i]) != keyOf(s[j])
  }

  // ---------------------------------------------------------------------------
  // zip(a, b, c): truncates to the shortest list, keeps positions.

  function Zip3<A, B, C>(a: seq<A>, b: seq<B>, c: seq<C>): (r: seq<(A, B, C)>)
    ensures |r| == Min(|a|, Min(|b|, |c|))
    ensures forall i :: 0 <= i < |r| ==> r[i] == (a[i], b[i], c[i])
  {
    if a == [] || b == [] || c == [] then []
    else [(a[0], b[0], c[0])] + Zip3(a[1..], b[1..], c[1..])
  }
}
