/**
 * The dedup filter shared by every feed script: a candidate is accepted when
 * the source's gates admit it and its key is not yet known, and its key is
 * added to the known set at once, so a key repeated within one run is also
 * dropped.
 */
module Dedup {
  import opened Common

  /** The accepted candidates, in input order, and the key set afterwards. */
  datatype Sifted<C, K> = Sifted(accepted: seq<C>, keys: set<K>)

  /** Specification of the filter loop, candidate by candidate from the front. */
  function Sieve<C, K(==)>(cands: seq<C>, known: set<K>, keyOf: C -> K, admit: C -> bool): Sifted<C, K>
    decreases |cands|
  {
    if cands == [] then Sifted([], known)
    else
      var c := cands[0];
      if admit(c) && keyOf(c) !in known then
        var rest := Sieve(cands[1..], known + {keyOf(c)}, keyOf, admit);
        Sifted([c] + rest.accepted, rest.keys)
      else
        Sieve(cands[1..], known, keyOf, admit)
  }

  /** Every accepted candidate is an admitted input candidate whose key was
      not known before and is known afterwards; no more are accepted than offered. */
  lemma {:induction false} SieveSound<C, K>(cands: seq<C>, known: set<K>, keyOf: C -> K, admit: C -> bool)
    ensures var r := Sieve(cands, known, keyOf, admit);
      && |r.accepted| <= |cands|
      && known <= r.keys
      && forall i :: 0 <= i < |r.accepted| ==>
           && admit(r.accepted[i])
           && (exists j :: 0 <= j < |cands| && cands[j] == r.accepted[i])
           && keyOf(r.accepted[i]) !in known
           && keyOf(r.accepted[i]) in r.keys
    decreases |cands|
  {
    if cands != [] {
      var c := cands[0];
      if admit(c) && keyOf(c) !in known {
        var k2 := known + {keyOf(c)};
        SieveSound(cands[1..], k2, keyOf, admit);
        var rest := Sieve(cands[1..], k2, keyOf, admit);
        var acc := [c] + rest.accepted;
        forall i | 0 <= i < |acc|
          ensures exists j :: 0 <= j < |cands| && cands[j] == acc[i]
        {
          if i == 0 {
            assert cands[0] == acc[0];
          } else {
            assert acc[i] == rest.accepted[i - 1];
            var j :| 0 <= j < |cands[1..]| && cands[1..][j] == rest.accepted[i - 1];
            assert cands[j + 1] == acc[i];
          }
        }
      } else {
        SieveSound(cands[1..], known, keyOf, admit);
        var r := Sieve(cands[1..], known, keyOf, admit);
        forall i | 0 <= i < |r.accepted|
          ensures exists j :: 0 <= j < |cands| && cands[j] == r.accepted[i]
        {
          var j :| 0 <= j < |cands[1..]| && cands[1..][j] == r.accepted[i];
          assert cands[j + 1] == r.accepted[i];
        }
      }
    }
  }

  /** The keys of a list with one more candidate in front. */
  lemma KeySetCons<C, K>(c: C, s: seq<C>, keyOf: C -> K)
    ensures (set i | 0 <= i < |[c] + s| :: keyOf(([c] + s)[i]))
         == {keyOf(c)} + set i | 0 <= i < |s| :: keyOf(s[i])
  {
    var t := [c] + s;
    var ks := set i | 0 <= i < |t| :: keyOf(t[i]);
    var ks2 := set i | 0 <= i < |s| :: keyOf(s[i]);
    forall k | k in ks ensures k in {keyOf(c)} + ks2 {
      var i :| 0 <= i < |t| && keyOf(t[i]) == k;
      if i > 0 {
        assert t[i] == s[i - 1];
      }
    }
    forall k | k in ks2 ensures k in ks {
      var i :| 0 <= i < |s| && keyOf(s[i]) == k;
      assert t[i + 1] == s[i];
    }
    assert t[0] == c;
  }

  /** The final key set is exactly the initial set plus the accepted keys. */
  lemma {:induction false} SieveKeys<C, K>(cands: seq<C>, known: set<K>, keyOf: C -> K, admit: C -> bool)
    ensures var r := Sieve(cands, known, keyOf, admit);
      r.keys == known + set i | 0 <= i < |r.accepted| :: keyOf(r.accepted[i])
    decreases |cands|
  {
    if cands != [] {
      var c := cands[0];
      if admit(c) && keyOf(c) !in known {
        var k2 := known + {keyOf(c)};
        SieveKeys(cands[1..], k2, keyOf, admit);
        var rest := Sieve(cands[1..], k2, keyOf, admit);
        KeySetCons(c, rest.accepted, keyOf);
        assert Sieve(cands, known, keyOf, admit) == Sifted([c] + rest.accepted, rest.keys);
      } else {
        SieveKeys(cands[1..], known, keyOf, admit);
      }
    }
  }

  /** Accepted candidates have pairwise distinct keys. */
  lemma {:induction false} SieveKeysDistinct<C, K>(cands: seq<C>, known: set<K>, keyOf: C -> K, admit: C -> bool)
    ensures KeysDistinct(Sieve(cands, known, keyOf, admit).accepted, keyOf)
    decreases |cands|
  {
    if cands != [] {
      var c := cands[0];
      if admit(c) && keyOf(c) !in known {
        var k2 := known + {keyOf(c)};
        SieveKeysDistinct(cands[1..], k2, keyOf, admit);
        SieveSound(cands[1..], k2, keyOf, admit);
        var rest := Sieve(cands[1..], k2, keyOf, admit);
        var acc := [c] + rest.accepted;
        forall i, j | 0 <= i < j < |acc| ensures keyOf(acc[i]) != keyOf(acc[j]) {
          assert acc[j] == rest.accepted[j - 1];
          if i > 0 {
            assert acc[i] == rest.accepted[i - 1];
          }
        }
        assert KeysDistinct(acc, keyOf);
      } else {
        SieveKeysDistinct(cands[1..], known, keyOf, admit);
      }
    }
  }

  /** Accepted candidates have pairwise distinct keys, and the final key set is
      exactly the initial set plus the accepted keys. */
  lemma SieveDistinct<C, K>(cands: seq<C>, known: set<K>, keyOf: C -> K, admit: C -> bool)
    ensures var r := Sieve(cands, known, keyOf, admit);
      && (forall i, j :: 0 <= i < j < |r.accepted| ==> keyOf(r.accepted[i]) != keyOf(r.accepted[j]))
      && r.keys == known + set i | 0 <= i < |r.accepted| :: keyOf(r.accepted[i])
  {
    SieveKeysDistinct(cands, known, keyOf, admit);
    SieveKeys(cands, known, keyOf, admit);
  }

  /** No admitted candidate is lost: each one's key is known afterwards. */
  lemma {:induction false} SieveComplete<C, K>(cands: seq<C>, known: set<K>, keyOf: C -> K, admit: C -> bool)
    ensures forall j :: 0 <= j < |cands| && admit(cands[j]) ==>
      keyOf(cands[j]) in Sieve(cands, known, keyOf, admit).keys
    decreases |cands|
  {
    if cands != [] {
      var c := cands[0];
      var k2 := if admit(c) && keyOf(c) !in known then known + {keyOf(c)} else known;
      SieveComplete(cands[1..], k2, keyOf, admit);
      SieveSound(cands[1..], k2, keyOf, admit);
      forall j | 0 <= j < |cands| && admit(cands[j])
        ensures keyOf(cands[j]) in Sieve(cands, known, keyOf, admit).keys
      {
        if j > 0 {
          assert cands[j] == cands[1..][j - 1];
        }
      }
    }
  }

  /** When every admitted candidate's key is already known, nothing is accepted
      and the key set is unchanged. */
  lemma {:induction false} SieveNothingNew<C, K>(cands: seq<C>, known: set<K>, keyOf: C -> K, admit: C -> bool)
    requires forall j :: 0 <= j < |cands| && admit(cands[j]) ==> keyOf(cands[j]) in known
    ensures Sieve(cands, known, keyOf, admit) == Sifted([], known)
    decreases |cands|
  {
    if cands != [] {
      assert forall j :: 0 <= j < |cands[1..]| ==> cands[1..][j] == cands[j + 1];
      SieveNothingNew(cands[1..], known, keyOf, admit);
    }
  }

  /** A second run over the same candidates, with the keys the first run left,
      accepts nothing. */
  lemma SieveIdempotent<C, K>(cands: seq<C>, known: set<K>, keyOf: C -> K, admit: C -> bool)
    ensures var keys := Sieve(cands, known, keyOf, admit).keys;
      Sieve(cands, keys, keyOf, admit) == Sifted([], keys)
  {
    SieveComplete(cands, known, keyOf, admit);
    SieveNothingNew(cands, Sieve(cands, known, keyOf, admit).keys, keyOf, admit);
  }

  /** Filtering a concatenation equals filtering the first part and then the
      second part with the keys left by the first (pages or months in turn). */
  lemma {:induction false} SieveAppend<C, K>(a: seq<C>, b: seq<C>, known: set<K>, keyOf: C -> K, admit: C -> bool)
    ensures var r1 := Sieve(a, known, keyOf, admit);
      var r2 := Sieve(b, r1.keys, keyOf, admit);
      Sieve(a + b, known, keyOf, admit) == Sifted(r1.accepted + r2.accepted, r2.keys)
    decreases |a|
  {
    if a == [] {
      assert a + b == b;
    } else {
      assert (a + b)[1..] == a[1..] + b;
      var c := a[0];
      var k2 := if admit(c) && keyOf(c) !in known then known + {keyOf(c)} else known;
      SieveAppend(a[1..], b, k2, keyOf, admit);
    }
  }

  /** When every candidate is admitted, each candidate whose key was not
      known has its key among the accepted ones. */
  lemma SieveTakesUnseen<C, K>(cands: seq<C>, known: set<K>, keyOf: C -> K, admit: C -> bool)
    requires forall j :: 0 <= j < |cands| ==> admit(cands[j])
    ensures var r := Sieve(cands, known, keyOf, admit);
      forall j :: 0 <= j < |cands| && keyOf(cands[j]) !in known ==>
        exists i :: 0 <= i < |r.accepted| && keyOf(r.accepted[i]) == keyOf(cands[j])
  {
    var r := Sieve(cands, known, keyOf, admit);
    SieveDistinct(cands, known, keyOf, admit);
    SieveComplete(cands, known, keyOf, admit);
    forall j | 0 <= j < |cands| && keyOf(cands[j]) !in known
      ensures exists i :: 0 <= i < |r.accepted| && keyOf(r.accepted[i]) == keyOf(cands[j])
    {
      assert keyOf(cands[j]) in r.keys;
    }
  }

  /** Filtering a prefix accepts a prefix of what filtering the whole accepts. */
  lemma SievePrefix<C, K>(pre: seq<C>, all: seq<C>, known: set<K>, keyOf: C -> K, admit: C -> bool)
    requires pre <= all
    ensures Sieve(pre, known, keyOf, admit).accepted <= Sieve(all, known, keyOf, admit).accepted
  {
    var suf := all[|pre|..];
    assert all == pre + suf;
    SieveAppend(pre, suf, known, keyOf, admit);
  }

  /** One step of the filter loop: with the candidates still to come split
      into their first and the rest, the accepted rows and keys so far are
      extended by that first one exactly when it is admitted and unseen. */
  lemma SieveStep<C, K>(all: seq<C>, known: set<K>, acc: seq<C>, rest: seq<C>, keys: set<K>,
                        keyOf: C -> K, admit: C -> bool)
    requires rest != []
    requires var r := Sieve(rest, keys, keyOf, admit);
      Sieve(all, known, keyOf, admit) == Sifted(acc + r.accepted, r.keys)
    ensures var c := rest[0];
      var take := admit(c) && keyOf(c) !in keys;
      var acc2 := if take then acc + [c] else acc;
      var keys2 := if take then keys + {keyOf(c)} else keys;
      var r2 := Sieve(rest[1..], keys2, keyOf, admit);
      Sieve(all, known, keyOf, admit) == Sifted(acc2 + r2.accepted, r2.keys)
  {
    var c := rest[0];
    if admit(c) && keyOf(c) !in keys {
      ConcatAssoc(acc, [c], Sieve(rest[1..], keys + {keyOf(c)}, keyOf, admit).accepted);
    }
  }

  /** The filter loop: one pass, the key set updated on each acceptance. */
  method FilterNew<C, K(==)>(cands: seq<C>, known: set<K>, keyOf: C -> K, admit: C -> bool)
    returns (accepted: seq<C>, keys: set<K>)
    ensures Sifted(accepted, keys) == Sieve(cands, known, keyOf, admit)
  {
    accepted, keys := [], known;
    var i := 0;
    while i < |cands|
      invariant 0 <= i <= |cands|
      invariant Sieve(cands, known, keyOf, admit) ==
        Sifted(accepted + Sieve(cands[i..], keys, keyOf, admit).accepted,
               Sieve(cands[i..], keys, keyOf, admit).keys)
    {
      var c := cands[i];
      assert cands[i..][1..] == cands[i + 1..];
      SieveStep(cands, known, accepted, cands[i..], keys, keyOf, admit);
      if admit(c) && keyOf(c) !in keys {
        accepted := accepted + [c];
        keys := keys + {keyOf(c)};
      }
      i := i + 1;
    }
  }
}
