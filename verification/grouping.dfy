/**
 The regrouping step every fingerprint stage shares: results arrive one at
 a time and each is appended to the list kept under its checksum,
 `hashMap[c] = append(hashMap[c], f)` (filters.go, hash.go, scanner.go).
 `key` stands for "the checksum this element produced".
 */
module Grouping {
  import opened Common

  /** The elements of `vs` whose key is `k`, in their original order. */
  function Having<K(==,!new), V(!new)>(vs: seq<V>, key: V -> K, k: K): seq<V>
  {
    if |vs| == 0 then []
    else Having(vs[..|vs| - 1], key, k) + (if key(vs[|vs| - 1]) == k then [vs[|vs| - 1]] else [])
  }

  /** Another element of `vs` carries the same key as `v`: `v` is not an orphan. */
  predicate SharesKey<K(==,!new), V(!new)>(vs: seq<V>, key: V -> K, v: V) {
    |Having(vs, key, key(v))| >= 2
  }

  /** Filtering by key keeps exactly the copies of the matching elements. */
  lemma {:induction false} HavingCount<K(!new), V(!new)>(vs: seq<V>, key: V -> K, k: K, v: V)
    ensures multiset(Having(vs, key, k))[v] == if key(v) == k then multiset(vs)[v] else 0
    decreases |vs|
  {
    if |vs| > 0 {
      var init, last := vs[..|vs| - 1], vs[|vs| - 1];
      assert vs == init + [last];
      HavingCount(init, key, k, v);
    }
  }

  lemma HavingNonEmpty<K(!new), V(!new)>(vs: seq<V>, key: V -> K, k: K)
    ensures |Having(vs, key, k)| > 0 <==> exists i :: 0 <= i < |vs| && key(vs[i]) == k
  {
    if |Having(vs, key, k)| > 0 {
      var v := Having(vs, key, k)[0];
      assert v in multiset(Having(vs, key, k));
      HavingCount(vs, key, k, v);
      var i :| 0 <= i < |vs| && vs[i] == v;
    }
    if exists i :: 0 <= i < |vs| && key(vs[i]) == k {
      var i :| 0 <= i < |vs| && key(vs[i]) == k;
      HavingCount(vs, key, k, vs[i]);
    }
  }

  /** The selection by key depends only on which elements arrived, not on their order. */
  lemma HavingPermutation<K(!new), V(!new)>(vs: seq<V>, ws: seq<V>, key: V -> K, k: K)
    requires multiset(vs) == multiset(ws)
    ensures multiset(Having(vs, key, k)) == multiset(Having(ws, key, k))
    ensures |Having(vs, key, k)| == |Having(ws, key, k)|
  {
    forall v
      ensures multiset(Having(vs, key, k))[v] == multiset(Having(ws, key, k))[v]
    {
      HavingCount(vs, key, k, v);
      HavingCount(ws, key, k, v);
    }
    assert multiset(Having(vs, key, k)) == multiset(Having(ws, key, k));
    assert |multiset(Having(vs, key, k))| == |Having(vs, key, k)|;
  }

  /** Selecting by two keys that agree on every element selects the same elements. */
  lemma {:induction false} HavingAgree<K(!new), V(!new)>(vs: seq<V>, key1: V -> K, key2: V -> K, k: K)
    requires forall i :: 0 <= i < |vs| ==> key1(vs[i]) == key2(vs[i])
    ensures Having(vs, key1, k) == Having(vs, key2, k)
    decreases |vs|
  {
    if |vs| > 0 {
      HavingAgree(vs[..|vs| - 1], key1, key2, k);
    }
  }

  /** When every element has key `k`, selecting `k` keeps the whole sequence. */
  lemma {:induction false} HavingAll<K(!new), V(!new)>(vs: seq<V>, key: V -> K, k: K)
    requires forall i :: 0 <= i < |vs| ==> key(vs[i]) == k
    ensures Having(vs, key, k) == vs
    decreases |vs|
  {
    if |vs| > 0 {
      HavingAll(vs[..|vs| - 1], key, k);
    }
  }

  /** The selection keeps the order of `vs`. */
  lemma {:induction false} HavingIsSubsequence<K(!new), V(!new)>(vs: seq<V>, key: V -> K, k: K)
    ensures IsSubsequence(Having(vs, key, k), vs)
    decreases |vs|
  {
    if |vs| > 0 {
      var init, last := vs[..|vs| - 1], vs[|vs| - 1];
      var h := Having(init, key, k);
      HavingIsSubsequence(init, key, k);
      if key(last) == k {
        assert (h + [last])[..|h|] == h;
      } else if |h| > 0 {
        assert Having(vs, key, k) == h;
        assert h[|h| - 1] in multiset(h);
        HavingCount(init, key, k, h[|h| - 1]);
        assert h[|h| - 1] != last;
      }
    }
  }

  /** One append into a Go `map[K][]V`: `m[k] = append(m[k], v)`. */
  function Append<K, V>(m: map<K, seq<V>>, k: K, v: V): map<K, seq<V>> {
    m[k := (if k in m then m[k] else []) + [v]]
  }

  /** The map built by appending every element of `vs` under its key, in arrival order. */
  function Collect<K(==,!new), V(!new)>(vs: seq<V>, key: V -> K): (m: map<K, seq<V>>)
    ensures forall k :: k in m ==> m[k] == Having(vs, key, k)
    ensures forall k :: k in m <==> |Having(vs, key, k)| > 0
  {
    if |vs| == 0 then map[]
    else
      var init, last := vs[..|vs| - 1], vs[|vs| - 1];
      Append(Collect(init, key), key(last), last)
  }

  /** Every element of `vs` is filed under its own key. */
  lemma CollectCovers<K(!new), V(!new)>(vs: seq<V>, key: V -> K, i: nat)
    requires i < |vs|
    ensures key(vs[i]) in Collect(vs, key)
    ensures vs[i] in Collect(vs, key)[key(vs[i])]
  {
    HavingNonEmpty(vs, key, key(vs[i]));
    HavingCount(vs, key, key(vs[i]), vs[i]);
  }

  /** The distinct keys of `vs` in order of first appearance. */
  function FirstKeys<K(==,!new), V(!new)>(vs: seq<V>, key: V -> K): (ks: seq<K>)
    ensures forall i, j :: 0 <= i < j < |ks| ==> ks[i] != ks[j]
    ensures forall k :: k in ks <==> exists i :: 0 <= i < |vs| && key(vs[i]) == k
  {
    if |vs| == 0 then []
    else
      var init, k := FirstKeys(vs[..|vs| - 1], key), key(vs[|vs| - 1]);
      assert forall j :: 0 <= j < |vs| - 1 ==> vs[..|vs| - 1][j] == vs[j];
      if k in init then init else init + [k]
  }

  /** The lists of `m` under `ks` that hold more than one element, concatenated in `ks` order. */
  function KeepShared<K, V>(m: map<K, seq<V>>, ks: seq<K>): seq<V>
    requires forall k :: k in ks ==> k in m
  {
    if |ks| == 0 then []
    else
      var k := ks[|ks| - 1];
      KeepShared(m, ks[..|ks| - 1]) + (if |m[k]| > 1 then m[k] else [])
  }

  lemma InInitOrLast<T>(xs: seq<T>, x: T)
    requires |xs| > 0
    ensures x in xs <==> x in xs[..|xs| - 1] || x == xs[|xs| - 1]
  {
    assert xs == xs[..|xs| - 1] + [xs[|xs| - 1]];
  }

  lemma {:induction false} KeepSharedCount<K(!new), V(!new)>(vs: seq<V>, key: V -> K, m: map<K, seq<V>>, ks: seq<K>, v: V)
    requires forall i :: 0 <= i < |ks| ==> ks[i] in m && m[ks[i]] == Having(vs, key, ks[i])
    requires forall i, j :: 0 <= i < j < |ks| ==> ks[i] != ks[j]
    ensures multiset(KeepShared(m, ks))[v]
         == if key(v) in ks && SharesKey(vs, key, v) then multiset(vs)[v] else 0
    decreases |ks|
  {
    if |ks| > 0 {
      var init, k := ks[..|ks| - 1], ks[|ks| - 1];
      var extra := if |m[k]| > 1 then m[k] else [];
      var before := multiset(KeepShared(m, init))[v];
      assert multiset(KeepShared(m, ks))[v] == before + multiset(extra)[v] by {
        assert KeepShared(m, ks) == KeepShared(m, init) + extra;
      }
      assert before == if key(v) in init && SharesKey(vs, key, v) then multiset(vs)[v] else 0 by {
        KeepSharedCount(vs, key, m, init, v);
      }
      assert multiset(extra)[v] == if key(v) == k && SharesKey(vs, key, v) then multiset(vs)[v] else 0 by {
        HavingCount(vs, key, k, v);
      }
      InInitOrLast(ks, key(v));
      assert k !in init;
    }
  }

  /**
   The files kept by a regrouping: everything filed under a checksum that
   at least two results produced, groups in first-appearance order.
   */
  function Survivors<K(==,!new), V(!new)>(vs: seq<V>, key: V -> K): (r: seq<V>)
    ensures forall v :: multiset(r)[v] == if SharesKey(vs, key, v) then multiset(vs)[v] else 0
  {
    FirstKeysCollected(vs, key);
    var r := KeepShared(Collect(vs, key), FirstKeys(vs, key));
    SurvivorsCount(vs, key);
    r
  }

  /** Every first-appearance key has a list in the collected map. */
  lemma FirstKeysCollected<K(!new), V(!new)>(vs: seq<V>, key: V -> K)
    ensures forall k :: k in FirstKeys(vs, key) ==> k in Collect(vs, key)
  {
    forall k | k in FirstKeys(vs, key)
      ensures k in Collect(vs, key)
    {
      HavingNonEmpty(vs, key, k);
    }
  }

  lemma SurvivorsCount<K(!new), V(!new)>(vs: seq<V>, key: V -> K)
    requires forall k :: k in FirstKeys(vs, key) ==> k in Collect(vs, key)
    ensures var r := KeepShared(Collect(vs, key), FirstKeys(vs, key));
      forall v :: multiset(r)[v] == if SharesKey(vs, key, v) then multiset(vs)[v] else 0
  {
    var m, ks := Collect(vs, key), FirstKeys(vs, key);
    forall v
      ensures multiset(KeepShared(m, ks))[v] == if SharesKey(vs, key, v) then multiset(vs)[v] else 0
    {
      KeepSharedCount(vs, key, m, ks, v);
      if v in vs {
        var i :| 0 <= i < |vs| && vs[i] == v;
      }
    }
  }

  /** A file survives exactly when another arrival shares its checksum. */
  lemma SurvivorsMembership<K(!new), V(!new)>(vs: seq<V>, key: V -> K, v: V)
    ensures v in Survivors(vs, key) <==> v in vs && SharesKey(vs, key, v)
  {
    assert v in Survivors(vs, key) <==> multiset(Survivors(vs, key))[v] > 0;
  }

  /** The survivors are the same multiset whatever order the results arrived in. */
  lemma SurvivorsPermutation<K(!new), V(!new)>(vs: seq<V>, ws: seq<V>, key: V -> K)
    requires multiset(vs) == multiset(ws)
    ensures multiset(Survivors(vs, key)) == multiset(Survivors(ws, key))
  {
    forall v
      ensures multiset(Survivors(vs, key))[v] == multiset(Survivors(ws, key))[v]
    {
      HavingPermutation(vs, ws, key, key(v));
    }
  }

  lemma TwoCopies<T>(xs: seq<T>, x: T)
    requires |xs| >= 2 && xs[0] == x && xs[1] == x
    ensures multiset(xs)[x] >= 2
  {
    assert xs == [x, x] + xs[2..];
  }

  /** Every non-empty result of a regrouping has at least two elements. */
  lemma SurvivorsNotSingle<K(!new), V(!new)>(vs: seq<V>, key: V -> K)
    ensures |Survivors(vs, key)| != 1
  {
    var r := Survivors(vs, key);
    if |r| == 1 {
      var v := r[0];
      assert r == [v];
      assert multiset(vs)[v] == 1 && SharesKey(vs, key, v);
      var hs := Having(vs, key, key(v));
      HavingCount(vs, key, key(v), v);
      var j := if hs[0] != v then 0 else 1;
      assert hs[j] != v by {
        if hs[0] == v && hs[1] == v {
          TwoCopies(hs, v);
        }
      }
      var w := hs[j];
      assert w in multiset(hs);
      HavingCount(vs, key, key(v), w);
      assert false;
    }
  }
}
