/** Deduplication by key, as the clean-up scripts do it: a `seen` set and an output list. */
module Dedup {
  import opened Seqs

  /** The first element of every key among the first `n`: the `seen`/`out` loop the scripts share. */
  function DedupeTo<T, K(==)>(s: seq<T>, key: T -> K, n: nat): seq<T>
    requires n <= |s|
  {
    if n == 0 then []
    else if key(s[n - 1]) in KeysTo(s, key, n - 1) then DedupeTo(s, key, n - 1)
    else DedupeTo(s, key, n - 1) + [s[n - 1]]
  }

  function KeysTo<T, K(==)>(s: seq<T>, key: T -> K, n: nat): set<K>
    requires n <= |s|
  {
    if n == 0 then {} else KeysTo(s, key, n - 1) + {key(s[n - 1])}
  }

  method Dedupe<T, K(==)>(s: seq<T>, key: T -> K) returns (out: seq<T>)
    ensures out == DedupeTo(s, key, |s|)
  {
    var seen: set<K> := {};
    out := [];
    for i := 0 to |s|
      invariant seen == KeysTo(s, key, i) && out == DedupeTo(s, key, i)
    {
      if key(s[i]) in seen { continue; }
      seen := seen + {key(s[i])};
      out := out + [s[i]];
    }
  }

  /** No earlier element has the key of element `i`. */
  ghost predicate FirstOfItsKey<T, K>(s: seq<T>, key: T -> K, i: nat)
    requires i < |s|
  {
    forall j :: 0 <= j < i ==> key(s[j]) != key(s[i])
  }

  ghost function FirstsTo<T, K>(s: seq<T>, key: T -> K, n: nat): seq<T>
    requires n <= |s|
  {
    if n == 0 then []
    else FirstsTo(s, key, n - 1) + (if FirstOfItsKey(s, key, n - 1) then [s[n - 1]] else [])
  }

  lemma {:induction false} KeysMeaning<T, K>(s: seq<T>, key: T -> K, n: nat)
    requires n <= |s|
    ensures forall j :: 0 <= j < n ==> key(s[j]) in KeysTo(s, key, n)
    ensures forall x :: x in KeysTo(s, key, n) ==> exists j :: 0 <= j < n && key(s[j]) == x
    ensures n < |s| ==> (key(s[n]) in KeysTo(s, key, n) <==> !FirstOfItsKey(s, key, n))
  {
    if n > 0 { KeysMeaning(s, key, n - 1); }
  }

  /** Deduplication keeps exactly the elements that are first of their key, in order. */
  lemma {:induction false} DedupeKeepsFirsts<T, K>(s: seq<T>, key: T -> K, n: nat)
    requires n <= |s|
    ensures DedupeTo(s, key, n) == FirstsTo(s, key, n)
  {
    if n > 0 {
      DedupeKeepsFirsts(s, key, n - 1);
      KeysMeaning(s, key, n - 1);
    }
  }

  lemma {:induction false} DedupeMembers<T, K>(s: seq<T>, key: T -> K, n: nat)
    requires n <= |s|
    ensures forall x :: x in DedupeTo(s, key, n) ==> x in s && key(x) in KeysTo(s, key, n)
  {
    if n > 0 { DedupeMembers(s, key, n - 1); }
  }

  /** What is kept of a beginning stays in front. */
  lemma {:induction false} DedupeGrows<T, K>(s: seq<T>, key: T -> K, m: nat, n: nat)
    requires m <= n <= |s|
    ensures DedupeTo(s, key, m) <= DedupeTo(s, key, n)
  {
    if m < n { DedupeGrows(s, key, m, n - 1); }
  }

  lemma {:induction false} DedupeFromFront<T, K>(s: seq<T>, key: T -> K, n: nat)
    requires n <= |s|
    ensures forall x :: x in DedupeTo(s, key, n) ==> x in s[..n]
  {
    if n > 0 {
      DedupeFromFront(s, key, n - 1);
      assert s[..n] == s[..n - 1] + [s[n - 1]];
    }
  }

  /** An element that is missing has a kept one of its key at or before its place. */
  lemma KeptBefore<T, K>(s: seq<T>, key: T -> K, i: nat) returns (y: T)
    requires i < |s|
    ensures y in s[..i + 1] && y in DedupeTo(s, key, |s|) && key(y) == key(s[i])
  {
    KeysMeaning(s, key, i + 1);
    DedupeCovers(s, key, i + 1, key(s[i]));
    y :| y in DedupeTo(s, key, i + 1) && key(y) == key(s[i]);
    DedupeFromFront(s, key, i + 1);
    DedupeGrows(s, key, i + 1, |s|);
  }

  /** Element `i` or an earlier one of its key is in `kept`. */
  ghost predicate KeptByThen<T, K>(s: seq<T>, key: T -> K, kept: seq<T>, i: nat)
    requires i < |s|
  {
    exists y :: y in s[..i + 1] && y in kept && key(y) == key(s[i])
  }

  ghost predicate EachKeptByThen<T, K>(s: seq<T>, key: T -> K, kept: seq<T>) {
    forall i :: 0 <= i < |s| ==> KeptByThen(s, key, kept, i)
  }

  lemma AllKeptByThen<T, K>(s: seq<T>, key: T -> K)
    ensures EachKeptByThen(s, key, DedupeTo(s, key, |s|))
  {
    forall i | 0 <= i < |s| ensures KeptByThen(s, key, DedupeTo(s, key, |s|), i) {
      var y := KeptBefore(s, key, i);
    }
  }

  /** The same for a list collected from others: the kept element comes from the same or an earlier one. */
  lemma CollectedKeptBefore<S, T, K>(s: seq<S>, f: S -> seq<T>, key: T -> K, i: nat) returns (h: nat, y: T)
    requires i < |s| && |f(s[i])| == 1
    ensures h <= i && y in f(s[h]) && key(y) == key(f(s[i])[0])
    ensures var all := Collect([], s, f); y in DedupeTo(all, key, |all|)
  {
    var all, front := Collect([], s, f), CollectFrom([], s, f, i + 1);
    assert front == CollectFrom([], s, f, i) + f(s[i]);
    CollectGrows([], s, f, i + 1, |s|);
    y := KeptBefore(all, key, |front| - 1);
    assert all[..|front|] == front;
    CollectMembers(s, f, i + 1);
    h :| 0 <= h < i + 1 && y in f(s[h]);
  }

  ghost predicate DistinctKeys<T, K>(s: seq<T>, key: T -> K) {
    forall i, j :: 0 <= i < j < |s| ==> key(s[i]) != key(s[j])
  }

  lemma {:induction false} DedupeIsDistinct<T, K>(s: seq<T>, key: T -> K, n: nat)
    requires n <= |s|
    ensures DistinctKeys(DedupeTo(s, key, n), key)
  {
    if n > 0 {
      DedupeIsDistinct(s, key, n - 1);
      DedupeMembers(s, key, n - 1);
      var d := DedupeTo(s, key, n - 1);
      forall i | 0 <= i < |d| ensures key(d[i]) in KeysTo(s, key, n - 1) { assert d[i] in d; }
      if key(s[n - 1]) !in KeysTo(s, key, n - 1) { assert DistinctKeys(d + [s[n - 1]], key); }
    }
  }

  /** Every key that occurs keeps an element. */
  lemma {:induction false} DedupeCovers<T, K>(s: seq<T>, key: T -> K, n: nat, x: K)
    requires n <= |s| && x in KeysTo(s, key, n)
    ensures exists y :: y in DedupeTo(s, key, n) && key(y) == x
  {
    if x in KeysTo(s, key, n - 1) {
      DedupeCovers(s, key, n - 1, x);
      var y :| y in DedupeTo(s, key, n - 1) && key(y) == x;
      assert y in DedupeTo(s, key, n);
    } else {
      assert s[n - 1] in DedupeTo(s, key, n);
    }
  }

  lemma {:induction false} DedupeOfDistinct<T, K>(s: seq<T>, key: T -> K, n: nat)
    requires n <= |s| && DistinctKeys(s, key)
    ensures DedupeTo(s, key, n) == s[..n]
  {
    if n > 0 {
      DedupeOfDistinct(s, key, n - 1);
      KeysMeaning(s, key, n - 1);
      assert FirstOfItsKey(s, key, n - 1);
    }
  }

  lemma {:induction false} DedupePrefix<T, K>(a: seq<T>, b: seq<T>, key: T -> K, n: nat)
    requires n <= |a|
    ensures DedupeTo(a + b, key, n) == DedupeTo(a, key, n) && KeysTo(a + b, key, n) == KeysTo(a, key, n)
  {
    if n > 0 { DedupePrefix(a, b, key, n - 1); }
  }

  lemma DedupeSnoc<T, K>(s: seq<T>, key: T -> K, x: T)
    ensures var d, k := DedupeTo(s, key, |s|), KeysTo(s, key, |s|);
      && DedupeTo(s + [x], key, |s| + 1) == (if key(x) in k then d else d + [x])
      && KeysTo(s + [x], key, |s| + 1) == if key(x) in k then k else k + {key(x)}
  {
    DedupePrefix(s, [x], key, |s|);
    assert key(x) in KeysTo(s, key, |s|) ==> KeysTo(s, key, |s|) + {key(x)} == KeysTo(s, key, |s|);
  }

  // ---------------------------------------------------------------- collected lists

  ghost predicate Rising(places: seq<nat>, n: nat) {
    && (forall x :: 0 <= x < |places| ==> places[x] < n)
    && (forall x, y :: 0 <= x < y < |places| ==> places[x] < places[y])
  }

  /** `out[x]` is what element `from[x]` turns into. */
  ghost predicate ComesFrom<S, T>(s: seq<S>, f: S -> seq<T>, out: seq<T>, places: seq<nat>) {
    |places| == |out| && Rising(places, |s|) && forall x :: 0 <= x < |out| ==> f(s[places[x]]) == [out[x]]
  }

  ghost predicate KeptEarlier<T, K>(out: seq<T>, key: T -> K, places: seq<nat>, i: nat, k: K)
    requires |places| == |out|
  {
    exists x :: 0 <= x < |out| && places[x] <= i && key(out[x]) == k
  }

  /** What the first `n` elements turn into, without repeated keys: in order, keys pairwise distinct, and
      for each of them one of its key from the same or an earlier place. */
  ghost predicate AreFirsts<S, T, K>(s: seq<S>, f: S -> seq<T>, key: T -> K, n: nat, out: seq<T>, places: seq<nat>)
    requires n <= |s|
  {
    && ComesFrom(s, f, out, places) && Rising(places, n) && DistinctKeys(out, key)
    && forall i :: 0 <= i < n && f(s[i]) != [] ==> KeptEarlier(out, key, places, i, key(f(s[i])[0]))
  }

  lemma FirstsNone<S, T, K>(s: seq<S>, f: S -> seq<T>, key: T -> K, n: nat, out: seq<T>, places: seq<nat>)
    requires n < |s| && AreFirsts(s, f, key, n, out, places)
    requires f(s[n]) != [] ==> exists x :: 0 <= x < |out| && key(out[x]) == key(f(s[n])[0])
    ensures AreFirsts(s, f, key, n + 1, out, places)
  {
  }

  lemma ComesFromOne<S, T>(s: seq<S>, f: S -> seq<T>, n: nat, out: seq<T>, places: seq<nat>)
    requires n < |s| && ComesFrom(s, f, out, places) && Rising(places, n) && |f(s[n])| == 1
    ensures ComesFrom(s, f, out + f(s[n]), places + [n]) && Rising(places + [n], n + 1)
  {
  }

  lemma FirstsOne<S, T, K>(s: seq<S>, f: S -> seq<T>, key: T -> K, n: nat, out: seq<T>, places: seq<nat>)
    requires n < |s| && AreFirsts(s, f, key, n, out, places) && |f(s[n])| == 1
    requires forall x :: 0 <= x < |out| ==> key(out[x]) != key(f(s[n])[0])
    ensures AreFirsts(s, f, key, n + 1, out + f(s[n]), places + [n])
  {
    var out', places' := out + f(s[n]), places + [n];
    ComesFromOne(s, f, n, out, places);
    forall i | 0 <= i < n + 1 && f(s[i]) != [] ensures KeptEarlier(out', key, places', i, key(f(s[i])[0])) {
      if i < n {
        var x :| 0 <= x < |out| && places[x] <= i && key(out[x]) == key(f(s[i])[0]);
        assert out'[x] == out[x] && places'[x] == places[x];
      } else {
        assert out'[|out|] == f(s[n])[0] && places'[|out|] == n;
      }
    }
  }

  ghost predicate HasKey<T, K>(s: seq<T>, key: T -> K, k: K) {
    exists x :: 0 <= x < |s| && key(s[x]) == k
  }

  lemma KeysOfKept<T, K>(s: seq<T>, key: T -> K, k: K)
    ensures k in KeysTo(s, key, |s|) <==> HasKey(DedupeTo(s, key, |s|), key, k)
  {
    var kept := DedupeTo(s, key, |s|);
    DedupeMembers(s, key, |s|);
    if k in KeysTo(s, key, |s|) {
      DedupeCovers(s, key, |s|, k);
      var y :| y in kept && key(y) == k;
      var x :| 0 <= x < |kept| && kept[x] == y;
    }
    if x :| 0 <= x < |kept| && key(kept[x]) == k { assert kept[x] in kept; }
  }

  lemma DedupeOneMore<T, K>(before: seq<T>, key: T -> K, more: seq<T>)
    requires |more| == 1
    ensures var kept, all := DedupeTo(before, key, |before|), before + more;
      DedupeTo(all, key, |all|) == if HasKey(kept, key, key(more[0])) then kept else kept + more
  {
    var x := more[0];
    assert more == [x];
    DedupePrefix(before, more, key, |before|);
    KeysOfKept(before, key, key(x));
  }

  lemma FirstsNext<S, T, K>(s: seq<S>, f: S -> seq<T>, key: T -> K, n: nat, m: nat, before: seq<T>, all: seq<T>,
                            places: seq<nat>)
    returns (places': seq<nat>)
    requires n < |s| && m == n + 1 && all == before + f(s[n])
    requires |f(s[n])| <= 1 && AreFirsts(s, f, key, n, DedupeTo(before, key, |before|), places)
    ensures AreFirsts(s, f, key, m, DedupeTo(all, key, |all|), places')
  {
    var kept, more := DedupeTo(before, key, |before|), f(s[n]);
    places' := places;
    if more == [] {
      assert all == before;
      FirstsNone(s, f, key, n, kept, places);
    } else {
      DedupeOneMore(before, key, more);
      if HasKey(kept, key, key(more[0])) {
        FirstsNone(s, f, key, n, kept, places);
      } else {
        FirstsOne(s, f, key, n, kept, places);
        places' := places + [n];
      }
    }
  }

  lemma NoFirsts<S, T, K>(s: seq<S>, f: S -> seq<T>, key: T -> K)
    ensures AreFirsts(s, f, key, 0, [], [])
  {
  }

  lemma {:induction false} CollectedFirsts<S, T, K>(s: seq<S>, f: S -> seq<T>, key: T -> K, n: nat)
    returns (places: seq<nat>)
    requires n <= |s| && forall i :: 0 <= i < |s| ==> |f(s[i])| <= 1
    ensures var all := CollectFrom([], s, f, n); AreFirsts(s, f, key, n, DedupeTo(all, key, |all|), places)
  {
    if n == 0 {
      NoFirsts(s, f, key);
      places := [];
    } else {
      var before, all := CollectFrom([], s, f, n - 1), CollectFrom([], s, f, n);
      places := CollectedFirsts(s, f, key, n - 1);
      places := FirstsNext(s, f, key, n - 1, n, before, all, places);
    }
  }

  function One<T>(): T -> seq<T> {
    x => [x]
  }

  lemma {:induction false} CollectOnes<T>(s: seq<T>, n: nat)
    requires n <= |s|
    ensures CollectFrom([], s, One(), n) == s[..n]
  {
    if n > 0 { CollectOnes(s, n - 1); }
  }

  /** Where the kept elements of a list stand. */
  lemma FirstsOf<T, K>(s: seq<T>, key: T -> K) returns (places: seq<nat>)
    ensures AreFirsts(s, One(), key, |s|, DedupeTo(s, key, |s|), places)
  {
    CollectOnes(s, |s|);
    assert s[..|s|] == s;
    places := CollectedFirsts(s, One(), key, |s|);
  }
}
