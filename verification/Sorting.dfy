/** Python's stable `sort` with a key of two numbers. */
module Sorting {

  type Rank = (int, int)

  predicate RankLess(a: Rank, b: Rank) {
    a.0 < b.0 || (a.0 == b.0 && a.1 < b.1)
  }

  /** `x` goes behind every element that does not rank after it. */
  function Insert<T>(s: seq<T>, rank: T -> Rank, x: T): seq<T> {
    if s == [] || !RankLess(rank(x), rank(s[|s| - 1])) then s + [x]
    else Insert(s[..|s| - 1], rank, x) + [s[|s| - 1]]
  }

  function SortTo<T>(s: seq<T>, rank: T -> Rank, n: nat): seq<T>
    requires n <= |s|
  {
    if n == 0 then [] else Insert(SortTo(s, rank, n - 1), rank, s[n - 1])
  }

  function Sort<T>(s: seq<T>, rank: T -> Rank): seq<T> {
    SortTo(s, rank, |s|)
  }

  ghost predicate Ordered<T>(s: seq<T>, rank: T -> Rank) {
    forall i, j :: 0 <= i < j < |s| ==> !RankLess(rank(s[j]), rank(s[i]))
  }

  lemma {:induction false} InsertPermutes<T>(s: seq<T>, rank: T -> Rank, x: T)
    ensures multiset(Insert(s, rank, x)) == multiset(s) + multiset{x}
  {
    if s != [] && RankLess(rank(x), rank(s[|s| - 1])) {
      InsertPermutes(s[..|s| - 1], rank, x);
      assert s == s[..|s| - 1] + [s[|s| - 1]];
      assert multiset(s) == multiset(s[..|s| - 1]) + multiset{s[|s| - 1]};
    }
  }

  lemma {:induction false} InsertElement<T>(s: seq<T>, rank: T -> Rank, x: T, y: T)
    ensures y in Insert(s, rank, x) <==> y == x || y in s
  {
    if s != [] && RankLess(rank(x), rank(s[|s| - 1])) {
      InsertElement(s[..|s| - 1], rank, x, y);
      assert s == s[..|s| - 1] + [s[|s| - 1]];
    }
  }

  lemma {:induction false} InsertOrdered<T>(s: seq<T>, rank: T -> Rank, x: T)
    requires Ordered(s, rank)
    ensures Ordered(Insert(s, rank, x), rank)
  {
    if s != [] && RankLess(rank(x), rank(s[|s| - 1])) {
      var front, last := s[..|s| - 1], s[|s| - 1];
      InsertOrdered(front, rank, x);
      var r := Insert(front, rank, x);
      forall i | 0 <= i < |r| ensures !RankLess(rank(last), rank(r[i])) {
        assert r[i] in r;
        InsertElement(front, rank, x, r[i]);
        if r[i] != x { var k :| 0 <= k < |front| && front[k] == r[i]; }
      }
    }
  }

  lemma {:induction false} SortOrdered<T>(s: seq<T>, rank: T -> Rank, n: nat)
    requires n <= |s|
    ensures Ordered(SortTo(s, rank, n), rank)
  {
    if n > 0 {
      SortOrdered(s, rank, n - 1);
      InsertOrdered(SortTo(s, rank, n - 1), rank, s[n - 1]);
    }
  }

  /** The elements of the first `n`, with multiplicity. */
  function BagTo<T(==)>(s: seq<T>, n: nat): multiset<T>
    requires n <= |s|
  {
    if n == 0 then multiset{} else BagTo(s, n - 1) + multiset{s[n - 1]}
  }

  lemma {:induction false} BagIsMultiset<T>(s: seq<T>, n: nat)
    requires n <= |s|
    ensures BagTo(s, n) == multiset(s[..n])
  {
    if n > 0 {
      BagIsMultiset(s, n - 1);
      assert s[..n] == s[..n - 1] + [s[n - 1]];
    }
  }

  lemma InsertBag<T>(s: seq<T>, rank: T -> Rank, x: T, bag: multiset<T>)
    requires multiset(s) == bag
    ensures multiset(Insert(s, rank, x)) == bag + multiset{x}
  {
    InsertPermutes(s, rank, x);
  }

  lemma {:induction false} SortPermutes<T>(s: seq<T>, rank: T -> Rank, n: nat)
    requires n <= |s|
    ensures multiset(SortTo(s, rank, n)) == BagTo(s, n)
  {
    if n > 0 {
      SortPermutes(s, rank, n - 1);
      InsertBag(SortTo(s, rank, n - 1), rank, s[n - 1], BagTo(s, n - 1));
    }
  }

  /** Sorting puts the elements in order and keeps them all. */
  lemma SortMeaning<T>(s: seq<T>, rank: T -> Rank)
    ensures Ordered(Sort(s, rank), rank) && multiset(Sort(s, rank)) == multiset(s)
    ensures forall x :: x in Sort(s, rank) <==> x in s
  {
    SortOrdered(s, rank, |s|);
    SortPermutes(s, rank, |s|);
    BagIsMultiset(s, |s|);
    assert s[..|s|] == s;
    forall x ensures x in Sort(s, rank) <==> x in s {
      assert x in multiset(Sort(s, rank)) <==> x in multiset(s);
    }
  }

  // ---------------------------------------------------------------- stability

  /** Where the element goes: behind the last one that does not rank after it. */
  lemma {:induction false} InsertPlace<T>(s: seq<T>, rank: T -> Rank, x: T) returns (k: nat)
    ensures k <= |s| && Insert(s, rank, x) == s[..k] + [x] + s[k..]
    ensures forall i :: k <= i < |s| ==> RankLess(rank(x), rank(s[i]))
    ensures k > 0 ==> !RankLess(rank(x), rank(s[k - 1]))
  {
    if s == [] || !RankLess(rank(x), rank(s[|s| - 1])) {
      k := |s|;
    } else {
      var front, last := s[..|s| - 1], s[|s| - 1];
      k := InsertPlace(front, rank, x);
      assert s[..k] == front[..k] && s[k..] == front[k..] + [last];
    }
  }

  /** Element `a` of the list comes before element `b`: it ranks before it, or the same and stood before it. */
  predicate ComesFirst<T>(s: seq<T>, rank: T -> Rank, a: nat, b: nat)
    requires a < |s| && b < |s|
  {
    RankLess(rank(s[a]), rank(s[b])) || (!RankLess(rank(s[b]), rank(s[a])) && a < b)
  }

  /** `out` lists the first `n` elements of `s` at the places `places`, each once, in stable order. */
  ghost predicate StableTo<T>(s: seq<T>, rank: T -> Rank, n: nat, out: seq<T>, places: seq<nat>)
    requires n <= |s|
  {
    && |places| == |out| == n
    && (forall i :: 0 <= i < n ==> places[i] < n && out[i] == s[places[i]])
    && (forall i, j :: 0 <= i < j < n ==> ComesFirst(s, rank, places[i], places[j]))
    && (forall a: nat :: a < n ==> a in places)
  }

  /** An element that no later one ranks before does not rank before any. */
  lemma NoneBefore<T>(s: seq<T>, rank: T -> Rank, x: T, k: nat)
    requires Ordered(s, rank) && 0 < k <= |s| && !RankLess(rank(x), rank(s[k - 1]))
    ensures forall i :: 0 <= i < k ==> !RankLess(rank(x), rank(s[i]))
  {
    forall i | 0 <= i < k ensures !RankLess(rank(x), rank(s[i])) {
      assert i < k - 1 ==> !RankLess(rank(s[k - 1]), rank(s[i]));
    }
  }

  function PutAt<T>(s: seq<T>, k: nat, x: T): seq<T>
    requires k <= |s|
  {
    s[..k] + [x] + s[k..]
  }

  lemma OrderNext<T>(s: seq<T>, rank: T -> Rank, n: nat, out: seq<T>, places: seq<nat>, k: nat)
    requires n < |s| && StableTo(s, rank, n, out, places) && k <= n
    requires forall i :: k <= i < n ==> RankLess(rank(s[n]), rank(out[i]))
    requires forall i :: 0 <= i < k ==> !RankLess(rank(s[n]), rank(out[i]))
    ensures var places' := PutAt(places, k, n);
      && |places'| == n + 1 && (forall i :: 0 <= i < n + 1 ==> places'[i] < n + 1)
      && forall i, j :: 0 <= i < j < n + 1 ==> ComesFirst(s, rank, places'[i], places'[j])
  {
    var places' := PutAt(places, k, n);
    forall i, j | 0 <= i < j < n + 1 ensures ComesFirst(s, rank, places'[i], places'[j]) {
      var i', j' := if i < k then i else i - 1, if j < k then j else j - 1;
      if i != k && j != k { assert ComesFirst(s, rank, places[i'], places[j']); }
    }
  }

  lemma AllPlaced(places: seq<nat>, k: nat, n: nat)
    requires k <= |places| && forall a: nat :: a < n ==> a in places
    ensures forall a: nat :: a < n + 1 ==> a in PutAt(places, k, n)
  {
    var places' := PutAt(places, k, n);
    assert places == places[..k] + places[k..];
    forall a: nat | a < n + 1 ensures a in places' {
      if a == n { assert places'[k] == n; } else { assert a in places; }
    }
  }

  lemma StableNext<T>(s: seq<T>, rank: T -> Rank, n: nat, out: seq<T>, places: seq<nat>, k: nat)
    requires n < |s| && StableTo(s, rank, n, out, places) && k <= n
    requires forall i :: k <= i < n ==> RankLess(rank(s[n]), rank(out[i]))
    requires forall i :: 0 <= i < k ==> !RankLess(rank(s[n]), rank(out[i]))
    ensures StableTo(s, rank, n + 1, PutAt(out, k, s[n]), PutAt(places, k, n))
  {
    OrderNext(s, rank, n, out, places, k);
    AllPlaced(places, k, n);
  }

  lemma {:induction false} SortIsStable<T>(s: seq<T>, rank: T -> Rank, n: nat) returns (places: seq<nat>)
    requires n <= |s|
    ensures StableTo(s, rank, n, SortTo(s, rank, n), places)
  {
    places := [];
    if n > 0 {
      var out := SortTo(s, rank, n - 1);
      places := SortIsStable(s, rank, n - 1);
      SortOrdered(s, rank, n - 1);
      var k := InsertPlace(out, rank, s[n - 1]);
      if k > 0 { NoneBefore(out, rank, s[n - 1], k); }
      StableNext(s, rank, n - 1, out, places, k);
      places := PutAt(places, k, n - 1);
    }
  }
}
