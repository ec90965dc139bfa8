/** Sorting by a strict order: one insertion, and why the order of the input does not matter. */
module Ordering {

  type Less<!T> = (T, T) -> bool

  ghost predicate StrictOrder<T(!new)>(less: Less<T>) {
    && (forall a, b :: !(less(a, b) && less(b, a)))
    && (forall a, b, c :: less(a, b) && less(b, c) ==> less(a, c))
  }

  /** Any two elements of `s` are comparable. */
  ghost predicate TotalOn<T(!new)>(less: Less<T>, s: seq<T>) {
    forall a, b :: a in s && b in s && a != b ==> less(a, b) || less(b, a)
  }

  ghost predicate Ascending<T>(less: Less<T>, s: seq<T>) {
    forall i, j :: 0 <= i < j < |s| ==> less(s[i], s[j])
  }

  function Insert<T>(less: Less<T>, s: seq<T>, x: T): seq<T> {
    if s == [] || less(x, s[0]) then [x] + s else [s[0]] + Insert(less, s[1..], x)
  }

  lemma {:induction false} InsertElements<T>(less: Less<T>, s: seq<T>, x: T)
    ensures forall y :: y in Insert(less, s, x) <==> y == x || y in s
  {
    if s != [] && !less(x, s[0]) {
      InsertElements(less, s[1..], x);
      assert s == [s[0]] + s[1..];
    }
  }

  lemma {:induction false} InsertAscending<T(!new)>(less: Less<T>, s: seq<T>, x: T)
    requires StrictOrder(less) && Ascending(less, s) && x !in s && TotalOn(less, s + [x])
    ensures Ascending(less, Insert(less, s, x))
  {
    if s == [] {
    } else if less(x, s[0]) {
      forall j | 0 <= j < |s| ensures less(x, s[j]) {
        if j > 0 { assert less(s[0], s[j]); }
      }
    } else {
      assert s == [s[0]] + s[1..];
      InsertAscending(less, s[1..], x);
      InsertElements(less, s[1..], x);
      assert s[0] in s + [x] && x in s + [x];
      var r := Insert(less, s[1..], x);
      forall j | 0 <= j < |r| ensures less(s[0], r[j]) {
        assert r[j] in r;
        if r[j] != x { var m :| 0 <= m < |s[1..]| && s[1..][m] == r[j]; }
      }
    }
  }

  lemma AscendingTail<T(!new)>(less: Less<T>, s: seq<T>)
    requires StrictOrder(less) && Ascending(less, s) && s != []
    ensures forall x :: x in s[1..] <==> x in s && x != s[0]
  {
    forall x | x in s[1..] ensures x != s[0] {
      var i :| 0 <= i < |s[1..]| && s[1..][i] == x;
      assert less(s[0], s[i + 1]);
    }
    assert s == [s[0]] + s[1..];
  }

  lemma HasElement<T>(s: seq<T>)
    ensures s != [] ==> exists x :: x in s
  {
    if s != [] { assert s[0] in s; }
  }

  /** The least element comes first. */
  lemma SameHead<T(!new)>(less: Less<T>, a: seq<T>, b: seq<T>)
    requires StrictOrder(less) && Ascending(less, a) && Ascending(less, b) && a != [] && b != []
    requires forall x :: x in a <==> x in b
    ensures a[0] == b[0]
  {
    assert a[0] in a && b[0] in b;
    var i :| 0 <= i < |a| && a[i] == b[0];
    var j :| 0 <= j < |b| && b[j] == a[0];
    assert i > 0 ==> less(a[0], a[i]);
    assert j > 0 ==> less(b[0], b[j]);
  }

  /** An ascending list is determined by its elements. */
  lemma {:induction false} AscendingUnique<T(!new)>(less: Less<T>, a: seq<T>, b: seq<T>)
    requires StrictOrder(less) && Ascending(less, a) && Ascending(less, b)
    requires forall x :: x in a <==> x in b
    ensures a == b
  {
    HasElement(a);
    HasElement(b);
    if a != [] {
      SameHead(less, a, b);
      AscendingTail(less, a);
      AscendingTail(less, b);
      AscendingUnique(less, a[1..], b[1..]);
      assert a == [a[0]] + a[1..] && b == [b[0]] + b[1..];
    }
  }
}
