/** Sequence vocabulary shared by the models. Recursion runs on a prefix length, so loops unfold it. */
module Seqs {

  datatype Option<+T> = None | Some(value: T)

  function Map<A, B>(s: seq<A>, f: A -> B): seq<B> {
    seq(|s|, i requires 0 <= i < |s| => f(s[i]))
  }

  /** Row-wise passes that settle settle the whole table. */
  lemma PassesSettle<T(!new)>(s: seq<T>, f: T -> T, g: T -> T, h: T -> T, dirty: T -> bool, stays: T -> bool)
    requires forall x :: h(g(f(x))) == g(f(x)) && (dirty(g(f(x))) <==> stays(x))
    ensures Map(Map(Map(s, f), g), h) == Map(Map(s, f), g)
    ensures Map(Map(Map(s, f), g), dirty) == Map(s, stays)
  {
  }

  /** A table half way through a pass: the first `n` rows rewritten, the rest as they were. */
  function Rewritten<T>(s: seq<T>, f: T -> T, n: nat): (r: seq<T>)
    requires n <= |s|
    ensures |r| == |s|
  {
    if n == 0 then s else Rewritten(s, f, n - 1)[n - 1 := f(s[n - 1])]
  }

  lemma {:induction false} RewrittenAt<T>(s: seq<T>, f: T -> T, n: nat, k: nat)
    requires n <= |s| && k < |s|
    ensures Rewritten(s, f, n)[k] == if k < n then f(s[k]) else s[k]
  {
    if n > 0 { RewrittenAt(s, f, n - 1, k); }
  }

  lemma RewrittenAll<T>(s: seq<T>, f: T -> T)
    ensures Rewritten(s, f, |s|) == Map(s, f)
  {
    forall k | 0 <= k < |s| ensures Rewritten(s, f, |s|)[k] == f(s[k]) {
      RewrittenAt(s, f, |s|, k);
    }
  }

  /** The list `base` after the first `n` elements appended what `f` gives for them. */
  function CollectFrom<T, K>(base: seq<K>, s: seq<T>, f: T -> seq<K>, n: nat): seq<K>
    requires n <= |s|
  {
    if n == 0 then base else CollectFrom(base, s, f, n - 1) + f(s[n - 1])
  }

  function Collect<T, K>(base: seq<K>, s: seq<T>, f: T -> seq<K>): seq<K> {
    CollectFrom(base, s, f, |s|)
  }

  lemma {:induction false} CollectSame<T, K>(base: seq<K>, s: seq<T>, s': seq<T>, f: T -> seq<K>, n: nat)
    requires |s| == |s'| && n <= |s|
    requires forall i :: 0 <= i < n ==> f(s[i]) == f(s'[i])
    ensures CollectFrom(base, s, f, n) == CollectFrom(base, s', f, n)
  {
    if n > 0 { CollectSame(base, s, s', f, n - 1); }
  }

  lemma {:induction false} CollectPrefix<S, T>(a: seq<S>, b: seq<S>, f: S -> seq<T>, n: nat)
    requires n <= |a|
    ensures CollectFrom([], a + b, f, n) == CollectFrom([], a, f, n)
  {
    if n > 0 { CollectPrefix(a, b, f, n - 1); }
  }

  lemma {:induction false} CollectConcat<S, T>(base: seq<T>, a: seq<S>, b: seq<S>, f: S -> seq<T>, n: nat)
    requires n <= |b|
    ensures CollectFrom(base, a + b, f, |a| + n) == CollectFrom(Collect(base, a, f), b, f, n)
  {
    if n > 0 {
      CollectConcat(base, a, b, f, n - 1);
    } else {
      CollectAgree(base, a, b, f, |a|);
    }
  }

  lemma {:induction false} CollectAgree<S, T>(base: seq<T>, a: seq<S>, b: seq<S>, f: S -> seq<T>, n: nat)
    requires n <= |a|
    ensures CollectFrom(base, a + b, f, n) == CollectFrom(base, a, f, n)
  {
    if n > 0 { CollectAgree(base, a, b, f, n - 1); }
  }

  lemma {:induction false} CollectBase<S, T>(base: seq<T>, s: seq<S>, f: S -> seq<T>, n: nat)
    requires n <= |s|
    ensures CollectFrom(base, s, f, n) == base + CollectFrom([], s, f, n)
  {
    if n > 0 { CollectBase(base, s, f, n - 1); }
  }

  lemma {:induction false} CollectGrows<S, T>(base: seq<T>, s: seq<S>, f: S -> seq<T>, m: nat, n: nat)
    requires m <= n <= |s|
    ensures CollectFrom(base, s, f, m) <= CollectFrom(base, s, f, n)
  {
    if m < n { CollectGrows(base, s, f, m, n - 1); }
  }

  lemma CollectSnoc<S, T>(s: seq<S>, x: S, f: S -> seq<T>)
    ensures Collect([], s + [x], f) == Collect([], s, f) + f(x)
  {
    CollectPrefix(s, [x], f, |s|);
  }

  lemma {:induction false} CollectMembers<S, T>(s: seq<S>, f: S -> seq<T>, n: nat)
    requires n <= |s|
    ensures forall y :: y in CollectFrom([], s, f, n) <==> exists i :: 0 <= i < n && y in f(s[i])
  {
    if n > 0 { CollectMembers(s, f, n - 1); }
  }

  /** An accumulator after the first `n` elements. */
  function Fold<S, T>(base: T, s: seq<S>, f: (T, S) -> T, n: nat): T
    requires n <= |s|
  {
    if n == 0 then base else f(Fold(base, s, f, n - 1), s[n - 1])
  }

  lemma {:induction false} FoldPrefix<S, T>(base: T, a: seq<S>, b: seq<S>, f: (T, S) -> T, n: nat)
    requires n <= |a|
    ensures Fold(base, a + b, f, n) == Fold(base, a, f, n)
  {
    if n > 0 { FoldPrefix(base, a, b, f, n - 1); }
  }

  lemma {:induction false} FoldConcat<S, T>(base: T, a: seq<S>, b: seq<S>, f: (T, S) -> T, n: nat)
    requires n <= |b|
    ensures Fold(base, a + b, f, |a| + n) == Fold(Fold(base, a, f, |a|), b, f, n)
  {
    if n > 0 { FoldConcat(base, a, b, f, n - 1); } else { FoldPrefix(base, a, b, f, |a|); }
  }

  function CountTo<T>(s: seq<T>, p: T -> bool, n: nat): nat
    requires n <= |s|
  {
    if n == 0 then 0 else CountTo(s, p, n - 1) + (if p(s[n - 1]) then 1 else 0)
  }

  function Count<T>(s: seq<T>, p: T -> bool): nat {
    CountTo(s, p, |s|)
  }

  function FilterTo<T>(s: seq<T>, keep: T -> bool, n: nat): seq<T>
    requires n <= |s|
  {
    if n == 0 then []
    else if keep(s[n - 1]) then FilterTo(s, keep, n - 1) + [s[n - 1]]
    else FilterTo(s, keep, n - 1)
  }

  function Filter<T>(s: seq<T>, keep: T -> bool): seq<T> {
    FilterTo(s, keep, |s|)
  }

  ghost predicate Distinct<T>(s: seq<T>) {
    forall i, j :: 0 <= i < j < |s| ==> s[i] != s[j]
  }

  /** `if x not in s: s.append(x)`. */
  function WithNew<T(==)>(s: seq<T>, x: T): seq<T> {
    if x in s then s else s + [x]
  }

  /** First occurrences, in order, among the first `n` elements. */
  function FirstOccurrencesTo<T(==)>(s: seq<T>, n: nat): seq<T>
    requires n <= |s|
  {
    if n == 0 then [] else WithNew(FirstOccurrencesTo(s, n - 1), s[n - 1])
  }

  function FirstOccurrences<T(==)>(s: seq<T>): seq<T> {
    FirstOccurrencesTo(s, |s|)
  }

  lemma {:induction false} FirstOccurrencesMeaning<T>(s: seq<T>, n: nat)
    requires n <= |s|
    ensures Distinct(FirstOccurrencesTo(s, n))
    ensures forall x :: x in FirstOccurrencesTo(s, n) <==> x in s[..n]
  {
    if n > 0 {
      FirstOccurrencesMeaning(s, n - 1);
      assert s[..n] == s[..n - 1] + [s[n - 1]];
    }
  }

  /** Each element once. */
  lemma FirstOccurrencesElements<T>(s: seq<T>)
    ensures Distinct(FirstOccurrences(s))
    ensures forall x :: x in FirstOccurrences(s) <==> x in s
  {
    FirstOccurrencesMeaning(s, |s|);
    assert s[..|s|] == s;
  }

  lemma {:induction false} FirstOccurrencesAgree<T>(s: seq<T>, more: seq<T>, n: nat)
    requires n <= |s|
    ensures FirstOccurrencesTo(s + more, n) == FirstOccurrencesTo(s, n)
  {
    if n > 0 { FirstOccurrencesAgree(s, more, n - 1); }
  }

  lemma FirstOccurrencesSnoc<T>(s: seq<T>, x: T)
    ensures FirstOccurrences(s + [x]) == WithNew(FirstOccurrences(s), x)
  {
    FirstOccurrencesAgree(s, [x], |s|);
  }
}
