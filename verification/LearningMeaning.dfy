/** Which learned entries stay and which are reported as removed, said of the entries themselves. */
module LearningMeaning {
  import opened Text
  import opened Seqs
  import opened Dedup
  import opened LearningCleanup

  /** The two entries teach the same: sender, label and keywords, in any order, are the same; without
      keywords the messages are. */
  ghost predicate TeachTheSame(env: Env, a: Entry, b: Entry) {
    && Strip(env.lower(a.sender)) == Strip(env.lower(b.sender))
    && (a.tag == b.tag || (a.tag in ["", "spam"] && b.tag in ["", "spam"]))
    && (forall w :: multiset(a.keywords)[w] == multiset(b.keywords)[w])
    && (a.keywords == [] ==> exists m :: IsMessage(a, m) && IsMessage(b, m))
  }

  ghost predicate IsMessage(e: Entry, m: string) {
    if e.messageId == "" then m == e.id else m == e.messageId
  }

  lemma SameFingerprint(env: Env, a: Entry, b: Entry)
    ensures FingerprintOf(env, a) == FingerprintOf(env, b) <==> TeachTheSame(env, a, b)
  {
    var bagA, bagB := multiset(a.keywords), multiset(b.keywords);
    assert a.keywords != [] ==> bagA[a.keywords[0]] > 0;
    assert b.keywords != [] ==> bagB[b.keywords[0]] > 0;
    assert (forall w :: bagA[w] == bagB[w]) <==> bagA == bagB;
    assert IsMessage(a, if a.messageId == "" then a.id else a.messageId);
  }

  /** The entry passes as `c`: it is no routing correction, and `c`, it with label and reason settled and
      its keywords recomputed, has keywords or a sender. */
  ghost predicate PassesAs(env: Env, e: Entry, c: Entry) {
    var settled := env.settle(e);
    && !env.isRouting(e.reason)
    && c.keywords == env.recompute(settled.keywords) && c.sender == settled.sender && c.tag == settled.tag
    && c.reason == settled.reason && c.id == settled.id && c.messageId == settled.messageId
    && (c.keywords != [] || c.sender != "")
  }

  lemma PassesMeansCandidate(env: Env, e: Entry, c: Entry)
    ensures PassesAs(env, e, c) <==> Candidate(env, e) == [c]
  {
  }

  // ---------------------------------------------------------------- the store

  /** The store afterwards: what entries pass as, in order, no two teaching the same, and for each entry
      that passes one that teaches the same, from it or an earlier one. */
  ghost predicate StoreComesFrom(env: Env, es: seq<Entry>, kept: seq<Entry>, places: seq<nat>) {
    && |places| == |kept| && Rising(places, |es|)
    && (forall x :: 0 <= x < |kept| ==> PassesAs(env, es[places[x]], kept[x]))
    && (forall x, y :: 0 <= x < y < |kept| ==> !TeachTheSame(env, kept[x], kept[y]))
    && (forall i: nat, c :: i < |es| && PassesAs(env, es[i], c) ==> KeptBy(env, kept, places, i, c))
  }

  ghost predicate KeptBy(env: Env, kept: seq<Entry>, places: seq<nat>, i: nat, c: Entry)
    requires |places| == |kept|
  {
    exists x :: 0 <= x < |kept| && places[x] <= i && TeachTheSame(env, kept[x], c)
  }

  ghost predicate StoreTold(env: Env, es: seq<Entry>, kept: seq<Entry>) {
    exists places :: StoreComesFrom(env, es, kept, places)
  }

  lemma KeptDiffer(env: Env, kept: seq<Entry>)
    requires DistinctKeys(kept, Fingerprinting(env))
    ensures forall x, y :: 0 <= x < y < |kept| ==> !TeachTheSame(env, kept[x], kept[y])
  {
    forall x, y | 0 <= x < y < |kept| ensures !TeachTheSame(env, kept[x], kept[y]) {
      SameFingerprint(env, kept[x], kept[y]);
      assert Fingerprinting(env)(kept[x]) != Fingerprinting(env)(kept[y]);
    }
  }

  lemma PassedIsKept(env: Env, es: seq<Entry>, kept: seq<Entry>, places: seq<nat>, i: nat, c: Entry)
    requires AreFirsts(es, Cleaning(env), Fingerprinting(env), |es|, kept, places)
    requires i < |es| && PassesAs(env, es[i], c)
    ensures KeptBy(env, kept, places, i, c)
  {
    var key := Fingerprinting(env);
    PassesMeansCandidate(env, es[i], c);
    assert Cleaning(env)(es[i]) == [c] && KeptEarlier(kept, key, places, i, key(c));
    var x :| 0 <= x < |kept| && places[x] <= i && key(kept[x]) == key(c);
    SameFingerprint(env, kept[x], c);
  }

  lemma StoreIsTold(env: Env, es: seq<Entry>)
    ensures StoreTold(env, es, Kept(env, es))
  {
    var kept := Kept(env, es);
    var places := CollectedFirsts(es, Cleaning(env), Fingerprinting(env), |es|);
    KeptDiffer(env, kept);
    forall x | 0 <= x < |kept| ensures PassesAs(env, es[places[x]], kept[x]) {
      PassesMeansCandidate(env, es[places[x]], kept[x]);
    }
    forall i: nat, c | i < |es| && PassesAs(env, es[i], c) ensures KeptBy(env, kept, places, i, c) {
      PassedIsKept(env, es, kept, places, i, c);
    }
    assert StoreComesFrom(env, es, kept, places);
  }

  // ---------------------------------------------------------------- the three lists

  /** `at` lists the places in `which` in order, and `ids` are the ids of the entries there. */
  ghost predicate NamesAt(es: seq<Entry>, which: set<nat>, ids: seq<string>, at: seq<nat>) {
    && |at| == |ids| && Rising(at, |es|) && (forall i :: i in which <==> i in at)
    && (forall x :: 0 <= x < |at| ==> ids[x] == es[at[x]].id)
  }

  /** The list names, in order, the entries at the places in `which`. */
  ghost predicate NamesThose(es: seq<Entry>, which: set<nat>, ids: seq<string>) {
    exists at :: NamesAt(es, which, ids, at)
  }

  ghost predicate IsEmptied(env: Env, e: Entry) {
    !env.isRouting(e.reason) && env.recompute(env.settle(e).keywords) == [] && env.settle(e).sender == ""
  }

  /** An earlier entry passes and teaches the same. */
  ghost predicate IsRepeated(env: Env, es: seq<Entry>, i: nat)
    requires i < |es|
  {
    exists c, d, j: nat :: j < i && PassesAs(env, es[i], c) && PassesAs(env, es[j], d) && TeachTheSame(env, c, d)
  }

  ghost function RoutingPlaces(env: Env, es: seq<Entry>, n: nat): set<nat>
    requires n <= |es|
  {
    set i: nat | i < n && env.isRouting(es[i].reason)
  }

  ghost function EmptyPlaces(env: Env, es: seq<Entry>, n: nat): set<nat>
    requires n <= |es|
  {
    set i: nat | i < n && IsEmptied(env, es[i])
  }

  ghost function RepeatedPlaces(env: Env, es: seq<Entry>, n: nat): set<nat>
    requires n <= |es|
  {
    set i: nat | i < n && IsRepeated(env, es, i)
  }

  /** Routing corrections, entries that come out empty, and repeated ones: each list names its entries. */
  ghost predicate ReasonsTold(env: Env, es: seq<Entry>, s: Stats) {
    && NamesThose(es, RoutingPlaces(env, es, |es|), s.routing)
    && NamesThose(es, EmptyPlaces(env, es, |es|), s.empty)
    && NamesThose(es, RepeatedPlaces(env, es, |es|), s.duplicates)
  }

  lemma NamesOneMore(es: seq<Entry>, which: set<nat>, ids: seq<string>, at: seq<nat>, n: nat)
    requires n < |es| && NamesAt(es, which, ids, at) && forall i :: i in which ==> i < n
    ensures NamesAt(es, which + {n}, ids + [es[n].id], at + [n])
  {
    var at' := at + [n];
    forall x | 0 <= x < |at| ensures at[x] < n { assert at[x] in at; }
    forall i: nat ensures i in which + {n} <==> i in at' {
      if i in which { assert i in at; }
      assert at'[|at|] == n;
    }
  }

  ghost function HitPlaces(hits: seq<bool>, n: nat): set<nat>
    requires n <= |hits|
  {
    set i: nat | i < n && hits[i]
  }

  /** The list of names before the first entry and after each of the entries. */
  ghost predicate ListsGrow(es: seq<Entry>, hits: seq<bool>, lists: seq<seq<string>>) {
    && |hits| == |es| && |lists| == |es| + 1 && lists[0] == []
    && forall j: nat :: j < |es| ==> lists[j + 1] == lists[j] + if hits[j] then [es[j].id] else []
  }

  lemma NamesNext(es: seq<Entry>, hits: seq<bool>, ids: seq<string>, n: nat, at: seq<nat>) returns (at': seq<nat>)
    requires 0 < n <= |es| == |hits| && NamesAt(es, HitPlaces(hits, n - 1), ids, at)
    ensures NamesAt(es, HitPlaces(hits, n), ids + (if hits[n - 1] then [es[n - 1].id] else []), at')
  {
    if hits[n - 1] {
      at' := at + [n - 1];
      assert HitPlaces(hits, n) == HitPlaces(hits, n - 1) + {n - 1};
      NamesOneMore(es, HitPlaces(hits, n - 1), ids, at, n - 1);
    } else {
      at' := at;
      assert HitPlaces(hits, n) == HitPlaces(hits, n - 1) && ids + [] == ids;
    }
  }

  lemma {:induction false} NamesAlong(es: seq<Entry>, hits: seq<bool>, lists: seq<seq<string>>, n: nat)
    returns (at: seq<nat>)
    requires ListsGrow(es, hits, lists) && n <= |es|
    ensures NamesAt(es, HitPlaces(hits, n), lists[n], at)
  {
    at := [];
    if n > 0 {
      at := NamesAlong(es, hits, lists, n - 1);
      assert lists[n - 1 + 1] == lists[n];
      at := NamesNext(es, hits, lists[n - 1], n, at);
    }
  }

  lemma NamesThat(es: seq<Entry>, hits: seq<bool>, lists: seq<seq<string>>, which: set<nat>, ids: seq<string>)
    requires ListsGrow(es, hits, lists) && which == HitPlaces(hits, |es|) && ids == lists[|es|]
    ensures NamesThose(es, which, ids)
  {
    var at := NamesAlong(es, hits, lists, |es|);
  }

  /** A collected list, entry by entry. */
  function Collecting(es: seq<Entry>, f: Entry -> seq<string>): seq<seq<string>> {
    seq(|es| + 1, i requires 0 <= i <= |es| => CollectFrom([], es, f, i))
  }

  lemma CollectingGrows(es: seq<Entry>, hits: seq<bool>, f: Entry -> seq<string>)
    requires |hits| == |es| && forall j: nat :: j < |es| ==> f(es[j]) == if hits[j] then [es[j].id] else []
    ensures ListsGrow(es, hits, Collecting(es, f))
  {
  }

  function RoutingHits(env: Env, es: seq<Entry>): seq<bool> {
    seq(|es|, i requires 0 <= i < |es| => env.isRouting(es[i].reason))
  }

  ghost function EmptyHits(env: Env, es: seq<Entry>): seq<bool> {
    seq(|es|, i requires 0 <= i < |es| => IsEmptied(env, es[i]))
  }

  ghost function RepeatedHits(env: Env, es: seq<Entry>): seq<bool> {
    seq(|es|, i requires 0 <= i < |es| => IsRepeated(env, es, i))
  }

  lemma RoutingNamed(env: Env, es: seq<Entry>)
    ensures NamesThose(es, RoutingPlaces(env, es, |es|), CollectFrom([], es, RoutingIds(env), |es|))
  {
    CollectingGrows(es, RoutingHits(env, es), RoutingIds(env));
    NamesThat(es, RoutingHits(env, es), Collecting(es, RoutingIds(env)), RoutingPlaces(env, es, |es|),
              CollectFrom([], es, RoutingIds(env), |es|));
  }

  lemma EmptyNamed(env: Env, es: seq<Entry>)
    ensures NamesThose(es, EmptyPlaces(env, es, |es|), CollectFrom([], es, EmptyIds(env), |es|))
  {
    CollectingGrows(es, EmptyHits(env, es), EmptyIds(env));
    NamesThat(es, EmptyHits(env, es), Collecting(es, EmptyIds(env)), EmptyPlaces(env, es, |es|),
              CollectFrom([], es, EmptyIds(env), |es|));
  }

  lemma RepeatedIsSeen(env: Env, es: seq<Entry>, n: nat)
    requires n < |es| && IsRepeated(env, es, n)
    ensures var all := CandidatesTo(env, es, n);
      DuplicateId(env, es[n], KeysTo(all, Fingerprinting(env), |all|)) == [es[n].id]
  {
    var all, key := CandidatesTo(env, es, n), Fingerprinting(env);
    var c, d, j: nat :| j < n && PassesAs(env, es[n], c) && PassesAs(env, es[j], d) && TeachTheSame(env, c, d);
    PassesMeansCandidate(env, es[n], c);
    PassesMeansCandidate(env, es[j], d);
    SameFingerprint(env, c, d);
    CollectMembers(es, Cleaning(env), n);
    assert Cleaning(env)(es[j]) == [d] && d in all;
    var m :| 0 <= m < |all| && all[m] == d;
    KeysMeaning(all, key, |all|);
    assert key(all[m]) == FingerprintOf(env, c);
  }

  /** Where a fingerprint that was seen comes from. */
  lemma SeenFrom(env: Env, es: seq<Entry>, n: nat, k: Fingerprint) returns (j: nat, d: Entry)
    requires n <= |es|
    requires var all := CandidatesTo(env, es, n); k in KeysTo(all, Fingerprinting(env), |all|)
    ensures j < n && Candidate(env, es[j]) == [d] && FingerprintOf(env, d) == k
  {
    var all, key := CandidatesTo(env, es, n), Fingerprinting(env);
    KeysMeaning(all, key, |all|);
    var m :| 0 <= m < |all| && key(all[m]) == k;
    d := all[m];
    CollectMembers(es, Cleaning(env), n);
    assert d in all;
    j :| j < n && d in Cleaning(env)(es[j]);
  }

  lemma SeenIsRepeated(env: Env, es: seq<Entry>, n: nat)
    requires n < |es|
    requires var all := CandidatesTo(env, es, n);
      DuplicateId(env, es[n], KeysTo(all, Fingerprinting(env), |all|)) != []
    ensures IsRepeated(env, es, n)
  {
    var c := Cleaned(env, es[n]);
    var j, d := SeenFrom(env, es, n, FingerprintOf(env, c));
    PassesMeansCandidate(env, es[n], c);
    PassesMeansCandidate(env, es[j], d);
    SameFingerprint(env, c, d);
    assert PassesAs(env, es[n], c) && PassesAs(env, es[j], d);
  }

  function RepeatedId(env: Env, es: seq<Entry>, n: nat): seq<string>
    requires n < |es|
  {
    var all := CandidatesTo(env, es, n);
    DuplicateId(env, es[n], KeysTo(all, Fingerprinting(env), |all|))
  }

  lemma RepeatedIdMeans(env: Env, es: seq<Entry>, n: nat)
    requires n < |es|
    ensures RepeatedId(env, es, n) == if IsRepeated(env, es, n) then [es[n].id] else []
  {
    if IsRepeated(env, es, n) { RepeatedIsSeen(env, es, n); }
    if RepeatedId(env, es, n) != [] { SeenIsRepeated(env, es, n); }
  }

  lemma DuplicateIdsNext(env: Env, es: seq<Entry>, n: nat)
    requires 0 < n <= |es|
    ensures DuplicateIdsTo(env, es, n) == DuplicateIdsTo(env, es, n - 1) + RepeatedId(env, es, n - 1)
  {
  }

  /** The list of repeated entries before the first entry and after each. */
  function Repeating(env: Env, es: seq<Entry>): seq<seq<string>> {
    seq(|es| + 1, i requires 0 <= i <= |es| => DuplicateIdsTo(env, es, i))
  }

  lemma RepeatingNext(env: Env, es: seq<Entry>, j: nat)
    requires j < |es|
    ensures var lists := Repeating(env, es);
      lists[j + 1] == lists[j] + if RepeatedHits(env, es)[j] then [es[j].id] else []
  {
    DuplicateIdsNext(env, es, j + 1);
    RepeatedIdMeans(env, es, j);
  }

  lemma RepeatingGrows(env: Env, es: seq<Entry>)
    ensures ListsGrow(es, RepeatedHits(env, es), Repeating(env, es))
  {
    var lists, hits := Repeating(env, es), RepeatedHits(env, es);
    forall j: nat | j < |es| ensures lists[j + 1] == lists[j] + if hits[j] then [es[j].id] else [] {
      RepeatingNext(env, es, j);
    }
  }

  lemma RepeatedNamed(env: Env, es: seq<Entry>)
    ensures NamesThose(es, RepeatedPlaces(env, es, |es|), DuplicateIdsTo(env, es, |es|))
  {
    RepeatingGrows(env, es);
    NamesThat(es, RepeatedHits(env, es), Repeating(env, es), RepeatedPlaces(env, es, |es|),
              DuplicateIdsTo(env, es, |es|));
  }

  lemma ReasonsAreTold(env: Env, es: seq<Entry>, s: Stats)
    requires ReasonsListed(env, es, |es|, s)
    ensures ReasonsTold(env, es, s)
  {
    RoutingNamed(env, es);
    EmptyNamed(env, es);
    RepeatedNamed(env, es);
  }
}
