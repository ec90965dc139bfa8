/** Which proposals there are and which are handed out, said of the letters and of the fields of the
    proposals. */
module ProposalsMeaning {
  import opened Seqs
  import opened Dedup
  import opened Sorting
  import opened Proposals

  // ---------------------------------------------------------------- evidence

  /** The letter counts under the key: it is its recipient, its sender's domain, or one of its patterns. */
  ghost predicate Bears(kind: Kind, d: Doc, key: string) {
    && (kind.ExactEmail? ==> key != "" && key == d.recipient)
    && (kind.Domain? ==> key != "" && key == d.domain)
    && (kind.Pattern? ==> key in d.patterns)
  }

  ghost function LettersUnder(kind: Kind, docs: seq<Doc>, key: string): set<int> {
    set i | 0 <= i < |docs| && Bears(kind, docs[i], key)
  }

  ghost function LettersTo(kind: Kind, docs: seq<Doc>, key: string, code: string): set<int> {
    set i | 0 <= i < |docs| && Bears(kind, docs[i], key) && docs[i].dest == code
  }

  /** Of at least three letters under the key, 70 per cent went to the code; for a domain 75 per cent and
      at least three. An address with 90 per cent and at least five letters has priority 1, a pattern with
      fewer than five letters priority 3, anything else 2. */
  ghost predicate IsEvidence(docs: seq<Doc>, p: Proposal) {
    && p.Evidence? && "00-" <= p.code
    && p.total == |LettersUnder(p.kind, docs, p.key)| && p.hits == |LettersTo(p.kind, docs, p.key, p.code)|
    && 3 <= p.total && 100 * p.hits >= 70 * p.total
    && (p.kind.Domain? ==> 100 * p.hits >= 75 * p.total && 3 <= p.hits)
    && (p.priority == 1 <==> p.kind.ExactEmail? && 100 * p.hits >= 90 * p.total && 5 <= p.hits)
    && (p.priority == 3 <==> p.kind.Pattern? && p.hits < 5)
    && 1 <= p.priority <= 3
  }

  ghost function Places<T>(s: seq<T>, p: T -> bool, n: nat): set<int>
    requires n <= |s|
  {
    set i | 0 <= i < n && p(s[i])
  }

  lemma PlacesNext<T>(s: seq<T>, p: T -> bool, n: nat)
    requires n < |s|
    ensures |Places(s, p, n + 1)| == |Places(s, p, n)| + if p(s[n]) then 1 else 0
  {
    assert Places(s, p, n + 1) == if p(s[n]) then Places(s, p, n) + {n} else Places(s, p, n);
  }

  lemma {:induction false} CountIsSize<T>(s: seq<T>, p: T -> bool, n: nat)
    requires n <= |s|
    ensures CountTo(s, p, n) == |Places(s, p, n)|
  {
    if n > 0 {
      CountIsSize(s, p, n - 1);
      PlacesNext(s, p, n - 1);
    }
  }

  lemma BearsMeansKey(kind: Kind, d: Doc, key: string)
    ensures Bears(kind, d, key) <==> key in KeysIn(kind, d)
  {
  }

  lemma CountsAreSizes(kind: Kind, docs: seq<Doc>, key: string, code: string)
    ensures Total(kind, docs, key) == |LettersUnder(kind, docs, key)|
    ensures Hits(kind, docs, key, code) == |LettersTo(kind, docs, key, code)|
  {
    var under, to := Under(kind, key), RoutedTo(kind, key, code);
    CountIsSize(docs, under, |docs|);
    CountIsSize(docs, to, |docs|);
    forall i | 0 <= i < |docs| ensures Bears(kind, docs[i], key) <==> key in KeysIn(kind, docs[i]) {
      BearsMeansKey(kind, docs[i], key);
    }
    assert Places(docs, under, |docs|) == LettersUnder(kind, docs, key);
    assert Places(docs, to, |docs|) == LettersTo(kind, docs, key, code);
  }

  lemma EvidenceIsWarranted(docs: seq<Doc>, p: Proposal)
    ensures IsEvidence(docs, p) <==> exists kind :: Warranted(kind, docs, p)
  {
    if p.Evidence? {
      CountsAreSizes(p.kind, docs, p.key, p.code);
      assert (exists kind :: Warranted(kind, docs, p)) <==> Warranted(p.kind, docs, p);
    }
  }

  /** Addresses before domains before patterns; of each, those with more letters first, and of as many the
      one whose key stands first in the letters. */
  ghost predicate EvidenceBefore(docs: seq<Doc>, p: Proposal, q: Proposal) {
    && p.Evidence? && q.Evidence?
    && (|| (p.kind.ExactEmail? && !q.kind.ExactEmail?)
        || (p.kind.Domain? && q.kind.Pattern?)
        || (p.kind == q.kind && p.total > q.total)
        || (p.kind == q.kind && p.total == q.total && SeenBefore(AllKeys(p.kind, docs, |docs|), p.key, q.key)))
  }

  ghost predicate EvidenceInOrder(docs: seq<Doc>, evidence: seq<Proposal>) {
    forall x, y :: 0 <= x < y < |evidence| ==> EvidenceBefore(docs, evidence[x], evidence[y])
  }

  lemma OneKindInOrder(kind: Kind, docs: seq<Doc>, ps: seq<Proposal>)
    requires Complete(kind, docs, ps) && KindInOrder(kind, docs, ps)
    ensures EvidenceInOrder(docs, ps)
    ensures forall p :: p in ps ==> p.Evidence? && p.kind == kind
  {
    forall x, y | 0 <= x < y < |ps| ensures EvidenceBefore(docs, ps[x], ps[y]) {
      assert ps[x] in ps && ps[y] in ps;
    }
  }

  lemma ConcatInOrder(docs: seq<Doc>, a: seq<Proposal>, b: seq<Proposal>)
    requires EvidenceInOrder(docs, a) && EvidenceInOrder(docs, b)
    requires forall p, q :: p in a && q in b ==> EvidenceBefore(docs, p, q)
    ensures EvidenceInOrder(docs, a + b)
  {
  }

  lemma AllKindsInOrder(docs: seq<Doc>, emails: seq<Proposal>, domains: seq<Proposal>, patterns: seq<Proposal>)
    requires Complete(ExactEmail, docs, emails) && KindInOrder(ExactEmail, docs, emails)
    requires Complete(Domain, docs, domains) && KindInOrder(Domain, docs, domains)
    requires Complete(Pattern, docs, patterns) && KindInOrder(Pattern, docs, patterns)
    ensures EvidenceInOrder(docs, emails + domains + patterns)
  {
    OneKindInOrder(ExactEmail, docs, emails);
    OneKindInOrder(Domain, docs, domains);
    OneKindInOrder(Pattern, docs, patterns);
    ConcatInOrder(docs, emails, domains);
    ConcatInOrder(docs, emails + domains, patterns);
  }

  // ---------------------------------------------------------------- the list handed out

  /** Proposal `a` comes before proposal `b`: a smaller priority, then more letters, then its place. */
  predicate Ahead(ps: seq<Proposal>, a: nat, b: nat)
    requires a < |ps| && b < |ps|
  {
    || ps[a].priority < ps[b].priority
    || (ps[a].priority == ps[b].priority && ps[a].hits > ps[b].hits)
    || (ps[a].priority == ps[b].priority && ps[a].hits == ps[b].hits && a < b)
  }

  ghost predicate IsTypeOf(name: string, kind: Kind) {
    && (kind.ExactEmail? ==> name == "exact_email")
    && (kind.Domain? ==> name == "exact_email_or_domain_content")
    && (kind.Pattern? ==> name == "content_rules")
  }

  /** The same type, subject and pair of codes. */
  ghost predicate SameSubject(p: Proposal, q: Proposal) {
    && (p.Evidence? && q.Evidence? ==> p.kind == q.kind && p.key == q.key)
    && (p.Remark? && q.Remark? ==> p.name == q.name && p.agent == q.agent && p.chosen == q.chosen)
    && (p.Evidence? && q.Remark? ==> IsTypeOf(q.name, p.kind) && p.key == q.agent == q.chosen == "")
    && (p.Remark? && q.Evidence? ==> IsTypeOf(p.name, q.kind) && q.key == p.agent == p.chosen == "")
  }

  lemma SameSubjectSameKey(p: Proposal, q: Proposal)
    ensures SameSubject(p, q) <==> KeyOf(p) == KeyOf(q)
  {
    assert |"exact_email"| == 11 && |"content_rules"| == 13 && |"exact_email_or_domain_content"| == 29;
  }

  /** The list has a proposal on the subject of proposal `a`: `a` itself or one that is ahead of it. */
  ghost predicate StandsFor(ps: seq<Proposal>, at: seq<nat>, a: nat)
    requires a < |ps| && forall x :: 0 <= x < |at| ==> at[x] < |ps|
  {
    exists x :: 0 <= x < |at| && SameSubject(ps[at[x]], ps[a]) && (at[x] == a || Ahead(ps, at[x], a))
  }

  ghost predicate AllAhead(ps: seq<Proposal>, at: seq<nat>, a: nat)
    requires a < |ps| && forall x :: 0 <= x < |at| ==> at[x] < |ps|
  {
    forall x :: 0 <= x < |at| ==> Ahead(ps, at[x], a)
  }

  /** The proposals at the places `at`, at most 25: each ahead of the next, no two on one subject. Every other
      proposal has one ahead of it on its subject in the list, or the list is full of such that are ahead. */
  ghost predicate Picks(ps: seq<Proposal>, list: seq<Proposal>, at: seq<nat>) {
    && |at| == |list| <= 25
    && (forall x :: 0 <= x < |at| ==> at[x] < |ps| && list[x] == ps[at[x]])
    && (forall x, y :: 0 <= x < y < |at| ==> Ahead(ps, at[x], at[y]) && !SameSubject(list[x], list[y]))
    && (forall a: nat :: a < |ps| ==> StandsFor(ps, at, a) || (|at| == 25 && AllAhead(ps, at, a)))
  }

  ghost predicate HandedOutTold(ps: seq<Proposal>, list: seq<Proposal>) {
    exists at :: Picks(ps, list, at)
  }

  lemma AheadIsFirst(ps: seq<Proposal>, a: nat, b: nat)
    requires a < |ps| && b < |ps|
    ensures Ahead(ps, a, b) <==> ComesFirst(ps, RankOf, a, b)
  {
  }

  /** All kept proposals, before the cut. */
  ghost predicate PicksAll(ps: seq<Proposal>, uniq: seq<Proposal>, at: seq<nat>) {
    && |at| == |uniq|
    && (forall x :: 0 <= x < |at| ==> at[x] < |ps| && uniq[x] == ps[at[x]])
    && (forall x, y :: 0 <= x < y < |at| ==> Ahead(ps, at[x], at[y]) && !SameSubject(uniq[x], uniq[y]))
    && (forall a: nat :: a < |ps| ==> StandsFor(ps, at, a))
  }

  function Composed(perm: seq<nat>, places: seq<nat>): seq<nat>
    requires forall x :: 0 <= x < |places| ==> places[x] < |perm|
  {
    seq(|places|, x requires 0 <= x < |places| => perm[places[x]])
  }

  lemma AllPicked(ps: seq<Proposal>) returns (at: seq<nat>)
    ensures var sorted := Sort(ps, RankOf); PicksAll(ps, DedupeTo(sorted, KeyOf, |sorted|), at)
  {
    var sorted := Sort(ps, RankOf);
    var uniq := DedupeTo(sorted, KeyOf, |sorted|);
    var perm := SortIsStable(ps, RankOf, |ps|);
    var places := FirstsOf(sorted, KeyOf);
    at := Composed(perm, places);
    forall x | 0 <= x < |at| ensures at[x] < |ps| && uniq[x] == ps[at[x]] {
      assert One<Proposal>()(sorted[places[x]]) == [uniq[x]];
    }
    forall x, y | 0 <= x < y < |at| ensures Ahead(ps, at[x], at[y]) && !SameSubject(uniq[x], uniq[y]) {
      AheadIsFirst(ps, at[x], at[y]);
      SameSubjectSameKey(uniq[x], uniq[y]);
    }
    forall a: nat | a < |ps| ensures StandsFor(ps, at, a) {
      EachStandsFor(ps, sorted, uniq, perm, places, at, a);
    }
  }

  lemma PlacedBefore(ps: seq<Proposal>, sorted: seq<Proposal>, perm: seq<nat>, i: nat, j: nat)
    requires StableTo(ps, RankOf, |ps|, sorted, perm) && i <= j < |ps|
    ensures i == j || Ahead(ps, perm[i], perm[j])
  {
    if i < j {
      assert ComesFirst(ps, RankOf, perm[i], perm[j]);
      AheadIsFirst(ps, perm[i], perm[j]);
    }
  }

  lemma KeptFor(sorted: seq<Proposal>, uniq: seq<Proposal>, places: seq<nat>, i: nat) returns (x: nat)
    requires AreFirsts(sorted, One(), KeyOf, |sorted|, uniq, places) && i < |sorted|
    ensures x < |places| == |uniq| && places[x] <= i && KeyOf(uniq[x]) == KeyOf(sorted[i])
  {
    assert One<Proposal>()(sorted[i]) == [sorted[i]];
    assert KeptEarlier(uniq, KeyOf, places, i, KeyOf(sorted[i]));
    x :| 0 <= x < |uniq| && places[x] <= i && KeyOf(uniq[x]) == KeyOf(sorted[i]);
  }

  lemma EachStandsFor(ps: seq<Proposal>, sorted: seq<Proposal>, uniq: seq<Proposal>, perm: seq<nat>, places: seq<nat>,
                      at: seq<nat>, a: nat)
    requires StableTo(ps, RankOf, |ps|, sorted, perm) && AreFirsts(sorted, One(), KeyOf, |sorted|, uniq, places)
    requires at == Composed(perm, places) && a < |ps|
    requires forall x :: 0 <= x < |at| ==> uniq[x] == ps[at[x]]
    ensures StandsFor(ps, at, a)
  {
    var i := PlaceIn(perm, a);
    var x := KeptFor(sorted, uniq, places, i);
    SameSubjectSameKey(uniq[x], sorted[i]);
    PlacedBefore(ps, sorted, perm, places[x], i);
    assert at[x] == perm[places[x]];
  }

  lemma PlaceIn(perm: seq<nat>, a: nat) returns (i: nat)
    requires a in perm
    ensures i < |perm| && perm[i] == a
  {
    i :| i < |perm| && perm[i] == a;
  }

  lemma AheadTransitive(ps: seq<Proposal>, a: nat, b: nat, c: nat)
    requires a < |ps| && b < |ps| && c < |ps| && Ahead(ps, a, b) && (b == c || Ahead(ps, b, c))
    ensures Ahead(ps, a, c)
  {
  }

  lemma CutPicks(ps: seq<Proposal>, uniq: seq<Proposal>, at: seq<nat>, a: nat)
    requires PicksAll(ps, uniq, at) && a < |ps|
    ensures var cut := if |at| <= 25 then at else at[..25];
      StandsFor(ps, cut, a) || (|cut| == 25 && AllAhead(ps, cut, a))
  {
    var cut := if |at| <= 25 then at else at[..25];
    assert StandsFor(ps, at, a);
    var x :| 0 <= x < |at| && SameSubject(ps[at[x]], ps[a]) && (at[x] == a || Ahead(ps, at[x], a));
    if x < |cut| {
      assert cut[x] == at[x];
    } else {
      forall y | 0 <= y < |cut| ensures Ahead(ps, cut[y], a) { AheadTransitive(ps, at[y], at[x], a); }
    }
  }

  /** What is handed out, exactly. */
  lemma HandedOutIsTold(ps: seq<Proposal>)
    ensures HandedOutTold(ps, HandedOut(ps))
  {
    var at := AllPicked(ps);
    var sorted, list := Sort(ps, RankOf), HandedOut(ps);
    var uniq := DedupeTo(sorted, KeyOf, |sorted|);
    var cut := if |at| <= 25 then at else at[..25];
    forall a: nat | a < |ps| ensures StandsFor(ps, cut, a) || (|cut| == 25 && AllAhead(ps, cut, a)) {
      CutPicks(ps, uniq, at, a);
    }
    assert Picks(ps, list, cut);
  }
}
