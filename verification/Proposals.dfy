/** Routing proposals from the letters a clerk routed (scripts/analyze_akinina_routing.py, `propose_improvements`). */
module Proposals {
  import opened Seqs
  import opened Dedup
  import opened Sorting

  /** A routed letter: where it went, and the keys it counts under for each kind of evidence. */
  datatype Doc = Doc(dest: string, recipient: string, domain: string, patterns: seq<string>)

  datatype Kind = ExactEmail | Domain | Pattern

  /** `total` letters under a key, `hits` of them to one code. Shares are compared as ratios. */
  datatype Proposal =
    | Evidence(priority: nat, kind: Kind, key: string, code: string, hits: nat, total: nat)
    | Remark(priority: nat, name: string, agent: string, chosen: string, hits: nat)

  function KeysIn(kind: Kind, d: Doc): seq<string> {
    match kind
    case ExactEmail => if d.recipient != "" then [d.recipient] else []
    case Domain => if d.domain != "" then [d.domain] else []
    case Pattern => d.patterns
  }

  /** A pattern is tried once per letter, so it occurs once among the letter's patterns. */
  ghost predicate Proper(docs: seq<Doc>) {
    forall i :: 0 <= i < |docs| ==> Distinct(docs[i].patterns)
  }

  function Under(kind: Kind, key: string): Doc -> bool {
    d => key in KeysIn(kind, d)
  }

  function RoutedTo(kind: Kind, key: string, code: string): Doc -> bool {
    (d: Doc) => key in KeysIn(kind, d) && d.dest == code
  }

  function TotalTo(kind: Kind, docs: seq<Doc>, key: string, n: nat): nat
    requires n <= |docs|
  {
    CountTo(docs, Under(kind, key), n)
  }

  function HitsTo(kind: Kind, docs: seq<Doc>, key: string, code: string, n: nat): nat
    requires n <= |docs|
  {
    CountTo(docs, RoutedTo(kind, key, code), n)
  }

  function Total(kind: Kind, docs: seq<Doc>, key: string): nat {
    TotalTo(kind, docs, key, |docs|)
  }

  function Hits(kind: Kind, docs: seq<Doc>, key: string, code: string): nat {
    HitsTo(kind, docs, key, code, |docs|)
  }

  predicate IsCode(code: string) {
    "00-" <= code
  }

  /** The thresholds: at least three letters, and a share of 0.7 (0.75 and three hits for domains). */
  predicate Passes(kind: Kind, hits: nat, total: nat) {
    total >= 3 && if kind.Domain? then 4 * hits >= 3 * total && hits >= 3 else 10 * hits >= 7 * total
  }

  function PriorityOf(kind: Kind, hits: nat, total: nat): nat {
    match kind
    case ExactEmail => if 10 * hits >= 9 * total && hits >= 5 then 1 else 2
    case Domain => 2
    case Pattern => if hits >= 5 then 2 else 3
  }

  /** What a proposal means, without reference to how it is found. */
  predicate Warranted(kind: Kind, docs: seq<Doc>, p: Proposal) {
    && p.Evidence? && p.kind == kind && IsCode(p.code)
    && p.total == Total(kind, docs, p.key) && p.hits == Hits(kind, docs, p.key, p.code)
    && Passes(kind, p.hits, p.total) && p.priority == PriorityOf(kind, p.hits, p.total)
  }

  // ---------------------------------------------------------------- majority

  lemma {:induction false} TwoCodes(kind: Kind, docs: seq<Doc>, key: string, a: string, b: string, n: nat)
    requires n <= |docs| && a != b
    ensures HitsTo(kind, docs, key, a, n) + HitsTo(kind, docs, key, b, n) <= TotalTo(kind, docs, key, n)
  {
    if n > 0 { TwoCodes(kind, docs, key, a, b, n - 1); }
  }

  /** A proposal that passes names the unique most frequent code of its key. */
  lemma WarrantedIsMajority(kind: Kind, docs: seq<Doc>, p: Proposal, other: string)
    requires Warranted(kind, docs, p) && other != p.code
    ensures Hits(kind, docs, p.key, other) < p.hits
  {
    TwoCodes(kind, docs, p.key, p.code, other, |docs|);
  }

  // ---------------------------------------------------------------- counting

  /** A `Counter`: codes in the order they were first seen, with their counts. */
  type Counter = seq<(string, nat)>

  function Get(c: Counter, code: string): nat {
    if c == [] then 0 else if c[0].0 == code then c[0].1 else Get(c[1..], code)
  }

  function SumOf(c: Counter): nat {
    if c == [] then 0 else c[0].1 + SumOf(c[1..])
  }

  /** `counter[code] += 1`. */
  function Bump(c: Counter, code: string): Counter {
    if c == [] then [(code, 1)]
    else if c[0].0 == code then [(code, c[0].1 + 1)] + c[1..]
    else [c[0]] + Bump(c[1..], code)
  }

  ghost predicate DistinctCodes(c: Counter) {
    forall i, j :: 0 <= i < j < |c| ==> c[i].0 != c[j].0
  }

  lemma {:induction false} BumpMeaning(c: Counter, code: string)
    requires DistinctCodes(c)
    ensures DistinctCodes(Bump(c, code)) && Bump(c, code) != []
    ensures SumOf(Bump(c, code)) == SumOf(c) + 1
    ensures forall x :: Get(Bump(c, code), x) == Get(c, x) + if x == code then 1 else 0
    ensures forall e :: e in Bump(c, code) ==> e.0 == code || e in c
  {
    if c != [] && c[0].0 != code { BumpMeaning(c[1..], code); }
  }

  lemma {:induction false} GetAt(c: Counter, i: nat)
    requires DistinctCodes(c) && i < |c|
    ensures Get(c, c[i].0) == c[i].1
  {
    if i > 0 { GetAt(c[1..], i - 1); }
  }

  lemma {:induction false} GetAbsent(c: Counter, code: string)
    ensures Get(c, code) > 0 ==> exists i :: 0 <= i < |c| && c[i].0 == code && c[i].1 == Get(c, code)
  {
    if c != [] && c[0].0 != code {
      GetAbsent(c[1..], code);
      if Get(c, code) > 0 {
        var i :| 0 <= i < |c[1..]| && c[1..][i].0 == code && c[1..][i].1 == Get(c, code);
        assert c[i + 1].0 == code;
      }
    }
  }

  /** `most_common(1)[0]`: the first entry with the greatest count. */
  method MostCommon(c: Counter) returns (top: (string, nat))
    requires c != [] && DistinctCodes(c)
    ensures top.1 == Get(c, top.0)
    ensures forall x :: Get(c, x) <= top.1
  {
    top := c[0];
    ghost var at := 0;
    for i := 1 to |c|
      invariant 0 <= at < |c| && top == c[at]
      invariant forall j :: 0 <= j < i ==> c[j].1 <= top.1
    {
      if c[i].1 > top.1 {
        top := c[i];
        at := i;
      }
    }
    GetAt(c, at);
    forall x ensures Get(c, x) <= top.1 { GetAbsent(c, x); }
  }

  /** The counter of a key says how its letters among the first `n` were routed. */
  ghost predicate TellsTo(kind: Kind, docs: seq<Doc>, key: string, c: Counter, n: nat)
    requires n <= |docs|
  {
    && DistinctCodes(c) && SumOf(c) == TotalTo(kind, docs, key, n)
    && forall code :: Get(c, code) == HitsTo(kind, docs, key, code, n)
  }

  function CounterIn(table: map<string, Counter>, key: string): Counter {
    if key in table then table[key] else []
  }

  /** A table lists its keys once, each with a counter that is not empty. */
  ghost predicate WellKept(table: map<string, Counter>, order: seq<string>) {
    && Distinct(order) && (forall key :: key in table <==> key in order)
    && (forall key :: key in table ==> table[key] != [])
  }

  lemma TellsNext(kind: Kind, docs: seq<Doc>, key: string, c: Counter, n: nat)
    requires n < |docs| && TellsTo(kind, docs, key, c, n)
    ensures key in KeysIn(kind, docs[n]) ==> TellsTo(kind, docs, key, Bump(c, docs[n].dest), n + 1)
    ensures key !in KeysIn(kind, docs[n]) ==> TellsTo(kind, docs, key, c, n + 1)
  {
    BumpMeaning(c, docs[n].dest);
  }

  function Bumped(c: Counter, code: string, done: bool): Counter {
    if done then Bump(c, code) else c
  }

  lemma StaysWellKept(table: map<string, Counter>, order: seq<string>, key: string, c: Counter)
    requires WellKept(table, order) && c != []
    ensures WellKept(table[key := c], if key in table then order else order + [key])
  {
  }

  /** The order of the keys after those of one letter. */
  function OrderAfter(order: seq<string>, keys: seq<string>, n: nat): seq<string>
    requires n <= |keys|
  {
    if n == 0 then order else WithNew(OrderAfter(order, keys, n - 1), keys[n - 1])
  }

  lemma {:induction false} OrderIsFirst(all: seq<string>, keys: seq<string>, n: nat)
    requires n <= |keys|
    ensures FirstOccurrences(all + keys[..n]) == OrderAfter(FirstOccurrences(all), keys, n)
  {
    if n == 0 {
      assert all + keys[..n] == all;
    } else {
      OrderIsFirst(all, keys, n - 1);
      FirstOccurrencesSnoc(all + keys[..n - 1], keys[n - 1]);
      assert all + keys[..n] == all + keys[..n - 1] + [keys[n - 1]];
    }
  }

  function KeysFor(kind: Kind): Doc -> seq<string> {
    d => KeysIn(kind, d)
  }

  /** The keys of the first `n` letters, one after another. */
  function AllKeys(kind: Kind, docs: seq<Doc>, n: nat): seq<string>
    requires n <= |docs|
  {
    CollectFrom([], docs, KeysFor(kind), n)
  }

  lemma OrderNext(kind: Kind, docs: seq<Doc>, n: nat)
    requires n < |docs|
    ensures var keys := KeysIn(kind, docs[n]);
      FirstOccurrences(AllKeys(kind, docs, n + 1)) == OrderAfter(FirstOccurrences(AllKeys(kind, docs, n)), keys, |keys|)
  {
    var keys := KeysIn(kind, docs[n]);
    OrderIsFirst(AllKeys(kind, docs, n), keys, |keys|);
    assert keys[..|keys|] == keys;
  }

  /** `after` is `table` with one more letter to `code` under each of the first `n` keys. */
  ghost predicate BumpedTo(table: map<string, Counter>, code: string, keys: seq<string>, n: nat,
                           after: map<string, Counter>)
    requires n <= |keys|
  {
    forall key :: CounterIn(after, key) == Bumped(CounterIn(table, key), code, key in keys[..n])
  }

  lemma BumpedNext(table: map<string, Counter>, code: string, keys: seq<string>, n: nat, after: map<string, Counter>)
    requires n < |keys| && Distinct(keys) && BumpedTo(table, code, keys, n, after)
    ensures BumpedTo(table, code, keys, n + 1, after[keys[n] := Bump(CounterIn(after, keys[n]), code)])
    ensures CounterIn(after, keys[n]) == CounterIn(table, keys[n])
  {
    assert keys[..n + 1] == keys[..n] + [keys[n]] && keys[n] !in keys[..n];
  }

  /** One letter to `code` counts under every key of `keys`. */
  method BumpAll(code: string, keys: seq<string>, table: map<string, Counter>, order: seq<string>)
    returns (table': map<string, Counter>, order': seq<string>)
    requires Distinct(keys) && WellKept(table, order) && forall key :: DistinctCodes(CounterIn(table, key))
    ensures WellKept(table', order') && order' == OrderAfter(order, keys, |keys|)
    ensures BumpedTo(table, code, keys, |keys|, table')
  {
    table', order' := table, order;
    for j := 0 to |keys|
      invariant WellKept(table', order') && order' == OrderAfter(order, keys, j)
      invariant BumpedTo(table, code, keys, j, table')
    {
      var key := keys[j];
      BumpedNext(table, code, keys, j, table');
      BumpMeaning(CounterIn(table, key), code);
      StaysWellKept(table', order', key, Bump(CounterIn(table', key), code));
      if key !in table' { order' := order' + [key]; }
      table' := table'[key := Bump(CounterIn(table', key), code)];
    }
  }

  /** The table and the order of its keys after the first `n` letters. */
  ghost predicate CountedTo(kind: Kind, docs: seq<Doc>, table: map<string, Counter>, order: seq<string>, n: nat)
    requires n <= |docs|
  {
    && WellKept(table, order) && order == FirstOccurrences(AllKeys(kind, docs, n))
    && forall key :: TellsTo(kind, docs, key, CounterIn(table, key), n)
  }

  lemma NothingCounted(kind: Kind, docs: seq<Doc>)
    ensures CountedTo(kind, docs, map[], [], 0)
  {
  }

  lemma CountedNext(kind: Kind, docs: seq<Doc>, table: map<string, Counter>, order: seq<string>, n: nat,
                    table': map<string, Counter>, order': seq<string>)
    requires n < |docs| && CountedTo(kind, docs, table, order, n) && WellKept(table', order')
    requires var keys := KeysIn(kind, docs[n]);
      order' == OrderAfter(order, keys, |keys|) && BumpedTo(table, docs[n].dest, keys, |keys|, table')
    ensures CountedTo(kind, docs, table', order', n + 1)
  {
    var keys := KeysIn(kind, docs[n]);
    assert keys[..|keys|] == keys;
    OrderNext(kind, docs, n);
    forall key ensures TellsTo(kind, docs, key, CounterIn(table', key), n + 1) {
      TellsNext(kind, docs, key, CounterIn(table, key), n);
    }
  }

  /** Counts one letter under every key it has. */
  method CountDoc(kind: Kind, docs: seq<Doc>, n: nat, table: map<string, Counter>, order: seq<string>)
    returns (table': map<string, Counter>, order': seq<string>)
    requires n < |docs| && Distinct(KeysIn(kind, docs[n])) && CountedTo(kind, docs, table, order, n)
    ensures CountedTo(kind, docs, table', order', n + 1)
  {
    forall key ensures DistinctCodes(CounterIn(table, key)) {
      assert TellsTo(kind, docs, key, CounterIn(table, key), n);
    }
    table', order' := BumpAll(docs[n].dest, KeysIn(kind, docs[n]), table, order);
    CountedNext(kind, docs, table, order, n, table', order');
  }

  /** One table of the script: `domain_dest`, `theme_dest` or `recipient_dest`. */
  method CountAll(kind: Kind, docs: seq<Doc>) returns (table: map<string, Counter>, order: seq<string>)
    requires Proper(docs)
    ensures CountedTo(kind, docs, table, order, |docs|)
  {
    table, order := map[], [];
    NothingCounted(kind, docs);
    for n := 0 to |docs|
      invariant CountedTo(kind, docs, table, order, n)
    {
      table, order := CountDoc(kind, docs, n, table, order);
    }
  }

  // ---------------------------------------------------------------- proposing

  function RankBy(first: int, count: int): Rank {
    (first, -count)
  }

  /** The proposals of one kind are exactly the warranted ones. */
  ghost predicate Complete(kind: Kind, docs: seq<Doc>, ps: seq<Proposal>) {
    forall p :: p in ps <==> Warranted(kind, docs, p)
  }

  /** The proposals for some keys are exactly the warranted ones. */
  ghost predicate CompleteFor(kind: Kind, docs: seq<Doc>, keys: seq<string>, ps: seq<Proposal>) {
    forall p :: p in ps <==> Warranted(kind, docs, p) && p.key in keys
  }

  lemma CompleteNext(kind: Kind, docs: seq<Doc>, keys: seq<string>, key: string, ps: seq<Proposal>, more: seq<Proposal>)
    requires CompleteFor(kind, docs, keys, ps) && CompleteFor(kind, docs, [key], more)
    ensures CompleteFor(kind, docs, keys + [key], ps + more)
  {
  }

  method ProposeFor(kind: Kind, docs: seq<Doc>, key: string, c: Counter) returns (ps: seq<Proposal>)
    requires c != [] && TellsTo(kind, docs, key, c, |docs|)
    ensures CompleteFor(kind, docs, [key], ps) && |ps| <= 1
  {
    ps := [];
    var total := SumOf(c);
    if total < 3 {
      return;
    }
    var top := MostCommon(c);
    forall p | Warranted(kind, docs, p) && p.key == key ensures p.code == top.0 {
      assert Get(c, p.code) <= top.1;
      if p.code != top.0 { WarrantedIsMajority(kind, docs, p, top.0); }
    }
    if IsCode(top.0) && Passes(kind, top.1, total) {
      ps := [Evidence(PriorityOf(kind, top.1, total), kind, key, top.0, top.1, total)];
    }
  }

  ghost predicate KeyAmong(keys: seq<string>, key: string) {
    exists a :: 0 <= a < |keys| && keys[a] == key
  }

  ghost predicate KeyBefore(keys: seq<string>, k: string, l: string) {
    exists a, b :: 0 <= a < b < |keys| && keys[a] == k && keys[b] == l
  }

  /** Proposals for the keys, in the order of the keys. */
  ghost predicate InKeyOrder(keys: seq<string>, ps: seq<Proposal>) {
    && (forall x :: 0 <= x < |ps| ==> ps[x].Evidence? && KeyAmong(keys, ps[x].key))
    && (forall x, y :: 0 <= x < y < |ps| ==> KeyBefore(keys, ps[x].key, ps[y].key))
  }

  lemma KeyOrderNext(keys: seq<string>, key: string, ps: seq<Proposal>, more: seq<Proposal>)
    requires InKeyOrder(keys, ps) && |more| <= 1
    requires forall x :: 0 <= x < |more| ==> more[x].Evidence? && more[x].key == key
    ensures InKeyOrder(keys + [key], ps + more)
  {
    var keys', ps' := keys + [key], ps + more;
    assert keys'[|keys|] == key;
    forall x | 0 <= x < |ps'| ensures KeyAmong(keys', ps'[x].key) {
      if x < |ps| { AmongMore(keys, key, ps[x].key); }
    }
    forall x, y | 0 <= x < y < |ps'| ensures KeyBefore(keys', ps'[x].key, ps'[y].key) {
      assert KeyAmong(keys, ps[x].key);
      AmongMore(keys, key, ps[x].key);
      if y < |ps| { BeforeMore(keys, key, ps[x].key, ps[y].key); }
    }
  }

  lemma AmongMore(keys: seq<string>, key: string, k: string)
    requires KeyAmong(keys, k)
    ensures KeyAmong(keys + [key], k) && KeyBefore(keys + [key], k, key)
  {
    var a :| 0 <= a < |keys| && keys[a] == k;
    assert (keys + [key])[a] == k && (keys + [key])[|keys|] == key;
  }

  lemma BeforeMore(keys: seq<string>, key: string, k: string, l: string)
    requires KeyBefore(keys, k, l)
    ensures KeyBefore(keys + [key], k, l)
  {
    var a, b :| 0 <= a < b < |keys| && keys[a] == k && keys[b] == l;
    assert (keys + [key])[a] == k && (keys + [key])[b] == l;
  }

  lemma KeysNext(kind: Kind, docs: seq<Doc>, keys: seq<string>, i: nat, ps: seq<Proposal>, more: seq<Proposal>)
    requires i < |keys| && CompleteFor(kind, docs, keys[..i], ps) && InKeyOrder(keys[..i], ps)
    requires CompleteFor(kind, docs, [keys[i]], more) && |more| <= 1
    ensures CompleteFor(kind, docs, keys[..i + 1], ps + more) && InKeyOrder(keys[..i + 1], ps + more)
  {
    assert keys[..i + 1] == keys[..i] + [keys[i]];
    CompleteNext(kind, docs, keys[..i], keys[i], ps, more);
    forall x | 0 <= x < |more| ensures more[x].Evidence? && more[x].key == keys[i] {
      assert more[x] in more;
    }
    KeyOrderNext(keys[..i], keys[i], ps, more);
  }

  /** The loop over the keys of one table. */
  method ProposeKeys(kind: Kind, docs: seq<Doc>, table: map<string, Counter>, keys: seq<string>)
    returns (ps: seq<Proposal>)
    requires forall i :: 0 <= i < |keys| ==>
      keys[i] in table && table[keys[i]] != [] && TellsTo(kind, docs, keys[i], table[keys[i]], |docs|)
    ensures CompleteFor(kind, docs, keys, ps) && InKeyOrder(keys, ps)
  {
    ps := [];
    for i := 0 to |keys|
      invariant CompleteFor(kind, docs, keys[..i], ps) && InKeyOrder(keys[..i], ps)
    {
      var more := ProposeFor(kind, docs, keys[i], table[keys[i]]);
      KeysNext(kind, docs, keys, i, ps, more);
      ps := ps + more;
    }
    assert keys[..|keys|] == keys;
  }

  /** `k` occurs in the list before `l` does. */
  ghost predicate SeenBefore(all: seq<string>, k: string, l: string) {
    exists m :: 0 <= m < |all| && all[m] == k && l !in all[..m + 1]
  }

  lemma {:induction false} FirstOccurrencesInOrder(all: seq<string>, n: nat, x: nat, y: nat)
    requires n <= |all| && x < y < |FirstOccurrencesTo(all, n)|
    ensures SeenBefore(all, FirstOccurrencesTo(all, n)[x], FirstOccurrencesTo(all, n)[y])
  {
    var before := FirstOccurrencesTo(all, n - 1);
    if y < |before| {
      FirstOccurrencesInOrder(all, n - 1, x, y);
    } else {
      FirstOccurrencesMeaning(all, n - 1);
      assert before[x] in all[..n - 1];
      var m :| 0 <= m < n - 1 && all[..n - 1][m] == before[x];
      assert all[..m + 1] == all[..n - 1][..m + 1];
      assert all[m] == before[x] && all[n - 1] !in all[..m + 1];
    }
  }

  /** The busiest keys first; of two with as many letters, the one that was seen first. */
  ghost predicate BusiestFirst(kind: Kind, docs: seq<Doc>, keys: seq<string>) {
    forall a, b :: 0 <= a < b < |keys| ==> BusierKey(kind, docs, keys[a], keys[b])
  }

  ghost predicate BusierKey(kind: Kind, docs: seq<Doc>, k: string, l: string) {
    || Total(kind, docs, k) > Total(kind, docs, l)
    || (Total(kind, docs, k) == Total(kind, docs, l) && SeenBefore(AllKeys(kind, docs, |docs|), k, l))
  }

  /** `sorted(table.items(), key=lambda x: -sum(x[1].values()))`. */
  method KeysByTotal(kind: Kind, docs: seq<Doc>, table: map<string, Counter>, order: seq<string>)
    returns (keys: seq<string>)
    requires order == FirstOccurrences(AllKeys(kind, docs, |docs|))
    requires forall key :: TellsTo(kind, docs, key, CounterIn(table, key), |docs|)
    ensures (forall key :: key in keys <==> key in order) && BusiestFirst(kind, docs, keys)
  {
    var rank := key => RankBy(0, SumOf(CounterIn(table, key)));
    keys := Sort(order, rank);
    SortMeaning(order, rank);
    ghost var places := SortIsStable(order, rank, |order|);
    forall a, b | 0 <= a < b < |keys| ensures BusierKey(kind, docs, keys[a], keys[b]) {
      assert TellsTo(kind, docs, keys[a], CounterIn(table, keys[a]), |docs|);
      assert TellsTo(kind, docs, keys[b], CounterIn(table, keys[b]), |docs|);
      assert ComesFirst(order, rank, places[a], places[b]);
      if places[a] < places[b] {
        FirstOccurrencesInOrder(AllKeys(kind, docs, |docs|), |AllKeys(kind, docs, |docs|)|, places[a], places[b]);
      }
    }
  }

  ghost predicate KindInOrder(kind: Kind, docs: seq<Doc>, ps: seq<Proposal>) {
    forall x, y :: 0 <= x < y < |ps| ==> ps[x].Evidence? && ps[y].Evidence?
                                         && BusierKey(kind, docs, ps[x].key, ps[y].key)
  }

  /** One of the three tables, busiest keys first. */
  method ProposeKind(kind: Kind, docs: seq<Doc>) returns (ps: seq<Proposal>)
    requires Proper(docs)
    ensures Complete(kind, docs, ps)
    ensures KindInOrder(kind, docs, ps)
  {
    var table, order := CountAll(kind, docs);
    var keys := KeysByTotal(kind, docs, table, order);
    forall i | 0 <= i < |keys|
      ensures keys[i] in table && table[keys[i]] != [] && TellsTo(kind, docs, keys[i], table[keys[i]], |docs|)
    {
      assert keys[i] in keys && TellsTo(kind, docs, keys[i], CounterIn(table, keys[i]), |docs|);
    }
    ps := ProposeKeys(kind, docs, table, keys);
    forall p | Warranted(kind, docs, p) ensures p.key in keys {
      assert TellsTo(kind, docs, p.key, CounterIn(table, p.key), |docs|);
    }
  }

  // ---------------------------------------------------------------- the list handed out

  function RankOf(p: Proposal): Rank {
    RankBy(p.priority, p.hits)
  }

  /** `p` may stand before `q`: a smaller priority, or the same and no fewer letters. */
  predicate NoWorse(p: Proposal, q: Proposal) {
    p.priority < q.priority || (p.priority == q.priority && p.hits >= q.hits)
  }

  function TypeName(kind: Kind): string {
    match kind
    case ExactEmail => "exact_email"
    case Domain => "exact_email_or_domain_content"
    case Pattern => "content_rules"
  }

  /** What a proposal is recognised by: its type and subject, and the two codes of a correction. */
  function KeyOf(p: Proposal): (string, string, string, string) {
    match p
    case Evidence(_, kind, key, _, _, _) => (TypeName(kind), key, "", "")
    case Remark(_, name, agent, chosen, _) => (name, if agent == "" then chosen else "", agent, chosen)
  }

  function Cut(ps: seq<Proposal>): seq<Proposal> {
    if |ps| <= 25 then ps else ps[..25]
  }

  function HandedOut(proposals: seq<Proposal>): seq<Proposal> {
    var sorted := Sort(proposals, RankOf);
    Cut(DedupeTo(sorted, KeyOf, |sorted|))
  }

  /** Dropping later duplicates keeps the order. */
  lemma {:induction false} DedupeKeepsOrder(s: seq<Proposal>, n: nat)
    requires n <= |s| && Ordered(s, RankOf)
    ensures Ordered(DedupeTo(s, KeyOf, n), RankOf)
    ensures forall x :: x in DedupeTo(s, KeyOf, n) ==> x in s[..n]
  {
    if n > 0 {
      DedupeKeepsOrder(s, n - 1);
      var d := DedupeTo(s, KeyOf, n - 1);
      assert s[..n] == s[..n - 1] + [s[n - 1]];
      forall i | 0 <= i < |d| ensures !RankLess(RankOf(s[n - 1]), RankOf(d[i])) {
        assert d[i] in d;
        var k :| 0 <= k < n - 1 && s[..n - 1][k] == d[i];
      }
    }
  }

  /** The list has a proposal of the same key that ranks no worse. */
  ghost predicate Represented(list: seq<Proposal>, p: Proposal) {
    exists q :: q in list && KeyOf(q) == KeyOf(p) && NoWorse(q, p)
  }

  /** The list is full, and nothing in it ranks worse. */
  ghost predicate Outranked(list: seq<Proposal>, p: Proposal) {
    |list| == 25 && forall q :: q in list ==> NoWorse(q, p)
  }

  lemma RepresentativeOf(sorted: seq<Proposal>, j: nat) returns (q: Proposal)
    requires Ordered(sorted, RankOf) && j < |sorted|
    ensures q in DedupeTo(sorted, KeyOf, |sorted|) && KeyOf(q) == KeyOf(sorted[j])
    ensures !RankLess(RankOf(sorted[j]), RankOf(q))
  {
    q := KeptBefore(sorted, KeyOf, j);
    var h :| 0 <= h < |sorted[..j + 1]| && sorted[..j + 1][h] == q;
    assert sorted[h] == q;
  }

  lemma CutKeepsTheBest(uniq: seq<Proposal>, q: Proposal, p: Proposal)
    requires Ordered(uniq, RankOf) && q in uniq && KeyOf(q) == KeyOf(p) && !RankLess(RankOf(p), RankOf(q))
    ensures Represented(Cut(uniq), p) || Outranked(Cut(uniq), p)
  {
    var list := Cut(uniq);
    if q !in list {
      var i :| 0 <= i < |uniq| && uniq[i] == q;
      assert forall m :: 0 <= m < |list| ==> uniq[m] == list[m] && list[m] in list;
      forall x | x in list ensures NoWorse(x, p) {
        var m :| 0 <= m < |list| && list[m] == x;
        assert uniq[m] == x && !RankLess(RankOf(uniq[i]), RankOf(uniq[m]));
      }
    }
  }

  lemma FieldsInOrder(list: seq<Proposal>)
    requires Ordered(list, RankOf)
    ensures forall i, j :: 0 <= i < j < |list| ==> NoWorse(list[i], list[j])
  {
    forall i, j | 0 <= i < j < |list| ensures NoWorse(list[i], list[j]) {
      assert !RankLess(RankOf(list[j]), RankOf(list[i]));
    }
  }

  ghost predicate OnItsSubject(list: seq<Proposal>, p: Proposal) {
    exists q :: q in list && KeyOf(q) == KeyOf(p)
  }

  lemma EachIsRepresented(proposals: seq<Proposal>, p: Proposal)
    requires p in proposals
    ensures var list := HandedOut(proposals);
      && (Represented(list, p) || Outranked(list, p))
      && (|list| < 25 ==> OnItsSubject(list, p))
  {
    var sorted := Sort(proposals, RankOf);
    var uniq := DedupeTo(sorted, KeyOf, |sorted|);
    SortMeaning(proposals, RankOf);
    DedupeKeepsOrder(sorted, |sorted|);
    assert p in sorted;
    var j :| 0 <= j < |sorted| && sorted[j] == p;
    var q := RepresentativeOf(sorted, j);
    CutKeepsTheBest(uniq, q, p);
  }

  /** The list is ordered by priority and descending count, has one proposal for each key, at most 25
      of them, and nothing that was not proposed. A proposal that is not in it has there another of its
      key that ranks no worse, or the list is full of such that rank no worse. */
  lemma HandedOutGuarantees(proposals: seq<Proposal>)
    ensures var list := HandedOut(proposals);
      && |list| <= 25 && DistinctKeys(list, KeyOf)
      && (forall i, j :: 0 <= i < j < |list| ==> NoWorse(list[i], list[j]))
      && (forall p :: p in list ==> p in proposals)
      && (|list| < 25 ==> forall p :: p in proposals ==> OnItsSubject(list, p))
      && (forall p :: p in proposals ==> Represented(list, p) || Outranked(list, p))
  {
    var sorted, list := Sort(proposals, RankOf), HandedOut(proposals);
    SortMeaning(proposals, RankOf);
    DedupeKeepsOrder(sorted, |sorted|);
    DedupeIsDistinct(sorted, KeyOf, |sorted|);
    assert sorted[..|sorted|] == sorted;
    FieldsInOrder(list);
    forall p | p in proposals
      ensures Represented(list, p) || Outranked(list, p)
      ensures |list| < 25 ==> OnItsSubject(list, p)
    {
      EachIsRepresented(proposals, p);
    }
  }

  // ---------------------------------------------------------------- order of the letters

  lemma {:induction false} CountSplit<T>(s: seq<T>, p: T -> bool, i: nat, n: nat)
    requires i < n <= |s|
    ensures CountTo(s, p, n) == CountTo(s[..i] + s[i + 1..], p, n - 1) + if p(s[i]) then 1 else 0
  {
    var rest := s[..i] + s[i + 1..];
    if n == i + 1 {
      CountAgrees(s, rest, p, i);
    } else {
      CountSplit(s, p, i, n - 1);
      assert rest[n - 2] == s[n - 1];
    }
  }

  lemma {:induction false} CountAgrees<T>(a: seq<T>, b: seq<T>, p: T -> bool, n: nat)
    requires n <= |a| && n <= |b| && forall i :: 0 <= i < n ==> a[i] == b[i]
    ensures CountTo(a, p, n) == CountTo(b, p, n)
  {
    if n > 0 { CountAgrees(a, b, p, n - 1); }
  }

  /** Taking the last element of `a` out of both leaves the same elements. */
  lemma LastTakenOut<T>(a: seq<T>, b: seq<T>) returns (i: nat)
    requires multiset(a) == multiset(b) && a != []
    ensures i < |b| && b[i] == a[|a| - 1] && multiset(a[..|a| - 1]) == multiset(b[..i] + b[i + 1..])
  {
    var x, front := a[|a| - 1], a[..|a| - 1];
    assert a == front + [x];
    assert x in multiset(b);
    i :| 0 <= i < |b| && b[i] == x;
    assert b == b[..i] + [x] + b[i + 1..];
    assert multiset(front) == multiset(a) - multiset{x};
    assert multiset(b[..i] + b[i + 1..]) == multiset(b) - multiset{x};
  }

  /** A count does not depend on the order. */
  lemma {:induction false} CountPermuted<T>(a: seq<T>, b: seq<T>, p: T -> bool)
    requires multiset(a) == multiset(b)
    ensures Count(a, p) == Count(b, p)
  {
    assert |a| == |multiset(a)| == |multiset(b)| == |b|;
    if a != [] {
      var i := LastTakenOut(a, b);
      var front := a[..|a| - 1];
      CountPermuted(front, b[..i] + b[i + 1..], p);
      CountSplit(b, p, i, |b|);
      CountAgrees(a, front, p, |front|);
    }
  }

  /** The proposals before the cut are the same for every ordering of the letters. */
  lemma OrderOfLettersIrrelevant(kind: Kind, a: seq<Doc>, b: seq<Doc>, p: Proposal)
    requires multiset(a) == multiset(b)
    ensures Warranted(kind, a, p) <==> Warranted(kind, b, p)
  {
    if p.Evidence? {
      CountPermuted(a, b, Under(kind, p.key));
      CountPermuted(a, b, RoutedTo(kind, p.key, p.code));
    }
  }
}
