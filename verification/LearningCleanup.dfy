/** Cleaning the store of learned spam patterns (scripts/cleanup_learning_data.py, `cleanup_spam_learning`). */
module LearningCleanup {
  import opened Text
  import opened Seqs
  import opened Dedup

  datatype Entry = Entry(id: string, sender: string, tag: string, reason: string, keywords: seq<string>,
                         messageId: string)

  /** Helpers of other modules: the routing-escalation test, the normalisation of an entry with its label
      and reason settled, the recomputation of its keywords, and `str.lower`. */
  datatype Env = Env(isRouting: string -> bool, settle: Entry -> Entry, recompute: seq<string> -> seq<string>,
                     lower: string -> string)

  /** `_spam_entry_fingerprint`: the sorted keyword tuple is compared as a multiset. */
  datatype Fingerprint =
    | ByKeywords(sender: string, tag: string, bag: multiset<string>)
    | ByMessage(sender: string, tag: string, message: string)

  function FingerprintOf(env: Env, e: Entry): Fingerprint {
    var sender, tag := Strip(env.lower(e.sender)), if e.tag == "" then "spam" else e.tag;
    if e.keywords == [] then ByMessage(sender, tag, if e.messageId != "" then e.messageId else e.id)
    else ByKeywords(sender, tag, multiset(e.keywords))
  }

  /** An entry as it would be stored. */
  function Cleaned(env: Env, e: Entry): Entry {
    var n := env.settle(e);
    n.(keywords := env.recompute(n.keywords))
  }

  predicate IsEmpty(e: Entry) {
    e.keywords == [] && e.sender == ""
  }

  /** The candidates for the store: entries that are not routing corrections, cleaned, not empty. */
  function Candidate(env: Env, e: Entry): seq<Entry> {
    if env.isRouting(e.reason) || IsEmpty(Cleaned(env, e)) then [] else [Cleaned(env, e)]
  }

  function Cleaning(env: Env): Entry -> seq<Entry> {
    e => Candidate(env, e)
  }

  function Fingerprinting(env: Env): Entry -> Fingerprint {
    e => FingerprintOf(env, e)
  }

  function CandidatesTo(env: Env, es: seq<Entry>, n: nat): seq<Entry>
    requires n <= |es|
  {
    CollectFrom([], es, Cleaning(env), n)
  }

  /** What the store holds afterwards. */
  function Kept(env: Env, es: seq<Entry>): seq<Entry> {
    var all := CandidatesTo(env, es, |es|);
    DedupeTo(all, Fingerprinting(env), |all|)
  }

  /** The statistics the script reports; the three lists hold entry ids. */
  datatype Stats = Stats(before: nat, removed: nat, after: nat, keywordsBefore: nat, keywordsRemoved: int,
                         keywordsAfter: nat, routing: seq<string>, duplicates: seq<string>, empty: seq<string>)

  function KeywordsIn(es: seq<Entry>, n: nat): nat
    requires n <= |es|
  {
    if n == 0 then 0 else KeywordsIn(es, n - 1) + |es[n - 1].keywords|
  }

  lemma {:induction false} KeywordsPrefix(a: seq<Entry>, b: seq<Entry>, n: nat)
    requires n <= |a|
    ensures KeywordsIn(a + b, n) == KeywordsIn(a, n)
  {
    if n > 0 { KeywordsPrefix(a, b, n - 1); }
  }

  lemma KeywordsSnoc(es: seq<Entry>, x: Entry)
    ensures KeywordsIn(es + [x], |es| + 1) == KeywordsIn(es, |es|) + |x.keywords|
  {
    KeywordsPrefix(es, [x], |es|);
  }

  /** Keywords of the entries that are not routing corrections, as the store had them. */
  function KeywordsBefore(env: Env, es: seq<Entry>, n: nat): nat
    requires n <= |es|
  {
    if n == 0 then 0
    else KeywordsBefore(env, es, n - 1)
         + (if env.isRouting(es[n - 1].reason) then 0 else |env.settle(es[n - 1]).keywords|)
  }

  /** Entries before are the kept and the removed; the removed are in one of three lists; keywords
      balance; and the keywords of the kept entries are among the reported ones, all of them exactly
      when no entry with keywords was dropped. */
  ghost predicate Balanced(s: Stats, kept: seq<Entry>, dropped: nat, seen: nat) {
    && seen == |kept| + s.removed
    && s.removed == |s.routing| + |s.duplicates| + |s.empty|
    && s.keywordsBefore - s.keywordsRemoved == s.keywordsAfter
    && s.keywordsAfter == KeywordsIn(kept, |kept|) + dropped
  }

  /** Keywords of the candidates that deduplication drops. */
  function DroppedKeywords(env: Env, es: seq<Entry>): int {
    var all, kept := CandidatesTo(env, es, |es|), Kept(env, es);
    KeywordsIn(all, |all|) - KeywordsIn(kept, |kept|)
  }

  /** `kept` and `seen` are what the loop has after the candidates `all`; `dropped` counts the keywords
      of those it dropped as duplicates. */
  ghost predicate Agrees(env: Env, all: seq<Entry>, kept: seq<Entry>, seen: set<Fingerprint>, dropped: nat) {
    && kept == DedupeTo(all, Fingerprinting(env), |all|)
    && seen == KeysTo(all, Fingerprinting(env), |all|)
    && KeywordsIn(all, |all|) == KeywordsIn(kept, |kept|) + dropped
  }

  lemma AgreesWithDuplicate(env: Env, all: seq<Entry>, kept: seq<Entry>, seen: set<Fingerprint>, dropped: nat, x: Entry)
    requires Agrees(env, all, kept, seen, dropped) && FingerprintOf(env, x) in seen
    ensures Agrees(env, all + [x], kept, seen, dropped + |x.keywords|)
  {
    DedupeSnoc(all, Fingerprinting(env), x);
    KeywordsSnoc(all, x);
  }

  lemma AgreesWithNew(env: Env, all: seq<Entry>, kept: seq<Entry>, seen: set<Fingerprint>, dropped: nat, x: Entry)
    requires Agrees(env, all, kept, seen, dropped) && FingerprintOf(env, x) !in seen
    ensures Agrees(env, all + [x], kept + [x], seen + {FingerprintOf(env, x)}, dropped)
  {
    DedupeSnoc(all, Fingerprinting(env), x);
    KeywordsSnoc(all, x);
    KeywordsSnoc(kept, x);
  }

  function RoutingId(env: Env, e: Entry): seq<string> {
    if env.isRouting(e.reason) then [e.id] else []
  }

  function EmptyId(env: Env, e: Entry): seq<string> {
    if !env.isRouting(e.reason) && IsEmpty(Cleaned(env, e)) then [e.id] else []
  }

  function RoutingIds(env: Env): Entry -> seq<string> {
    e => RoutingId(env, e)
  }

  function EmptyIds(env: Env): Entry -> seq<string> {
    e => EmptyId(env, e)
  }

  function DuplicateId(env: Env, e: Entry, seen: set<Fingerprint>): seq<string> {
    if Candidate(env, e) != [] && FingerprintOf(env, Cleaned(env, e)) in seen then [e.id] else []
  }

  /** Ids of the entries whose fingerprint an earlier candidate has. */
  function DuplicateIdsTo(env: Env, es: seq<Entry>, n: nat): seq<string>
    requires n <= |es|
  {
    if n == 0 then []
    else
      var all := CandidatesTo(env, es, n - 1);
      DuplicateIdsTo(env, es, n - 1)
      + DuplicateId(env, es[n - 1], KeysTo(all, Fingerprinting(env), |all|))
  }

  /** The three lists name, in order, the entries removed for each reason. */
  ghost predicate ReasonsListed(env: Env, es: seq<Entry>, n: nat, s: Stats)
    requires n <= |es|
  {
    && s.routing == CollectFrom([], es, RoutingIds(env), n)
    && s.empty == CollectFrom([], es, EmptyIds(env), n)
    && s.duplicates == DuplicateIdsTo(env, es, n)
  }

  /** The second half of the loop body: a cleaned entry is empty, a duplicate, or kept. Its keywords are
      counted already. */
  method KeepEntry(env: Env, id: string, entry: Entry, kept: seq<Entry>, seen: set<Fingerprint>, stats: Stats,
                   ghost all: seq<Entry>, ghost dropped: nat, ghost n: nat)
    returns (kept': seq<Entry>, seen': set<Fingerprint>, stats': Stats, ghost dropped': nat)
    requires Agrees(env, all, kept, seen, dropped) && Balanced(stats, kept, dropped + |entry.keywords|, n)
    ensures Agrees(env, if IsEmpty(entry) then all else all + [entry], kept', seen', dropped')
    ensures Balanced(stats', kept', dropped', n + 1) && stats'.before == stats.before
    ensures stats'.routing == stats.routing && stats'.keywordsBefore == stats.keywordsBefore
    ensures stats'.empty == stats.empty + if IsEmpty(entry) then [id] else []
    ensures stats'.duplicates == stats.duplicates
      + if !IsEmpty(entry) && FingerprintOf(env, entry) in seen then [id] else []
  {
    kept', seen', dropped' := kept, seen, dropped;
    if entry.keywords == [] && entry.sender == "" {
      stats' := stats.(removed := stats.removed + 1, empty := stats.empty + [id]);
    } else if FingerprintOf(env, entry) in seen {
      AgreesWithDuplicate(env, all, kept, seen, dropped, entry);
      stats' := stats.(removed := stats.removed + 1, duplicates := stats.duplicates + [id]);
      dropped' := dropped + |entry.keywords|;
    } else {
      AgreesWithNew(env, all, kept, seen, dropped, entry);
      KeywordsSnoc(kept, entry);
      stats' := stats;
      seen' := seen + {FingerprintOf(env, entry)};
      kept' := kept + [entry];
    }
  }

  /** Body of the loop for one entry. */
  method CleanEntry(env: Env, entry: Entry, kept: seq<Entry>, seen: set<Fingerprint>, stats: Stats,
                    ghost all: seq<Entry>, ghost dropped: nat, ghost n: nat)
    returns (kept': seq<Entry>, seen': set<Fingerprint>, stats': Stats, ghost dropped': nat)
    requires Agrees(env, all, kept, seen, dropped) && Balanced(stats, kept, dropped, n)
    ensures Agrees(env, all + Candidate(env, entry), kept', seen', dropped') && Balanced(stats', kept', dropped', n + 1)
    ensures stats'.before == stats.before
    ensures stats'.keywordsBefore ==
      stats.keywordsBefore + if env.isRouting(entry.reason) then 0 else |env.settle(entry).keywords|
    ensures stats'.routing == stats.routing + RoutingId(env, entry)
    ensures stats'.empty == stats.empty + EmptyId(env, entry)
    ensures stats'.duplicates == stats.duplicates + DuplicateId(env, entry, seen)
  {
    assert all + [] == all;
    if env.isRouting(entry.reason) {
      kept', seen', dropped' := kept, seen, dropped;
      stats' := stats.(removed := stats.removed + 1, routing := stats.routing + [entry.id]);
    } else {
      var normalized := env.settle(entry);
      var oldKeywords := normalized.keywords;
      var newKeywords := env.recompute(oldKeywords);
      stats' := stats.(keywordsBefore := stats.keywordsBefore + |oldKeywords|,
                       keywordsRemoved := stats.keywordsRemoved + (|oldKeywords| - |newKeywords|),
                       keywordsAfter := stats.keywordsAfter + |newKeywords|);
      normalized := normalized.(keywords := newKeywords);
      kept', seen', stats', dropped' := KeepEntry(env, entry.id, normalized, kept, seen, stats', all, dropped, n);
    }
  }

  lemma NextReason(env: Env, es: seq<Entry>, n: nat, s: Stats, s': Stats, seen: set<Fingerprint>)
    requires n < |es| && ReasonsListed(env, es, n, s)
    requires seen == KeysTo(CandidatesTo(env, es, n), Fingerprinting(env), |CandidatesTo(env, es, n)|)
    requires s'.routing == s.routing + RoutingId(env, es[n]) && s'.empty == s.empty + EmptyId(env, es[n])
    requires s'.duplicates == s.duplicates + DuplicateId(env, es[n], seen)
    ensures ReasonsListed(env, es, n + 1, s')
  {
  }

  /** The loop over the entries. */
  method CleanAll(env: Env, entries: seq<Entry>) returns (kept: seq<Entry>, stats: Stats, ghost dropped: nat)
    ensures kept == Kept(env, entries) && stats.before == |entries|
    ensures dropped == DroppedKeywords(env, entries) && Balanced(stats, kept, dropped, |entries|)
    ensures ReasonsListed(env, entries, |entries|, stats)
    ensures stats.keywordsBefore == KeywordsBefore(env, entries, |entries|)
  {
    stats := Stats(|entries|, 0, 0, 0, 0, 0, [], [], []);
    kept := [];
    var seen: set<Fingerprint> := {};
    dropped := 0;
    for i := 0 to |entries|
      invariant stats.before == |entries| && Agrees(env, CandidatesTo(env, entries, i), kept, seen, dropped)
      invariant Balanced(stats, kept, dropped, i) && ReasonsListed(env, entries, i, stats)
      invariant stats.keywordsBefore == KeywordsBefore(env, entries, i)
    {
      ghost var earlier, known := stats, seen;
      kept, seen, stats, dropped :=
        CleanEntry(env, entries[i], kept, seen, stats, CandidatesTo(env, entries, i), dropped, i);
      NextReason(env, entries, i, earlier, stats, known);
    }
  }

  /** The store afterwards is an in-order sublist of the cleaned candidates: exactly those whose
      fingerprint had not occurred before, so fingerprints are pairwise distinct, and every candidate
      that is missing has an earlier one that is kept and has its fingerprint. */
  lemma KeptMeaning(env: Env, es: seq<Entry>)
    ensures var all, kept := CandidatesTo(env, es, |es|), Kept(env, es);
      && kept == FirstsTo(all, Fingerprinting(env), |all|)
      && DistinctKeys(kept, Fingerprinting(env))
      && EachKeptByThen(all, Fingerprinting(env), kept)
  {
    var all, key := CandidatesTo(env, es, |es|), Fingerprinting(env);
    DedupeKeepsFirsts(all, key, |all|);
    DedupeIsDistinct(all, key, |all|);
    AllKeptByThen(all, key);
  }
}
