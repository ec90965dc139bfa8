/** Folding the topics of retired departments into their successors
    (scripts/cleanup_legacy_departments.py, `_merge_keywords` and `patch_tz_topics`). */
module TopicMerge {
  import opened Seqs

  /** `str.lower`: any function on strings. */
  type Lower = string -> string

  function LowersTo(lower: Lower, s: seq<string>, n: nat): set<string>
    requires n <= |s|
  {
    if n == 0 then {} else LowersTo(lower, s, n - 1) + {lower(s[n - 1])}
  }

  /** The set of keywords a list stands for, ignoring case. */
  function Lowers(lower: Lower, s: seq<string>): set<string> {
    LowersTo(lower, s, |s|)
  }

  /** `if s.lower() not in seen`. */
  function WithKeyword(lower: Lower, s: seq<string>, x: string): seq<string> {
    if lower(x) in Lowers(lower, s) then s else s + [x]
  }

  /** `existing` after the first `n` keywords of `extra` were merged in. */
  function MergedTo(lower: Lower, existing: seq<string>, extra: seq<string>, n: nat): seq<string>
    requires n <= |extra|
  {
    if n == 0 then existing else WithKeyword(lower, MergedTo(lower, existing, extra, n - 1), extra[n - 1])
  }

  function Merged(lower: Lower, existing: seq<string>, extra: seq<string>): seq<string> {
    MergedTo(lower, existing, extra, |extra|)
  }

  lemma {:induction false} LowersPrefix(lower: Lower, a: seq<string>, b: seq<string>, n: nat)
    requires n <= |a|
    ensures LowersTo(lower, a + b, n) == LowersTo(lower, a, n)
  {
    if n > 0 { LowersPrefix(lower, a, b, n - 1); }
  }

  lemma LowersSnoc(lower: Lower, s: seq<string>, x: string)
    ensures Lowers(lower, s + [x]) == Lowers(lower, s) + {lower(x)}
  {
    LowersPrefix(lower, s, [x], |s|);
  }

  lemma {:induction false} LowersConcat(lower: Lower, a: seq<string>, b: seq<string>, n: nat)
    requires n <= |b|
    ensures LowersTo(lower, a + b, |a| + n) == Lowers(lower, a) + LowersTo(lower, b, n)
  {
    if n > 0 { LowersConcat(lower, a, b, n - 1); } else { LowersPrefix(lower, a, b, |a|); }
  }

  /** Some element of the list reads the same, ignoring case. */
  ghost predicate ReadsIn(lower: Lower, s: seq<string>, x: string) {
    exists i :: 0 <= i < |s| && lower(s[i]) == lower(x)
  }

  /** Element `i` is the first to read as it does, in the own list and then in the other one. */
  ghost predicate IsNew(lower: Lower, existing: seq<string>, extra: seq<string>, i: nat)
    requires i < |extra|
  {
    !ReadsIn(lower, existing, extra[i]) && !ReadsIn(lower, extra[..i], extra[i])
  }

  /** `merged` is the own list and behind it, in order, the new elements among the first `n`, at `at`. */
  ghost predicate JoinsTo(lower: Lower, existing: seq<string>, extra: seq<string>, n: nat, merged: seq<string>,
                          at: seq<nat>)
    requires n <= |extra|
  {
    && |merged| == |existing| + |at| && existing <= merged
    && (forall x :: 0 <= x < |at| ==> at[x] < n && merged[|existing| + x] == extra[at[x]])
    && (forall x, y :: 0 <= x < y < |at| ==> at[x] < at[y])
    && (forall i: nat :: i < n ==> (i in at <==> IsNew(lower, existing, extra, i)))
  }

  ghost predicate Joins(lower: Lower, existing: seq<string>, extra: seq<string>, merged: seq<string>) {
    exists at :: JoinsTo(lower, existing, extra, |extra|, merged, at)
  }

  lemma {:induction false} LowersMeaning(lower: Lower, s: seq<string>, n: nat, x: string)
    requires n <= |s|
    ensures lower(x) in LowersTo(lower, s, n) <==> ReadsIn(lower, s[..n], x)
  {
    if n > 0 {
      LowersMeaning(lower, s, n - 1, x);
      assert s[..n] == s[..n - 1] + [s[n - 1]];
      ReadsInSnoc(lower, s[..n - 1], s[n - 1], x);
    }
  }

  lemma ReadsInSnoc(lower: Lower, s: seq<string>, y: string, x: string)
    ensures ReadsIn(lower, s + [y], x) <==> ReadsIn(lower, s, x) || lower(y) == lower(x)
  {
    if ReadsIn(lower, s, x) {
      var i :| 0 <= i < |s| && lower(s[i]) == lower(x);
      assert (s + [y])[i] == s[i];
    }
    assert (s + [y])[|s|] == y;
  }

  /** The keyword is new exactly when the merged list does not have it. */
  lemma NewMeansUnseen(lower: Lower, existing: seq<string>, extra: seq<string>, n: nat)
    requires n < |extra|
    ensures IsNew(lower, existing, extra, n) <==>
      lower(extra[n]) !in Lowers(lower, MergedTo(lower, existing, extra, n))
  {
    MergedIsUnion(lower, existing, extra, n);
    LowersMeaning(lower, existing, |existing|, extra[n]);
    LowersMeaning(lower, extra, n, extra[n]);
    assert existing[..|existing|] == existing;
  }

  lemma JoinsNext(lower: Lower, existing: seq<string>, extra: seq<string>, n: nat, merged: seq<string>, at: seq<nat>)
    returns (at': seq<nat>)
    requires n < |extra| && JoinsTo(lower, existing, extra, n, merged, at)
    ensures var merged' := if IsNew(lower, existing, extra, n) then merged + [extra[n]] else merged;
      JoinsTo(lower, existing, extra, n + 1, merged', at')
  {
    at' := if IsNew(lower, existing, extra, n) then at + [n] else at;
    forall i: nat | i < n + 1 ensures i in at' <==> IsNew(lower, existing, extra, i) {
      if i == n && IsNew(lower, existing, extra, n) { assert at'[|at|] == n; }
    }
  }

  lemma {:induction false} MergedJoinsTo(lower: Lower, existing: seq<string>, extra: seq<string>, n: nat)
    returns (at: seq<nat>)
    requires n <= |extra|
    ensures JoinsTo(lower, existing, extra, n, MergedTo(lower, existing, extra, n), at)
  {
    at := [];
    if n > 0 {
      at := MergedJoinsTo(lower, existing, extra, n - 1);
      NewMeansUnseen(lower, existing, extra, n - 1);
      at := JoinsNext(lower, existing, extra, n - 1, MergedTo(lower, existing, extra, n - 1), at);
    }
  }

  /** A merge keeps the own list and adds, in order, what reads differently from all before it. */
  lemma MergedJoins(lower: Lower, existing: seq<string>, extra: seq<string>)
    ensures Joins(lower, existing, extra, Merged(lower, existing, extra))
  {
    var at := MergedJoinsTo(lower, existing, extra, |extra|);
  }

  /** `_merge_keywords`. */
  method MergeKeywords(lower: Lower, existing: seq<string>, extra: seq<string>) returns (merged: seq<string>)
    ensures merged == Merged(lower, existing, extra) && Joins(lower, existing, extra, merged)
  {
    MergedJoins(lower, existing, extra);
    merged := existing;
    var seen: set<string> := {};
    for i := 0 to |existing|
      invariant seen == LowersTo(lower, existing, i)
    {
      seen := seen + {lower(existing[i])};
    }
    for i := 0 to |extra|
      invariant merged == MergedTo(lower, existing, extra, i) && seen == Lowers(lower, merged)
    {
      if lower(extra[i]) !in seen {
        LowersSnoc(lower, merged, extra[i]);
        merged := merged + [extra[i]];
        seen := seen + {lower(extra[i])};
      }
    }
  }

  // ---------------------------------------------------------------- laws of merging

  /** The target's own list stays a prefix, and what the merged list stands for is the union. */
  lemma {:induction false} MergedIsUnion(lower: Lower, existing: seq<string>, extra: seq<string>, n: nat)
    requires n <= |extra|
    ensures existing <= MergedTo(lower, existing, extra, n)
    ensures Lowers(lower, MergedTo(lower, existing, extra, n)) == Lowers(lower, existing) + LowersTo(lower, extra, n)
  {
    if n > 0 {
      MergedIsUnion(lower, existing, extra, n - 1);
      LowersSnoc(lower, MergedTo(lower, existing, extra, n - 1), extra[n - 1]);
    }
  }

  lemma {:induction false} MergedIsFold(lower: Lower, existing: seq<string>, extra: seq<string>, n: nat)
    requires n <= |extra|
    ensures MergedTo(lower, existing, extra, n) == Fold(existing, extra, (s, x) => WithKeyword(lower, s, x), n)
  {
    if n > 0 { MergedIsFold(lower, existing, extra, n - 1); }
  }

  /** Two merges one after the other are one merge of the concatenation. */
  lemma MergedConcat(lower: Lower, existing: seq<string>, a: seq<string>, b: seq<string>)
    ensures Merged(lower, Merged(lower, existing, a), b) == Merged(lower, existing, a + b)
  {
    MergedIsFold(lower, existing, a, |a|);
    MergedIsFold(lower, Merged(lower, existing, a), b, |b|);
    MergedIsFold(lower, existing, a + b, |a + b|);
    FoldConcat(existing, a, b, (s, x) => WithKeyword(lower, s, x), |b|);
  }

  /** Merging what is already there, in any order and any repetition, changes nothing. */
  lemma {:induction false} MergedNothingNew(lower: Lower, existing: seq<string>, extra: seq<string>, n: nat)
    requires n <= |extra| && LowersTo(lower, extra, n) <= Lowers(lower, existing)
    ensures MergedTo(lower, existing, extra, n) == existing
  {
    if n > 0 { MergedNothingNew(lower, existing, extra, n - 1); }
  }

  /** The order in which sources are merged does not affect what the list stands for, and merging them
      again changes nothing. */
  lemma MergeOrderIrrelevant(lower: Lower, existing: seq<string>, a: seq<string>, b: seq<string>)
    ensures var ab := Merged(lower, Merged(lower, existing, a), b);
      var ba := Merged(lower, Merged(lower, existing, b), a);
      && Lowers(lower, ab) == Lowers(lower, ba)
      && Merged(lower, ab, a) == ab && Merged(lower, ab, b) == ab
  {
    MergedIsUnion(lower, existing, a, |a|);
    MergedIsUnion(lower, existing, b, |b|);
    MergedIsUnion(lower, Merged(lower, existing, a), b, |b|);
    MergedIsUnion(lower, Merged(lower, existing, b), a, |a|);
    var ab := Merged(lower, Merged(lower, existing, a), b);
    MergedNothingNew(lower, ab, a, |a|);
    MergedNothingNew(lower, ab, b, |b|);
  }

  // ---------------------------------------------------------------- the topics file

  datatype Topics = Topics(topics: seq<string>, names: seq<string>, emails: seq<string>, defaults: Option<string>)

  function TopicsPart(e: Topics): seq<string> {
    e.topics
  }

  function NamesPart(e: Topics): seq<string> {
    e.names
  }

  function EmailsPart(e: Topics): seq<string> {
    e.emails
  }

  const NO_TOPICS := Topics([], [], [], None)

  /** One `merge_into(target, source)` call of the patch. */
  datatype Move = Move(target: string, source: string)

  function MergedTopics(lower: Lower, own: Topics, src: Topics): Topics {
    Topics(Merged(lower, own.topics, src.topics), Merged(lower, own.names, src.names),
           Merged(lower, own.emails, src.emails), if own.defaults.Some? then own.defaults else src.defaults)
  }

  function EntryOf(data: map<string, Topics>, code: string): Topics {
    if code in data then data[code] else NO_TOPICS
  }

  function MergedInto(lower: Lower, data: map<string, Topics>, m: Move): map<string, Topics> {
    if m.source !in data then data
    else
      var rest := data - {m.source};
      rest[m.target := MergedTopics(lower, EntryOf(rest, m.target), data[m.source])]
  }

  function MovedTo(lower: Lower, data: map<string, Topics>, moves: seq<Move>, n: nat): map<string, Topics>
    requires n <= |moves|
  {
    if n == 0 then data else MergedInto(lower, MovedTo(lower, data, moves, n - 1), moves[n - 1])
  }

  /** `patch_tz_topics`: all merges, then the keys that go without a successor. */
  function PatchedTopics(lower: Lower, data: map<string, Topics>, moves: seq<Move>, dropped: set<string>)
    : map<string, Topics>
  {
    MovedTo(lower, data, moves, |moves|) - dropped
  }

  class TopicsFile {
    var data: map<string, Topics>

    method MergeInto(lower: Lower, target: string, source: string)
      modifies this
      ensures data == MergedInto(lower, old(data), Move(target, source))
    {
      if source !in data { return; }
      var src := data[source];
      data := data - {source};
      if target !in data { data := data[target := NO_TOPICS]; }
      var tgt := data[target];
      var topics := MergeKeywords(lower, tgt.topics, src.topics);
      var names := MergeKeywords(lower, tgt.names, src.names);
      var emails := MergeKeywords(lower, tgt.emails, src.emails);
      tgt := tgt.(topics := topics, names := names, emails := emails);
      if src.defaults.Some? && tgt.defaults.None? { tgt := tgt.(defaults := src.defaults); }
      data := data[target := tgt];
    }

    method PatchTzTopics(lower: Lower, moves: seq<Move>, dropped: set<string>)
      modifies this
      ensures data == PatchedTopics(lower, old(data), moves, dropped)
    {
      for i := 0 to |moves|
        invariant data == MovedTo(lower, old(data), moves, i)
      {
        MergeInto(lower, moves[i].target, moves[i].source);
      }
      data := data - dropped;
    }
  }

  /** The moves of a patch: every source moves once, and no source is itself a target. */
  ghost predicate ProperMoves(moves: seq<Move>) {
    && (forall i, j :: 0 <= i < j < |moves| ==> moves[i].source != moves[j].source)
    && (forall i, j :: 0 <= i < |moves| && 0 <= j < |moves| ==> moves[i].source != moves[j].target)
  }

  predicate IsSource(moves: seq<Move>, code: string) {
    exists i :: 0 <= i < |moves| && moves[i].source == code
  }

  /** What the sources of `code` among the first `n` moves contribute, one after the other. */
  function Gathered(data: map<string, Topics>, moves: seq<Move>, code: string, n: nat, part: Topics -> seq<string>)
    : seq<string>
    requires n <= |moves|
  {
    if n == 0 then []
    else if moves[n - 1].target == code && moves[n - 1].source in data then
      Gathered(data, moves, code, n - 1, part) + part(data[moves[n - 1].source])
    else Gathered(data, moves, code, n - 1, part)
  }

  /** The task defaults of the first source of `code` that has any. */
  function InheritedDefaults(data: map<string, Topics>, moves: seq<Move>, code: string, n: nat): Option<string>
    requires n <= |moves|
  {
    if n == 0 then None
    else if InheritedDefaults(data, moves, code, n - 1).Some? then InheritedDefaults(data, moves, code, n - 1)
    else if moves[n - 1].target == code && moves[n - 1].source in data then data[moves[n - 1].source].defaults
    else None
  }

  /** Sources that have not moved yet are untouched; sources that have are gone. */
  lemma {:induction false} SourcesWait(lower: Lower, data: map<string, Topics>, moves: seq<Move>, n: nat, i: nat)
    requires ProperMoves(moves) && n <= |moves| && i < |moves|
    ensures var now, s := MovedTo(lower, data, moves, n), moves[i].source;
      if i < n then s !in now else (s in now <==> s in data) && (s in data ==> now[s] == data[s])
  {
    if n > 0 { SourcesWait(lower, data, moves, n - 1, i); }
  }

  lemma MergedIntoAt(lower: Lower, data: map<string, Topics>, m: Move, code: string)
    requires code != m.source
    ensures EntryOf(MergedInto(lower, data, m), code) ==
      if m.target == code && m.source in data then MergedTopics(lower, EntryOf(data, code), data[m.source])
      else EntryOf(data, code)
  {
  }

  /** One more source is one more piece of what is merged. */
  lemma GatheredNext(lower: Lower, data: map<string, Topics>, moves: seq<Move>, code: string, n: nat,
                     part: Topics -> seq<string>, own: seq<string>)
    requires n < |moves|
    ensures var before, m := Merged(lower, own, Gathered(data, moves, code, n, part)), moves[n];
      Merged(lower, own, Gathered(data, moves, code, n + 1, part)) ==
        if m.target == code && m.source in data then Merged(lower, before, part(data[m.source])) else before
  {
    var m := moves[n];
    if m.target == code && m.source in data {
      MergedConcat(lower, own, Gathered(data, moves, code, n, part), part(data[m.source]));
    }
  }

  /** One merge, into the department's own lists, of everything its sources among the first `n` moves held;
      its task defaults are its own, or else those of its first source that has any. */
  function WithSources(lower: Lower, data: map<string, Topics>, moves: seq<Move>, code: string, n: nat): Topics
    requires n <= |moves|
  {
    var own := EntryOf(data, code);
    Topics(Merged(lower, own.topics, Gathered(data, moves, code, n, TopicsPart)),
           Merged(lower, own.names, Gathered(data, moves, code, n, NamesPart)),
           Merged(lower, own.emails, Gathered(data, moves, code, n, EmailsPart)),
           if own.defaults.Some? then own.defaults else InheritedDefaults(data, moves, code, n))
  }

  lemma WithNextSource(lower: Lower, data: map<string, Topics>, moves: seq<Move>, code: string, n: nat)
    requires n < |moves|
    ensures var before, m := WithSources(lower, data, moves, code, n), moves[n];
      WithSources(lower, data, moves, code, n + 1) ==
        if m.target == code && m.source in data then MergedTopics(lower, before, data[m.source]) else before
  {
    var own := EntryOf(data, code);
    GatheredNext(lower, data, moves, code, n, TopicsPart, own.topics);
    GatheredNext(lower, data, moves, code, n, NamesPart, own.names);
    GatheredNext(lower, data, moves, code, n, EmailsPart, own.emails);
  }

  lemma OneMoveGathers(lower: Lower, data: map<string, Topics>, now: map<string, Topics>, moves: seq<Move>,
                       code: string, n: nat)
    requires n < |moves| && moves[n].source != code && EntryOf(now, code) == WithSources(lower, data, moves, code, n)
    requires moves[n].source in now <==> moves[n].source in data
    requires moves[n].source in data ==> now[moves[n].source] == data[moves[n].source]
    ensures EntryOf(MergedInto(lower, now, moves[n]), code) == WithSources(lower, data, moves, code, n + 1)
  {
    MergedIntoAt(lower, now, moves[n], code);
    WithNextSource(lower, data, moves, code, n);
  }

  lemma WithNoSource(lower: Lower, data: map<string, Topics>, moves: seq<Move>, code: string)
    ensures WithSources(lower, data, moves, code, 0) == EntryOf(data, code)
  {
  }

  lemma NextMoveGathers(lower: Lower, data: map<string, Topics>, moves: seq<Move>, code: string, n: nat)
    requires ProperMoves(moves) && n < |moves| && !IsSource(moves, code)
    requires EntryOf(MovedTo(lower, data, moves, n), code) == WithSources(lower, data, moves, code, n)
    ensures EntryOf(MovedTo(lower, data, moves, n + 1), code) == WithSources(lower, data, moves, code, n + 1)
  {
    SourcesWait(lower, data, moves, n, n);
    OneMoveGathers(lower, data, MovedTo(lower, data, moves, n), moves, code, n);
  }

  /** The merges, carried out one by one on the file, leave a department that is not a source with one
      merge of everything its sources held. */
  lemma {:induction false} TargetsGather(lower: Lower, data: map<string, Topics>, moves: seq<Move>, code: string,
                                         n: nat)
    requires ProperMoves(moves) && n <= |moves| && !IsSource(moves, code)
    ensures EntryOf(MovedTo(lower, data, moves, n), code) == WithSources(lower, data, moves, code, n)
  {
    if n == 0 {
      WithNoSource(lower, data, moves, code);
    } else {
      TargetsGather(lower, data, moves, code, n - 1);
      NextMoveGathers(lower, data, moves, code, n - 1);
    }
  }

  lemma {:induction false} GatheredHolds(lower: Lower, data: map<string, Topics>, moves: seq<Move>, n: nat, i: nat,
                                         part: Topics -> seq<string>)
    requires i < n <= |moves| && moves[i].source in data
    ensures Lowers(lower, part(data[moves[i].source]))
         <= Lowers(lower, Gathered(data, moves, moves[i].target, n, part))
  {
    var code, m := moves[i].target, moves[n - 1];
    if m.target == code && m.source in data {
      LowersConcat(lower, Gathered(data, moves, code, n - 1, part), part(data[m.source]), |part(data[m.source])|);
    }
    if i < n - 1 { GatheredHolds(lower, data, moves, n - 1, i, part); }
  }

  /** The entry a source is folded into stands for everything the source stood for, and its own list
      is still in front. */
  lemma NothingLost(lower: Lower, data: map<string, Topics>, moves: seq<Move>, dropped: set<string>, i: nat)
    requires ProperMoves(moves) && i < |moves| && moves[i].source in data && moves[i].target !in dropped
    ensures var own, src := EntryOf(data, moves[i].target), data[moves[i].source];
      var now := EntryOf(PatchedTopics(lower, data, moves, dropped), moves[i].target);
      && own.topics <= now.topics && Lowers(lower, src.topics) <= Lowers(lower, now.topics)
      && own.names <= now.names && Lowers(lower, src.names) <= Lowers(lower, now.names)
      && own.emails <= now.emails && Lowers(lower, src.emails) <= Lowers(lower, now.emails)
  {
    var code, n, own := moves[i].target, |moves|, EntryOf(data, moves[i].target);
    TargetsGather(lower, data, moves, code, n);
    Unioned(lower, data, moves, i, own.topics, TopicsPart);
    Unioned(lower, data, moves, i, own.names, NamesPart);
    Unioned(lower, data, moves, i, own.emails, EmailsPart);
  }

  lemma Unioned(lower: Lower, data: map<string, Topics>, moves: seq<Move>, i: nat, own: seq<string>,
                part: Topics -> seq<string>)
    requires i < |moves| && moves[i].source in data
    ensures var all := Merged(lower, own, Gathered(data, moves, moves[i].target, |moves|, part));
      own <= all && Lowers(lower, part(data[moves[i].source])) <= Lowers(lower, all)
  {
    var extra := Gathered(data, moves, moves[i].target, |moves|, part);
    GatheredHolds(lower, data, moves, |moves|, i, part);
    MergedIsUnion(lower, own, extra, |extra|);
  }

  // ---------------------------------------------------------------- what a target stands for

  /** A keyword of some source that is folded into `code`, ignoring case. */
  ghost predicate Contributed(lower: Lower, data: map<string, Topics>, moves: seq<Move>, code: string, n: nat,
                              part: Topics -> seq<string>, x: string)
    requires n <= |moves|
  {
    exists i :: 0 <= i < n && moves[i].target == code && moves[i].source in data
                && x in Lowers(lower, part(data[moves[i].source]))
  }

  lemma {:induction false} GatheredMeaning(lower: Lower, data: map<string, Topics>, moves: seq<Move>, code: string,
                                           n: nat, part: Topics -> seq<string>, x: string)
    requires n <= |moves|
    ensures x in Lowers(lower, Gathered(data, moves, code, n, part)) <==>
      Contributed(lower, data, moves, code, n, part, x)
  {
    if n > 0 {
      var m := moves[n - 1];
      GatheredMeaning(lower, data, moves, code, n - 1, part, x);
      if m.target == code && m.source in data {
        var more := part(data[m.source]);
        LowersConcat(lower, Gathered(data, moves, code, n - 1, part), more, |more|);
      }
    }
  }

  /** `now` stands for exactly what `own` and the sources of `code` stood for. */
  ghost predicate IsUnion(lower: Lower, data: map<string, Topics>, moves: seq<Move>, code: string,
                          part: Topics -> seq<string>, own: seq<string>, now: seq<string>)
  {
    forall x :: x in Lowers(lower, now) <==>
      x in Lowers(lower, own) || Contributed(lower, data, moves, code, |moves|, part, x)
  }

  lemma MergedGathered(lower: Lower, data: map<string, Topics>, moves: seq<Move>, code: string,
                       part: Topics -> seq<string>, own: seq<string>)
    ensures IsUnion(lower, data, moves, code, part, own,
                    Merged(lower, own, Gathered(data, moves, code, |moves|, part)))
  {
    var extra := Gathered(data, moves, code, |moves|, part);
    MergedIsUnion(lower, own, extra, |extra|);
    forall x ensures x in Lowers(lower, extra) <==> Contributed(lower, data, moves, code, |moves|, part, x) {
      GatheredMeaning(lower, data, moves, code, |moves|, part, x);
    }
  }

  /** After the whole patch, a department that is not a source and not dropped stands, in each of its
      three lists, for exactly what it and its sources stood for. */
  lemma TargetIsUnion(lower: Lower, data: map<string, Topics>, moves: seq<Move>, dropped: set<string>, code: string)
    requires ProperMoves(moves) && !IsSource(moves, code) && code !in dropped
    ensures var own, now := EntryOf(data, code), EntryOf(PatchedTopics(lower, data, moves, dropped), code);
      && IsUnion(lower, data, moves, code, TopicsPart, own.topics, now.topics)
      && IsUnion(lower, data, moves, code, NamesPart, own.names, now.names)
      && IsUnion(lower, data, moves, code, EmailsPart, own.emails, now.emails)
  {
    var own := EntryOf(data, code);
    TargetsGather(lower, data, moves, code, |moves|);
    MergedGathered(lower, data, moves, code, TopicsPart, own.topics);
    MergedGathered(lower, data, moves, code, NamesPart, own.names);
    MergedGathered(lower, data, moves, code, EmailsPart, own.emails);
  }

  lemma ContributedInAnyOrder(lower: Lower, data: map<string, Topics>, a: seq<Move>, b: seq<Move>, code: string,
                              part: Topics -> seq<string>, x: string)
    requires (forall m :: m in a ==> m in b) && Contributed(lower, data, a, code, |a|, part, x)
    ensures Contributed(lower, data, b, code, |b|, part, x)
  {
    var i :| 0 <= i < |a| && a[i].target == code && a[i].source in data
             && x in Lowers(lower, part(data[a[i].source]));
    assert a[i] in b;
    var j :| 0 <= j < |b| && b[j] == a[i];
  }

  lemma UnionInAnyOrder(lower: Lower, data: map<string, Topics>, a: seq<Move>, b: seq<Move>, code: string,
                        part: Topics -> seq<string>, own: seq<string>, nowA: seq<string>, nowB: seq<string>)
    requires forall m :: m in a <==> m in b
    requires IsUnion(lower, data, a, code, part, own, nowA) && IsUnion(lower, data, b, code, part, own, nowB)
    ensures Lowers(lower, nowA) == Lowers(lower, nowB)
  {
    forall x ensures x in Lowers(lower, nowA) <==> x in Lowers(lower, nowB) {
      if Contributed(lower, data, a, code, |a|, part, x) { ContributedInAnyOrder(lower, data, a, b, code, part, x); }
      if Contributed(lower, data, b, code, |b|, part, x) { ContributedInAnyOrder(lower, data, b, a, code, part, x); }
    }
  }

  /** The order of the merges does not affect the file: the same departments, each standing for the same
      topics, names and e-mails. */
  lemma OrderOfMovesIrrelevant(lower: Lower, data: map<string, Topics>, a: seq<Move>, b: seq<Move>,
                               dropped: set<string>, code: string)
    requires ProperMoves(a) && ProperMoves(b) && forall m :: m in a <==> m in b
    ensures var x, y := PatchedTopics(lower, data, a, dropped), PatchedTopics(lower, data, b, dropped);
      && (code in x <==> code in y)
      && Lowers(lower, EntryOf(x, code).topics) == Lowers(lower, EntryOf(y, code).topics)
      && Lowers(lower, EntryOf(x, code).names) == Lowers(lower, EntryOf(y, code).names)
      && Lowers(lower, EntryOf(x, code).emails) == Lowers(lower, EntryOf(y, code).emails)
  {
    SameSources(data, a, b, code);
    SameSources(data, b, a, code);
    PatchedKeys(lower, data, a, dropped, code);
    PatchedKeys(lower, data, b, dropped, code);
    if code !in dropped && !IsSource(a, code) {
      var own := EntryOf(data, code);
      var x := EntryOf(PatchedTopics(lower, data, a, dropped), code);
      var y := EntryOf(PatchedTopics(lower, data, b, dropped), code);
      TargetIsUnion(lower, data, a, dropped, code);
      TargetIsUnion(lower, data, b, dropped, code);
      UnionInAnyOrder(lower, data, a, b, code, TopicsPart, own.topics, x.topics, y.topics);
      UnionInAnyOrder(lower, data, a, b, code, NamesPart, own.names, x.names, y.names);
      UnionInAnyOrder(lower, data, a, b, code, EmailsPart, own.emails, x.emails, y.emails);
    }
  }

  lemma SameSources(data: map<string, Topics>, a: seq<Move>, b: seq<Move>, code: string)
    requires forall m :: m in a ==> m in b
    ensures IsSource(a, code) ==> IsSource(b, code)
    ensures Receives(data, a, code, |a|) ==> Receives(data, b, code, |b|)
  {
    if IsSource(a, code) {
      var i :| 0 <= i < |a| && a[i].source == code;
      assert a[i] in b;
    }
    if Receives(data, a, code, |a|) {
      var i :| 0 <= i < |a| && a[i].target == code && a[i].source in data;
      assert a[i] in b;
    }
  }

  // ---------------------------------------------------------------- which departments are left

  predicate Receives(data: map<string, Topics>, moves: seq<Move>, code: string, n: nat)
    requires n <= |moves|
  {
    exists i :: 0 <= i < n && moves[i].target == code && moves[i].source in data
  }

  lemma {:induction false} MovedKeys(lower: Lower, data: map<string, Topics>, moves: seq<Move>, code: string, n: nat)
    requires ProperMoves(moves) && n <= |moves| && !IsSource(moves, code)
    ensures code in MovedTo(lower, data, moves, n) <==> code in data || Receives(data, moves, code, n)
  {
    if n > 0 {
      MovedKeys(lower, data, moves, code, n - 1);
      SourcesWait(lower, data, moves, n - 1, n - 1);
      assert moves[n - 1].source != code;
    }
  }

  /** Which departments the file knows afterwards: no source and no dropped code, every other one it
      knew, and every target that received something. */
  lemma PatchedKeys(lower: Lower, data: map<string, Topics>, moves: seq<Move>, dropped: set<string>, code: string)
    requires ProperMoves(moves)
    ensures code in PatchedTopics(lower, data, moves, dropped) <==>
      code !in dropped && !IsSource(moves, code) && (code in data || Receives(data, moves, code, |moves|))
  {
    if IsSource(moves, code) {
      var i :| 0 <= i < |moves| && moves[i].source == code;
      SourcesWait(lower, data, moves, |moves|, i);
    } else {
      MovedKeys(lower, data, moves, code, |moves|);
    }
  }

  lemma {:induction false} NothingToMove(lower: Lower, data: map<string, Topics>, moves: seq<Move>, n: nat)
    requires n <= |moves| && forall i :: 0 <= i < |moves| ==> moves[i].source !in data
    ensures MovedTo(lower, data, moves, n) == data
  {
    if n > 0 { NothingToMove(lower, data, moves, n - 1); }
  }

  /** A second patch changes nothing. */
  lemma PatchTopicsSettles(lower: Lower, data: map<string, Topics>, moves: seq<Move>, dropped: set<string>)
    requires ProperMoves(moves)
    ensures var after := PatchedTopics(lower, data, moves, dropped);
      PatchedTopics(lower, after, moves, dropped) == after
  {
    var after := PatchedTopics(lower, data, moves, dropped);
    forall i | 0 <= i < |moves| ensures moves[i].source !in after {
      SourcesWait(lower, data, moves, |moves|, i);
    }
    NothingToMove(lower, after, moves, |moves|);
  }

  /** The merges of the script, in order. */
  const SCRIPT_MOVES: seq<Move> := [
    Move("00-000163", "00-000037"), Move("00-000163", "00-000109"), Move("00-000163", "00-000122"),
    Move("00-000042", "00-000139"), Move("00-000042", "00-000140"), Move("00-000042", "00-000141"),
    Move("00-000155", "00-000075"), Move("00-000155", "00-000105"), Move("00-000063", "00-000016")]

  lemma ScriptSourcesAreDistinct()
    ensures forall i, j :: 0 <= i < j < |SCRIPT_MOVES| ==> SCRIPT_MOVES[i].source != SCRIPT_MOVES[j].source
  {
    var m := SCRIPT_MOVES;
    forall i, j | 0 <= i < j < |m| ensures m[i].source != m[j].source {
      assert m[i].source[6..] != m[j].source[6..];
    }
  }

  lemma ScriptTargetsAreNoSources()
    ensures forall i, j :: 0 <= i < |SCRIPT_MOVES| && 0 <= j < |SCRIPT_MOVES| ==>
      SCRIPT_MOVES[i].source != SCRIPT_MOVES[j].target
  {
    var m := SCRIPT_MOVES;
    forall i, j | 0 <= i < |m| && 0 <= j < |m| ensures m[i].source != m[j].target {
      assert m[i].source[6..] != m[j].target[6..];
    }
  }

  lemma ScriptMovesAreProper()
    ensures ProperMoves(SCRIPT_MOVES)
  {
    ScriptSourcesAreDistinct();
    ScriptTargetsAreNoSources();
  }

  /** The keys the script drops without a merge. */
  const SCRIPT_DROPPED: set<string> :=
    {"00-000034", "00-000032", "00-000120", "00-000131", "00-000045", "00-000081"}

  lemma ScriptTargetsAreKept(i: nat)
    requires i < |SCRIPT_MOVES|
    ensures SCRIPT_MOVES[i].target !in SCRIPT_DROPPED
  {
  }

  /** The script itself: no source of its merges loses a topic, a name or an e-mail. */
  lemma ScriptLosesNothing(lower: Lower, data: map<string, Topics>, i: nat)
    requires i < |SCRIPT_MOVES| && SCRIPT_MOVES[i].source in data
    ensures var src := data[SCRIPT_MOVES[i].source];
      var now := EntryOf(PatchedTopics(lower, data, SCRIPT_MOVES, SCRIPT_DROPPED), SCRIPT_MOVES[i].target);
      && Lowers(lower, src.topics) <= Lowers(lower, now.topics)
      && Lowers(lower, src.names) <= Lowers(lower, now.names)
      && Lowers(lower, src.emails) <= Lowers(lower, now.emails)
  {
    ScriptMovesAreProper();
    ScriptTargetsAreKept(i);
    NothingLost(lower, data, SCRIPT_MOVES, SCRIPT_DROPPED, i);
  }
}
