/** The backfill of meeting registry events (scripts/add_registry_events_table.py): entries without an
    event get the events their payload tells of; the script may be run again. */
module EventBackfill {
  import opened Text
  import opened Seqs

  /** A moment, and a value found in the JSON payload of an entry; absent and not a string are alike. */
  type Moment = int
  datatype Value = Words(words: string) | NoWords

  datatype Kind = InvitationsSent | Rescheduled | Cancelled | ParticipantsUpdated | StageChanged

  datatype Stamp = Stamp(time: Value, actor: Value)

  /** A row of `meeting_registry_entries`; a payload that is not an object has no stamp at all. */
  datatype Entry = Entry(
    id: string, memo: string, invitationsSent: Option<Moment>, cancelledAt: Option<Moment>,
    rescheduled: Stamp, cancelled: Stamp, participantsUpdated: Stamp)

  datatype Event = Event(entry: string, memo: string, occurred: Moment, kind: Kind, actor: Option<string>)

  /** `datetime.fromisoformat` and `uuid.UUID`, None where they raise. */
  datatype Env = Env(fromIso: string -> Option<Moment>, uuid: string -> Option<string>)

  function ParseIso(env: Env, value: Value): Option<Moment> {
    if value.Words? && Strip(value.words) != "" then env.fromIso(Replace(Strip(value.words), "Z", "+00:00"))
    else None
  }

  function ActorOf(env: Env, raw: Value): Option<string> {
    if raw.Words? && Strip(raw.words) != "" then env.uuid(Strip(raw.words)) else None
  }

  /** When an event of the kind took place, as far as the entry tells. */
  function TimeOf(env: Env, e: Entry, kind: Kind): Option<Moment> {
    match kind
    case InvitationsSent => e.invitationsSent
    case Rescheduled => ParseIso(env, e.rescheduled.time)
    case Cancelled => ParseIso(env, e.cancelled.time)
    case ParticipantsUpdated => ParseIso(env, e.participantsUpdated.time)
    case StageChanged => None
  }

  function WhoDid(env: Env, e: Entry, kind: Kind): Option<string> {
    match kind
    case Rescheduled => ActorOf(env, e.rescheduled.actor)
    case Cancelled => ActorOf(env, e.cancelled.actor)
    case ParticipantsUpdated => ActorOf(env, e.participantsUpdated.actor)
    case _ => None
  }

  function EventIf(env: Env, e: Entry, kind: Kind): seq<Event> {
    var time := TimeOf(env, e, kind);
    if time.Some? then [Event(e.id, e.memo, time.value, kind, WhoDid(env, e, kind))] else []
  }

  function EventsOf(env: Env, e: Entry): seq<Event> {
    EventIf(env, e, InvitationsSent) + EventIf(env, e, Rescheduled) + EventIf(env, e, Cancelled)
    + EventIf(env, e, ParticipantsUpdated)
  }

  predicate HasEvent(events: seq<Event>, id: string) {
    exists k :: 0 <= k < |events| && events[k].entry == id
  }

  /** What a run inserts for an entry, given the events from before the run. */
  function Inserted(env: Env, before: seq<Event>, e: Entry): seq<Event> {
    if HasEvent(before, e.id) then [] else EventsOf(env, e)
  }

  function Stamped(env: Env, e: Entry): Entry {
    if e.cancelledAt.None? then e.(cancelledAt := TimeOf(env, e, Cancelled)) else e
  }

  function EntriesAfter(env: Env, entries: seq<Entry>): seq<Entry> {
    Map(entries, e => Stamped(env, e))
  }

  function Inserting(env: Env, before: seq<Event>): Entry -> seq<Event> {
    e => Inserted(env, before, e)
  }

  function EventsAfterTo(env: Env, entries: seq<Entry>, before: seq<Event>, n: nat): seq<Event>
    requires n <= |entries|
  {
    CollectFrom(before, entries, Inserting(env, before), n)
  }

  function EventsAfter(env: Env, entries: seq<Entry>, before: seq<Event>): seq<Event> {
    EventsAfterTo(env, entries, before, |entries|)
  }

  function BackfilledTo(entries: seq<Entry>, before: seq<Event>, n: nat): nat
    requires n <= |entries|
  {
    CountTo(entries, (e: Entry) => !HasEvent(before, e.id), n)
  }

  /** The primary key. */
  ghost predicate DistinctIds(entries: seq<Entry>) {
    forall i, j :: 0 <= i < j < |entries| ==> entries[i].id != entries[j].id
  }

  // ---------------------------------------------------------------- the script

  class Registry {
    var entries: seq<Entry>
    var events: seq<Event>

    /** `UPDATE ... SET cancelled_at = :cancelled_at WHERE id = :id AND cancelled_at IS NULL`. */
    method UpdateCancelled(id: string, at: Moment)
      modifies this`entries
      ensures |entries| == |old(entries)|
      ensures forall k :: 0 <= k < |entries| ==>
        entries[k].(cancelledAt := None) == old(entries)[k].(cancelledAt := None)
      ensures forall k :: 0 <= k < |entries| && (entries[k].id != id || old(entries)[k].cancelledAt.Some?) ==>
        entries[k] == old(entries)[k]
      ensures forall k :: 0 <= k < |entries| && entries[k].id == id && old(entries)[k].cancelledAt.None? ==>
        entries[k].cancelledAt == Some(at)
    {
      entries := Map(entries, e => SetIfNull(e, id, at));
    }

    method InsertEvents(env: Env, row: Entry)
      modifies this`events
      ensures events == old(events) + EventsOf(env, row)
    {
      var inserted: seq<Event> := [];
      if row.invitationsSent.Some? {
        inserted := inserted + [Event(row.id, row.memo, row.invitationsSent.value, InvitationsSent, None)];
      }
      var rescheduled := ParseIso(env, row.rescheduled.time);
      if rescheduled.Some? {
        inserted := inserted + [Event(row.id, row.memo, rescheduled.value, Rescheduled, WhoDid(env, row, Rescheduled))];
      }
      var cancelled := ParseIso(env, row.cancelled.time);
      if cancelled.Some? {
        inserted := inserted + [Event(row.id, row.memo, cancelled.value, Cancelled, WhoDid(env, row, Cancelled))];
      }
      var updated := ParseIso(env, row.participantsUpdated.time);
      if updated.Some? {
        inserted := inserted + [Event(row.id, row.memo, updated.value, ParticipantsUpdated,
                                  WhoDid(env, row, ParticipantsUpdated))];
      }
      events := events + inserted;
    }

    /** The body of the loop: it looks for events inserted so far. */
    method BackfillRow(env: Env, row: Entry) returns (filled: bool)
      modifies this
      ensures entries == UpdatedFor(env, old(entries), row)
      ensures events == old(events) + Inserted(env, old(events), row)
      ensures filled == !HasEvent(old(events), row.id)
    {
      var cancelled := ParseIso(env, row.cancelled.time);
      if cancelled.Some? {
        UpdateCancelled(row.id, cancelled.value);
        UpdateIsDetermined(old(entries), entries, row.id, cancelled.value);
      }
      filled := !HasEvent(events, row.id);
      if filled { InsertEvents(env, row); }
    }

    /** The loop runs over the entries as they were selected before it. */
    method Backfill(env: Env) returns (backfilled: nat)
      requires DistinctIds(entries)
      modifies this
      ensures entries == EntriesAfter(env, old(entries)) && DistinctIds(entries)
      ensures events == EventsAfter(env, old(entries), old(events))
      ensures backfilled == BackfilledTo(old(entries), old(events), |old(entries)|)
    {
      var rows := entries;
      ghost var before := events;
      backfilled := 0;
      for i := 0 to |rows|
        invariant entries == Rewritten(rows, e => Stamped(env, e), i)
        invariant events == EventsAfterTo(env, rows, before, i)
        invariant backfilled == BackfilledTo(rows, before, i)
      {
        NextRow(env, rows, i);
        SeesOnlyEarlierEvents(env, rows, before, i);
        var filled := BackfillRow(env, rows[i]);
        if filled { backfilled := backfilled + 1; }
      }
      RewrittenAll(rows, e => Stamped(env, e));
    }
  }

  function SetIfNull(e: Entry, id: string, at: Moment): Entry {
    if e.id == id && e.cancelledAt.None? then e.(cancelledAt := Some(at)) else e
  }

  /** The promises of the UPDATE leave one outcome. */
  lemma UpdateIsDetermined(before: seq<Entry>, after: seq<Entry>, id: string, at: Moment)
    requires |after| == |before|
    requires forall k :: 0 <= k < |after| ==> after[k].(cancelledAt := None) == before[k].(cancelledAt := None)
    requires forall k :: 0 <= k < |after| && (after[k].id != id || before[k].cancelledAt.Some?) ==>
      after[k] == before[k]
    requires forall k :: 0 <= k < |after| && after[k].id == id && before[k].cancelledAt.None? ==>
      after[k].cancelledAt == Some(at)
    ensures after == Map(before, e => SetIfNull(e, id, at))
  {
    forall k | 0 <= k < |after| ensures after[k] == SetIfNull(before[k], id, at) {
      assert after[k].(cancelledAt := None).(cancelledAt := after[k].cancelledAt) == after[k];
      assert before[k].(cancelledAt := None).(cancelledAt := after[k].cancelledAt)
          == before[k].(cancelledAt := after[k].cancelledAt);
      assert before[k].(cancelledAt := None).id == before[k].id;
    }
  }

  /** What the loop does to the entries for one row. */
  function UpdatedFor(env: Env, entries: seq<Entry>, row: Entry): seq<Entry> {
    var cancelled := TimeOf(env, row, Cancelled);
    if cancelled.Some? then Map(entries, e => SetIfNull(e, row.id, cancelled.value)) else entries
  }

  /** As ids are unique, the statement touches the row of the loop only. */
  lemma UpdateIsStamp(env: Env, rows: seq<Entry>, done: seq<Entry>, next: seq<Entry>, i: nat)
    requires DistinctIds(rows) && i < |rows| == |done|
    requires next == done[i := Stamped(env, rows[i])]
    requires done[i] == rows[i] && forall k :: 0 <= k < |rows| ==> done[k].id == rows[k].id
    ensures UpdatedFor(env, done, rows[i]) == next
  {
    var cancelled := TimeOf(env, rows[i], Cancelled);
    if cancelled.Some? {
      forall k | 0 <= k < |rows| ensures SetIfNull(done[k], rows[i].id, cancelled.value) == next[k] {
        assert done[k].id == rows[k].id;
      }
    } else {
      assert Stamped(env, rows[i]) == rows[i];
    }
  }

  lemma NextRow(env: Env, rows: seq<Entry>, i: nat)
    requires DistinctIds(rows) && i < |rows|
    ensures UpdatedFor(env, Rewritten(rows, e => Stamped(env, e), i), rows[i]) ==
      Rewritten(rows, e => Stamped(env, e), i + 1)
  {
    var f := e => Stamped(env, e);
    forall k | 0 <= k < |rows| ensures Rewritten(rows, f, i)[k].id == rows[k].id {
      RewrittenAt(rows, f, i, k);
    }
    RewrittenAt(rows, f, i, i);
    UpdateIsStamp(env, rows, Rewritten(rows, f, i), Rewritten(rows, f, i + 1), i);
  }

  /** An event is from before the run or of an entry the loop has passed. */
  lemma {:induction false} EventsOrigin(env: Env, rows: seq<Entry>, before: seq<Event>, n: nat, id: string)
    requires n <= |rows|
    ensures HasEvent(EventsAfterTo(env, rows, before, n), id) <==>
      HasEvent(before, id) || exists j :: 0 <= j < n && rows[j].id == id && EventsOf(env, rows[j]) != []
  {
    if n > 0 {
      EventsOrigin(env, rows, before, n - 1, id);
      HasEventConcat(EventsAfterTo(env, rows, before, n - 1), Inserted(env, before, rows[n - 1]), id);
      EventsOfEntry(env, rows[n - 1], id);
    }
  }

  lemma HasEventConcat(a: seq<Event>, b: seq<Event>, id: string)
    ensures HasEvent(a + b, id) <==> HasEvent(a, id) || HasEvent(b, id)
  {
    if HasEvent(a, id) {
      var k :| 0 <= k < |a| && a[k].entry == id;
      assert (a + b)[k].entry == id;
    }
    if HasEvent(b, id) {
      var k :| 0 <= k < |b| && b[k].entry == id;
      assert (a + b)[|a| + k].entry == id;
    }
  }

  lemma EventsOfEntry(env: Env, e: Entry, id: string)
    ensures HasEvent(EventsOf(env, e), id) <==> id == e.id && EventsOf(env, e) != []
  {
    if EventsOf(env, e) != [] { assert EventsOf(env, e)[0].entry == e.id; }
  }

  /** The look-up of an entry's events is not misled by what the run has inserted for others. */
  lemma SeesOnlyEarlierEvents(env: Env, rows: seq<Entry>, before: seq<Event>, i: nat)
    requires DistinctIds(rows) && i < |rows|
    ensures HasEvent(EventsAfterTo(env, rows, before, i), rows[i].id) <==> HasEvent(before, rows[i].id)
  {
    EventsOrigin(env, rows, before, i, rows[i].id);
  }

  // ---------------------------------------------------------------- one event per kind

  predicate IsOf(ev: Event, id: string, kind: Kind) {
    ev.entry == id && ev.kind == kind
  }

  function CountOf(events: seq<Event>, id: string, kind: Kind): nat {
    Count(events, ev => IsOf(ev, id, kind))
  }

  lemma {:induction false} CountPrefix<T>(a: seq<T>, b: seq<T>, p: T -> bool, n: nat)
    requires n <= |a|
    ensures CountTo(a + b, p, n) == CountTo(a, p, n)
  {
    if n > 0 { CountPrefix(a, b, p, n - 1); }
  }

  lemma {:induction false} CountConcat<T>(a: seq<T>, b: seq<T>, p: T -> bool, n: nat)
    requires n <= |b|
    ensures CountTo(a + b, p, |a| + n) == Count(a, p) + CountTo(b, p, n)
  {
    if n == 0 { CountPrefix(a, b, p, |a|); } else { CountConcat(a, b, p, n - 1); }
  }

  lemma CountOfConcat(a: seq<Event>, b: seq<Event>, id: string, kind: Kind)
    ensures CountOf(a + b, id, kind) == CountOf(a, id, kind) + CountOf(b, id, kind)
  {
    CountConcat(a, b, ev => IsOf(ev, id, kind), |b|);
  }

  lemma CountOfEventIf(env: Env, e: Entry, k: Kind, id: string, kind: Kind)
    ensures CountOf(EventIf(env, e, k), id, kind) == if id == e.id && kind == k && TimeOf(env, e, k).Some? then 1 else 0
  {
    assert CountTo(EventIf(env, e, k), ev => IsOf(ev, id, kind), 0) == 0;
  }

  lemma CountOfEventsOf(env: Env, e: Entry, id: string, kind: Kind)
    ensures CountOf(EventsOf(env, e), id, kind) == if id == e.id && TimeOf(env, e, kind).Some? then 1 else 0
  {
    var a, b := EventIf(env, e, InvitationsSent), EventIf(env, e, Rescheduled);
    var c, d := EventIf(env, e, Cancelled), EventIf(env, e, ParticipantsUpdated);
    CountOfConcat(a + b + c, d, id, kind);
    CountOfConcat(a + b, c, id, kind);
    CountOfConcat(a, b, id, kind);
    CountOfEventIf(env, e, InvitationsSent, id, kind);
    CountOfEventIf(env, e, Rescheduled, id, kind);
    CountOfEventIf(env, e, Cancelled, id, kind);
    CountOfEventIf(env, e, ParticipantsUpdated, id, kind);
  }

  /** How many events of a kind a run owes an entry. */
  function Due(env: Env, before: seq<Event>, e: Entry, kind: Kind): nat {
    if !HasEvent(before, e.id) && TimeOf(env, e, kind).Some? then 1 else 0
  }

  lemma CountsInserted(env: Env, before: seq<Event>, e: Entry, earlier: seq<Event>, id: string, kind: Kind)
    ensures CountOf(earlier + Inserted(env, before, e), id, kind) ==
      CountOf(earlier, id, kind) + if e.id == id then Due(env, before, e, kind) else 0
  {
    CountOfConcat(earlier, Inserted(env, before, e), id, kind);
    CountOfEventsOf(env, e, id, kind);
  }

  lemma {:induction false} CountsAfterTo(
      env: Env, rows: seq<Entry>, before: seq<Event>, n: nat, r: nat, kind: Kind)
    requires DistinctIds(rows) && n <= |rows| && r < |rows|
    ensures CountOf(EventsAfterTo(env, rows, before, n), rows[r].id, kind) ==
      CountOf(before, rows[r].id, kind) + if r < n then Due(env, before, rows[r], kind) else 0
  {
    if n > 0 {
      CountsAfterTo(env, rows, before, n - 1, r, kind);
      CountsInserted(env, before, rows[n - 1], EventsAfterTo(env, rows, before, n - 1), rows[r].id, kind);
      assert rows[n - 1].id == rows[r].id <==> r == n - 1;
    }
  }

  /** An entry that had events gets none; one that had none gets exactly one of each kind whose time it
      tells, which is at most one. Events from before stay, in front. */
  lemma OneEventPerKind(env: Env, entries: seq<Entry>, before: seq<Event>, r: nat, kind: Kind)
    requires DistinctIds(entries) && r < |entries|
    ensures var id := entries[r].id;
            CountOf(EventsAfter(env, entries, before), id, kind) ==
              if HasEvent(before, id) then CountOf(before, id, kind)
              else if TimeOf(env, entries[r], kind).Some? then 1 else 0
    ensures before <= EventsAfter(env, entries, before)
  {
    CountsAfterTo(env, entries, before, |entries|, r, kind);
    if !HasEvent(before, entries[r].id) { CountOfAbsent(before, entries[r].id, kind, |before|); }
    StaysInFront(env, entries, before, |entries|);
  }

  lemma {:induction false} CountOfAbsent(events: seq<Event>, id: string, kind: Kind, n: nat)
    requires n <= |events| && !HasEvent(events, id)
    ensures CountTo(events, ev => IsOf(ev, id, kind), n) == 0
  {
    if n > 0 { CountOfAbsent(events, id, kind, n - 1); }
  }

  lemma {:induction false} StaysInFront(env: Env, entries: seq<Entry>, before: seq<Event>, n: nat)
    requires n <= |entries|
    ensures before <= EventsAfterTo(env, entries, before, n)
  {
    if n > 0 { StaysInFront(env, entries, before, n - 1); }
  }

  // ---------------------------------------------------------------- running it again

  lemma EventsNow(env: Env, entries: seq<Entry>, before: seq<Event>, i: nat)
    requires DistinctIds(entries) && i < |entries|
    ensures HasEvent(EventsAfter(env, entries, before), entries[i].id) <==>
      HasEvent(before, entries[i].id) || EventsOf(env, entries[i]) != []
  {
    EventsOrigin(env, entries, before, |entries|, entries[i].id);
  }

  /** A second run inserts nothing and changes no entry; what it reports as backfilled are the entries
      that tell of no event at all. */
  lemma SecondRunSettles(env: Env, entries: seq<Entry>, before: seq<Event>)
    requires DistinctIds(entries)
    ensures var again := EntriesAfter(env, entries);
            var events := EventsAfter(env, entries, before);
            && EntriesAfter(env, again) == again
            && EventsAfter(env, again, events) == events
            && BackfilledTo(again, events, |again|) ==
                 Count(entries, (e: Entry) => !HasEvent(before, e.id) && EventsOf(env, e) == [])
  {
    var again, events := EntriesAfter(env, entries), EventsAfter(env, entries, before);
    forall i | 0 <= i < |entries|
      ensures Inserted(env, events, again[i]) == []
    {
      EventsNow(env, entries, before, i);
      assert EventsOf(env, again[i]) == EventsOf(env, entries[i]);
    }
    NothingInserted(env, again, events, |again|);
    SecondReport(env, entries, before, |entries|);
  }

  /** An entry that tells of nothing is reported by every run. */
  lemma ReportedEveryTime(env: Env, id: string, memo: string)
    ensures var none := Stamp(NoWords, NoWords);
      var e := Entry(id, memo, None, None, none, none, none);
      && EventsAfter(env, [e], []) == [] && EntriesAfter(env, [e]) == [e] && BackfilledTo([e], [], 1) == 1
  {
    var none := Stamp(NoWords, NoWords);
    var e := Entry(id, memo, None, None, none, none, none);
    assert EventsOf(env, e) == [] && EventsAfterTo(env, [e], [], 0) == [];
    assert BackfilledTo([e], [], 0) == 0;
  }

  lemma {:induction false} NothingInserted(env: Env, rows: seq<Entry>, events: seq<Event>, n: nat)
    requires n <= |rows| && forall i :: 0 <= i < |rows| ==> Inserted(env, events, rows[i]) == []
    ensures EventsAfterTo(env, rows, events, n) == events
  {
    if n > 0 { NothingInserted(env, rows, events, n - 1); }
  }

  lemma {:induction false} SecondReport(env: Env, entries: seq<Entry>, before: seq<Event>, n: nat)
    requires DistinctIds(entries) && n <= |entries|
    ensures BackfilledTo(EntriesAfter(env, entries), EventsAfter(env, entries, before), n) ==
      CountTo(entries, (e: Entry) => !HasEvent(before, e.id) && EventsOf(env, e) == [], n)
  {
    if n > 0 {
      SecondReport(env, entries, before, n - 1);
      EventsNow(env, entries, before, n - 1);
      assert EntriesAfter(env, entries)[n - 1].id == entries[n - 1].id;
    }
  }

  /** `cancelled_at` is filled from the payload where it was missing, and never overwritten, however
      often the script runs. */
  lemma {:induction false} CancelledNeverOverwritten(env: Env, entries: seq<Entry>, r: nat, runs: nat)
    requires r < |entries|
    ensures |AfterRuns(env, entries, runs)| == |entries|
    ensures AfterRuns(env, entries, runs)[r].cancelledAt ==
      if entries[r].cancelledAt.Some? || runs == 0 then entries[r].cancelledAt else TimeOf(env, entries[r], Cancelled)
    ensures AfterRuns(env, entries, runs)[r].(cancelledAt := None) == entries[r].(cancelledAt := None)
  {
    if runs > 0 {
      CancelledNeverOverwritten(env, entries, r, runs - 1);
      var earlier := AfterRuns(env, entries, runs - 1)[r];
      assert TimeOf(env, earlier, Cancelled) == TimeOf(env, earlier.(cancelledAt := None), Cancelled);
      assert TimeOf(env, entries[r], Cancelled) == TimeOf(env, entries[r].(cancelledAt := None), Cancelled);
    }
  }

  function AfterRuns(env: Env, entries: seq<Entry>, runs: nat): seq<Entry> {
    if runs == 0 then entries else EntriesAfter(env, AfterRuns(env, entries, runs - 1))
  }
}
