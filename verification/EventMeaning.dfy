/** What a backfill inserts and fills in, said of the entries' own fields. */
module EventMeaning {
  import opened Text
  import opened Seqs
  import opened EventBackfill

  /** The text of the value reads as this moment. */
  ghost predicate ReadsAs(env: Env, v: Value, at: Moment) {
    v.Words? && Strip(v.words) != "" && env.fromIso(Replace(Strip(v.words), "Z", "+00:00")) == Some(at)
  }

  /** The user the value names; none where it names none. */
  ghost predicate IsActor(env: Env, v: Value, actor: Option<string>) {
    if v.NoWords? || Strip(v.words) == "" then actor == None else actor == env.uuid(Strip(v.words))
  }

  /** The event of kind `k` that the entry tells of: invitations, a move, a cancellation, a change of
      participants, in this order. */
  ghost predicate TellsOf(env: Env, e: Entry, k: nat, ev: Event) {
    && ev.entry == e.id && ev.memo == e.memo && k < 4
    && (k == 0 ==> ev.kind == InvitationsSent && e.invitationsSent == Some(ev.occurred) && ev.actor == None)
    && (k == 1 ==> ev.kind == Rescheduled && Stamps(env, e.rescheduled, ev))
    && (k == 2 ==> ev.kind == Cancelled && Stamps(env, e.cancelled, ev))
    && (k == 3 ==> ev.kind == ParticipantsUpdated && Stamps(env, e.participantsUpdated, ev))
  }

  ghost predicate Stamps(env: Env, stamp: Stamp, ev: Event) {
    ReadsAs(env, stamp.time, ev.occurred) && IsActor(env, stamp.actor, ev.actor)
  }

  ghost predicate HadNone(before: seq<Event>, e: Entry) {
    forall i :: 0 <= i < |before| ==> before[i].entry != e.id
  }

  /** An entry and a kind of event. */
  datatype Slot = Slot(row: nat, kind: nat)

  predicate Before(p: Slot, q: Slot) {
    p.row < q.row || (p.row == q.row && p.kind < q.kind)
  }

  ghost predicate TellsAt(env: Env, entries: seq<Entry>, before: seq<Event>, p: Slot, ev: Event) {
    p.row < |entries| && HadNone(before, entries[p.row]) && TellsOf(env, entries[p.row], p.kind, ev)
  }

  /** The events inserted: entry by entry and kind by kind, each once, exactly those told of by entries
      that had none. */
  ghost predicate AreInserted(env: Env, entries: seq<Entry>, before: seq<Event>, inserted: seq<Event>, at: seq<Slot>) {
    && |at| == |inserted|
    && (forall x :: 0 <= x < |at| ==> TellsAt(env, entries, before, at[x], inserted[x]))
    && (forall x, y :: 0 <= x < y < |at| ==> Before(at[x], at[y]))
    && (forall p, ev :: TellsAt(env, entries, before, p, ev) ==> p in at)
  }

  // ---------------------------------------------------------------- one kind, one entry

  function KindAt(k: nat): Kind {
    match k
    case 0 => InvitationsSent
    case 1 => Rescheduled
    case 2 => Cancelled
    case _ => ParticipantsUpdated
  }

  lemma EventIfTells(env: Env, e: Entry, k: nat, ev: Event)
    requires k < 4
    ensures EventIf(env, e, KindAt(k)) == [ev] <==> TellsOf(env, e, k, ev)
    ensures |EventIf(env, e, KindAt(k))| <= 1
  {
  }

  function AtSlot(env: Env, entries: seq<Entry>, before: seq<Event>): Slot -> seq<Event> {
    (p: Slot) => if p.row < |entries| && p.kind < 4 && !HasEvent(before, entries[p.row].id)
                 then EventIf(env, entries[p.row], KindAt(p.kind)) else []
  }

  lemma AtSlotTells(env: Env, entries: seq<Entry>, before: seq<Event>, p: Slot, ev: Event)
    ensures AtSlot(env, entries, before)(p) == [ev] <==> TellsAt(env, entries, before, p, ev)
    ensures |AtSlot(env, entries, before)(p)| <= 1
  {
    if p.row < |entries| && p.kind < 4 {
      EventIfTells(env, entries[p.row], p.kind, ev);
      assert HadNone(before, entries[p.row]) <==> !HasEvent(before, entries[p.row].id);
    }
  }

  // ---------------------------------------------------------------- all of them

  lemma FourSlots(env: Env, entries: seq<Entry>, before: seq<Event>, i: nat)
    requires i < |entries|
    ensures var f := AtSlot(env, entries, before);
      Inserted(env, before, entries[i]) == f(Slot(i, 0)) + f(Slot(i, 1)) + f(Slot(i, 2)) + f(Slot(i, 3))
  {
    assert HasEvent(before, entries[i].id) ==> [] + [] + [] + [] == Inserted(env, before, entries[i]);
  }

  /** The events at the slots before `s`. */
  ghost predicate UpTo(f: Slot -> seq<Event>, s: Slot, out: seq<Event>, at: seq<Slot>) {
    && |at| == |out|
    && (forall x :: 0 <= x < |at| ==> Before(at[x], s) && f(at[x]) == [out[x]])
    && (forall x, y :: 0 <= x < y < |at| ==> Before(at[x], at[y]))
    && (forall p :: Before(p, s) && f(p) != [] ==> p in at)
  }

  lemma UpToHit(f: Slot -> seq<Event>, s: Slot, out: seq<Event>, at: seq<Slot>)
    requires UpTo(f, s, out, at) && |f(s)| == 1
    ensures UpTo(f, Slot(s.row, s.kind + 1), out + f(s), at + [s])
  {
    var at', next := at + [s], Slot(s.row, s.kind + 1);
    forall p | Before(p, next) && f(p) != [] ensures p in at' {
      assert p == s || Before(p, s);
      if p == s { assert at'[|at|] == s; } else { assert p in at; }
    }
  }

  lemma UpToNext(f: Slot -> seq<Event>, s: Slot, out: seq<Event>, at: seq<Slot>) returns (at': seq<Slot>)
    requires UpTo(f, s, out, at) && |f(s)| <= 1
    ensures UpTo(f, Slot(s.row, s.kind + 1), out + f(s), at')
  {
    if f(s) == [] {
      at' := at;
      assert out + f(s) == out;
      forall p | Before(p, Slot(s.row, s.kind + 1)) && f(p) != [] ensures p in at { assert p == s || Before(p, s); }
    } else {
      at' := at + [s];
      UpToHit(f, s, out, at);
    }
  }

  /** From the end of one entry to the start of the next. */
  lemma NextEntry(f: Slot -> seq<Event>, i: nat, out: seq<Event>, at: seq<Slot>)
    requires UpTo(f, Slot(i, 4), out, at) && forall p: Slot :: p.kind >= 4 ==> f(p) == []
    ensures UpTo(f, Slot(i + 1, 0), out, at)
  {
  }

  lemma TwoSlots(f: Slot -> seq<Event>, s: Slot, out: seq<Event>, at: seq<Slot>) returns (at': seq<Slot>)
    requires UpTo(f, s, out, at) && forall p :: |f(p)| <= 1
    ensures UpTo(f, Slot(s.row, s.kind + 2), out + f(s) + f(Slot(s.row, s.kind + 1)), at')
  {
    at' := UpToNext(f, s, out, at);
    at' := UpToNext(f, Slot(s.row, s.kind + 1), out + f(s), at');
  }

  lemma EntryAdds(f: Slot -> seq<Event>, i: nat, n: nat, out: seq<Event>, at: seq<Slot>, out': seq<Event>)
    returns (at': seq<Slot>)
    requires UpTo(f, Slot(i, 0), out, at) && n == i + 1
    requires (forall p: Slot :: p.kind >= 4 ==> f(p) == []) && forall p :: |f(p)| <= 1
    requires out' == out + f(Slot(i, 0)) + f(Slot(i, 1)) + f(Slot(i, 2)) + f(Slot(i, 3))
    ensures UpTo(f, Slot(n, 0), out', at')
  {
    at' := TwoSlots(f, Slot(i, 0), out, at);
    at' := TwoSlots(f, Slot(i, 2), out + f(Slot(i, 0)) + f(Slot(i, 1)), at');
    NextEntry(f, i, out', at');
  }

  lemma Regroup(out: seq<Event>, a: seq<Event>, b: seq<Event>, c: seq<Event>, d: seq<Event>)
    ensures out + (a + b + c + d) == out + a + b + c + d
  {
  }

  lemma {:induction false} InsertedBySlots(env: Env, entries: seq<Entry>, before: seq<Event>, n: nat)
    returns (at: seq<Slot>)
    requires n <= |entries|
    ensures UpTo(AtSlot(env, entries, before), Slot(n, 0), CollectFrom([], entries, Inserting(env, before), n), at)
  {
    at := [];
    if n > 0 {
      var f := AtSlot(env, entries, before);
      at := InsertedBySlots(env, entries, before, n - 1);
      forall p ensures |f(p)| <= 1 { AtSlotTells(env, entries, before, p, Event("", "", 0, Cancelled, None)); }
      FourSlots(env, entries, before, n - 1);
      var out := CollectFrom([], entries, Inserting(env, before), n - 1);
      Regroup(out, f(Slot(n - 1, 0)), f(Slot(n - 1, 1)), f(Slot(n - 1, 2)), f(Slot(n - 1, 3)));
      at := EntryAdds(f, n - 1, n, out, at, CollectFrom([], entries, Inserting(env, before), n));
    }
  }

  /** Every event of the table after a run: those from before, then exactly the ones due. */
  lemma InsertedEvents(env: Env, entries: seq<Entry>, before: seq<Event>) returns (inserted: seq<Event>, at: seq<Slot>)
    ensures EventsAfter(env, entries, before) == before + inserted && AreInserted(env, entries, before, inserted, at)
  {
    inserted := CollectFrom([], entries, Inserting(env, before), |entries|);
    CollectBase(before, entries, Inserting(env, before), |entries|);
    at := InsertedBySlots(env, entries, before, |entries|);
    forall x | 0 <= x < |at| ensures TellsAt(env, entries, before, at[x], inserted[x]) {
      AtSlotTells(env, entries, before, at[x], inserted[x]);
    }
    forall p, ev | TellsAt(env, entries, before, p, ev) ensures p in at {
      AtSlotTells(env, entries, before, p, ev);
      assert Before(p, Slot(|entries|, 0));
    }
  }

  /** A run changes `cancelled_at` alone: where it was missing, to the moment the payload gives, if any. */
  lemma FilledIn(env: Env, entries: seq<Entry>, r: nat)
    requires r < |entries|
    ensures |EntriesAfter(env, entries)| == |entries|
    ensures var e, after := entries[r], EntriesAfter(env, entries)[r];
      && after == e.(cancelledAt := after.cancelledAt)
      && (e.cancelledAt.Some? ==> after.cancelledAt == e.cancelledAt)
      && (e.cancelledAt.None? ==>
            forall at: Moment :: after.cancelledAt == Some(at) <==> ReadsAs(env, e.cancelled.time, at))
  {
  }

  ghost function Eventless(entries: seq<Entry>, before: seq<Event>, n: nat): set<int>
    requires n <= |entries|
  {
    set i | 0 <= i < n && HadNone(before, entries[i])
  }

  lemma EventlessNext(entries: seq<Entry>, before: seq<Event>, n: nat)
    requires n < |entries|
    ensures |Eventless(entries, before, n + 1)| ==
      |Eventless(entries, before, n)| + if HasEvent(before, entries[n].id) then 0 else 1
  {
    assert HadNone(before, entries[n]) <==> !HasEvent(before, entries[n].id);
    var a, b := Eventless(entries, before, n), Eventless(entries, before, n + 1);
    assert b == if HadNone(before, entries[n]) then a + {n} else a;
  }

  /** The report counts the entries that had no event. */
  lemma {:induction false} ReportCounts(entries: seq<Entry>, before: seq<Event>, n: nat)
    requires n <= |entries|
    ensures BackfilledTo(entries, before, n) == |Eventless(entries, before, n)|
  {
    if n > 0 {
      ReportCounts(entries, before, n - 1);
      EventlessNext(entries, before, n - 1);
    }
  }
}
