/** One row of the summary, from what the rows of the sources offer for its key, in their order. */
module SummaryOffers {
  import opened Text
  import opened Seqs
  import opened Summary

  /** What one row of a source says of a key: nothing, or the fields of its row; a topics row may also set
      the organisation outright. */
  datatype Offer =
    | Nothing
    | Offer(name: string, direction: string, org: string, source: string, note: string, outright: Option<string>)

  function Merged(env: Env, row: Option<Entry>, o: Offer): Entry
    requires o.Offer?
  {
    match row
    case None => Entry(o.org, Label(env, o.org), o.direction, o.name, o.note, [o.source])
    case Some(e) =>
      var org := if e.orgCode == HOME_ORG && o.org != HOME_ORG then o.org else e.orgCode;
      Entry(org, if org == e.orgCode then e.orgName else Label(env, org),
            if e.direction == "" then o.direction else e.direction, e.name, JoinNote(e.note, o.note),
            WithNew(e.sources, o.source))
  }

  function Taken(env: Env, row: Option<Entry>, o: Offer): Option<Entry> {
    if o.Nothing? then row
    else if o.outright.None? then Some(Merged(env, row, o))
    else Some(Merged(env, row, o).(orgCode := o.outright.value, orgName := Label(env, o.outright.value)))
  }

  function RowAfter(env: Env, offers: seq<Offer>, n: nat): Option<Entry>
    requires n <= |offers|
  {
    if n == 0 then None else Taken(env, RowAfter(env, offers, n - 1), offers[n - 1])
  }

  // ---------------------------------------------------------------- what the row says

  ghost predicate SomeOffer(offers: seq<Offer>, n: nat)
    requires n <= |offers|
  {
    exists i :: 0 <= i < n && offers[i].Offer?
  }

  /** The name is that of the first offer. */
  ghost predicate NameOfFirst(offers: seq<Offer>, n: nat, name: string)
    requires n <= |offers|
  {
    exists i :: 0 <= i < n && offers[i].Offer? && name == offers[i].name
                && forall m :: 0 <= m < i ==> offers[m].Nothing?
  }

  /** The direction is the first one offered that is not empty. */
  ghost predicate FirstDirection(offers: seq<Offer>, n: nat, direction: string)
    requires n <= |offers|
  {
    if direction == "" then forall i :: 0 <= i < n && offers[i].Offer? ==> offers[i].direction == ""
    else exists i :: 0 <= i < n && offers[i].Offer? && direction == offers[i].direction
                     && forall m :: 0 <= m < i && offers[m].Offer? ==> offers[m].direction == ""
  }

  /** Each source is listed once, in the order in which they first offered. */
  ghost predicate SourcesInOrder(offers: seq<Offer>, n: nat, sources: seq<string>)
    requires n <= |offers|
  {
    && Distinct(sources)
    && (forall i :: 0 <= i < n && offers[i].Offer? ==> offers[i].source in sources)
    && (forall x :: 0 <= x < |sources| ==> OfferedBy(offers, n, sources[x]))
    && (forall x, y :: 0 <= x < y < |sources| ==> OfferedInOrder(offers, n, sources[x], sources[y]))
  }

  ghost predicate OfferedBy(offers: seq<Offer>, n: nat, source: string)
    requires n <= |offers|
  {
    exists i :: 0 <= i < n && offers[i].Offer? && offers[i].source == source
  }

  ghost predicate OfferedInOrder(offers: seq<Offer>, n: nat, a: string, b: string)
    requires n <= |offers|
  {
    exists i, j :: 0 <= i < j < n && offers[i].Offer? && offers[j].Offer?
                   && offers[i].source == a && offers[j].source == b
  }

  /** From `start` on, the first organisation other than the home one. */
  ghost predicate LeavesHome(offers: seq<Offer>, from: nat, n: nat, start: string, org: string)
    requires n <= |offers|
  {
    if start != HOME_ORG then org == start
    else if forall i :: from <= i < n && offers[i].Offer? ==> offers[i].org == HOME_ORG then org == HOME_ORG
    else exists i :: from <= i < n && offers[i].Offer? && org == offers[i].org != HOME_ORG
                     && forall m :: from <= m < i && offers[m].Offer? ==> offers[m].org == HOME_ORG
  }

  predicate SetsOutright(o: Offer) {
    o.Offer? && o.outright.Some?
  }

  ghost predicate NoneSet(offers: seq<Offer>, from: nat, n: nat)
    requires n <= |offers|
  {
    forall i :: from <= i < n ==> !SetsOutright(offers[i])
  }

  ghost predicate SettlesSince(offers: seq<Offer>, i: nat, n: nat, org: string)
    requires i < n <= |offers|
  {
    SetsOutright(offers[i]) && NoneSet(offers, i + 1, n) && LeavesHome(offers, i + 1, n, offers[i].outright.value, org)
  }

  /** The organisation set last outright, or the home one where none was, until one is offered that is
      not the home one. */
  ghost predicate OrgSettles(offers: seq<Offer>, n: nat, org: string)
    requires n <= |offers|
  {
    if NoneSet(offers, 0, n) then LeavesHome(offers, 0, n, HOME_ORG, org)
    else exists i :: 0 <= i < n && SettlesSince(offers, i, n, org)
  }

  /** The notes of the offers at `at`, joined by `; `. */
  function Joined(offers: seq<Offer>, at: seq<nat>): string
    requires forall x :: 0 <= x < |at| ==> at[x] < |offers| && offers[at[x]].Offer?
  {
    if at == [] then ""
    else if |at| == 1 then offers[at[0]].note
    else Joined(offers, at[..|at| - 1]) + "; " + offers[at[|at| - 1]].note
  }

  ghost predicate PickedInOrder(offers: seq<Offer>, n: nat, at: seq<nat>)
    requires n <= |offers|
  {
    && (forall x :: 0 <= x < |at| ==> at[x] < n && offers[at[x]].Offer? && offers[at[x]].note != "")
    && (forall x, y :: 0 <= x < y < |at| ==> at[x] < at[y])
  }

  ghost predicate AllContained(offers: seq<Offer>, n: nat, note: string)
    requires n <= |offers|
  {
    forall i :: 0 <= i < n && offers[i].Offer? ==> Contains(note, offers[i].note)
  }

  ghost predicate NoneRepeated(offers: seq<Offer>, n: nat, at: seq<nat>)
    requires n <= |offers| && PickedInOrder(offers, n, at)
  {
    forall x :: 0 <= x < |at| ==> !Contains(Joined(offers, at[..x]), offers[at[x]].note)
  }

  /** Every offered note is in the note; none is added that already was. */
  ghost predicate NotesJoined(offers: seq<Offer>, n: nat, at: seq<nat>, note: string)
    requires n <= |offers|
  {
    && PickedInOrder(offers, n, at) && note == Joined(offers, at)
    && AllContained(offers, n, note) && NoneRepeated(offers, n, at)
  }

  ghost predicate NoteTells(offers: seq<Offer>, n: nat, note: string)
    requires n <= |offers|
  {
    exists at :: NotesJoined(offers, n, at, note)
  }

  /** Everything a row says. */
  ghost predicate RowSays(env: Env, offers: seq<Offer>, n: nat, e: Entry)
    requires n <= |offers|
  {
    && NameOfFirst(offers, n, e.name)
    && FirstDirection(offers, n, e.direction)
    && SourcesInOrder(offers, n, e.sources)
    && OrgSettles(offers, n, e.orgCode)
    && e.orgName == (if e.orgCode in env.labels then env.labels[e.orgCode] else e.orgCode)
    && NoteTells(offers, n, e.note)
  }

  // ---------------------------------------------------------------- one offer more

  lemma NameNext(offers: seq<Offer>, n: nat, name: string)
    requires n < |offers| && NameOfFirst(offers, n, name)
    ensures NameOfFirst(offers, n + 1, name)
  {
  }

  lemma DirectionNext(offers: seq<Offer>, n: nat, before: string, after: string)
    requires n < |offers| && FirstDirection(offers, n, before)
    requires after == if offers[n].Offer? && before == "" then offers[n].direction else before
    ensures FirstDirection(offers, n + 1, after)
  {
  }

  lemma SourcesNext(offers: seq<Offer>, n: nat, before: seq<string>)
    requires n < |offers| && offers[n].Offer? && SourcesInOrder(offers, n, before)
    ensures SourcesInOrder(offers, n + 1, WithNew(before, offers[n].source))
  {
    var after := WithNew(before, offers[n].source);
    forall x | 0 <= x < |after| ensures OfferedBy(offers, n + 1, after[x]) {
      if x < |before| { assert OfferedBy(offers, n, before[x]); }
    }
    forall x, y | 0 <= x < y < |after| ensures OfferedInOrder(offers, n + 1, after[x], after[y]) {
      if y < |before| {
        assert OfferedInOrder(offers, n, before[x], before[y]);
      } else {
        assert OfferedBy(offers, n, before[x]);
      }
    }
  }

  lemma HomeNext(offers: seq<Offer>, from: nat, n: nat, start: string, before: string, after: string)
    requires from <= n < |offers| && LeavesHome(offers, from, n, start, before)
    requires after == if offers[n].Offer? && before == HOME_ORG then offers[n].org else before
    ensures LeavesHome(offers, from, n + 1, start, after)
  {
  }

  lemma OrgNext(offers: seq<Offer>, n: nat, before: string, after: string)
    requires n < |offers| && OrgSettles(offers, n, before)
    requires after == if SetsOutright(offers[n]) then offers[n].outright.value
                      else if offers[n].Offer? && before == HOME_ORG then offers[n].org else before
    ensures OrgSettles(offers, n + 1, after)
  {
    if SetsOutright(offers[n]) {
      assert SettlesSince(offers, n, n + 1, after);
    } else if NoneSet(offers, 0, n) {
      HomeNext(offers, 0, n, HOME_ORG, before, after);
      assert NoneSet(offers, 0, n + 1);
    } else {
      var i :| 0 <= i < n && SettlesSince(offers, i, n, before);
      HomeNext(offers, i + 1, n, offers[i].outright.value, before, after);
      assert SettlesSince(offers, i, n + 1, after);
      assert !NoneSet(offers, 0, n + 1);
    }
  }

  lemma ContainsMore(a: string, b: string, p: string)
    requires Contains(a, p)
    ensures Contains(a + b, p)
  {
    var i: nat :| i + |p| <= |a| && OccursAt(a, p, i);
    assert (a + b)[i..i + |p|] == a[i..i + |p|];
    assert OccursAt(a + b, p, i);
  }

  lemma ContainsEnd(a: string, p: string)
    ensures Contains(a + p, p)
  {
    assert OccursAt(a + p, p, |a|);
  }

  lemma JoinedNonEmpty(offers: seq<Offer>, n: nat, at: seq<nat>)
    requires n <= |offers| && PickedInOrder(offers, n, at)
    ensures Joined(offers, at) == "" <==> at == []
  {
  }

  lemma JoinedSnoc(offers: seq<Offer>, at: seq<nat>, i: nat)
    requires forall x :: 0 <= x < |at| ==> at[x] < |offers| && offers[at[x]].Offer?
    requires i < |offers| && offers[i].Offer?
    ensures Joined(offers, at + [i]) == if at == [] then offers[i].note else Joined(offers, at) + "; " + offers[i].note
  {
    assert (at + [i])[..|at|] == at;
  }

  lemma NoteSame(offers: seq<Offer>, n: nat, at: seq<nat>, note: string)
    requires n < |offers| && NotesJoined(offers, n, at, note)
    requires offers[n].Offer? ==> offers[n].note == "" || Contains(note, offers[n].note)
    ensures NotesJoined(offers, n + 1, at, note)
  {
    assert OccursAt(note, "", 0);
  }

  lemma StillContained(offers: seq<Offer>, n: nat, note: string)
    requires n < |offers| && offers[n].Offer? && AllContained(offers, n, note)
    ensures AllContained(offers, n + 1, JoinNote(note, offers[n].note))
  {
    var after, last := JoinNote(note, offers[n].note), offers[n].note;
    assert Contains(after, "") by { assert OccursAt(after, "", 0); }
    assert Contains(after, last) by {
      if last != "" && !Contains(note, last) {
        ContainsEnd(if note == "" then "" else note + "; ", last);
        assert "" + last == last;
      }
    }
    forall i | 0 <= i < n && offers[i].Offer? ensures Contains(after, offers[i].note) {
      if note == "" {
        assert |offers[i].note| == 0;
      } else if after != note {
        assert after == note + ("; " + last);
        ContainsMore(note, "; " + last, offers[i].note);
      }
    }
  }

  lemma PickedNext(offers: seq<Offer>, n: nat, at: seq<nat>)
    requires n < |offers| && PickedInOrder(offers, n, at) && offers[n].Offer? && offers[n].note != ""
    ensures PickedInOrder(offers, n + 1, at + [n])
  {
  }

  lemma NewNote(offers: seq<Offer>, n: nat, at: seq<nat>, x: nat)
    requires n < |offers| && PickedInOrder(offers, n, at) && NoneRepeated(offers, n, at) && x <= |at|
    requires offers[n].Offer? && !Contains(Joined(offers, at), offers[n].note)
    ensures !Contains(Joined(offers, (at + [n])[..x]), offers[(at + [n])[x]].note)
  {
    assert (at + [n])[..x] == at[..x];
    assert x == |at| ==> at[..x] == at;
  }

  lemma OneMoreNote(offers: seq<Offer>, n: nat, at: seq<nat>)
    requires n < |offers| && PickedInOrder(offers, n, at) && NoneRepeated(offers, n, at)
    requires offers[n].Offer? && offers[n].note != "" && !Contains(Joined(offers, at), offers[n].note)
    ensures PickedInOrder(offers, n + 1, at + [n]) && NoneRepeated(offers, n + 1, at + [n])
  {
    PickedNext(offers, n, at);
    forall x | 0 <= x < |at + [n]| ensures !Contains(Joined(offers, (at + [n])[..x]), offers[(at + [n])[x]].note) {
      NewNote(offers, n, at, x);
    }
  }

  lemma NoteAdded(offers: seq<Offer>, n: nat, at: seq<nat>, note: string)
    requires n < |offers| && NotesJoined(offers, n, at, note)
    requires offers[n].Offer? && offers[n].note != "" && !Contains(note, offers[n].note)
    ensures NotesJoined(offers, n + 1, at + [n], JoinNote(note, offers[n].note))
  {
    JoinedNonEmpty(offers, n, at);
    JoinedSnoc(offers, at, n);
    OneMoreNote(offers, n, at);
    StillContained(offers, n, note);
  }

  lemma NoteNext(offers: seq<Offer>, n: nat, before: string)
    requires n < |offers| && offers[n].Offer? && NoteTells(offers, n, before)
    ensures NoteTells(offers, n + 1, JoinNote(before, offers[n].note))
  {
    var at :| NotesJoined(offers, n, at, before);
    if offers[n].note == "" || Contains(before, offers[n].note) {
      NoteSame(offers, n, at, before);
    } else {
      NoteAdded(offers, n, at, before);
    }
  }

  lemma SameSources(offers: seq<Offer>, n: nat, sources: seq<string>)
    requires n < |offers| && offers[n].Nothing? && SourcesInOrder(offers, n, sources)
    ensures SourcesInOrder(offers, n + 1, sources)
  {
    forall x | 0 <= x < |sources| ensures OfferedBy(offers, n + 1, sources[x]) {
      assert OfferedBy(offers, n, sources[x]);
    }
    forall x, y | 0 <= x < y < |sources| ensures OfferedInOrder(offers, n + 1, sources[x], sources[y]) {
      assert OfferedInOrder(offers, n, sources[x], sources[y]);
    }
  }

  lemma NothingNext(env: Env, offers: seq<Offer>, n: nat, e: Entry)
    requires n < |offers| && offers[n].Nothing? && RowSays(env, offers, n, e)
    ensures RowSays(env, offers, n + 1, e)
  {
    DirectionNext(offers, n, e.direction, e.direction);
    OrgNext(offers, n, e.orgCode, e.orgCode);
    SameSources(offers, n, e.sources);
    assert NoteTells(offers, n + 1, e.note) by {
      var at :| NotesJoined(offers, n, at, e.note);
      NoteSame(offers, n, at, e.note);
    }
  }

  lemma FirstNote(offers: seq<Offer>, n: nat)
    requires n < |offers| && offers[n].Offer? && !SomeOffer(offers, n)
    ensures NoteTells(offers, n + 1, offers[n].note)
  {
    assert NotesJoined(offers, n, [], "");
    NoteNext(offers, n, "");
    assert OccursAt("", "", 0);
    assert JoinNote("", offers[n].note) == offers[n].note;
  }

  lemma FirstSource(offers: seq<Offer>, n: nat)
    requires n < |offers| && offers[n].Offer? && !SomeOffer(offers, n)
    ensures SourcesInOrder(offers, n + 1, [offers[n].source])
  {
    assert SourcesInOrder(offers, n, []);
    SourcesNext(offers, n, []);
    assert [] + [offers[n].source] == [offers[n].source];
  }

  lemma FirstOrg(offers: seq<Offer>, n: nat)
    requires n < |offers| && offers[n].Offer? && !SomeOffer(offers, n)
    ensures OrgSettles(offers, n + 1, if SetsOutright(offers[n]) then offers[n].outright.value else offers[n].org)
  {
    assert OrgSettles(offers, n, HOME_ORG);
    OrgNext(offers, n, HOME_ORG, if SetsOutright(offers[n]) then offers[n].outright.value else offers[n].org);
  }

  /** The first offer makes the row. */
  lemma FirstNext(env: Env, offers: seq<Offer>, n: nat, e: Entry)
    requires n < |offers| && offers[n].Offer? && !SomeOffer(offers, n) && Taken(env, None, offers[n]) == Some(e)
    ensures RowSays(env, offers, n + 1, e)
  {
    FirstNote(offers, n);
    FirstSource(offers, n);
    FirstOrg(offers, n);
    DirectionNext(offers, n, "", e.direction);
    assert forall m :: 0 <= m < n ==> offers[m].Nothing?;
    assert NameOfFirst(offers, n + 1, e.name);
  }

  lemma FieldsAfter(env: Env, e: Entry, o: Offer, after: Entry)
    requires o.Offer? && Taken(env, Some(e), o) == Some(after)
    ensures after.name == e.name && after.direction == (if e.direction == "" then o.direction else e.direction)
    ensures after.sources == WithNew(e.sources, o.source) && after.note == JoinNote(e.note, o.note)
    ensures after.orgCode ==
      if SetsOutright(o) then o.outright.value else if e.orgCode == HOME_ORG then o.org else e.orgCode
    ensures e.orgName == Label(env, e.orgCode) ==> after.orgName == Label(env, after.orgCode)
  {
  }

  /** A further one adds to it. */
  lemma OfferNext(env: Env, offers: seq<Offer>, n: nat, e: Entry, after: Entry)
    requires n < |offers| && offers[n].Offer? && RowSays(env, offers, n, e)
    requires Taken(env, Some(e), offers[n]) == Some(after)
    ensures RowSays(env, offers, n + 1, after)
  {
    FieldsAfter(env, e, offers[n], after);
    NameNext(offers, n, e.name);
    DirectionNext(offers, n, e.direction, after.direction);
    SourcesNext(offers, n, e.sources);
    OrgNext(offers, n, e.orgCode, after.orgCode);
    NoteNext(offers, n, e.note);
  }

  /** There is a row if and only if there was an offer, and it says what the offers say. */
  ghost predicate RowIs(env: Env, offers: seq<Offer>, n: nat, row: Option<Entry>)
    requires n <= |offers|
  {
    (row.Some? <==> SomeOffer(offers, n)) && (row.Some? ==> RowSays(env, offers, n, row.value))
  }

  lemma SomeNext(offers: seq<Offer>, n: nat)
    requires n < |offers|
    ensures SomeOffer(offers, n + 1) <==> SomeOffer(offers, n) || offers[n].Offer?
  {
  }

  lemma RowNext(env: Env, offers: seq<Offer>, n: nat, m: nat, before: Option<Entry>, after: Option<Entry>)
    requires n < |offers| && m == n + 1 && RowIs(env, offers, n, before) && after == Taken(env, before, offers[n])
    ensures RowIs(env, offers, m, after)
  {
    SomeNext(offers, n);
    if offers[n].Nothing? {
      if before.Some? { NothingNext(env, offers, n, before.value); }
    } else if before.None? {
      FirstNext(env, offers, n, after.value);
    } else {
      OfferNext(env, offers, n, before.value, after.value);
    }
  }

  lemma NoRowYet(env: Env, offers: seq<Offer>)
    ensures RowIs(env, offers, 0, None)
  {
  }

  lemma {:induction false} RowTellsOffers(env: Env, offers: seq<Offer>, n: nat)
    requires n <= |offers|
    ensures RowIs(env, offers, n, RowAfter(env, offers, n))
  {
    if n == 0 {
      NoRowYet(env, offers);
    } else {
      RowTellsOffers(env, offers, n - 1);
      RowNext(env, offers, n - 1, n, RowAfter(env, offers, n - 1), RowAfter(env, offers, n));
    }
  }
}
