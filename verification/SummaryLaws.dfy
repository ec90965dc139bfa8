/** What the summary table holds after any sequence of calls. */
module SummaryLaws {
  import opened Text
  import opened Seqs
  import opened Summary

  /** What a key saw: an upsert, or a structure override once the row existed. */
  datatype Event = Seen(name: string, direction: string, org: string, source: string) | Set(org: string)

  function EventsTo(env: Env, calls: seq<Call>, key: Key, n: nat): seq<Event>
    requires n <= |calls|
  {
    if n == 0 then []
    else
      var before, c := EventsTo(env, calls, key, n - 1), calls[n - 1];
      if !Counts(env, c) || KeyOf(env, c) != key then before
      else if c.Upsert? then
        before + [Seen(ResolveName(env, Strip(c.code), c.name), DirectionIn(env, c), OrgIn(env, c), c.source)]
      else if before == [] then before
      else before + [Set(c.setOrg)]
  }

  // ---------------------------------------------------------------- a row from its events

  function FirstNonEmpty(s: seq<string>): string {
    if s == [] then "" else if s[0] != "" then s[0] else FirstNonEmpty(s[1..])
  }

  function FirstOther(s: seq<string>): string {
    if s == [] then HOME_ORG else if s[0] != HOME_ORG then s[0] else FirstOther(s[1..])
  }

  function Directions(es: seq<Event>): seq<string> {
    Collect([], es, (e: Event) => if e.Seen? then [e.direction] else [])
  }

  function SourcesOf(es: seq<Event>): seq<string> {
    Collect([], es, (e: Event) => if e.Seen? then [e.source] else [])
  }

  /** Organisations from the last override on; all of them when there was none. */
  function OrgsSinceOverride(es: seq<Event>, n: nat): seq<string>
    requires n <= |es|
  {
    if n == 0 then []
    else if es[n - 1].Set? then [es[n - 1].org]
    else OrgsSinceOverride(es, n - 1) + [es[n - 1].org]
  }

  /** The row says what its events say: the name is the first source's; the direction is the first
      that is not empty; sources are listed once, in order of appearance; the organisation is, since
      the last override, the first that is not the home one; its name is its label. */
  ghost predicate RowTells(env: Env, e: Entry, es: seq<Event>) {
    && es != [] && es[0].Seen?
    && e.name == es[0].name
    && e.direction == FirstNonEmpty(Directions(es))
    && e.sources == FirstOccurrences(SourcesOf(es))
    && e.orgCode == FirstOther(OrgsSinceOverride(es, |es|))
    && e.orgName == Label(env, e.orgCode)
  }

  lemma {:induction false} FirstNonEmptySnoc(s: seq<string>, x: string)
    ensures FirstNonEmpty(s + [x]) == if FirstNonEmpty(s) != "" then FirstNonEmpty(s) else x
  {
    if s != [] {
      FirstNonEmptySnoc(s[1..], x);
      assert (s + [x])[1..] == s[1..] + [x];
    }
  }

  lemma {:induction false} FirstOtherSnoc(s: seq<string>, x: string)
    ensures FirstOther(s + [x]) == if FirstOther(s) != HOME_ORG then FirstOther(s) else x
  {
    if s != [] {
      FirstOtherSnoc(s[1..], x);
      assert (s + [x])[1..] == s[1..] + [x];
    }
  }

  lemma {:induction false} OrgsPrefix(a: seq<Event>, b: seq<Event>, n: nat)
    requires n <= |a|
    ensures OrgsSinceOverride(a + b, n) == OrgsSinceOverride(a, n)
  {
    if n > 0 { OrgsPrefix(a, b, n - 1); }
  }

  lemma OrgsSnoc(es: seq<Event>, x: Event)
    ensures OrgsSinceOverride(es + [x], |es| + 1) ==
      if x.Set? then [x.org] else OrgsSinceOverride(es, |es|) + [x.org]
  {
    OrgsPrefix(es, [x], |es|);
  }

  // ---------------------------------------------------------------- calls keep the row truthful

  lemma CreatedTells(env: Env, c: Call)
    requires c.Upsert?
    ensures RowTells(env, Created(env, c),
                     [Seen(ResolveName(env, Strip(c.code), c.name), DirectionIn(env, c), OrgIn(env, c), c.source)])
  {
    var e := Seen(ResolveName(env, Strip(c.code), c.name), DirectionIn(env, c), OrgIn(env, c), c.source);
    CollectSnoc([], e, (x: Event) => if x.Seen? then [x.direction] else []);
    CollectSnoc([], e, (x: Event) => if x.Seen? then [x.source] else []);
    FirstOccurrencesSnoc([], e.source);
    FirstNonEmptySnoc([], e.direction);
    OrgsSnoc([], e);
    FirstOtherSnoc([], e.org);
    assert [] + [e] == [e] && [] + [e.direction] == [e.direction] && [] + [e.source] == [e.source];
    assert [] + [e.org] == [e.org];
  }

  lemma UpdatedTells(env: Env, e: Entry, es: seq<Event>, c: Call)
    requires c.Upsert? && RowTells(env, e, es)
    ensures RowTells(env, Updated(env, e, c),
      es + [Seen(ResolveName(env, Strip(c.code), c.name), DirectionIn(env, c), OrgIn(env, c), c.source)])
  {
    var x := Seen(ResolveName(env, Strip(c.code), c.name), DirectionIn(env, c), OrgIn(env, c), c.source);
    CollectSnoc(es, x, (x: Event) => if x.Seen? then [x.direction] else []);
    CollectSnoc(es, x, (x: Event) => if x.Seen? then [x.source] else []);
    FirstOccurrencesSnoc(SourcesOf(es), x.source);
    FirstNonEmptySnoc(Directions(es), x.direction);
    OrgsSnoc(es, x);
    FirstOtherSnoc(OrgsSinceOverride(es, |es|), x.org);
  }

  lemma OverriddenTells(env: Env, e: Entry, es: seq<Event>, org: string)
    requires RowTells(env, e, es)
    ensures RowTells(env, e.(orgCode := org, orgName := Label(env, org)), es + [Set(org)])
  {
    var x := Set(org);
    CollectSnoc(es, x, (x: Event) => if x.Seen? then [x.direction] else []);
    CollectSnoc(es, x, (x: Event) => if x.Seen? then [x.source] else []);
    OrgsSnoc(es, x);
    FirstOtherSnoc([], org);
    assert Directions(es) + [] == Directions(es) && SourcesOf(es) + [] == SourcesOf(es) && [] + [org] == [org];
  }

  /** For every sequence of calls: a key has a row exactly when a counting upsert named it, and the row
      tells what happened to that key and to no other. */
  lemma {:induction false} TableTells(env: Env, calls: seq<Call>, key: Key, n: nat)
    requires n <= |calls|
    ensures var m, es := CalledTo(env, calls, n), EventsTo(env, calls, key, n);
      && (key in m <==> es != [])
      && (key in m ==> RowTells(env, m[key], es))
  {
    if n > 0 {
      TableTells(env, calls, key, n - 1);
      var m, es, c := CalledTo(env, calls, n - 1), EventsTo(env, calls, key, n - 1), calls[n - 1];
      if Counts(env, c) && KeyOf(env, c) == key {
        if c.Upsert? {
          if key in m {
            UpdatedTells(env, m[key], es, c);
          } else {
            CreatedTells(env, c);
            assert es + [Seen(ResolveName(env, Strip(c.code), c.name), DirectionIn(env, c), OrgIn(env, c), c.source)]
                == [Seen(ResolveName(env, Strip(c.code), c.name), DirectionIn(env, c), OrgIn(env, c), c.source)];
          }
        } else if key in m {
          OverriddenTells(env, m[key], es, c.setOrg);
        }
      }
    }
  }

  /** One call on an existing row: the name stays, a direction once set stays, sources only grow, and
      an upsert moves the organisation only away from the home one. */
  lemma CallKeeps(env: Env, m: map<Key, Entry>, c: Call, key: Key)
    requires key in m
    ensures var after := Called(env, m, c);
      && key in after && after[key].name == m[key].name && m[key].sources <= after[key].sources
      && (m[key].direction != "" ==> after[key].direction == m[key].direction)
      && (c.Upsert? && m[key].orgCode != HOME_ORG ==> after[key].orgCode == m[key].orgCode)
  {
  }
}
