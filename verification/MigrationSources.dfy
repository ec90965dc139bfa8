/** The staging table source by source. Its key is (source, department id), but the script asks for the
    current id without regard to the source: exactly which sources lose an id by that. */
module MigrationSources {
  import opened Seqs
  import opened Codes
  import opened Migration
  import opened CodesInPlace
  import opened MigrationLaws

  /** The ids one source knows. */
  function SourceIds(rows: seq<ErpDepartment>, source: string): set<string> {
    set r | r in rows && r.source == source :: r.id
  }

  /** What a source should know after the codes of `order` moved. */
  function Image(t: AliasTable, ids: set<string>): set<string> {
    set id | id in ids :: Alias(t, id)
  }

  // ---------------------------------------------------------------- one code

  lemma OneRowOfSource(t: AliasTable, front: seq<ErpDepartment>, r: ErpDepartment, prev: seq<ErpDepartment>,
                       code: string, newExists: bool, names: map<string, string>, source: string)
    requires SourceIds(prev, source) == MovedIds(t, SourceIds(front, source), code, newExists)
    ensures SourceIds(prev + ErpRowAfter(t, r, code, newExists, names), source)
         == MovedIds(t, SourceIds(front + [r], source), code, newExists)
  {
    var add := ErpRowAfter(t, r, code, newExists, names);
    SourceIdsOfConcat(front, [r], source);
    SourceIdsOfConcat(prev, add, source);
    assert SourceIds([r], source) == if r.source == source then {r.id} else {};
    assert SourceIds(add, source) == if add != [] && r.source == source then {add[0].id} else {};
  }

  lemma SourceIdsOfConcat(a: seq<ErpDepartment>, b: seq<ErpDepartment>, source: string)
    ensures SourceIds(a + b, source) == SourceIds(a, source) + SourceIds(b, source)
  {
    forall id | id in SourceIds(a, source) + SourceIds(b, source) ensures id in SourceIds(a + b, source) {
      if id in SourceIds(a, source) {
        var r :| r in a && r.source == source && r.id == id;
        assert r in a + b;
      } else {
        var r :| r in b && r.source == source && r.id == id;
        assert r in a + b;
      }
    }
  }

  lemma {:induction false} RewriteSourceIds(t: AliasTable, rows: seq<ErpDepartment>, code: string, newExists: bool,
                                            names: map<string, string>, source: string, n: nat)
    requires n <= |rows|
    ensures SourceIds(CollectFrom([], rows, r => ErpRowAfter(t, r, code, newExists, names), n), source)
         == MovedIds(t, SourceIds(rows[..n], source), code, newExists)
  {
    if n > 0 {
      RewriteSourceIds(t, rows, code, newExists, names, source, n - 1);
      assert rows[..n] == rows[..n - 1] + [rows[n - 1]];
      OneRowOfSource(t, rows[..n - 1], rows[n - 1],
                     CollectFrom([], rows, r => ErpRowAfter(t, r, code, newExists, names), n - 1), code, newExists,
                     names, source);
    }
  }

  lemma SourceStep(t: AliasTable, rows: seq<ErpDepartment>, code: string, names: map<string, string>, source: string)
    ensures SourceIds(ErpStep(t, rows, code, names), source)
         == MovedIds(t, SourceIds(rows, source), code, Alias(t, code) in ErpIds(rows))
  {
    RewriteSourceIds(t, rows, code, Alias(t, code) in ErpIds(rows), names, source, |rows|);
    assert rows[..|rows|] == rows;
  }

  /** One code: a source ends with what it should if and only if it did not know the code, knows the
      current one already, or no source does. */
  lemma StepKeepsSourceExactly(t: AliasTable, rows: seq<ErpDepartment>, code: string, names: map<string, string>,
                               source: string)
    requires Safe(t) && IsRetired(t, code)
    ensures var ids := SourceIds(rows, source);
      SourceIds(ErpStep(t, rows, code, names), source)
        == (ids - {code}) + (if code in ids then {Alias(t, code)} else {})
      <==> code !in ids || Alias(t, code) in ids || Alias(t, code) !in ErpIds(rows)
  {
    SourceStep(t, rows, code, names, source);
    AliasFacts(t, code);
    var ids, a := SourceIds(rows, source), Alias(t, code);
    if code in ids && a !in ids && a in ErpIds(rows) {
      assert a !in MovedIds(t, ids, code, true);
    }
  }

  // ---------------------------------------------------------------- the whole run

  /** The first code of `order` in the table whose current code is `a`: its rows are renamed, those of
      later codes with the same successor are deleted. */
  function Renamed(t: AliasTable, rows: seq<ErpDepartment>, order: seq<string>, a: string): Option<string> {
    if order == [] then None
    else
      var earlier, code := Renamed(t, rows, order[..|order| - 1], a), order[|order| - 1];
      if earlier.Some? then earlier
      else if Alias(t, code) == a && code in ErpIds(rows) then Some(code)
      else None
  }

  lemma {:induction false} RenamedMeaning(t: AliasTable, rows: seq<ErpDepartment>, order: seq<string>, a: string)
    ensures Renamed(t, rows, order, a).Some? <==> exists c :: c in order && c in ErpIds(rows) && Alias(t, c) == a
    ensures var c := Renamed(t, rows, order, a);
      c.Some? ==> c.value in order && c.value in ErpIds(rows) && Alias(t, c.value) == a
  {
    if order != [] {
      var front, code := order[..|order| - 1], order[|order| - 1];
      assert order == front + [code];
      RenamedMeaning(t, rows, front, a);
    }
  }

  /** The current code is in the table once it was, or once a code that it succeeds has been met. */
  lemma PresentNow(t: AliasTable, rows: seq<ErpDepartment>, order: seq<string>, names: map<string, string>, a: string)
    requires Safe(t) && !IsRetired(t, a) && forall c :: c in order ==> IsRetired(t, c)
    ensures a in ErpIds(ErpMoved(t, rows, order, names)) <==> a in ErpIds(rows) || Renamed(t, rows, order, a).Some?
  {
    ErpMovedIds(t, rows, order, names);
    RenamedMeaning(t, rows, order, a);
    if a in ErpIds(rows) { assert AliasWithin(t, order, a) == a; }
    forall c | c in order && c in ErpIds(rows) && Alias(t, c) == a ensures AliasWithin(t, order, c) == a {
    }
  }

  /** An id a source knows afterwards: one it knew that is not retired, or a current one the table did
      not have, if the rows renamed to it are (also) its own. */
  ghost predicate KnownAfter(t: AliasTable, rows: seq<ErpDepartment>, order: seq<string>, source: string, id: string) {
    || (id in SourceIds(rows, source) && id !in order)
    || (id !in ErpIds(rows) && Renamed(t, rows, order, id).Some?
        && Renamed(t, rows, order, id).value in SourceIds(rows, source))
  }

  lemma SourceIdsAreIds(rows: seq<ErpDepartment>, source: string)
    ensures SourceIds(rows, source) <= ErpIds(rows)
  {
  }

  lemma KnownNext(t: AliasTable, rows: seq<ErpDepartment>, front: seq<string>, code: string, source: string,
                  before: set<string>, present: bool, id: string)
    requires Safe(t) && IsRetired(t, code) && code !in front && forall c :: c in front ==> IsRetired(t, c)
    requires forall x :: x in before <==> KnownAfter(t, rows, front, source, x)
    requires present <==> Alias(t, code) in ErpIds(rows) || Renamed(t, rows, front, Alias(t, code)).Some?
    ensures id in MovedIds(t, before, code, present) <==> KnownAfter(t, rows, front + [code], source, id)
  {
    var a, order := Alias(t, code), front + [code];
    assert order[..|order| - 1] == front && order[|order| - 1] == code;
    AliasFacts(t, code);
    SourceIdsAreIds(rows, source);
    RenamedMeaning(t, rows, front, id);
    RenamedMeaning(t, rows, front, code);
    assert Renamed(t, rows, front, code).None? by {
      if Renamed(t, rows, front, code).Some? { AliasFacts(t, Renamed(t, rows, front, code).value); }
    }
    assert code in before <==> code in SourceIds(rows, source);
  }

  /** What each source knows after the whole pass. */
  lemma {:induction false} SourceIdsAfter(t: AliasTable, rows: seq<ErpDepartment>, order: seq<string>,
                                          names: map<string, string>, source: string)
    requires Safe(t) && Distinct(order) && forall c :: c in order ==> IsRetired(t, c)
    ensures forall id :: id in SourceIds(ErpMoved(t, rows, order, names), source) <==>
      KnownAfter(t, rows, order, source, id)
  {
    if order == [] {
    } else {
      var front, code := order[..|order| - 1], order[|order| - 1];
      var before := ErpMoved(t, rows, front, names);
      assert order == front + [code];
      SourceIdsAfter(t, rows, front, names, source);
      SourceStep(t, before, code, names, source);
      AliasFacts(t, code);
      PresentNow(t, rows, front, names, Alias(t, code));
      forall id ensures id in SourceIds(ErpMoved(t, rows, order, names), source) <==>
        KnownAfter(t, rows, order, source, id)
      {
        KnownNext(t, rows, front, code, source, SourceIds(before, source), Alias(t, code) in ErpIds(before), id);
      }
    }
  }

  /** A source keeps the successor of one of its codes: it knows it already, or no source does and its
      own rows are among those renamed to it. */
  ghost predicate KeepsSuccessor(t: AliasTable, rows: seq<ErpDepartment>, order: seq<string>, source: string,
                                 code: string)
  {
    var a, ids := Alias(t, code), SourceIds(rows, source);
    a in ids || (a !in ErpIds(rows) && Renamed(t, rows, order, a).Some? && Renamed(t, rows, order, a).value in ids)
  }

  /** Whole run: a source's ids afterwards are the aliases of its ids before if and only if it keeps the
      successor of every retired code it knew. It never gains an id otherwise. */
  lemma SourceKeepsImageExactly(t: AliasTable, rows: seq<ErpDepartment>, order: seq<string>,
                                names: map<string, string>, source: string)
    requires Safe(t) && IsListingOfRetired(t, order)
    ensures var after, ids := SourceIds(ErpMoved(t, rows, order, names), source), SourceIds(rows, source);
      && after <= Image(t, ids)
      && (after == Image(t, ids) <==>
            forall c :: c in ids && IsRetired(t, c) ==> KeepsSuccessor(t, rows, order, source, c))
  {
    var after, ids := SourceIds(ErpMoved(t, rows, order, names), source), SourceIds(rows, source);
    SourceIdsAfter(t, rows, order, names, source);
    forall id | id in after ensures id in Image(t, ids) {
      RenamedMeaning(t, rows, order, id);
      if id in ids && id !in order { AliasOfOther(t, id); assert Alias(t, id) == id; }
    }
    forall c | c in ids
      ensures Alias(t, c) in after <==> !IsRetired(t, c) || KeepsSuccessor(t, rows, order, source, c)
    {
      AliasFacts(t, c);
      if !IsRetired(t, c) { AliasOfOther(t, c); }
    }
    if forall c :: c in ids && IsRetired(t, c) ==> KeepsSuccessor(t, rows, order, source, c) {
      assert Image(t, ids) <= after;
    } else {
      var c :| c in ids && IsRetired(t, c) && !KeepsSuccessor(t, rows, order, source, c);
      assert Alias(t, c) in Image(t, ids);
    }
  }

  // ---------------------------------------------------------------- whatever the order

  /** The iteration order of the frozenset is not known beforehand. This condition is: the successor is
      known to the source, or to no source while every code it succeeds is known to this one. */
  ghost predicate KeepsInAnyOrder(t: AliasTable, rows: seq<ErpDepartment>, source: string, code: string) {
    var a, ids := Alias(t, code), SourceIds(rows, source);
    a in ids || (a !in ErpIds(rows) &&
      forall c :: c in ErpIds(rows) && IsRetired(t, c) && Alias(t, c) == a ==> c in ids)
  }

  /** A listing of the retired codes that begins with `first`. */
  function StartingWith(codes: seq<string>, first: string): seq<string> {
    [first] + Filter(codes, c => c != first)
  }

  lemma {:induction false} FilterElements(codes: seq<string>, first: string, n: nat)
    requires Distinct(codes) && n <= |codes|
    ensures var f := FilterTo(codes, c => c != first, n);
      Distinct(f) && forall c :: c in f <==> c in codes[..n] && c != first
  {
    if n > 0 {
      FilterElements(codes, first, n - 1);
      assert codes[..n] == codes[..n - 1] + [codes[n - 1]];
      assert codes[n - 1] !in codes[..n - 1];
    }
  }

  lemma StartingWithIsListing(t: AliasTable, first: string)
    requires Distinct(t.retired) && IsRetired(t, first)
    ensures IsListingOfRetired(t, StartingWith(t.retired, first))
  {
    FilterElements(t.retired, first, |t.retired|);
    assert t.retired[..|t.retired|] == t.retired;
  }

  lemma {:induction false} FirstIsRenamed(t: AliasTable, rows: seq<ErpDepartment>, order: seq<string>)
    requires order != [] && order[0] in ErpIds(rows)
    ensures Renamed(t, rows, order, Alias(t, order[0])) == Some(order[0])
  {
    if |order| > 1 {
      var front := order[..|order| - 1];
      assert front[0] == order[0];
      FirstIsRenamed(t, rows, front);
    } else {
      assert order[..|order| - 1] == [];
    }
  }

  lemma KeepsWhateverTheOrder(t: AliasTable, rows: seq<ErpDepartment>, order: seq<string>, source: string, code: string)
    requires Safe(t) && IsListingOfRetired(t, order) && IsRetired(t, code) && code in SourceIds(rows, source)
    requires KeepsInAnyOrder(t, rows, source, code)
    ensures KeepsSuccessor(t, rows, order, source, code)
  {
    RenamedMeaning(t, rows, order, Alias(t, code));
    SourceIdsAreIds(rows, source);
  }

  /** A source keeps its image under every order if and only if the condition holds of each of its
      retired codes. */
  lemma SourceKeepsImageInAnyOrder(t: AliasTable, rows: seq<ErpDepartment>, names: map<string, string>, source: string)
    requires Safe(t) && Distinct(t.retired)
    ensures (forall order :: IsListingOfRetired(t, order) ==>
        SourceIds(ErpMoved(t, rows, order, names), source) == Image(t, SourceIds(rows, source)))
      <==> forall c :: c in SourceIds(rows, source) && IsRetired(t, c) ==> KeepsInAnyOrder(t, rows, source, c)
  {
    var ids := SourceIds(rows, source);
    if forall c :: c in ids && IsRetired(t, c) ==> KeepsInAnyOrder(t, rows, source, c) {
      forall order | IsListingOfRetired(t, order)
        ensures SourceIds(ErpMoved(t, rows, order, names), source) == Image(t, ids)
      {
        SourceKeepsImageExactly(t, rows, order, names, source);
        forall c | c in ids && IsRetired(t, c) ensures KeepsSuccessor(t, rows, order, source, c) {
          KeepsWhateverTheOrder(t, rows, order, source, c);
        }
      }
    } else {
      var c :| c in ids && IsRetired(t, c) && !KeepsInAnyOrder(t, rows, source, c);
      var order := SomeOrderLoses(t, rows, source, c);
      SourceKeepsImageExactly(t, rows, order, names, source);
      assert IsListingOfRetired(t, order) && SourceIds(ErpMoved(t, rows, order, names), source) != Image(t, ids);
    }
  }

  lemma SomeOrderLoses(t: AliasTable, rows: seq<ErpDepartment>, source: string, code: string)
    returns (order: seq<string>)
    requires Safe(t) && Distinct(t.retired) && IsRetired(t, code) && code in SourceIds(rows, source)
    requires !KeepsInAnyOrder(t, rows, source, code)
    ensures IsListingOfRetired(t, order) && !KeepsSuccessor(t, rows, order, source, code)
  {
    if Alias(t, code) in ErpIds(rows) {
      order := StartingWith(t.retired, code);
      StartingWithIsListing(t, code);
    } else {
      var c :| c in ErpIds(rows) && IsRetired(t, c) && Alias(t, c) == Alias(t, code) && c !in SourceIds(rows, source);
      order := StartingWith(t.retired, c);
      StartingWithIsListing(t, c);
      FirstIsRenamed(t, rows, order);
    }
  }

  /** A source can lose everything: the script's table, a source that knows one retired code, and
      another that knows its successor. */
  lemma ScriptLosesASource(order: seq<string>, names: map<string, string>)
    requires IsListingOfRetired(SCRIPT_TABLE, order)
    ensures var rows := [ErpDepartment("a", "00-000034", "x"), ErpDepartment("b", "00-000152", "y")];
      && Image(SCRIPT_TABLE, SourceIds(rows, "a")) == {"00-000152"}
      && SourceIds(ErpMoved(SCRIPT_TABLE, rows, order, names), "a") == {}
  {
    ScriptTableIsSafe();
    ScriptAlias(0);
    LosesASource(SCRIPT_TABLE, ErpDepartment("a", "00-000034", "x"), ErpDepartment("b", "00-000152", "y"), order,
                 names);
  }

  lemma LosesASource(t: AliasTable, a: ErpDepartment, b: ErpDepartment, order: seq<string>, names: map<string, string>)
    requires Safe(t) && IsListingOfRetired(t, order) && a.source != b.source
    requires Alias(t, a.id) == b.id != a.id
    ensures Image(t, SourceIds([a, b], a.source)) == {b.id}
    ensures SourceIds(ErpMoved(t, [a, b], order, names), a.source) == {}
  {
    var rows := [a, b];
    assert SourceIds(rows, a.source) == {a.id} && b in rows && b.id in ErpIds(rows);
    SourceKeepsImageExactly(t, rows, order, names, a.source);
    SourceIdsAfter(t, rows, order, names, a.source);
  }
}
