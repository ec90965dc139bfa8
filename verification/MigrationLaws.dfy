/** What the migration guarantees: clean columns and XML, a fixpoint in two applies, and dry runs
    that predict applies. Stated for every safe alias table and every XML rebuilder. */
module MigrationLaws {
  import opened Text
  import opened Seqs
  import opened Codes
  import opened Migration

  // ---------------------------------------------------------------- one message

  /** Whatever the rebuilder returns, one apply leaves no retired code in the department column
      and none in the XML document of an object payload. */
  lemma ApplyCleansXml(t: AliasTable, row: EmailRow, names: map<string, string>, rebuild: Rebuild)
    requires Safe(t)
    ensures var after := Applied(t, row, names, rebuild);
      !CodedRetired(t, after) && (after.payload.Object? ==> !HasRetired(t, after.payload.xml))
  {
    AliasOfStripped(t, OrEmpty(row.departmentId));
    var first := Coded(t, row, names, rebuild);
    if first.payload.Object? { ReplaceCodesClears(t, first.payload.xml); }
  }

  /** A retired code that one apply leaves in the payload text, and exactly when: in a JSON value that
      is not an object, of a message whose department was already current; or outside the XML, when
      the second pass had to write the XML anew. */
  ghost predicate LeftAfterOneApply(t: AliasTable, row: EmailRow, names: map<string, string>, rebuild: Rebuild) {
    match row.payload
    case NonObject(text) => HasRetired(t, text) && !CodedRetired(t, row)
    case Object(xml, others, _) =>
      && HasRetired(t, xml) && HasRetired(t, others)
      && (CodedRetired(t, row) ==> HasRetired(t, rebuild(WithCurrentDepartment(t, row, names))))
    case _ => false
  }

  lemma LeftoverIsExact(t: AliasTable, row: EmailRow, names: map<string, string>, rebuild: Rebuild)
    requires Safe(t)
    ensures TextHasRetired(t, Applied(t, row, names, rebuild).payload)
       <==> LeftAfterOneApply(t, row, names, rebuild)
  {
    EmptyTextHasNone(t);
    match row.payload {
      case Absent =>
      case Broken(text) => ReplaceCodesClears(t, text);
      case NonObject(text) => ReplaceCodesClears(t, text);
      case Object(xml, others, _) =>
        ReplaceCodesClears(t, xml);
        ReplaceCodesClears(t, others);
        var first := Coded(t, row, names, rebuild);
        ReplaceCodesClears(t, first.payload.xml);
    }
  }

  /** For instance, with the script's table and whatever the rebuilder: a letter without a department
      that has codes in its XML and beside it. */
  lemma ScriptLeavesCodes(names: map<string, string>, rebuild: Rebuild)
    ensures var row := EmailRow(None, None, Object("00-000034", "00-000037", true), "m");
      TextHasRetired(SCRIPT_TABLE, Applied(SCRIPT_TABLE, row, names, rebuild).payload)
  {
    var row := EmailRow(None, None, Object("00-000034", "00-000037", true), "m");
    ScriptTableIsSafe();
    ScriptCodeIsRetired(0);
    ScriptCodeIsRetired(1);
    assert !CodedRetired(SCRIPT_TABLE, row) by { NoBlankCode(); }
    LeftoverIsExact(SCRIPT_TABLE, row, names, rebuild);
  }

  lemma NoBlankCode()
    ensures !IsRetired(SCRIPT_TABLE, Strip(""))
  {
    assert forall j :: 0 <= j < |SCRIPT_TABLE.retired| ==> |SCRIPT_TABLE.retired[j]| == 9;
  }

  /** The second apply leaves the columns alone and clears the payload text, except for JSON values
      that are not objects; from then on nothing moves. Name tables and rebuilders of the runs may differ. */
  lemma SecondApplySettles(t: AliasTable, row: EmailRow, names1: map<string, string>, names2: map<string, string>,
                           names3: map<string, string>, rebuild1: Rebuild, rebuild2: Rebuild, rebuild3: Rebuild)
    requires Safe(t)
    ensures var once := Applied(t, row, names1, rebuild1);
      var twice := Applied(t, once, names2, rebuild2);
      && twice.departmentId == once.departmentId && twice.departmentName == once.departmentName
      && (TextHasRetired(t, twice.payload) <==>
          row.payload.NonObject? && HasRetired(t, row.payload.text) && !CodedRetired(t, row))
      && Applied(t, twice, names3, rebuild3) == twice
  {
    var once := Applied(t, row, names1, rebuild1);
    ApplyCleansXml(t, row, names1, rebuild1);
    LeftoverIsExact(t, row, names1, rebuild1);
    LeftoverIsExact(t, once, names2, rebuild2);
    ApplyCleansXml(t, once, names2, rebuild2);
  }

  // ---------------------------------------------------------------- event logs and code lists

  lemma ClassificationSettles(t: AliasTable, e: ClassificationEvent, names: map<string, string>)
    requires Safe(t)
    ensures var after := MovedNewId(t, MovedOldId(t, e, names), names);
      && !ColumnRetired(t, after.oldId) && !ColumnRetired(t, after.newId)
      && forall names2 :: MovedNewId(t, MovedOldId(t, after, names2), names2) == after
  {
    if ColumnRetired(t, e.oldId) { AliasFacts(t, e.oldId.value); }
    if ColumnRetired(t, e.newId) { AliasFacts(t, e.newId.value); }
  }

  /** Neither value of a change event is a retired code, spaces around it aside. */
  predicate ChangeCurrent(t: AliasTable, e: ChangeEvent) {
    && (e.oldValue.Some? ==> !IsRetired(t, Strip(e.oldValue.value)))
    && (e.newValue.Some? ==> !IsRetired(t, Strip(e.newValue.value)))
  }

  /** No code of a contractor's list is retired, spaces around it aside. */
  ghost predicate ContractorCurrent(t: AliasTable, c: Contractor) {
    c.departments.CodeList? ==> forall x :: x in c.departments.codes ==> !IsRetired(t, Strip(x))
  }

  lemma ChangeSettles(t: AliasTable, e: ChangeEvent)
    requires Safe(t)
    ensures ChangeCurrent(t, MovedChange(t, e))
    ensures MovedChange(t, MovedChange(t, e)) == MovedChange(t, e)
  {
    if e.oldValue.Some? { AliasOfStripped(t, e.oldValue.value); }
    if e.newValue.Some? { AliasOfStripped(t, e.newValue.value); }
  }

  lemma {:induction false} MovedCodesIsDedupedImage(t: AliasTable, codes: seq<string>, image: seq<string>, n: nat)
    requires n <= |codes| == |image|
    requires forall i :: 0 <= i < |codes| ==> image[i] == Alias(t, Strip(codes[i]))
    ensures MovedCodes(t, codes, n) == FirstOccurrencesTo(image, n)
  {
    if n > 0 { MovedCodesIsDedupedImage(t, codes, image, n - 1); }
  }

  lemma {:induction false} ListsRetiredMeaning(t: AliasTable, codes: seq<string>, n: nat)
    requires n <= |codes|
    ensures ListsRetiredTo(t, codes, n) <==> exists i :: 0 <= i < n && IsRetired(t, Strip(codes[i]))
  {
    if n > 0 { ListsRetiredMeaning(t, codes, n - 1); }
  }

  lemma {:induction false} MovedCodesAreCurrent(t: AliasTable, codes: seq<string>, n: nat)
    requires Safe(t) && n <= |codes|
    ensures forall x :: x in MovedCodes(t, codes, n) ==> !IsRetired(t, Strip(x))
  {
    if n > 0 {
      MovedCodesAreCurrent(t, codes, n - 1);
      AliasOfStripped(t, codes[n - 1]);
    }
  }

  /** The rewritten list: the alias image of the stripped codes, each kept where it first appears. */
  lemma MovedCodesMeaning(t: AliasTable, codes: seq<string>)
    ensures var after, image := MovedCodes(t, codes, |codes|), Map(codes, c => Alias(t, Strip(c)));
      after == FirstOccurrences(image) && Distinct(after) && forall x :: x in after <==> x in image
  {
    var image := Map(codes, c => Alias(t, Strip(c)));
    MovedCodesIsDedupedImage(t, codes, image, |codes|);
    FirstOccurrencesElements(image);
  }

  lemma MovedCodesNotRetired(t: AliasTable, codes: seq<string>)
    requires Safe(t)
    ensures !ListsRetired(t, MovedCodes(t, codes, |codes|))
  {
    var after := MovedCodes(t, codes, |codes|);
    MovedCodesAreCurrent(t, codes, |codes|);
    ListsRetiredMeaning(t, after, |after|);
  }

  /** A list is rewritten exactly when one of its stripped codes is retired, and only once. */
  lemma ContractorSettles(t: AliasTable, c: Contractor)
    requires Safe(t) && c.departments.CodeList?
    ensures var codes := c.departments.codes;
      MovedContractor(t, c) ==
        if exists i :: 0 <= i < |codes| && IsRetired(t, Strip(codes[i]))
        then c.(departments := CodeList(MovedCodes(t, codes, |codes|))) else c
    ensures ContractorCurrent(t, MovedContractor(t, c))
    ensures MovedContractor(t, MovedContractor(t, c)) == MovedContractor(t, c)
  {
    ListsRetiredMeaning(t, c.departments.codes, |c.departments.codes|);
    MovedCodesNotRetired(t, c.departments.codes);
    MovedCodesAreCurrent(t, c.departments.codes, |c.departments.codes|);
  }

  lemma CurrentContractorStays(t: AliasTable, c: Contractor)
    requires ContractorCurrent(t, c)
    ensures MovedContractor(t, c) == c
  {
    if c.departments.CodeList? { ListsRetiredMeaning(t, c.departments.codes, |c.departments.codes|); }
  }

  // ---------------------------------------------------------------- the staging table

  /** What a run over `order` does to an id. */
  function AliasWithin(t: AliasTable, order: seq<string>, id: string): string {
    if id in order then Alias(t, id) else id
  }

  lemma IdsOfConcat(a: seq<ErpDepartment>, b: seq<ErpDepartment>)
    ensures ErpIds(a + b) == ErpIds(a) + ErpIds(b)
  {
    forall id | id in ErpIds(a) + ErpIds(b) ensures id in ErpIds(a + b) {
      if id in ErpIds(a) {
        var r :| r in a && r.id == id;
        assert r in a + b;
      } else {
        var r :| r in b && r.id == id;
        assert r in a + b;
      }
    }
  }

  /** What moving `code` does to a set of ids. */
  function MovedIds(t: AliasTable, ids: set<string>, code: string, newExists: bool): set<string> {
    (ids - {code}) + (if code in ids && !newExists then {Alias(t, code)} else {})
  }

  lemma OneRowsIds(t: AliasTable, front: seq<ErpDepartment>, r: ErpDepartment, prev: seq<ErpDepartment>, code: string,
                   newExists: bool, names: map<string, string>)
    requires ErpIds(prev) == MovedIds(t, ErpIds(front), code, newExists)
    ensures ErpIds(prev + ErpRowAfter(t, r, code, newExists, names))
         == MovedIds(t, ErpIds(front + [r]), code, newExists)
  {
    var add := ErpRowAfter(t, r, code, newExists, names);
    IdsOfConcat(front, [r]);
    IdsOfConcat(prev, add);
    assert ErpIds([r]) == {r.id};
    assert ErpIds(add) == if add == [] then {} else {add[0].id};
  }

  lemma {:induction false} RewriteIds(t: AliasTable, rows: seq<ErpDepartment>, code: string, newExists: bool,
                                      names: map<string, string>, n: nat)
    requires n <= |rows|
    ensures var after := CollectFrom([], rows, r => ErpRowAfter(t, r, code, newExists, names), n);
      ErpIds(after) == MovedIds(t, ErpIds(rows[..n]), code, newExists)
  {
    if n > 0 {
      RewriteIds(t, rows, code, newExists, names, n - 1);
      var prev := CollectFrom([], rows, r => ErpRowAfter(t, r, code, newExists, names), n - 1);
      assert rows[..n] == rows[..n - 1] + [rows[n - 1]];
      OneRowsIds(t, rows[..n - 1], rows[n - 1], prev, code, newExists, names);
    }
  }

  lemma ErpStepIds(t: AliasTable, rows: seq<ErpDepartment>, code: string, names: map<string, string>)
    requires Safe(t) && IsRetired(t, code)
    ensures ErpIds(ErpStep(t, rows, code, names)) ==
      (ErpIds(rows) - {code}) + (if code in ErpIds(rows) then {Alias(t, code)} else {})
  {
    RewriteIds(t, rows, code, Alias(t, code) in ErpIds(rows), names, |rows|);
    assert rows[..|rows|] == rows;
    AliasFacts(t, code);
  }

  lemma {:induction false} ErpMovedIds(t: AliasTable, rows: seq<ErpDepartment>, order: seq<string>,
                                       names: map<string, string>)
    requires Safe(t) && forall c :: c in order ==> IsRetired(t, c)
    ensures ErpIds(ErpMoved(t, rows, order, names)) == set id | id in ErpIds(rows) :: AliasWithin(t, order, id)
  {
    if order != [] {
      var front, code := order[..|order| - 1], order[|order| - 1];
      assert order == front + [code];
      ErpMovedIds(t, rows, front, names);
      var before := ErpMoved(t, rows, front, names);
      ErpStepIds(t, before, code, names);
      AliasFacts(t, code);
      forall id | id in ErpIds(rows)
        ensures AliasWithin(t, front, id) in ErpIds(before)
        ensures AliasWithin(t, order, id) ==
          if AliasWithin(t, front, id) == code then Alias(t, code) else AliasWithin(t, front, id)
      {
        AliasFacts(t, id);
      }
    } else {
      assert forall id :: AliasWithin(t, order, id) == id;
    }
  }

  /** For every iteration order of the frozenset, the ids in `erp_departments` afterwards are exactly
      the aliases of the ids before. */
  lemma ErpIdsAreTheAliasImage(t: AliasTable, rows: seq<ErpDepartment>, order: seq<string>,
                               names: map<string, string>)
    requires Safe(t) && IsListingOfRetired(t, order)
    ensures ErpIds(ErpMoved(t, rows, order, names)) == set id | id in ErpIds(rows) :: Alias(t, id)
    ensures forall id :: id in ErpIds(ErpMoved(t, rows, order, names)) ==> !IsRetired(t, id)
  {
    ErpMovedIds(t, rows, order, names);
    forall id | id in ErpIds(rows) ensures AliasWithin(t, order, id) == Alias(t, id) && !IsRetired(t, Alias(t, id)) {
      AliasFacts(t, id);
      if !IsRetired(t, id) { AliasOfOther(t, id); }
    }
  }

  /** Ids without repeats: over the whole table, or source by source as the schema demands
      (src/agent_pochta/db/models.py). */
  ghost predicate UniqueIds(rows: seq<ErpDepartment>, perSource: bool) {
    forall i, j :: 0 <= i < j < |rows| && rows[i].id == rows[j].id ==> perSource && rows[i].source != rows[j].source
  }

  ghost predicate ComesFrom(t: AliasTable, rows: seq<ErpDepartment>, code: string, y: ErpDepartment, r: ErpDepartment) {
    y.source == r.source && (y.id == r.id || (r.id == code && y.id == Alias(t, code) && y.id !in ErpIds(rows)))
  }

  lemma {:induction false} RewriteKeepsUnique(t: AliasTable, rows: seq<ErpDepartment>, code: string,
                                              names: map<string, string>, perSource: bool, n: nat)
    requires n <= |rows| && UniqueIds(rows, perSource)
    ensures var after := CollectFrom([], rows,
              r => ErpRowAfter(t, r, code, Alias(t, code) in ErpIds(rows), names), n);
      && UniqueIds(after, perSource)
      && forall y :: y in after ==> exists i :: 0 <= i < n && ComesFrom(t, rows, code, y, rows[i])
  {
    if n > 0 {
      RewriteKeepsUnique(t, rows, code, names, perSource, n - 1);
      var prev := CollectFrom([], rows, r => ErpRowAfter(t, r, code, Alias(t, code) in ErpIds(rows), names), n - 1);
      assert rows[n - 1] in rows;
      forall i | 0 <= i < |prev|
        ensures exists k :: 0 <= k < n - 1 && ComesFrom(t, rows, code, prev[i], rows[k])
      {
        assert prev[i] in prev;
      }
    }
  }

  /** Ids that were unique stay unique, in the same sense. */
  lemma {:induction false} ErpIdsStayUnique(t: AliasTable, rows: seq<ErpDepartment>, order: seq<string>,
                                            names: map<string, string>, perSource: bool)
    requires UniqueIds(rows, perSource)
    ensures UniqueIds(ErpMoved(t, rows, order, names), perSource)
  {
    if order != [] {
      var before := ErpMoved(t, rows, order[..|order| - 1], names);
      ErpIdsStayUnique(t, rows, order[..|order| - 1], names, perSource);
      RewriteKeepsUnique(t, before, order[|order| - 1], names, perSource, |before|);
    }
  }

  lemma {:induction false} ErpUntouched(t: AliasTable, rows: seq<ErpDepartment>, order: seq<string>,
                                        names: map<string, string>)
    requires forall c :: c in order ==> c !in ErpIds(rows)
    ensures ErpMoved(t, rows, order, names) == rows
  {
    if order != [] {
      var code := order[|order| - 1];
      ErpUntouched(t, rows, order[..|order| - 1], names);
      RewriteUntouched(t, rows, code, Alias(t, code) in ErpIds(rows), names, |rows|);
    }
  }

  lemma {:induction false} RewriteUntouched(t: AliasTable, rows: seq<ErpDepartment>, code: string, newExists: bool,
                                            names: map<string, string>, n: nat)
    requires n <= |rows| && code !in ErpIds(rows)
    ensures CollectFrom([], rows, r => ErpRowAfter(t, r, code, newExists, names), n) == rows[..n]
  {
    if n > 0 {
      RewriteUntouched(t, rows, code, newExists, names, n - 1);
      assert rows[n - 1] in rows;
    }
  }

  // ---------------------------------------------------------------- the departments table

  ghost predicate UniqueCodes(rows: seq<Department>) {
    forall i, j :: 0 <= i < j < |rows| ==> rows[i].code != rows[j].code
  }

  /** The rows whose code is not among `codes`, in order. */
  function Without(rows: seq<Department>, codes: seq<string>): (r: seq<Department>)
    ensures forall d :: d in r <==> d in rows && d.code !in codes
  {
    if rows == [] then []
    else if rows[0].code in codes then Without(rows[1..], codes)
    else [rows[0]] + Without(rows[1..], codes)
  }

  lemma {:induction false} WithoutNone(rows: seq<Department>, codes: seq<string>)
    requires forall d :: d in rows ==> d.code !in codes
    ensures Without(rows, codes) == rows
  {
    if rows != [] { WithoutNone(rows[1..], codes); }
  }

  lemma {:induction false} WithoutTwice(rows: seq<Department>, a: seq<string>, b: seq<string>, all: seq<string>)
    requires forall c :: c in all <==> c in a || c in b
    ensures Without(Without(rows, a), b) == Without(rows, all)
  {
    if rows != [] { WithoutTwice(rows[1..], a, b, all); }
  }

  /** With unique codes, deleting one code keeps every other row, in order. */
  lemma {:induction false} WithoutFirstIsFilter(rows: seq<Department>, code: string)
    requires UniqueCodes(rows)
    ensures WithoutFirst(rows, code) == Without(rows, [code])
    ensures UniqueCodes(WithoutFirst(rows, code))
  {
    if rows != [] {
      if rows[0].code == code {
        WithoutNone(rows[1..], [code]);
      } else {
        WithoutFirstIsFilter(rows[1..], code);
        assert forall r :: r in WithoutFirst(rows[1..], code) ==> r in rows[1..];
      }
    }
  }

  lemma {:induction false} WithoutEachIsFilter(rows: seq<Department>, codes: seq<string>)
    requires UniqueCodes(rows)
    ensures WithoutEach(rows, codes) == Without(rows, codes)
    ensures UniqueCodes(WithoutEach(rows, codes))
  {
    if codes == [] {
      WithoutNone(rows, []);
    } else {
      var front, last := codes[..|codes| - 1], codes[|codes| - 1];
      WithoutEachIsFilter(rows, front);
      WithoutFirstIsFilter(WithoutEach(rows, front), last);
      assert codes == front + [last];
      WithoutTwice(rows, front, [last], codes);
    }
  }

  /** Exactly the retired and the closed departments are gone. */
  lemma DepartmentsAfter(t: AliasTable, rows: seq<Department>, sorted: seq<string>)
    requires UniqueCodes(rows) && IsListingOfRetired(t, sorted)
    ensures var after := WithoutEach(WithoutEach(rows, sorted), t.closed);
      after == Without(rows, t.retired + t.closed) && UniqueCodes(after)
  {
    WithoutEachIsFilter(rows, sorted);
    WithoutEachIsFilter(WithoutEach(rows, sorted), t.closed);
    WithoutTwice(rows, sorted, t.closed, t.retired + t.closed);
  }

  // ---------------------------------------------------------------- whole runs

  /** A database the script accepts: targets present, department codes unique (schema constraint). */
  ghost predicate Runnable(t: AliasTable, s: State) {
    TargetsExist(t, s.departments) && UniqueCodes(s.departments)
  }

  ghost predicate ColumnsAgree(a: State, b: State) {
    && |a.emails| == |b.emails|
    && (forall i :: 0 <= i < |a.emails| ==>
          a.emails[i].departmentId == b.emails[i].departmentId
          && a.emails[i].departmentName == b.emails[i].departmentName)
    && a.classification == b.classification && a.changes == b.changes && a.erp == b.erp
    && a.contractors == b.contractors && a.departments == b.departments
  }

  /** No coded column and no XML document of the database names a retired department. */
  ghost predicate ColumnsCurrent(t: AliasTable, s: State) {
    && (forall i :: 0 <= i < |s.emails| ==>
          !CodedRetired(t, s.emails[i])
          && (s.emails[i].payload.Object? ==> !HasRetired(t, s.emails[i].payload.xml)))
    && (forall i :: 0 <= i < |s.classification| ==>
          !ColumnRetired(t, s.classification[i].oldId) && !ColumnRetired(t, s.classification[i].newId))
    && (forall i :: 0 <= i < |s.changes| ==> ChangeCurrent(t, s.changes[i]))
    && (forall id :: id in ErpIds(s.erp) ==> !IsRetired(t, id))
    && (forall i :: 0 <= i < |s.contractors| ==> ContractorCurrent(t, s.contractors[i]))
    && (forall d :: d in s.departments ==> !IsRetired(t, d.code) && d.code !in t.closed)
  }

  lemma EventsCurrent(t: AliasTable, s: State, rebuild: Rebuild, order: seq<string>, sorted: seq<string>)
    requires Safe(t)
    ensures var after := Migrated(t, s, rebuild, order, sorted);
      && (forall i :: 0 <= i < |after.classification| ==>
            !ColumnRetired(t, after.classification[i].oldId) && !ColumnRetired(t, after.classification[i].newId))
      && (forall i :: 0 <= i < |after.changes| ==> ChangeCurrent(t, after.changes[i]))
      && (forall i :: 0 <= i < |after.contractors| ==> ContractorCurrent(t, after.contractors[i]))
  {
    forall i | 0 <= i < |s.classification|
      ensures var e := MovedNewId(t, MovedOldId(t, s.classification[i], DepartmentNames(s.departments)),
                                  DepartmentNames(s.departments));
        !ColumnRetired(t, e.oldId) && !ColumnRetired(t, e.newId)
    {
      ClassificationSettles(t, s.classification[i], DepartmentNames(s.departments));
    }
    forall i | 0 <= i < |s.changes| ensures ChangeCurrent(t, MovedChange(t, s.changes[i])) {
      ChangeSettles(t, s.changes[i]);
    }
    forall i | 0 <= i < |s.contractors|
      ensures ContractorCurrent(t, MovedContractor(t, s.contractors[i]))
    {
      if s.contractors[i].departments.CodeList? { ContractorSettles(t, s.contractors[i]); }
    }
  }

  /** One apply leaves every coded column and every XML document current, and the database runnable. */
  lemma OneApplyIsCurrent(t: AliasTable, s: State, rebuild: Rebuild, order: seq<string>, sorted: seq<string>)
    requires Safe(t) && Runnable(t, s) && IsListingOfRetired(t, order) && IsListingOfRetired(t, sorted)
    ensures var after := Migrated(t, s, rebuild, order, sorted);
      ColumnsCurrent(t, after) && Runnable(t, after)
  {
    var names := DepartmentNames(s.departments);
    var after := Migrated(t, s, rebuild, order, sorted);
    forall i | 0 <= i < |s.emails|
      ensures !CodedRetired(t, after.emails[i])
      ensures after.emails[i].payload.Object? ==> !HasRetired(t, after.emails[i].payload.xml)
    {
      ApplyCleansXml(t, s.emails[i], names, rebuild);
    }
    EventsCurrent(t, s, rebuild, order, sorted);
    ErpIdsAreTheAliasImage(t, s.erp, order, names);
    DepartmentsAfter(t, s.departments, sorted);
    forall i | 0 <= i < |t.current| ensures HasCode(after.departments, t.current[i]) {
      SafeAt(t, |t.retired|, i);
      var k :| 0 <= k < |s.departments| && s.departments[k].code == t.current[i];
      assert s.departments[k] in after.departments;
    }
  }

  function EmailsApplied(t: AliasTable, rows: seq<EmailRow>, names: map<string, string>, rebuild: Rebuild)
    : seq<EmailRow>
  {
    Map(rows, row => Applied(t, row, names, rebuild))
  }

  lemma EmailColumnsStay(t: AliasTable, rows: seq<EmailRow>, names: map<string, string>, rebuild: Rebuild)
    requires forall i :: 0 <= i < |rows| ==> !CodedRetired(t, rows[i])
    ensures var after := EmailsApplied(t, rows, names, rebuild);
      |after| == |rows| && forall i :: 0 <= i < |rows| ==>
        after[i].departmentId == rows[i].departmentId && after[i].departmentName == rows[i].departmentName
  {
  }

  lemma LogsStay(t: AliasTable, s: State, names: map<string, string>)
    requires ColumnsCurrent(t, s)
    ensures Map(s.classification, e => MovedNewId(t, MovedOldId(t, e, names), names)) == s.classification
    ensures Map(s.changes, e => MovedChange(t, e)) == s.changes
    ensures Map(s.contractors, c => MovedContractor(t, c)) == s.contractors
  {
    forall i | 0 <= i < |s.contractors| ensures MovedContractor(t, s.contractors[i]) == s.contractors[i] {
      CurrentContractorStays(t, s.contractors[i]);
    }
  }

  lemma TablesStay(t: AliasTable, s: State, names: map<string, string>, order: seq<string>, sorted: seq<string>)
    requires Safe(t) && Runnable(t, s) && ColumnsCurrent(t, s)
    requires IsListingOfRetired(t, order) && IsListingOfRetired(t, sorted)
    ensures ErpMoved(t, s.erp, order, names) == s.erp
    ensures WithoutEach(WithoutEach(s.departments, sorted), t.closed) == s.departments
  {
    ErpUntouched(t, s.erp, order, names);
    DepartmentsAfter(t, s.departments, sorted);
    WithoutNone(s.departments, t.retired + t.closed);
  }

  /** Once current, a further apply moves no column. */
  lemma CurrentColumnsStay(t: AliasTable, s: State, rebuild: Rebuild, order: seq<string>, sorted: seq<string>)
    requires Safe(t) && Runnable(t, s) && ColumnsCurrent(t, s)
    requires IsListingOfRetired(t, order) && IsListingOfRetired(t, sorted)
    ensures ColumnsAgree(s, Migrated(t, s, rebuild, order, sorted))
  {
    var names := DepartmentNames(s.departments);
    EmailColumnsStay(t, s.emails, names, rebuild);
    LogsStay(t, s, names);
    TablesStay(t, s, names, order, sorted);
  }

  /** Payload texts that no apply ever cleans: JSON values that are not objects, of messages whose
      department was already current. */
  ghost predicate StaysDirty(t: AliasTable, row: EmailRow) {
    row.payload.NonObject? && HasRetired(t, row.payload.text) && !CodedRetired(t, row)
  }

  /** For instance a list: no number of applies changes this letter. */
  lemma ScriptNeverCleansLists(names: map<string, string>, rebuild: Rebuild)
    ensures var row := EmailRow(None, None, NonObject("[00-000034]"), "m");
      StaysDirty(SCRIPT_TABLE, row) && Applied(SCRIPT_TABLE, row, names, rebuild) == row
  {
    var text, t := "[00-000034]", SCRIPT_TABLE;
    assert OccursAt(text, t.retired[0], 1);
    HasRetiredMeaning(t, text, |t.retired|);
    NoBlankCode();
  }

  lemma EmailsSettle(t: AliasTable, rows: seq<EmailRow>, names1: map<string, string>, names2: map<string, string>,
                     names3: map<string, string>, rebuild1: Rebuild, rebuild2: Rebuild, rebuild3: Rebuild)
    requires Safe(t)
    ensures var twice := EmailsApplied(t, EmailsApplied(t, rows, names1, rebuild1), names2, rebuild2);
      && EmailsApplied(t, twice, names3, rebuild3) == twice
      && Map(twice, (row: EmailRow) => TextHasRetired(t, row.payload))
         == Map(rows, (row: EmailRow) => StaysDirty(t, row))
  {
    forall row: EmailRow
      ensures var twice := Applied(t, Applied(t, row, names1, rebuild1), names2, rebuild2);
        && Applied(t, twice, names3, rebuild3) == twice
        && (TextHasRetired(t, twice.payload) <==> StaysDirty(t, row))
    {
      SecondApplySettles(t, row, names1, names2, names3, rebuild1, rebuild2, rebuild3);
    }
    PassesSettle(rows, row => Applied(t, row, names1, rebuild1), row => Applied(t, row, names2, rebuild2),
                 row => Applied(t, row, names3, rebuild3), (row: EmailRow) => TextHasRetired(t, row.payload),
                 (row: EmailRow) => StaysDirty(t, row));
  }

  /** One run: its XML rebuilder, which may read other tables as they are then, and its iteration order. */
  datatype Run = Run(rebuild: Rebuild, order: seq<string>)

  /** Fixpoint: the second apply changes no column and leaves a retired code in exactly the payload
      texts that stay dirty; a third apply changes nothing at all. Each run may iterate the frozenset
      in its own order and rebuild in its own way. */
  lemma SettlesInTwoApplies(t: AliasTable, s: State, run1: Run, run2: Run, run3: Run, sorted: seq<string>)
    requires Safe(t) && Runnable(t, s) && IsListingOfRetired(t, sorted)
    requires IsListingOfRetired(t, run1.order) && IsListingOfRetired(t, run2.order)
    requires IsListingOfRetired(t, run3.order)
    ensures var once := Migrated(t, s, run1.rebuild, run1.order, sorted);
      var twice := Migrated(t, once, run2.rebuild, run2.order, sorted);
      && Runnable(t, once) && ColumnsCurrent(t, once) && ColumnsAgree(once, twice)
      && Map(twice.emails, (row: EmailRow) => TextHasRetired(t, row.payload))
         == Map(s.emails, (row: EmailRow) => StaysDirty(t, row))
      && Migrated(t, twice, run3.rebuild, run3.order, sorted) == twice
  {
    var once := Migrated(t, s, run1.rebuild, run1.order, sorted);
    var twice := Migrated(t, once, run2.rebuild, run2.order, sorted);
    OneApplyIsCurrent(t, s, run1.rebuild, run1.order, sorted);
    OneApplyIsCurrent(t, once, run2.rebuild, run2.order, sorted);
    CurrentColumnsStay(t, once, run2.rebuild, run2.order, sorted);
    CurrentColumnsStay(t, twice, run3.rebuild, run3.order, sorted);
    EmailsSettle(t, s.emails, DepartmentNames(s.departments), DepartmentNames(once.departments),
                 DepartmentNames(twice.departments), run1.rebuild, run2.rebuild, run3.rebuild);
  }
}
