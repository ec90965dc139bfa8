/** What an apply does to each row, said of the rows before and after: which code and name a column ends
    with, and what becomes of a payload. */
module MigrationMeaning {
  import opened Text
  import opened Seqs
  import opened Codes
  import opened Migration

  /** The name of `code` in the departments table: that of the last row with the code. */
  ghost predicate LastNamed(rows: seq<Department>, code: string, name: string) {
    exists k :: 0 <= k < |rows| && rows[k].code == code && rows[k].name == name
                && forall m :: k < m < |rows| ==> rows[m].code != code
  }

  /** A value that is row `j` of the alias table. */
  predicate IsRow(t: AliasTable, c: string, j: nat) {
    j < |t.retired| && t.retired[j] == c
  }

  // ---------------------------------------------------------------- letters

  /** The department: a letter of `t.retired[j]` goes to `t.current[j]` with its name in the departments
      table, every other letter stays where it was. */
  ghost predicate DepartmentMoved(t: AliasTable, deps: seq<Department>, a: EmailRow, b: EmailRow) {
    && (forall j: nat :: IsRow(t, Strip(OrEmpty(a.departmentId)), j) ==>
          && b.departmentId == Some(t.current[j])
          && b.departmentName.Some? && LastNamed(deps, t.current[j], b.departmentName.value))
    && (Strip(OrEmpty(a.departmentId)) !in t.retired ==>
          b.departmentId == a.departmentId && b.departmentName == a.departmentName)
  }

  /** The text a rebuilder's answer leaves, given the text it would replace. */
  function RebuiltOr(t: AliasTable, rebuilt: string, xml: string): string {
    if rebuilt != "" && !HasRetired(t, rebuilt) then rebuilt else ReplaceCodes(t, xml)
  }

  /** The XML of an object payload of a letter that moves, with codes in it: a clean rebuilt document; or
      the document with codes replaced, if there is none; or, of a dirty one, a second attempt. */
  ghost predicate CodedXmlMoved(t: AliasTable, rebuild: Rebuild, a: EmailRow, b: EmailRow)
    requires a.payload.Object?
  {
    var others := a.payload.others;
    var moved := a.(departmentId := b.departmentId, departmentName := b.departmentName);
    var first := rebuild(moved);
    if first == "" then b.payload == Object(ReplaceCodes(t, a.payload.xml), ReplaceCodes(t, others), true)
    else if !HasRetired(t, first) then b.payload == Object(first, ReplaceCodes(t, others), true)
    else
      var second := rebuild(moved.(payload := Object(first, others, true)));
      b.payload == Object(RebuiltOr(t, second, first), others, true)
  }

  /** The payload: texts that are not JSON are cleaned, other JSON only in letters that move. */
  ghost predicate PayloadMoved(t: AliasTable, rebuild: Rebuild, a: EmailRow, b: EmailRow) {
    var coded := Strip(OrEmpty(a.departmentId)) in t.retired;
    match a.payload
    case Absent => b.payload == Absent
    case Broken(text) => b.payload == Broken(ReplaceCodes(t, text))
    case NonObject(text) => b.payload == NonObject(if coded then ReplaceCodes(t, text) else text)
    case Object(xml, others, canonical) =>
      if !HasRetired(t, xml) then b.payload == Object(xml, ReplaceCodes(t, others), canonical || coded)
      else if !coded then b.payload == Object(RebuiltOr(t, rebuild(a), xml), others, true)
      else CodedXmlMoved(t, rebuild, a, b)
  }

  ghost predicate LetterMoved(t: AliasTable, deps: seq<Department>, rebuild: Rebuild, a: EmailRow, b: EmailRow) {
    DepartmentMoved(t, deps, a, b) && PayloadMoved(t, rebuild, a, b) && b.message == a.message
  }

  // ---------------------------------------------------------------- event logs

  /** One id column with its name column: `in_` compares without stripping. */
  ghost predicate ColumnMoved(t: AliasTable, deps: seq<Department>, id: Option<string>, name: Option<string>,
                              id': Option<string>, name': Option<string>)
  {
    && (forall j: nat :: id.Some? && IsRow(t, id.value, j) ==>
          id' == Some(t.current[j]) && name'.Some? && LastNamed(deps, t.current[j], name'.value))
    && (id.None? || id.value !in t.retired ==> id' == id && name' == name)
  }

  ghost predicate ClassificationMoved(t: AliasTable, deps: seq<Department>, a: ClassificationEvent,
                                      b: ClassificationEvent)
  {
    && ColumnMoved(t, deps, a.oldId, a.oldName, b.oldId, b.oldName)
    && ColumnMoved(t, deps, a.newId, a.newName, b.newId, b.newName)
  }

  ghost predicate ValueMoved(t: AliasTable, v: Option<string>, v': Option<string>) {
    && (forall j: nat :: v.Some? && IsRow(t, Strip(v.value), j) ==> v' == Some(t.current[j]))
    && (v.None? || Strip(v.value) !in t.retired ==> v' == v)
  }

  ghost predicate EventMoved(t: AliasTable, a: ChangeEvent, b: ChangeEvent) {
    a.field == b.field && ValueMoved(t, a.oldValue, b.oldValue) && ValueMoved(t, a.newValue, b.newValue)
  }

  // ---------------------------------------------------------------- tables

  /** `image` holds, for each code, its successor, or the stripped code itself. */
  ghost predicate IsImage(t: AliasTable, codes: seq<string>, image: seq<string>) {
    && |image| == |codes|
    && (forall k, j: nat :: 0 <= k < |codes| && IsRow(t, Strip(codes[k]), j) ==> image[k] == t.current[j])
    && (forall k :: 0 <= k < |codes| && Strip(codes[k]) !in t.retired ==> image[k] == Strip(codes[k]))
  }

  /** A list with a retired code becomes its image, each code kept where it first appears; any other
      value of the column stays. */
  ghost predicate ContractorMoved(t: AliasTable, a: Contractor, b: Contractor) {
    && a.name == b.name
    && if a.departments.CodeList?
          && exists k :: 0 <= k < |a.departments.codes| && Strip(a.departments.codes[k]) in t.retired
       then b.departments.CodeList? && exists image ::
              IsImage(t, a.departments.codes, image) && b.departments.codes == FirstOccurrences(image)
       else b.departments == a.departments
  }

  /** A staging row that took over the successor of its code. */
  ghost predicate TookOver(t: AliasTable, deps: seq<Department>, r: ErpDepartment, y: ErpDepartment) {
    y.source == r.source && exists j: nat :: IsRow(t, r.id, j) && y.id == t.current[j] && LastNamed(deps, y.id, y.name)
  }

  /** Rows without a retired id stay, and nothing else is there but rows that took over a successor. */
  ghost predicate StagingMoved(t: AliasTable, deps: seq<Department>, before: seq<ErpDepartment>,
                               after: seq<ErpDepartment>)
  {
    && (forall r :: r in before && r.id !in t.retired ==> r in after)
    && (forall y :: y in after ==>
          (y in before && y.id !in t.retired) || exists r :: r in before && TookOver(t, deps, r, y))
  }

  /** The whole database, row by row. */
  ghost predicate Moved(t: AliasTable, rebuild: Rebuild, s: State, after: State) {
    && |after.emails| == |s.emails|
    && (forall i :: 0 <= i < |s.emails| ==>
          LetterMoved(t, s.departments, rebuild, s.emails[i], after.emails[i]))
    && |after.classification| == |s.classification|
    && (forall i :: 0 <= i < |s.classification| ==>
          ClassificationMoved(t, s.departments, s.classification[i], after.classification[i]))
    && |after.changes| == |s.changes|
    && (forall i :: 0 <= i < |s.changes| ==> EventMoved(t, s.changes[i], after.changes[i]))
    && |after.contractors| == |s.contractors|
    && (forall i :: 0 <= i < |s.contractors| ==> ContractorMoved(t, s.contractors[i], after.contractors[i]))
    && StagingMoved(t, s.departments, s.erp, after.erp)
  }

  // ---------------------------------------------------------------- proofs

  lemma LastRowNamed(front: seq<Department>, last: Department)
    ensures LastNamed(front + [last], last.code, last.name)
  {
    assert (front + [last])[|front|] == last;
  }

  lemma StaysLastNamed(front: seq<Department>, last: Department, code: string, name: string)
    requires LastNamed(front, code, name) && last.code != code
    ensures LastNamed(front + [last], code, name)
  {
    var k :| 0 <= k < |front| && front[k].code == code && front[k].name == name
             && forall m :: k < m < |front| ==> front[m].code != code;
    assert (front + [last])[k] == front[k];
  }

  lemma HasCodeAppended(front: seq<Department>, last: Department, code: string)
    ensures HasCode(front + [last], code) <==> HasCode(front, code) || last.code == code
  {
    var rows := front + [last];
    assert rows[|front|] == last;
    if HasCode(front, code) {
      var k :| 0 <= k < |front| && front[k].code == code;
      assert rows[k].code == code;
    }
  }

  lemma {:induction false} NamesTell(rows: seq<Department>, code: string)
    ensures code in DepartmentNames(rows) <==> HasCode(rows, code)
    ensures HasCode(rows, code) ==> LastNamed(rows, code, NameOf(DepartmentNames(rows), code))
  {
    if rows != [] {
      var front, last := rows[..|rows| - 1], rows[|rows| - 1];
      assert rows == front + [last];
      NamesTell(front, code);
      HasCodeAppended(front, last, code);
      if last.code == code {
        LastRowNamed(front, last);
      } else if HasCode(front, code) {
        StaysLastNamed(front, last, code, NameOf(DepartmentNames(front), code));
      }
    }
  }

  /** The successor of a row of the alias table, and its name. */
  lemma SuccessorOf(t: AliasTable, deps: seq<Department>, c: string, j: nat)
    requires Distinct(t.retired) && TargetsExist(t, deps) && IsRow(t, c, j)
    ensures IsRetired(t, c) && Alias(t, c) == t.current[j]
    ensures LastNamed(deps, t.current[j], NameOf(DepartmentNames(deps), t.current[j]))
  {
    AliasOfRow(t, j, |t.retired|);
    NamesTell(deps, t.current[j]);
  }

  lemma ColumnIsMoved(t: AliasTable, deps: seq<Department>, id: Option<string>, name: Option<string>,
                      id': Option<string>, name': Option<string>)
    requires Distinct(t.retired) && TargetsExist(t, deps)
    requires if ColumnRetired(t, id)
             then id' == Some(Alias(t, id.value)) && name' == Some(NameOf(DepartmentNames(deps), Alias(t, id.value)))
             else id' == id && name' == name
    ensures ColumnMoved(t, deps, id, name, id', name')
  {
    forall j: nat | id.Some? && IsRow(t, id.value, j)
      ensures id' == Some(t.current[j]) && name'.Some? && LastNamed(deps, t.current[j], name'.value)
    {
      SuccessorOf(t, deps, id.value, j);
    }
  }

  lemma ValueIsMoved(t: AliasTable, v: Option<string>)
    requires Distinct(t.retired)
    ensures ValueMoved(t, v, MovedValue(t, v))
  {
    forall j: nat | v.Some? && IsRow(t, Strip(v.value), j) ensures MovedValue(t, v) == Some(t.current[j]) {
      AliasOfRow(t, j, |t.retired|);
    }
  }

  lemma DepartmentIsMoved(t: AliasTable, deps: seq<Department>, rebuild: Rebuild, a: EmailRow)
    requires Distinct(t.retired) && TargetsExist(t, deps)
    ensures DepartmentMoved(t, deps, a, Applied(t, a, DepartmentNames(deps), rebuild))
  {
    var b := Applied(t, a, DepartmentNames(deps), rebuild);
    forall j: nat | IsRow(t, Strip(OrEmpty(a.departmentId)), j)
      ensures b.departmentId == Some(t.current[j])
      ensures b.departmentName.Some? && LastNamed(deps, t.current[j], b.departmentName.value)
    {
      SuccessorOf(t, deps, Strip(OrEmpty(a.departmentId)), j);
    }
  }

  lemma CodedXmlIsMoved(t: AliasTable, names: map<string, string>, rebuild: Rebuild, a: EmailRow)
    requires Safe(t) && CodedRetired(t, a) && a.payload.Object? && HasRetired(t, a.payload.xml)
    ensures CodedXmlMoved(t, rebuild, a, Applied(t, a, names, rebuild))
  {
    var p, moved := a.payload, WithCurrentDepartment(t, a, names);
    EmptyTextHasNone(t);
    TextIsMoved(t, p.xml);
    TextIsMoved(t, p.others);
    TextIsMoved(t, ReplaceCodes(t, p.xml));
    TextIsMoved(t, rebuild(moved));
    var first := rebuild(moved);
    assert Coded(t, a, names, rebuild)
        == moved.(payload := Object(if first != "" then first else ReplaceCodes(t, p.xml), p.others, true));
  }

  lemma PayloadIsMoved(t: AliasTable, names: map<string, string>, rebuild: Rebuild, a: EmailRow)
    requires Safe(t)
    ensures PayloadMoved(t, rebuild, a, Applied(t, a, names, rebuild))
  {
    EmptyTextHasNone(t);
    match a.payload {
      case Absent =>
      case Broken(text) => TextIsMoved(t, text);
      case NonObject(text) => TextIsMoved(t, text);
      case Object(xml, others, _) =>
        TextIsMoved(t, xml);
        TextIsMoved(t, others);
        TextIsMoved(t, ReplaceCodes(t, xml));
        if HasRetired(t, xml) && CodedRetired(t, a) { CodedXmlIsMoved(t, names, rebuild, a); }
    }
  }

  lemma TextIsMoved(t: AliasTable, text: string)
    requires Safe(t)
    ensures !HasRetired(t, ReplaceCodes(t, text))
    ensures !HasRetired(t, text) ==> ReplaceCodes(t, text) == text
  {
    ReplaceCodesClears(t, text);
    if !HasRetired(t, text) { ReplaceCodesAbsent(t, text); }
  }

  lemma IsImageOf(t: AliasTable, codes: seq<string>, image: seq<string>)
    requires Distinct(t.retired) && |image| == |codes|
    requires forall i :: 0 <= i < |codes| ==> image[i] == Alias(t, Strip(codes[i]))
    ensures IsImage(t, codes, image)
  {
    forall k, j: nat | 0 <= k < |codes| && IsRow(t, Strip(codes[k]), j) ensures image[k] == t.current[j] {
      AliasOfRow(t, j, |t.retired|);
    }
    forall k | 0 <= k < |codes| && Strip(codes[k]) !in t.retired ensures image[k] == Strip(codes[k]) {
      AliasOfOther(t, Strip(codes[k]));
    }
  }

  lemma {:induction false} CodesAreMoved(t: AliasTable, codes: seq<string>, image: seq<string>, n: nat)
    requires n <= |codes| == |image|
    requires forall i :: 0 <= i < |codes| ==> image[i] == Alias(t, Strip(codes[i]))
    ensures MovedCodes(t, codes, n) == FirstOccurrencesTo(image, n)
    ensures ListsRetiredTo(t, codes, n) <==> exists i :: 0 <= i < n && Strip(codes[i]) in t.retired
  {
    if n > 0 { CodesAreMoved(t, codes, image, n - 1); }
  }

  lemma ContractorIsMoved(t: AliasTable, c: Contractor)
    requires Distinct(t.retired)
    ensures ContractorMoved(t, c, MovedContractor(t, c))
  {
    if c.departments.CodeList? {
      var codes := c.departments.codes;
      var image := Map(codes, x => Alias(t, Strip(x)));
      CodesAreMoved(t, codes, image, |codes|);
      IsImageOf(t, codes, image);
    }
  }

  /** While the codes of `order` are worked off: a row is one of before whose id was not met, or took over. */
  ghost predicate StagingOrigin(t: AliasTable, deps: seq<Department>, before: seq<ErpDepartment>, order: seq<string>,
                                y: ErpDepartment)
  {
    (y in before && y.id !in order) || exists r :: r in before && TookOver(t, deps, r, y)
  }

  lemma StagingStep(t: AliasTable, deps: seq<Department>, before: seq<ErpDepartment>, front: seq<string>, code: string,
                    now: seq<ErpDepartment>)
    requires Safe(t) && Distinct(t.retired) && TargetsExist(t, deps) && IsRetired(t, code)
    requires forall y :: y in now ==> StagingOrigin(t, deps, before, front, y)
    requires forall r :: r in before && r.id !in front ==> r in now
    ensures var after := ErpStep(t, now, code, DepartmentNames(deps));
      && (forall y :: y in after ==> StagingOrigin(t, deps, before, front + [code], y))
      && (forall r :: r in before && r.id !in front + [code] ==> r in after)
  {
    var names, newExists := DepartmentNames(deps), Alias(t, code) in ErpIds(now);
    var f := r => ErpRowAfter(t, r, code, newExists, names);
    var after := ErpStep(t, now, code, names);
    CollectMembers(now, f, |now|);
    forall y | y in after ensures StagingOrigin(t, deps, before, front + [code], y) {
      var i :| 0 <= i < |now| && y in f(now[i]);
      StagingRowStep(t, deps, before, front, code, now[i], newExists, y);
    }
    forall r | r in before && r.id !in front + [code] ensures r in after {
      assert r in now;
      var i :| 0 <= i < |now| && now[i] == r;
      assert r in f(now[i]);
    }
  }

  lemma StagingRowStep(t: AliasTable, deps: seq<Department>, before: seq<ErpDepartment>, front: seq<string>,
                       code: string,
                       z: ErpDepartment, newExists: bool, y: ErpDepartment)
    requires Safe(t) && Distinct(t.retired) && TargetsExist(t, deps) && IsRetired(t, code)
    requires StagingOrigin(t, deps, before, front, z) && y in ErpRowAfter(t, z, code, newExists, DepartmentNames(deps))
    ensures StagingOrigin(t, deps, before, front + [code], y)
  {
    if z.id == code {
      if r :| r in before && TookOver(t, deps, r, z) {
        var j: nat :| IsRow(t, r.id, j) && z.id == t.current[j] && LastNamed(deps, z.id, z.name);
        SafeAt(t, |t.retired|, j);
        assert false;
      } else {
        var j: nat :| 0 <= j < |t.retired| && t.retired[j] == code;
        SuccessorOf(t, deps, code, j);
        assert TookOver(t, deps, z, y);
      }
    }
  }

  lemma {:induction false} StagingIsMoved(t: AliasTable, deps: seq<Department>, rows: seq<ErpDepartment>,
                                          order: seq<string>)
    requires Safe(t) && Distinct(t.retired) && TargetsExist(t, deps) && forall c :: c in order ==> IsRetired(t, c)
    ensures var after := ErpMoved(t, rows, order, DepartmentNames(deps));
      && (forall y :: y in after ==> StagingOrigin(t, deps, rows, order, y))
      && (forall r :: r in rows && r.id !in order ==> r in after)
  {
    if order != [] {
      var front, code := order[..|order| - 1], order[|order| - 1];
      assert order == front + [code];
      StagingIsMoved(t, deps, rows, front);
      StagingStep(t, deps, rows, front, code, ErpMoved(t, rows, front, DepartmentNames(deps)));
    }
  }

  lemma StagingAfterAll(t: AliasTable, deps: seq<Department>, before: seq<ErpDepartment>, order: seq<string>,
                        after: seq<ErpDepartment>)
    requires IsListingOfRetired(t, order)
    requires forall y :: y in after ==> StagingOrigin(t, deps, before, order, y)
    requires forall r :: r in before && r.id !in order ==> r in after
    ensures StagingMoved(t, deps, before, after)
  {
    forall id: string ensures id in order <==> id in t.retired { assert id in order <==> IsRetired(t, id); }
    forall y | y in after && !(y in before && y.id !in t.retired)
      ensures exists r :: r in before && TookOver(t, deps, r, y)
    {
      assert StagingOrigin(t, deps, before, order, y);
    }
  }

  /** The migrated database is the database moved row by row. */
  lemma MigratedIsMoved(t: AliasTable, s: State, rebuild: Rebuild, order: seq<string>, sorted: seq<string>)
    requires Safe(t) && Distinct(t.retired) && TargetsExist(t, s.departments) && IsListingOfRetired(t, order)
    ensures Moved(t, rebuild, s, Migrated(t, s, rebuild, order, sorted))
  {
    var deps, names := s.departments, DepartmentNames(s.departments);
    forall i | 0 <= i < |s.emails|
      ensures LetterMoved(t, deps, rebuild, s.emails[i], Applied(t, s.emails[i], names, rebuild))
    {
      DepartmentIsMoved(t, deps, rebuild, s.emails[i]);
      PayloadIsMoved(t, names, rebuild, s.emails[i]);
    }
    forall i | 0 <= i < |s.classification|
      ensures ClassificationMoved(t, deps, s.classification[i],
                                  MovedNewId(t, MovedOldId(t, s.classification[i], names), names))
    {
      var a := s.classification[i];
      var b := MovedNewId(t, MovedOldId(t, a, names), names);
      ColumnIsMoved(t, deps, a.oldId, a.oldName, b.oldId, b.oldName);
      ColumnIsMoved(t, deps, a.newId, a.newName, b.newId, b.newName);
    }
    forall i | 0 <= i < |s.changes| ensures EventMoved(t, s.changes[i], MovedChange(t, s.changes[i])) {
      ValueIsMoved(t, s.changes[i].oldValue);
      ValueIsMoved(t, s.changes[i].newValue);
    }
    forall i | 0 <= i < |s.contractors|
      ensures ContractorMoved(t, s.contractors[i], MovedContractor(t, s.contractors[i]))
    {
      ContractorIsMoved(t, s.contractors[i]);
    }
    StagingIsMoved(t, deps, s.erp, order);
    StagingAfterAll(t, deps, s.erp, order, ErpMoved(t, s.erp, order, names));
  }
}
