/** The script's passes over the session, proved against the functions of module Migration. */
module MigrationRun {
  import opened Text
  import opened Seqs
  import opened Codes
  import opened Migration
  import opened MigrationMeaning

  datatype Outcome = Finished | MissingTargets

  function MovedColumn(t: AliasTable, e: ClassificationEvent, newColumn: bool, names: map<string, string>)
    : ClassificationEvent
  {
    if newColumn then MovedNewId(t, e, names) else MovedOldId(t, e, names)
  }

  function ColumnStats(t: AliasTable, e: ClassificationEvent, newColumn: bool): seq<Stat> {
    if newColumn then if ColumnRetired(t, e.newId) then [ClassificationNewId] else []
    else if ColumnRetired(t, e.oldId) then [ClassificationOldId] else []
  }

  /** The increments of the `stats` counter, in the order the run makes them. */
  function EmailStats(t: AliasTable, base: seq<Stat>, rows: seq<EmailRow>, names: map<string, string>,
                      rebuild: Rebuild, apply: bool): seq<Stat>
  {
    var first := Collect(base, rows, row => CodedStats(t, row, names, rebuild, apply));
    var second := if apply then Map(rows, row => Coded(t, row, names, rebuild)) else rows;
    Collect(first, second, row => OrphanStats(t, row, rebuild, apply))
  }

  function ClassificationStats(t: AliasTable, base: seq<Stat>, rows: seq<ClassificationEvent>): seq<Stat> {
    Collect(Collect(base, rows, e => ColumnStats(t, e, false)), rows, e => ColumnStats(t, e, true))
  }

  function EventStats(t: AliasTable, base: seq<Stat>, classification: seq<ClassificationEvent>,
                      changes: seq<ChangeEvent>): seq<Stat>
  {
    Collect(ClassificationStats(t, base, classification), changes, e => ChangeStats(t, e))
  }

  function DepartmentStats(t: AliasTable, base: seq<Stat>, rows: seq<Department>, sorted: seq<string>, apply: bool)
    : seq<Stat>
  {
    var first := DeleteStats(base, rows, sorted, DepartmentDeleted, DepartmentSkipMissing, apply);
    DeleteStats(first, if apply then WithoutEach(rows, sorted) else rows, t.closed,
                DepartmentDeletedNoAlias, DepartmentSkipMissingDelete, apply)
  }

  function RunStats(t: AliasTable, s: State, rebuild: Rebuild, order: seq<string>, sorted: seq<string>, apply: bool)
    : seq<Stat>
  {
    RunStatsWith(t, s, DepartmentNames(s.departments), rebuild, order, sorted, apply)
  }

  function RunStatsWith(t: AliasTable, s: State, names: map<string, string>, rebuild: Rebuild,
                        order: seq<string>, sorted: seq<string>, apply: bool): seq<Stat>
  {
    var emails := EmailStats(t, [], s.emails, names, rebuild, apply);
    var events := EventStats(t, emails, s.classification, s.changes);
    TableStats(t, events, s.erp, s.contractors, s.departments, names, order, sorted, apply)
  }

  function TableStats(t: AliasTable, base: seq<Stat>, erp: seq<ErpDepartment>, contractors: seq<Contractor>,
                      departments: seq<Department>, names: map<string, string>, order: seq<string>,
                      sorted: seq<string>, apply: bool): seq<Stat>
  {
    var log := ErpStats(t, base, erp, order, names, apply);
    DepartmentStats(t, Collect(log, contractors, c => ContractorStats(t, c)), departments, sorted, apply)
  }

  /** Inner loop of the contractor pass. */
  method MoveCodeList(t: AliasTable, codes: seq<string>) returns (updated: seq<string>, changed: bool)
    ensures changed == ListsRetired(t, codes)
    ensures updated == MovedCodes(t, codes, |codes|)
  {
    updated, changed := [], false;
    for i := 0 to |codes|
      invariant updated == MovedCodes(t, codes, i)
      invariant changed == ListsRetiredTo(t, codes, i)
    {
      var code := Strip(codes[i]);
      if IsRetired(t, code) {
        var mapped := Alias(t, code);
        updated := WithNew(updated, mapped);
        changed := true;
      } else {
        AliasOfOther(t, code);
        updated := WithNew(updated, code);
      }
    }
  }

  /** Body of the change-log loop for one event. */
  method MoveChangeRow(t: AliasTable, e: ChangeEvent, apply: bool) returns (stored: ChangeEvent, hits: seq<Stat>)
    ensures stored == if apply then MovedChange(t, e) else e
    ensures hits == ChangeStats(t, e)
  {
    stored, hits := e, [];
    if e.oldValue.Some? && IsRetired(t, Strip(e.oldValue.value)) {
      hits := hits + [ChangeOldValue];
      if apply { stored := stored.(oldValue := Some(Alias(t, Strip(e.oldValue.value)))); }
    }
    if e.newValue.Some? && IsRetired(t, Strip(e.newValue.value)) {
      hits := hits + [ChangeNewValue];
      if apply { stored := stored.(newValue := Some(Alias(t, Strip(e.newValue.value)))); }
    }
    if hits != [] { hits := hits + [ChangeRows]; }
  }

  lemma WithoutAbsent(rows: seq<Department>, code: string)
    requires !HasCode(rows, code)
    ensures WithoutFirst(rows, code) == rows
  {
    if rows != [] {
      assert rows[0].code != code;
      forall i | 0 <= i < |rows[1..]| ensures rows[1..][i].code != code { assert rows[i + 1].code != code; }
      WithoutAbsent(rows[1..], code);
    }
  }

  /** Deleting one code leaves the presence of every other code as it was. */
  lemma {:induction false} WithoutFirstKeepsOthers(rows: seq<Department>, code: string, other: string)
    requires other != code
    ensures HasCode(WithoutFirst(rows, code), other) <==> HasCode(rows, other)
  {
    if rows != [] {
      HasCodeCons(rows, other);
      if rows[0].code != code {
        WithoutFirstKeepsOthers(rows[1..], code, other);
        HasCodeCons(WithoutFirst(rows, code), other);
      }
    }
  }

  lemma HasCodeCons(rows: seq<Department>, c: string)
    requires rows != []
    ensures HasCode(rows, c) <==> rows[0].code == c || HasCode(rows[1..], c)
  {
    if HasCode(rows, c) && rows[0].code != c {
      var i :| 0 <= i < |rows| && rows[i].code == c;
      assert rows[1..][i - 1].code == c;
    }
    if HasCode(rows[1..], c) {
      var i :| 0 <= i < |rows[1..]| && rows[1..][i].code == c;
      assert rows[i + 1].code == c;
    }
  }

  lemma TargetOfRetired(t: AliasTable, rows: seq<Department>, code: string)
    requires Safe(t) && IsRetired(t, code)
    ensures TargetsExist(t, rows) ==> HasCode(rows, Alias(t, code))
  {
    AliasFacts(t, code);
  }

  lemma TargetsSurvive(t: AliasTable, rows: seq<Department>, code: string)
    requires Safe(t) && IsRetired(t, code)
    ensures TargetsExist(t, rows) ==> TargetsExist(t, WithoutFirst(rows, code))
  {
    forall i | 0 <= i < |t.current| && HasCode(rows, t.current[i])
      ensures HasCode(WithoutFirst(rows, code), t.current[i])
    {
      SafeAt(t, |t.retired|, i);
      WithoutFirstKeepsOthers(rows, code, t.current[i]);
    }
  }

  /** Two passes over the messages amount to one. */
  lemma EmailPasses(t: AliasTable, rows: seq<EmailRow>, names: map<string, string>, rebuild: Rebuild, apply: bool)
    ensures var first := Map(rows, row => if apply then Coded(t, row, names, rebuild) else row);
      && first == (if apply then Map(rows, row => Coded(t, row, names, rebuild)) else rows)
      && Map(first, row => if apply then Orphan(t, row, rebuild) else row)
         == if apply then Map(rows, row => Applied(t, row, names, rebuild)) else rows
  {
  }

  lemma SecondColumnUnmoved(t: AliasTable, base: seq<Stat>, rows: seq<ClassificationEvent>,
                            first: seq<ClassificationEvent>)
    requires |first| == |rows| && forall i :: 0 <= i < |rows| ==> first[i].newId == rows[i].newId
    ensures Collect(base, first, e => ColumnStats(t, e, true)) == Collect(base, rows, e => ColumnStats(t, e, true))
  {
    CollectSame(base, first, rows, e => ColumnStats(t, e, true), |rows|);
  }

  lemma ClassificationPasses(t: AliasTable, base: seq<Stat>, rows: seq<ClassificationEvent>,
                             names: map<string, string>, apply: bool)
    ensures var first := Map(rows, e => if apply then MovedColumn(t, e, false, names) else e);
      && Map(first, e => if apply then MovedColumn(t, e, true, names) else e)
         == (if apply then Map(rows, e => MovedNewId(t, MovedOldId(t, e, names), names)) else rows)
      && Collect(base, first, e => ColumnStats(t, e, true)) == Collect(base, rows, e => ColumnStats(t, e, true))
  {
    var first := Map(rows, e => if apply then MovedColumn(t, e, false, names) else e);
    SecondColumnUnmoved(t, base, rows, first);
  }

  lemma ChangePass(t: AliasTable, rows: seq<ChangeEvent>, apply: bool)
    ensures Map(rows, e => if apply then MovedChange(t, e) else e)
         == if apply then Map(rows, e => MovedChange(t, e)) else rows
  {
  }

  lemma ContractorPass(t: AliasTable, rows: seq<Contractor>, apply: bool)
    ensures Map(rows, c => if apply then MovedContractor(t, c) else c)
         == if apply then Map(rows, c => MovedContractor(t, c)) else rows
  {
  }

  /** Body of the first loop for one message: the row to store and the counter's increments. */
  method MoveCodedRow(t: AliasTable, row: EmailRow, names: map<string, string>, rebuild: Rebuild, apply: bool)
    returns (stored: EmailRow, hits: seq<Stat>)
    ensures stored == if apply then Coded(t, row, names, rebuild) else row
    ensures hits == CodedStats(t, row, names, rebuild, apply)
  {
    stored, hits := row, [];
    var oldId := Strip(OrEmpty(row.departmentId));
    if !IsRetired(t, oldId) { return; }
    var newId := Alias(t, oldId);
    hits := hits + [EmailDepartmentId];
    if apply {
      stored := stored.(departmentId := Some(newId), departmentName := Some(NameOf(names, newId)));
    }
    if row.payload.Absent? { return; }
    var payloadChanged := false;
    if row.payload.Object? {
      var xml, xml' := row.payload.xml, row.payload.xml;
      EmptyTextHasNone(t);
      if xml != "" && HasRetired(t, xml) {
        if apply {
          var rebuilt := rebuild(stored);
          if rebuilt != "" {
            xml' := rebuilt;
            hits := hits + [EmailXmlRebuilt];
          } else {
            xml' := ReplaceCodesInJsonText(t, xml);
            hits := hits + [EmailXmlStringReplace];
          }
        } else {
          hits := hits + [EmailXmlNeedsUpdate];
        }
        payloadChanged := true;
      }
      var serialized := Object(xml', row.payload.others, true);
      if serialized != row.payload {
        if apply { stored := stored.(payload := serialized); }
        payloadChanged := true;
      }
    } else if HasRetired(t, row.payload.text) {
      if apply {
        var replaced := ReplaceCodesInJsonText(t, row.payload.text);
        stored := stored.(payload := row.payload.(text := replaced));
      }
      payloadChanged := true;
    } else {
      ReplaceCodesAbsent(t, row.payload.text);
    }
    if payloadChanged { hits := hits + [EmailRawPayload]; }
  }

  /** Body of the second loop for one message. */
  method MoveOrphanRow(t: AliasTable, row: EmailRow, rebuild: Rebuild, apply: bool)
    returns (stored: EmailRow, hits: seq<Stat>)
    requires Safe(t)
    ensures stored == if apply then Orphan(t, row, rebuild) else row
    ensures hits == OrphanStats(t, row, rebuild, apply)
  {
    stored, hits := row, [];
    if row.payload.Absent? || !TextHasRetired(t, row.payload) { return; }
    if row.payload.Broken? {
      if apply {
        var replaced := ReplaceCodesInJsonText(t, row.payload.text);
        stored := row.(payload := Broken(replaced));
      }
      hits := hits + [PayloadTextReplace];
      return;
    }
    if row.payload.NonObject? { return; }
    var xml := row.payload.xml;
    if xml == "" || !HasRetired(t, xml) {
      EmptyTextHasNone(t);
      if apply {
        var xml' := ReplaceCodesInJsonText(t, xml);
        var others' := ReplaceCodesInJsonText(t, row.payload.others);
        var serialized := row.payload.(xml := xml', others := others');
        if serialized != row.payload {
          stored := row.(payload := serialized);
          hits := hits + [PayloadTextReplace];
        }
      } else {
        hits := hits + [PayloadTextReplace];
      }
      return;
    }
    hits := hits + [XmlOrphanNeedsUpdate];
    if apply {
      var rebuilt := rebuild(row);
      if rebuilt != "" && !HasRetired(t, rebuilt) {
        stored := row.(payload := Object(rebuilt, row.payload.others, true));
        hits := hits + [XmlOrphanRebuilt];
      } else {
        var replaced := ReplaceCodesInJsonText(t, xml);
        stored := row.(payload := Object(replaced, row.payload.others, true));
        hits := hits + [XmlOrphanStringReplace];
      }
    }
  }

  class Session {
    const t: AliasTable
    var emails: seq<EmailRow>
    var classification: seq<ClassificationEvent>
    var changes: seq<ChangeEvent>
    var erp: seq<ErpDepartment>
    var contractors: seq<Contractor>
    var departments: seq<Department>
    var stats: seq<Stat>

    constructor (t: AliasTable, s: State)
      ensures this.t == t && View() == s && stats == []
    {
      this.t := t;
      emails, classification, changes := s.emails, s.classification, s.changes;
      erp, contractors, departments := s.erp, s.contractors, s.departments;
      stats := [];
    }

    function View(): State
      reads this
    {
      State(emails, classification, changes, erp, contractors, departments)
    }

    /** `_load_new_names`. */
    method LoadNewNames() returns (names: Option<map<string, string>>)
      ensures names.Some? <==> TargetsExist(t, departments)
      ensures names.Some? ==> names.value == DepartmentNames(departments)
    {
      var all: map<string, string> := map[];
      for i := 0 to |departments|
        invariant all == DepartmentNames(departments[..i])
        invariant forall c :: c in all <==> HasCode(departments[..i], c)
      {
        assert departments[..i + 1][..i] == departments[..i];
        ghost var before := all;
        all := all[departments[i].code := departments[i].name];
        forall c ensures c in all <==> HasCode(departments[..i + 1], c) {
          HasCodeSnoc(departments[..i + 1], c);
        }
      }
      assert departments[..|departments|] == departments;
      for i := 0 to |t.current|
        invariant forall j :: 0 <= j < i ==> HasCode(departments, t.current[j])
      {
        if t.current[i] !in all { return None; }
      }
      return Some(all);
    }

    lemma HasCodeSnoc(rows: seq<Department>, c: string)
      requires rows != []
      ensures HasCode(rows, c) <==> HasCode(rows[..|rows| - 1], c) || rows[|rows| - 1].code == c
    {
      if HasCode(rows[..|rows| - 1], c) {
        var i :| 0 <= i < |rows| - 1 && rows[..|rows| - 1][i].code == c;
        assert rows[i].code == c;
      }
      if HasCode(rows, c) && rows[|rows| - 1].code != c {
        var i :| 0 <= i < |rows| && rows[i].code == c;
        assert rows[..|rows| - 1][i].code == c;
      }
    }

    /** First pass over the messages: department column, then XML or payload text. */
    method MoveCodedEmails(names: map<string, string>, rebuild: Rebuild, apply: bool)
      modifies this`emails, this`stats
      ensures emails == Map(old(emails), row => if apply then Coded(t, row, names, rebuild) else row)
      ensures stats == Collect(old(stats), old(emails), row => CodedStats(t, row, names, rebuild, apply))
    {
      ghost var was := emails;
      ghost var f := (row: EmailRow) => CodedStats(t, row, names, rebuild, apply);
      ghost var g := (row: EmailRow) => if apply then Coded(t, row, names, rebuild) else row;
      for i := 0 to |emails|
        invariant emails == Rewritten(was, g, i)
        invariant stats == CollectFrom(old(stats), was, f, i)
      {
        RewrittenAt(was, g, i, i);
        var stored, hits := MoveCodedRow(t, emails[i], names, rebuild, apply);
        emails, stats := emails[i := stored], stats + hits;
      }
      RewrittenAll(was, g);
    }

    /** Second pass: messages with a retired code only in the payload. */
    method MoveOrphanEmails(rebuild: Rebuild, apply: bool)
      requires Safe(t)
      modifies this`emails, this`stats
      ensures emails == Map(old(emails), row => if apply then Orphan(t, row, rebuild) else row)
      ensures stats == Collect(old(stats), old(emails), row => OrphanStats(t, row, rebuild, apply))
    {
      ghost var was := emails;
      ghost var f := (row: EmailRow) => OrphanStats(t, row, rebuild, apply);
      ghost var g := (row: EmailRow) => if apply then Orphan(t, row, rebuild) else row;
      for i := 0 to |emails|
        invariant emails == Rewritten(was, g, i)
        invariant stats == CollectFrom(old(stats), was, f, i)
      {
        RewrittenAt(was, g, i, i);
        var stored, hits := MoveOrphanRow(t, emails[i], rebuild, apply);
        emails, stats := emails[i := stored], stats + hits;
      }
      RewrittenAll(was, g);
    }

    /** One column of the classification log: `oldId` first, `newId` on the second call. */
    method MoveClassificationColumn(newColumn: bool, names: map<string, string>, apply: bool)
      modifies this`classification, this`stats
      ensures classification ==
        Map(old(classification), e => if apply then MovedColumn(t, e, newColumn, names) else e)
      ensures stats == Collect(old(stats), old(classification), e => ColumnStats(t, e, newColumn))
    {
      ghost var was := classification;
      ghost var f := (e: ClassificationEvent) => ColumnStats(t, e, newColumn);
      ghost var g := (e: ClassificationEvent) => if apply then MovedColumn(t, e, newColumn, names) else e;
      for i := 0 to |classification|
        invariant classification == Rewritten(was, g, i)
        invariant stats == CollectFrom(old(stats), was, f, i)
      {
        RewrittenAt(was, g, i, i);
        var e := classification[i];
        var column := if newColumn then e.newId else e.oldId;
        if ColumnRetired(t, column) {
          var code := Alias(t, column.value);
          stats := stats + [if newColumn then ClassificationNewId else ClassificationOldId];
          if apply && newColumn {
            classification := classification[i := e.(newId := Some(code), newName := Some(NameOf(names, code)))];
          } else if apply {
            classification := classification[i := e.(oldId := Some(code), oldName := Some(NameOf(names, code)))];
          }
        }
      }
      RewrittenAll(was, g);
    }

    method MoveChangeEvents(apply: bool)
      modifies this`changes, this`stats
      ensures changes == Map(old(changes), e => if apply then MovedChange(t, e) else e)
      ensures stats == Collect(old(stats), old(changes), e => ChangeStats(t, e))
    {
      ghost var was := changes;
      ghost var f := (e: ChangeEvent) => ChangeStats(t, e);
      ghost var g := (e: ChangeEvent) => if apply then MovedChange(t, e) else e;
      for i := 0 to |changes|
        invariant changes == Rewritten(was, g, i)
        invariant stats == CollectFrom(old(stats), was, f, i)
      {
        RewrittenAt(was, g, i, i);
        var stored, hits := MoveChangeRow(t, changes[i], apply);
        changes, stats := changes[i := stored], stats + hits;
      }
      RewrittenAll(was, g);
    }

    /** The staging table, code by code in the order the frozenset yields them. */
    method MoveErpDepartments(order: seq<string>, names: map<string, string>, apply: bool)
      modifies this`erp, this`stats
      ensures erp == if apply then ErpMoved(t, old(erp), order, names) else old(erp)
      ensures stats == ErpStats(t, old(stats), old(erp), order, names, apply)
    {
      for i := 0 to |order|
        invariant erp == if apply then ErpMoved(t, old(erp), order[..i], names) else old(erp)
        invariant stats == ErpStats(t, old(stats), old(erp), order[..i], names, apply)
      {
        assert order[..i + 1][..i] == order[..i];
        MoveErpCode(order[i], names, apply);
      }
      assert order[..|order|] == order;
    }

    method MoveErpCode(code: string, names: map<string, string>, apply: bool)
      modifies this`erp, this`stats
      ensures erp == if apply then ErpStep(t, old(erp), code, names) else old(erp)
      ensures stats == Collect(old(stats), old(erp),
                               r => ErpRowStats(t, r, code, Alias(t, code) in ErpIds(old(erp)), apply))
    {
      var rows := erp;
      var newCode := Alias(t, code);
      var newExists := newCode in ErpIds(rows);
      ghost var f := (r: ErpDepartment) => ErpRowStats(t, r, code, newExists, apply);
      ghost var g := (r: ErpDepartment) => ErpRowAfter(t, r, code, newExists, names);
      var kept: seq<ErpDepartment> := [];
      for i := 0 to |rows|
        invariant erp == rows && kept == CollectFrom([], rows, g, i)
        invariant stats == CollectFrom(old(stats), rows, f, i)
      {
        var row := rows[i];
        if row.id != code {
          kept := kept + [row];
        } else if newExists {
          stats := stats + (if apply then [ErpRows, ErpDeleted] else [ErpRows]);
        } else {
          kept := kept + [row.(id := newCode, name := NameOf(names, newCode))];
          stats := stats + (if apply then [ErpRows, ErpRenamed] else [ErpRows]);
        }
      }
      assert kept == ErpRewrite(t, rows, code, newExists, names);
      if apply { erp := kept; }
    }

    method MoveContractors(apply: bool)
      modifies this`contractors, this`stats
      ensures contractors == if apply then Map(old(contractors), c => MovedContractor(t, c)) else old(contractors)
      ensures stats == Collect(old(stats), old(contractors), c => ContractorStats(t, c))
    {
      ghost var was := contractors;
      ghost var f := (c: Contractor) => ContractorStats(t, c);
      ghost var g := (c: Contractor) => if apply then MovedContractor(t, c) else c;
      for i := 0 to |contractors|
        invariant contractors == Rewritten(was, g, i)
        invariant stats == CollectFrom(old(stats), was, f, i)
      {
        RewrittenAt(was, g, i, i);
        var c := contractors[i];
        if c.departments.CodeList? {
          var updated, changed := MoveCodeList(t, c.departments.codes);
          if changed {
            stats := stats + [ContractorCodes];
            if apply { contractors := contractors[i := c.(departments := CodeList(updated))]; }
          }
        }
      }
      RewrittenAll(was, g);
      ContractorPass(t, was, apply);
    }

    /** Deletes the departments that have a successor; `ok` is false when the run stops (`SystemExit`)
        because a successor is missing. */
    method DeleteRetired(sorted: seq<string>, apply: bool) returns (ok: bool)
      requires Safe(t) && forall c :: c in sorted ==> IsRetired(t, c)
      modifies this`departments, this`stats
      ensures TargetsExist(t, old(departments)) ==> ok
      ensures ok ==> departments == if apply then WithoutEach(old(departments), sorted) else old(departments)
      ensures ok ==> stats == DeleteStats(old(stats), old(departments), sorted,
                                          DepartmentDeleted, DepartmentSkipMissing, apply)
    {
      for i := 0 to |sorted|
        invariant departments == if apply then WithoutEach(old(departments), sorted[..i]) else old(departments)
        invariant stats == DeleteStats(old(stats), old(departments), sorted[..i],
                                       DepartmentDeleted, DepartmentSkipMissing, apply)
        invariant TargetsExist(t, old(departments)) ==> TargetsExist(t, departments)
      {
        assert sorted[..i + 1][..i] == sorted[..i];
        var code := sorted[i];
        if HasCode(departments, code) {
          TargetOfRetired(t, departments, code);
          if !HasCode(departments, Alias(t, code)) { return false; }
          stats := stats + [DepartmentDeleted];
          TargetsSurvive(t, departments, code);
          if apply { departments := WithoutFirst(departments, code); }
        } else {
          stats := stats + [DepartmentSkipMissing];
          WithoutAbsent(departments, code);
        }
      }
      assert sorted[..|sorted|] == sorted;
      return true;
    }

    /** Deletes the departments that were closed without a successor. */
    method DeleteClosed(apply: bool)
      modifies this`departments, this`stats
      ensures departments == if apply then WithoutEach(old(departments), t.closed) else old(departments)
      ensures stats == DeleteStats(old(stats), old(departments), t.closed,
                                   DepartmentDeletedNoAlias, DepartmentSkipMissingDelete, apply)
    {
      for i := 0 to |t.closed|
        invariant departments == if apply then WithoutEach(old(departments), t.closed[..i]) else old(departments)
        invariant stats == DeleteStats(old(stats), old(departments), t.closed[..i],
                                       DepartmentDeletedNoAlias, DepartmentSkipMissingDelete, apply)
      {
        assert t.closed[..i + 1][..i] == t.closed[..i];
        var code := t.closed[i];
        if HasCode(departments, code) {
          stats := stats + [DepartmentDeletedNoAlias];
          if apply { departments := WithoutFirst(departments, code); }
        } else {
          stats := stats + [DepartmentSkipMissingDelete];
          WithoutAbsent(departments, code);
        }
      }
      assert t.closed[..|t.closed|] == t.closed;
    }

    method MoveEmails(names: map<string, string>, rebuild: Rebuild, apply: bool)
      requires Safe(t)
      modifies this`emails, this`stats
      ensures emails == if apply then Map(old(emails), row => Applied(t, row, names, rebuild))
                        else old(emails)
      ensures stats == EmailStats(t, old(stats), old(emails), names, rebuild, apply)
    {
      EmailPasses(t, emails, names, rebuild, apply);
      MoveCodedEmails(names, rebuild, apply);
      MoveOrphanEmails(rebuild, apply);
    }

    method MoveEvents(names: map<string, string>, apply: bool)
      modifies this`classification, this`changes, this`stats
      ensures classification ==
        if apply then Map(old(classification), e => MovedNewId(t, MovedOldId(t, e, names), names))
        else old(classification)
      ensures changes == if apply then Map(old(changes), e => MovedChange(t, e)) else old(changes)
      ensures stats == EventStats(t, old(stats), old(classification), old(changes))
    {
      MoveClassificationColumn(false, names, apply);
      ClassificationPasses(t, stats, old(classification), names, apply);
      MoveClassificationColumn(true, names, apply);
      ChangePass(t, changes, apply);
      MoveChangeEvents(apply);
    }

    /** The stop inside the department deletions is unreachable once the names were loaded. */
    method MoveTables(order: seq<string>, sorted: seq<string>, names: map<string, string>, apply: bool)
      requires Safe(t) && IsListingOfRetired(t, sorted) && TargetsExist(t, departments)
      modifies this`erp, this`contractors, this`departments, this`stats
      ensures erp == if apply then ErpMoved(t, old(erp), order, names) else old(erp)
      ensures contractors == if apply then Map(old(contractors), c => MovedContractor(t, c)) else old(contractors)
      ensures departments == if apply then WithoutEach(WithoutEach(old(departments), sorted), t.closed)
                             else old(departments)
      ensures stats == TableStats(t, old(stats), old(erp), old(contractors), old(departments), names, order,
                                  sorted, apply)
    {
      MoveErpDepartments(order, names, apply);
      MoveContractors(apply);
      var ok := DeleteRetired(sorted, apply);
      if !ok { assert false; }
      DeleteClosed(apply);
    }

    /** `migrate(apply=...)`. `order` is the order in which the frozenset is iterated and `sorted`
        the order of the department deletions. A run that stops leaves nothing behind, and a dry run
        writes nothing at all. */
    method Migrate(rebuild: Rebuild, order: seq<string>, sorted: seq<string>, apply: bool) returns (outcome: Outcome)
      requires Safe(t) && IsListingOfRetired(t, order) && IsListingOfRetired(t, sorted)
      modifies this
      ensures outcome == if TargetsExist(t, old(departments)) then Finished else MissingTargets
      ensures View() == if apply && outcome == Finished
                        then Migrated(t, old(View()), rebuild, order, sorted) else old(View())
      ensures stats == if outcome == Finished then RunStats(t, old(View()), rebuild, order, sorted, apply) else []
      ensures apply && outcome == Finished && Distinct(t.retired) ==> Moved(t, rebuild, old(View()), View())
    {
      stats := [];
      var loaded := LoadNewNames();
      if loaded.None? { return MissingTargets; }
      MovePasses(loaded.value, rebuild, order, sorted, apply);
      if apply && Distinct(t.retired) { MigratedIsMoved(t, old(View()), rebuild, order, sorted); }
      return Finished;
    }

    method MovePasses(names: map<string, string>, rebuild: Rebuild, order: seq<string>, sorted: seq<string>,
                      apply: bool)
      requires Safe(t) && IsListingOfRetired(t, sorted) && TargetsExist(t, departments) && stats == []
      modifies this
      ensures View() == if apply then MigratedWith(t, old(View()), names, rebuild, order, sorted) else old(View())
      ensures stats == RunStatsWith(t, old(View()), names, rebuild, order, sorted, apply)
    {
      MoveEmails(names, rebuild, apply);
      MoveEvents(names, apply);
      MoveTables(order, sorted, names, apply);
    }
  }
}
