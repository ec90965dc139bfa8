/** What the counters of a dry run count: rows of the database that hold a retired code. By the laws of
    dry runs, those of an apply count the same. */
module MigrationCounts {
  import opened Text
  import opened Seqs
  import opened Codes
  import opened Migration
  import opened MigrationRun
  import opened MigrationDryRun
  import opened MigrationSecondPass

  // ---------------------------------------------------------------- what each counter counts

  /** A letter counts as moved when its stripped department is retired; its XML when it then holds a code;
      its payload when it holds one where the pass looks, or is not written as the script writes it. */
  predicate LetterCounts(t: AliasTable, k: Stat, row: EmailRow) {
    Strip(OrEmpty(row.departmentId)) in t.retired &&
    match k
    case EmailDepartmentId => true
    case EmailXmlNeedsUpdate => row.payload.Object? && HasRetired(t, row.payload.xml)
    case EmailRawPayload =>
      (match row.payload
       case Absent => false
       case Broken(text) => HasRetired(t, text)
       case NonObject(text) => HasRetired(t, text)
       case Object(xml, _, canonical) => HasRetired(t, xml) || !canonical)
    case _ => false
  }

  predicate ClassificationCounts(t: AliasTable, k: Stat, e: ClassificationEvent, newColumn: bool) {
    if newColumn then k == ClassificationNewId && e.newId.Some? && e.newId.value in t.retired
    else k == ClassificationOldId && e.oldId.Some? && e.oldId.value in t.retired
  }

  predicate ChangeCounts(t: AliasTable, k: Stat, e: ChangeEvent) {
    var o := e.oldValue.Some? && Strip(e.oldValue.value) in t.retired;
    var n := e.newValue.Some? && Strip(e.newValue.value) in t.retired;
    (k == ChangeOldValue && o) || (k == ChangeNewValue && n) || (k == ChangeRows && (o || n))
  }

  predicate ContractorCounts(t: AliasTable, k: Stat, c: Contractor) {
    && k == ContractorCodes && c.departments.CodeList?
    && exists i :: 0 <= i < |c.departments.codes| && Strip(c.departments.codes[i]) in t.retired
  }

  /** A deletion counts as done when the table has the code, as missing otherwise. */
  predicate DeletionCounts(k: Stat, rows: seq<Department>, code: string, hit: Stat, miss: Stat) {
    k == if exists i :: 0 <= i < |rows| && rows[i].code == code then hit else miss
  }

  /** The value of every counter of a dry run, second pass over the letters aside. */
  function Tally(t: AliasTable, s: State, sorted: seq<string>, k: Stat): nat {
    Count(s.emails, (row: EmailRow) => LetterCounts(t, k, row))
    + Count(s.classification, (e: ClassificationEvent) => ClassificationCounts(t, k, e, false))
    + Count(s.classification, (e: ClassificationEvent) => ClassificationCounts(t, k, e, true))
    + Count(s.changes, (e: ChangeEvent) => ChangeCounts(t, k, e))
    + Count(s.erp, (r: ErpDepartment) => k == ErpRows && r.id in t.retired)
    + Count(s.contractors, (c: Contractor) => ContractorCounts(t, k, c))
    + Count(sorted, (c: string) => DeletionCounts(k, s.departments, c, DepartmentDeleted, DepartmentSkipMissing))
    + Count(t.closed, (c: string) =>
              DeletionCounts(k, s.departments, c, DepartmentDeletedNoAlias, DepartmentSkipMissingDelete))
  }

  // ---------------------------------------------------------------- one stage at a time

  lemma {:induction false} StageCounts<S>(base: seq<Stat>, s: seq<S>, f: S -> seq<Stat>, p: S -> bool, k: Stat, n: nat)
    requires n <= |s| && forall i :: 0 <= i < |s| ==> CounterOf(f(s[i]), k) == One(p(s[i]))
    ensures CounterOf(CollectFrom(base, s, f, n), k) == CounterOf(base, k) + CountTo(s, p, n)
  {
    if n > 0 {
      StageCounts(base, s, f, p, k, n - 1);
      CounterOfConcat(CollectFrom(base, s, f, n - 1), f(s[n - 1]), k);
    }
  }

  lemma LetterStage(t: AliasTable, row: EmailRow, names: map<string, string>, rebuild: Rebuild, k: Stat)
    ensures CounterOf(CodedStats(t, row, names, rebuild, false), k) == One(LetterCounts(t, k, row))
  {
    CounterOfShort();
    if CodedRetired(t, row) { CodedParts(t, row, names, rebuild, false, k); }
  }

  lemma ChangeStage(t: AliasTable, e: ChangeEvent, k: Stat)
    ensures CounterOf(ChangeStats(t, e), k) == One(ChangeCounts(t, k, e))
  {
    var o := e.oldValue.Some? && IsRetired(t, Strip(e.oldValue.value));
    var n := e.newValue.Some? && IsRetired(t, Strip(e.newValue.value));
    var a, b := if o then [ChangeOldValue] else [], if n then [ChangeNewValue] else [];
    var c := if o || n then [ChangeRows] else [];
    CounterOfShort();
    CounterOfConcat(a, b, k);
    CounterOfConcat(a + b, c, k);
  }

  lemma {:induction false} ListsRetiredIs(t: AliasTable, codes: seq<string>, n: nat)
    requires n <= |codes|
    ensures ListsRetiredTo(t, codes, n) <==> exists i :: 0 <= i < n && Strip(codes[i]) in t.retired
  {
    if n > 0 { ListsRetiredIs(t, codes, n - 1); }
  }

  lemma ContractorStage(t: AliasTable, c: Contractor, k: Stat)
    ensures CounterOf(ContractorStats(t, c), k) == One(ContractorCounts(t, k, c))
  {
    CounterOfShort();
    if c.departments.CodeList? { ListsRetiredIs(t, c.departments.codes, |c.departments.codes|); }
  }

  // ---------------------------------------------------------------- the staging table

  lemma {:induction false} CountOr<T>(s: seq<T>, p: T -> bool, q: T -> bool, r: T -> bool, n: nat)
    requires n <= |s| && forall i :: 0 <= i < |s| ==> !(p(s[i]) && q(s[i])) && (r(s[i]) <==> p(s[i]) || q(s[i]))
    ensures CountTo(s, r, n) == CountTo(s, p, n) + CountTo(s, q, n)
  {
    if n > 0 { CountOr(s, p, q, r, n - 1); }
  }

  lemma {:induction false} CountSame<T>(s: seq<T>, p: T -> bool, q: T -> bool, n: nat)
    requires n <= |s| && forall i :: 0 <= i < |s| ==> p(s[i]) == q(s[i])
    ensures CountTo(s, p, n) == CountTo(s, q, n)
  {
    if n > 0 { CountSame(s, p, q, n - 1); }
  }

  lemma {:induction false} StagingStage(t: AliasTable, base: seq<Stat>, rows: seq<ErpDepartment>, order: seq<string>,
                                        names: map<string, string>, k: Stat)
    requires Distinct(order)
    ensures CounterOf(ErpStats(t, base, rows, order, names, false), k)
         == CounterOf(base, k) + Count(rows, (r: ErpDepartment) => k == ErpRows && r.id in order)
  {
    if order == [] {
      NoneCounted(rows, (r: ErpDepartment) => k == ErpRows && r.id in order, |rows|);
    } else {
      var front, code := order[..|order| - 1], order[|order| - 1];
      assert order == front + [code] && code !in front;
      StagingStage(t, base, rows, front, names, k);
      CounterOfShort();
      StageCounts(ErpStats(t, base, rows, front, names, false), rows,
                  r => ErpRowStats(t, r, code, Alias(t, code) in ErpIds(rows), false),
                  (r: ErpDepartment) => k == ErpRows && r.id == code, k, |rows|);
      CountOr(rows, (r: ErpDepartment) => k == ErpRows && r.id in front,
              (r: ErpDepartment) => k == ErpRows && r.id == code,
              (r: ErpDepartment) => k == ErpRows && r.id in order, |rows|);
    }
  }

  lemma OneDeletion(log: seq<Stat>, rows: seq<Department>, code: string, hit: Stat, miss: Stat, k: Stat)
    ensures CounterOf(log + [if HasCode(rows, code) then hit else miss], k)
         == CounterOf(log, k) + One(DeletionCounts(k, rows, code, hit, miss))
  {
    CounterOfShort();
    CounterOfConcat(log, [if HasCode(rows, code) then hit else miss], k);
  }

  lemma {:induction false} DeletionStage(base: seq<Stat>, rows: seq<Department>, codes: seq<string>, all: seq<string>,
                                         hit: Stat, miss: Stat, k: Stat)
    requires |codes| <= |all| && codes == all[..|codes|]
    ensures CounterOf(DeleteStats(base, rows, codes, hit, miss, false), k)
         == CounterOf(base, k) + CountTo(all, (c: string) => DeletionCounts(k, rows, c, hit, miss), |codes|)
  {
    if codes != [] {
      var front, code := codes[..|codes| - 1], codes[|codes| - 1];
      assert front == all[..|front|] && code == all[|front|];
      DeletionStage(base, rows, front, all, hit, miss, k);
      OneDeletion(DeleteStats(base, rows, front, hit, miss, false), rows, code, hit, miss, k);
    }
  }

  // ---------------------------------------------------------------- the whole run

  lemma LettersTally(t: AliasTable, rows: seq<EmailRow>, names: map<string, string>, rebuild: Rebuild, k: Stat)
    requires Predicted(k) || k == EmailXmlNeedsUpdate
    ensures CounterOf(EmailStats(t, [], rows, names, rebuild, false), k)
         == Count(rows, (row: EmailRow) => LetterCounts(t, k, row))
  {
    forall i | 0 <= i < |rows|
      ensures CounterOf(CodedStats(t, rows[i], names, rebuild, false), k) == One(LetterCounts(t, k, rows[i]))
    {
      LetterStage(t, rows[i], names, rebuild, k);
    }
    StageCounts([], rows, row => CodedStats(t, row, names, rebuild, false),
                (row: EmailRow) => LetterCounts(t, k, row), k,
                |rows|);
    CounterOfShort();
    forall i | 0 <= i < |rows| ensures CounterOf(OrphanStats(t, rows[i], rebuild, false), k) == 0 {
      CounterOfConcat([XmlOrphanNeedsUpdate], OrphanXmlStats(t, rebuild(rows[i]), false), k);
    }
    CollectNothing(Collect([], rows, row => CodedStats(t, row, names, rebuild, false)), rows,
                   row => OrphanStats(t, row, rebuild, false), k, |rows|);
  }

  lemma EventsTally(t: AliasTable, base: seq<Stat>, classification: seq<ClassificationEvent>, changes: seq<ChangeEvent>,
                    k: Stat)
    ensures CounterOf(EventStats(t, base, classification, changes), k) == CounterOf(base, k)
      + Count(classification, (e: ClassificationEvent) => ClassificationCounts(t, k, e, false))
      + Count(classification, (e: ClassificationEvent) => ClassificationCounts(t, k, e, true))
      + Count(changes, (e: ChangeEvent) => ChangeCounts(t, k, e))
  {
    CounterOfShort();
    StageCounts(base, classification, e => ColumnStats(t, e, false),
                (e: ClassificationEvent) => ClassificationCounts(t, k, e, false), k, |classification|);
    StageCounts(Collect(base, classification, e => ColumnStats(t, e, false)), classification,
                e => ColumnStats(t, e, true), (e: ClassificationEvent) => ClassificationCounts(t, k, e, true), k,
                |classification|);
    forall i | 0 <= i < |changes|
      ensures CounterOf(ChangeStats(t, changes[i]), k) == One(ChangeCounts(t, k, changes[i]))
    {
      ChangeStage(t, changes[i], k);
    }
    StageCounts(ClassificationStats(t, base, classification), changes, e => ChangeStats(t, e),
                (e: ChangeEvent) => ChangeCounts(t, k, e), k, |changes|);
  }

  lemma DeletionsTally(t: AliasTable, base: seq<Stat>, rows: seq<Department>, sorted: seq<string>, k: Stat)
    ensures CounterOf(DepartmentStats(t, base, rows, sorted, false), k) == CounterOf(base, k)
      + Count(sorted, (c: string) => DeletionCounts(k, rows, c, DepartmentDeleted, DepartmentSkipMissing))
      + Count(t.closed,
              (c: string) => DeletionCounts(k, rows, c, DepartmentDeletedNoAlias, DepartmentSkipMissingDelete))
  {
    assert sorted[..|sorted|] == sorted && t.closed[..|t.closed|] == t.closed;
    DeletionStage(base, rows, sorted, sorted, DepartmentDeleted, DepartmentSkipMissing, k);
    DeletionStage(DeleteStats(base, rows, sorted, DepartmentDeleted, DepartmentSkipMissing, false), rows, t.closed,
                  t.closed, DepartmentDeletedNoAlias, DepartmentSkipMissingDelete, k);
  }

  lemma TablesTally(t: AliasTable, base: seq<Stat>, s: State, names: map<string, string>, order: seq<string>,
                    sorted: seq<string>, k: Stat)
    requires IsListingOfRetired(t, order)
    ensures CounterOf(TableStats(t, base, s.erp, s.contractors, s.departments, names, order, sorted, false), k)
      == CounterOf(base, k)
      + Count(s.erp, (r: ErpDepartment) => k == ErpRows && r.id in t.retired)
      + Count(s.contractors, (c: Contractor) => ContractorCounts(t, k, c))
      + Count(sorted, (c: string) => DeletionCounts(k, s.departments, c, DepartmentDeleted, DepartmentSkipMissing))
      + Count(t.closed, (c: string) =>
                DeletionCounts(k, s.departments, c, DepartmentDeletedNoAlias, DepartmentSkipMissingDelete))
  {
    StagingStage(t, base, s.erp, order, names, k);
    forall i | 0 <= i < |s.erp| ensures s.erp[i].id in order <==> s.erp[i].id in t.retired {
      assert s.erp[i].id in order <==> IsRetired(t, s.erp[i].id);
    }
    CountSame(s.erp, (r: ErpDepartment) => k == ErpRows && r.id in order,
              (r: ErpDepartment) => k == ErpRows && r.id in t.retired, |s.erp|);
    var log := ErpStats(t, base, s.erp, order, names, false);
    forall i | 0 <= i < |s.contractors|
      ensures CounterOf(ContractorStats(t, s.contractors[i]), k) == One(ContractorCounts(t, k, s.contractors[i]))
    {
      ContractorStage(t, s.contractors[i], k);
    }
    StageCounts(log, s.contractors, c => ContractorStats(t, c), (c: Contractor) => ContractorCounts(t, k, c), k,
                |s.contractors|);
    DeletionsTally(t, Collect(log, s.contractors, c => ContractorStats(t, c)), s.departments, sorted, k);
  }

  /** Every counter of a dry run is the number of rows it names. */
  lemma DryRunCounts(t: AliasTable, s: State, rebuild: Rebuild, order: seq<string>, sorted: seq<string>, k: Stat)
    requires IsListingOfRetired(t, order) && (Predicted(k) || k == EmailXmlNeedsUpdate)
    ensures CounterOf(RunStats(t, s, rebuild, order, sorted, false), k) == Tally(t, s, sorted, k)
  {
    var names := DepartmentNames(s.departments);
    LettersTally(t, s.emails, names, rebuild, k);
    var emails := EmailStats(t, [], s.emails, names, rebuild, false);
    EventsTally(t, emails, s.classification, s.changes, k);
    TablesTally(t, EventStats(t, emails, s.classification, s.changes), s, names, order, sorted, k);
  }

  /** So is every predicted counter of an apply. */
  lemma ApplyCounts(t: AliasTable, s: State, rebuild: Rebuild, order: seq<string>, sorted: seq<string>, k: Stat)
    requires Safe(t) && IsListingOfRetired(t, order) && IsListingOfRetired(t, sorted) && Distinct(t.closed)
    requires Predicted(k)
    ensures CounterOf(RunStats(t, s, rebuild, order, sorted, true), k) == Tally(t, s, sorted, k)
  {
    DryRunPredictsApply(t, s, rebuild, order, sorted, k);
    DryRunCounts(t, s, rebuild, order, sorted, k);
  }
}
