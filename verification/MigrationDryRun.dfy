/** A dry run predicts the apply: the counters that do not name a write come out equal. */
module MigrationDryRun {
  import opened Seqs
  import opened Codes
  import opened Migration
  import opened MigrationRun

  /** Counters that name what is found in the database, not what is written to it. */
  predicate Predicted(k: Stat) {
    match k
    case EmailXmlRebuilt | EmailXmlStringReplace | EmailXmlNeedsUpdate | PayloadTextReplace
      | XmlOrphanNeedsUpdate | XmlOrphanRebuilt | XmlOrphanStringReplace | ErpDeleted | ErpRenamed => false
    case _ => true
  }

  /** The value of one counter after the first `n` increments. */
  function CounterTo(log: seq<Stat>, k: Stat, n: nat): nat
    requires n <= |log|
  {
    if n == 0 then 0 else CounterTo(log, k, n - 1) + (if log[n - 1] == k then 1 else 0)
  }

  function CounterOf(log: seq<Stat>, k: Stat): nat {
    CounterTo(log, k, |log|)
  }

  lemma CounterOfShort()
    ensures forall x, k :: CounterOf([x], k) == if x == k then 1 else 0
    ensures forall k :: CounterOf([], k) == 0
  {
    forall x: Stat, k: Stat ensures CounterOf([x], k) == if x == k then 1 else 0 {
      assert CounterTo([x], k, 1) == CounterTo([x], k, 0) + (if x == k then 1 else 0);
    }
  }

  lemma {:induction false} CounterOfPrefix(a: seq<Stat>, b: seq<Stat>, k: Stat, n: nat)
    requires n <= |a|
    ensures CounterTo(a + b, k, n) == CounterTo(a, k, n)
  {
    if n > 0 { CounterOfPrefix(a, b, k, n - 1); }
  }

  lemma {:induction false} CounterOfConcatTo(a: seq<Stat>, b: seq<Stat>, k: Stat, n: nat)
    requires n <= |b|
    ensures CounterTo(a + b, k, |a| + n) == CounterOf(a, k) + CounterTo(b, k, n)
  {
    if n > 0 { CounterOfConcatTo(a, b, k, n - 1); } else { CounterOfPrefix(a, b, k, |a|); }
  }

  lemma CounterOfConcat(a: seq<Stat>, b: seq<Stat>, k: Stat)
    ensures CounterOf(a + b, k) == CounterOf(a, k) + CounterOf(b, k)
  {
    CounterOfConcatTo(a, b, k, |b|);
  }

  lemma {:induction false} CollectCounts<S, T>(base: seq<Stat>, base': seq<Stat>, s: seq<S>, s': seq<T>,
                                               f: S -> seq<Stat>, f': T -> seq<Stat>, k: Stat, n: nat)
    requires n <= |s| && n <= |s'| && CounterOf(base, k) == CounterOf(base', k)
    requires forall i :: 0 <= i < n ==> CounterOf(f(s[i]), k) == CounterOf(f'(s'[i]), k)
    ensures CounterOf(CollectFrom(base, s, f, n), k) == CounterOf(CollectFrom(base', s', f', n), k)
  {
    if n > 0 {
      CollectCounts(base, base', s, s', f, f', k, n - 1);
      CounterOfConcat(CollectFrom(base, s, f, n - 1), f(s[n - 1]), k);
      CounterOfConcat(CollectFrom(base', s', f', n - 1), f'(s'[n - 1]), k);
    }
  }

  lemma {:induction false} CollectNothing<S>(base: seq<Stat>, s: seq<S>, f: S -> seq<Stat>, k: Stat, n: nat)
    requires n <= |s|
    requires forall i :: 0 <= i < n ==> CounterOf(f(s[i]), k) == 0
    ensures CounterOf(CollectFrom(base, s, f, n), k) == CounterOf(base, k)
  {
    if n > 0 {
      CollectNothing(base, s, f, k, n - 1);
      CounterOfConcat(CollectFrom(base, s, f, n - 1), f(s[n - 1]), k);
    }
  }

  // ---------------------------------------------------------------- messages

  function RawStats(t: AliasTable, p: Payload): seq<Stat> {
    if TextChanges(t, p) then [EmailRawPayload] else []
  }

  lemma CodedParts(t: AliasTable, row: EmailRow, names: map<string, string>, rebuild: Rebuild, apply: bool, k: Stat)
    requires CodedRetired(t, row)
    ensures CounterOf(CodedStats(t, row, names, rebuild, apply), k) ==
      CounterOf([EmailDepartmentId], k) + CounterOf(XmlStats(t, row, names, rebuild, apply), k)
      + CounterOf(RawStats(t, row.payload), k)
  {
    var xml := XmlStats(t, row, names, rebuild, apply);
    CounterOfConcat([EmailDepartmentId], xml, k);
    CounterOfConcat([EmailDepartmentId] + xml, RawStats(t, row.payload), k);
  }

  /** The counters of one message: a dry run names the XML update, an apply how it was done. */
  lemma CodedRowPredicted(t: AliasTable, row: EmailRow, names: map<string, string>, rebuild: Rebuild, k: Stat)
    requires Predicted(k)
    ensures CounterOf(CodedStats(t, row, names, rebuild, true), k)
         == CounterOf(CodedStats(t, row, names, rebuild, false), k)
  {
    CounterOfShort();
    if CodedRetired(t, row) {
      CodedParts(t, row, names, rebuild, true, k);
      CodedParts(t, row, names, rebuild, false, k);
    }
  }

  lemma CodedRowXml(t: AliasTable, row: EmailRow, names: map<string, string>, rebuild: Rebuild)
    ensures CounterOf(CodedStats(t, row, names, rebuild, false), EmailXmlNeedsUpdate)
         == CounterOf(CodedStats(t, row, names, rebuild, true), EmailXmlRebuilt)
            + CounterOf(CodedStats(t, row, names, rebuild, true), EmailXmlStringReplace)
  {
    CounterOfShort();
    if CodedRetired(t, row) {
      CodedParts(t, row, names, rebuild, false, EmailXmlNeedsUpdate);
      CodedParts(t, row, names, rebuild, true, EmailXmlRebuilt);
      CodedParts(t, row, names, rebuild, true, EmailXmlStringReplace);
    }
  }

  lemma OrphanRowCounts(t: AliasTable, row: EmailRow, rebuild: Rebuild, apply: bool, k: Stat)
    requires Predicted(k)
    ensures CounterOf(OrphanStats(t, row, rebuild, apply), k) == 0
  {
    CounterOfShort();
    CounterOfConcat([XmlOrphanNeedsUpdate], OrphanXmlStats(t, rebuild(row), apply), k);
  }

  lemma OrphanPassCounts(t: AliasTable, base: seq<Stat>, rows: seq<EmailRow>, rebuild: Rebuild, apply: bool, k: Stat)
    requires Predicted(k)
    ensures CounterOf(Collect(base, rows, row => OrphanStats(t, row, rebuild, apply)), k) == CounterOf(base, k)
  {
    forall i | 0 <= i < |rows| ensures CounterOf(OrphanStats(t, rows[i], rebuild, apply), k) == 0 {
      OrphanRowCounts(t, rows[i], rebuild, apply, k);
    }
    CollectNothing(base, rows, row => OrphanStats(t, row, rebuild, apply), k, |rows|);
  }

  lemma {:induction false} CollectSum<S>(s: seq<S>, f: S -> seq<Stat>, g: S -> seq<Stat>, k: Stat, a: Stat, b: Stat,
                                         n: nat)
    requires n <= |s|
    requires forall i :: 0 <= i < n ==> CounterOf(f(s[i]), k) == CounterOf(g(s[i]), a) + CounterOf(g(s[i]), b)
    ensures CounterOf(CollectFrom([], s, f, n), k)
         == CounterOf(CollectFrom([], s, g, n), a) + CounterOf(CollectFrom([], s, g, n), b)
  {
    if n > 0 {
      CollectSum(s, f, g, k, a, b, n - 1);
      CounterOfConcat(CollectFrom([], s, f, n - 1), f(s[n - 1]), k);
      CounterOfConcat(CollectFrom([], s, g, n - 1), g(s[n - 1]), a);
      CounterOfConcat(CollectFrom([], s, g, n - 1), g(s[n - 1]), b);
    }
  }

  /** What a dry run reports as XML in need of an update is what the apply rebuilds or rewrites. */
  lemma XmlUpdatesAccounted(t: AliasTable, rows: seq<EmailRow>, names: map<string, string>, rebuild: Rebuild)
    ensures var dry := Collect([], rows, row => CodedStats(t, row, names, rebuild, false));
      var wet := Collect([], rows, row => CodedStats(t, row, names, rebuild, true));
      CounterOf(dry, EmailXmlNeedsUpdate) == CounterOf(wet, EmailXmlRebuilt) + CounterOf(wet, EmailXmlStringReplace)
  {
    forall row: EmailRow
      ensures CounterOf(CodedStats(t, row, names, rebuild, false), EmailXmlNeedsUpdate)
           == CounterOf(CodedStats(t, row, names, rebuild, true), EmailXmlRebuilt)
              + CounterOf(CodedStats(t, row, names, rebuild, true), EmailXmlStringReplace)
    {
      CodedRowXml(t, row, names, rebuild);
    }
    CollectSum(rows, row => CodedStats(t, row, names, rebuild, false), row => CodedStats(t, row, names, rebuild, true),
               EmailXmlNeedsUpdate, EmailXmlRebuilt, EmailXmlStringReplace, |rows|);
  }

  lemma EmailCountsAgree(t: AliasTable, rows: seq<EmailRow>, names: map<string, string>, rebuild: Rebuild, k: Stat)
    requires Predicted(k)
    ensures CounterOf(EmailStats(t, [], rows, names, rebuild, true), k)
         == CounterOf(EmailStats(t, [], rows, names, rebuild, false), k)
  {
    var wet := Collect([], rows, row => CodedStats(t, row, names, rebuild, true));
    var dry := Collect([], rows, row => CodedStats(t, row, names, rebuild, false));
    OrphanPassCounts(t, wet, Map(rows, row => Coded(t, row, names, rebuild)), rebuild, true, k);
    OrphanPassCounts(t, dry, rows, rebuild, false, k);
    forall i | 0 <= i < |rows|
      ensures CounterOf(CodedStats(t, rows[i], names, rebuild, true), k)
           == CounterOf(CodedStats(t, rows[i], names, rebuild, false), k)
    {
      CodedRowPredicted(t, rows[i], names, rebuild, k);
    }
    CollectCounts([], [], rows, rows, row => CodedStats(t, row, names, rebuild, true),
                  row => CodedStats(t, row, names, rebuild, false), k, |rows|);
  }

  // ---------------------------------------------------------------- the staging table

  /** How many rows carry `code`. */
  function RowsWith(rows: seq<ErpDepartment>, code: string, n: nat): nat
    requires n <= |rows|
  {
    if n == 0 then 0 else RowsWith(rows, code, n - 1) + (if rows[n - 1].id == code then 1 else 0)
  }

  lemma {:induction false} RowsWithPrefix(a: seq<ErpDepartment>, b: seq<ErpDepartment>, code: string, n: nat)
    requires n <= |a|
    ensures RowsWith(a + b, code, n) == RowsWith(a, code, n)
  {
    if n > 0 { RowsWithPrefix(a, b, code, n - 1); }
  }

  lemma OneRowKeepsOthers(t: AliasTable, prev: seq<ErpDepartment>, r: ErpDepartment, code: string, newExists: bool,
                          names: map<string, string>, other: string)
    requires other != code && other != Alias(t, code)
    ensures var after := prev + ErpRowAfter(t, r, code, newExists, names);
      RowsWith(after, other, |after|) == RowsWith(prev, other, |prev|) + (if r.id == other then 1 else 0)
  {
    RowsWithPrefix(prev, ErpRowAfter(t, r, code, newExists, names), other, |prev|);
  }

  /** Moving one code leaves the number of rows of any third code as it was. */
  lemma {:induction false} RewriteKeepsOthers(t: AliasTable, rows: seq<ErpDepartment>, code: string, newExists: bool,
                                              names: map<string, string>, other: string, n: nat)
    requires n <= |rows| && other != code && other != Alias(t, code)
    ensures var after := CollectFrom([], rows, r => ErpRowAfter(t, r, code, newExists, names), n);
      RowsWith(after, other, |after|) == RowsWith(rows, other, n)
  {
    if n > 0 {
      RewriteKeepsOthers(t, rows, code, newExists, names, other, n - 1);
      var prev := CollectFrom([], rows, r => ErpRowAfter(t, r, code, newExists, names), n - 1);
      OneRowKeepsOthers(t, prev, rows[n - 1], code, newExists, names, other);
    }
  }

  lemma {:induction false} MovedKeepsOthers(t: AliasTable, rows: seq<ErpDepartment>, order: seq<string>,
                                            names: map<string, string>, other: string)
    requires Safe(t) && IsRetired(t, other) && other !in order
    ensures var after := ErpMoved(t, rows, order, names);
      RowsWith(after, other, |after|) == RowsWith(rows, other, |rows|)
  {
    if order != [] {
      var front, code := order[..|order| - 1], order[|order| - 1];
      MovedKeepsOthers(t, rows, front, names, other);
      AliasFacts(t, code);
      var before := ErpMoved(t, rows, front, names);
      RewriteKeepsOthers(t, before, code, Alias(t, code) in ErpIds(before), names, other, |before|);
    }
  }

  lemma {:induction false} ErpPassCount(t: AliasTable, base: seq<Stat>, rows: seq<ErpDepartment>, code: string,
                                        newExists: bool, apply: bool, k: Stat, n: nat)
    requires n <= |rows| && Predicted(k)
    ensures CounterOf(CollectFrom(base, rows, r => ErpRowStats(t, r, code, newExists, apply), n), k)
         == CounterOf(base, k) + (if k == ErpRows then RowsWith(rows, code, n) else 0)
  {
    if n > 0 {
      ErpPassCount(t, base, rows, code, newExists, apply, k, n - 1);
      var hits := ErpRowStats(t, rows[n - 1], code, newExists, apply);
      CounterOfConcat(CollectFrom(base, rows, r => ErpRowStats(t, r, code, newExists, apply), n - 1), hits, k);
      CounterOfShort();
      if |hits| == 2 {
        assert hits == [hits[0]] + [hits[1]];
        CounterOfConcat([hits[0]], [hits[1]], k);
      }
    }
  }

  lemma {:induction false} ErpCountsAgree(t: AliasTable, wet: seq<Stat>, dry: seq<Stat>, rows: seq<ErpDepartment>,
                                          order: seq<string>, names: map<string, string>, k: Stat)
    requires Safe(t) && Distinct(order) && (forall c :: c in order ==> IsRetired(t, c))
    requires Predicted(k) && CounterOf(wet, k) == CounterOf(dry, k)
    ensures CounterOf(ErpStats(t, wet, rows, order, names, true), k)
         == CounterOf(ErpStats(t, dry, rows, order, names, false), k)
  {
    if order != [] {
      var front, code := order[..|order| - 1], order[|order| - 1];
      assert code in order && order == front + [code];
      ErpCountsAgree(t, wet, dry, rows, front, names, k);
      MovedKeepsOthers(t, rows, front, names, code);
      var now := ErpMoved(t, rows, front, names);
      ErpPassCount(t, ErpStats(t, wet, rows, front, names, true), now, code, Alias(t, code) in ErpIds(now), true, k,
                   |now|);
      ErpPassCount(t, ErpStats(t, dry, rows, front, names, false), rows, code, Alias(t, code) in ErpIds(rows), false,
                   k, |rows|);
    }
  }

  // ---------------------------------------------------------------- the departments table

  lemma {:induction false} WithoutEachKeepsOthers(rows: seq<Department>, codes: seq<string>, other: string)
    requires other !in codes
    ensures HasCode(WithoutEach(rows, codes), other) <==> HasCode(rows, other)
  {
    if codes != [] {
      WithoutEachKeepsOthers(rows, codes[..|codes| - 1], other);
      WithoutFirstKeepsOthers(WithoutEach(rows, codes[..|codes| - 1]), codes[|codes| - 1], other);
    }
  }

  lemma SameEntry(a: seq<Stat>, b: seq<Stat>, x: Stat, k: Stat)
    requires CounterOf(a, k) == CounterOf(b, k)
    ensures CounterOf(a + [x], k) == CounterOf(b + [x], k)
  {
    CounterOfConcat(a, [x], k);
    CounterOfConcat(b, [x], k);
  }

  /** Deletions find the same departments whether or not earlier ones were carried out. */
  lemma {:induction false} DeleteCountsAgree(wet: seq<Stat>, dry: seq<Stat>, now: seq<Department>,
                                             rows: seq<Department>, codes: seq<string>, hit: Stat, miss: Stat, k: Stat)
    requires Distinct(codes) && CounterOf(wet, k) == CounterOf(dry, k)
    requires forall c :: c in codes ==> (HasCode(now, c) <==> HasCode(rows, c))
    ensures CounterOf(DeleteStats(wet, now, codes, hit, miss, true), k)
         == CounterOf(DeleteStats(dry, rows, codes, hit, miss, false), k)
  {
    if codes != [] {
      var front, code := codes[..|codes| - 1], codes[|codes| - 1];
      assert code in codes && codes == front + [code];
      DeleteCountsAgree(wet, dry, now, rows, front, hit, miss, k);
      WithoutEachKeepsOthers(now, front, code);
      SameEntry(DeleteStats(wet, now, front, hit, miss, true), DeleteStats(dry, rows, front, hit, miss, false),
                if HasCode(rows, code) then hit else miss, k);
    }
  }

  // ---------------------------------------------------------------- the whole run

  lemma EventCountsAgree(t: AliasTable, wet: seq<Stat>, dry: seq<Stat>, classification: seq<ClassificationEvent>,
                         changes: seq<ChangeEvent>, k: Stat)
    requires CounterOf(wet, k) == CounterOf(dry, k)
    ensures CounterOf(EventStats(t, wet, classification, changes), k)
         == CounterOf(EventStats(t, dry, classification, changes), k)
  {
    var rows, f, g, h := classification, (e: ClassificationEvent) => ColumnStats(t, e, false),
      (e: ClassificationEvent) => ColumnStats(t, e, true), (e: ChangeEvent) => ChangeStats(t, e);
    CollectCounts(wet, dry, rows, rows, f, f, k, |rows|);
    CollectCounts(Collect(wet, rows, f), Collect(dry, rows, f), rows, rows, g, g, k, |rows|);
    CollectCounts(ClassificationStats(t, wet, rows), ClassificationStats(t, dry, rows), changes, changes, h, h, k,
                  |changes|);
  }

  lemma DepartmentCountsAgree(t: AliasTable, wet: seq<Stat>, dry: seq<Stat>, rows: seq<Department>,
                              sorted: seq<string>, k: Stat)
    requires Safe(t) && IsListingOfRetired(t, sorted) && Distinct(t.closed)
    requires CounterOf(wet, k) == CounterOf(dry, k)
    ensures CounterOf(DepartmentStats(t, wet, rows, sorted, true), k)
         == CounterOf(DepartmentStats(t, dry, rows, sorted, false), k)
  {
    DeleteCountsAgree(wet, dry, rows, rows, sorted, DepartmentDeleted, DepartmentSkipMissing, k);
    forall c | c in t.closed ensures HasCode(WithoutEach(rows, sorted), c) <==> HasCode(rows, c) {
      if c in sorted {
        var i :| 0 <= i < |t.retired| && t.retired[i] == c;
        SafeAt(t, |t.retired|, i);
        assert false;
      }
      WithoutEachKeepsOthers(rows, sorted, c);
    }
    DeleteCountsAgree(DeleteStats(wet, rows, sorted, DepartmentDeleted, DepartmentSkipMissing, true),
                      DeleteStats(dry, rows, sorted, DepartmentDeleted, DepartmentSkipMissing, false),
                      WithoutEach(rows, sorted), rows, t.closed, DepartmentDeletedNoAlias,
                      DepartmentSkipMissingDelete, k);
  }

  /** Every predicted counter of a dry run equals that of an apply from the same database. */
  lemma DryRunPredictsApply(t: AliasTable, s: State, rebuild: Rebuild, order: seq<string>, sorted: seq<string>, k: Stat)
    requires Safe(t) && IsListingOfRetired(t, order) && IsListingOfRetired(t, sorted) && Distinct(t.closed)
    requires Predicted(k)
    ensures CounterOf(RunStats(t, s, rebuild, order, sorted, true), k)
         == CounterOf(RunStats(t, s, rebuild, order, sorted, false), k)
  {
    var names := DepartmentNames(s.departments);
    EmailCountsAgree(t, s.emails, names, rebuild, k);
    var wet := EmailStats(t, [], s.emails, names, rebuild, true);
    var dry := EmailStats(t, [], s.emails, names, rebuild, false);
    EventCountsAgree(t, wet, dry, s.classification, s.changes, k);
    TableCountsAgree(t, EventStats(t, wet, s.classification, s.changes),
                     EventStats(t, dry, s.classification, s.changes), s, names, order, sorted, k);
  }

  lemma TableCountsAgree(t: AliasTable, wet: seq<Stat>, dry: seq<Stat>, s: State, names: map<string, string>,
                         order: seq<string>, sorted: seq<string>, k: Stat)
    requires Safe(t) && IsListingOfRetired(t, order) && IsListingOfRetired(t, sorted) && Distinct(t.closed)
    requires Predicted(k) && CounterOf(wet, k) == CounterOf(dry, k)
    ensures CounterOf(TableStats(t, wet, s.erp, s.contractors, s.departments, names, order, sorted, true), k)
         == CounterOf(TableStats(t, dry, s.erp, s.contractors, s.departments, names, order, sorted, false), k)
  {
    ErpCountsAgree(t, wet, dry, s.erp, order, names, k);
    var wet', dry' := ErpStats(t, wet, s.erp, order, names, true), ErpStats(t, dry, s.erp, order, names, false);
    var f := (c: Contractor) => ContractorStats(t, c);
    CollectCounts(wet', dry', s.contractors, s.contractors, f, f, k, |s.contractors|);
    DepartmentCountsAgree(t, Collect(wet', s.contractors, f), Collect(dry', s.contractors, f), s.departments, sorted,
                          k);
  }
}
