/** The second pass over the letters in a dry run and in an apply. A dry run has not written the first
    pass, so its second pass sees other payloads: how far its counters are off, exactly. */
module MigrationSecondPass {
  import opened Text
  import opened Seqs
  import opened Codes
  import opened Migration
  import opened MigrationRun
  import opened MigrationDryRun

  /** The counters both modes of the second pass use. */
  predicate SecondPass(k: Stat) {
    k == PayloadTextReplace || k == XmlOrphanNeedsUpdate
  }

  /** The first pass of an apply cleans the text of a payload that is not JSON. */
  predicate TextCleanedFirst(t: AliasTable, row: EmailRow) {
    CodedRetired(t, row) && row.payload.Broken? && HasRetired(t, row.payload.text)
  }

  /** The first pass of an apply cleans the XML: the rebuilder gives up, or gives a clean document. */
  predicate XmlCleanedFirst(t: AliasTable, row: EmailRow, names: map<string, string>, rebuild: Rebuild) {
    && CodedRetired(t, row) && row.payload.Object? && HasRetired(t, row.payload.xml)
    && !HasRetired(t, rebuild(WithCurrentDepartment(t, row, names)))
  }

  /** ... and leaves codes outside the XML for the text replacement of the second pass. */
  predicate OnlyOthersLeft(t: AliasTable, row: EmailRow, names: map<string, string>, rebuild: Rebuild) {
    XmlCleanedFirst(t, row, names, rebuild) && HasRetired(t, row.payload.others)
  }

  function DrySecond(t: AliasTable, row: EmailRow, rebuild: Rebuild): seq<Stat> {
    OrphanStats(t, row, rebuild, false)
  }

  function WetSecond(t: AliasTable, row: EmailRow, names: map<string, string>, rebuild: Rebuild): seq<Stat> {
    OrphanStats(t, Coded(t, row, names, rebuild), rebuild, true)
  }

  function One(b: bool): nat {
    if b then 1 else 0
  }

  // ---------------------------------------------------------------- one letter

  lemma OrphanCounters(t: AliasTable, row: EmailRow, rebuild: Rebuild, apply: bool)
    ensures var log, p := OrphanStats(t, row, rebuild, apply), row.payload;
      var xml := p.Object? && HasRetired(t, p.xml);
      && CounterOf(log, XmlOrphanNeedsUpdate) == One(xml)
      && CounterOf(log, PayloadTextReplace) == One(TextHasRetired(t, p) && !p.NonObject? && !xml)
  {
    CounterOfShort();
    var tail := OrphanXmlStats(t, rebuild(row), apply);
    CounterOfConcat([XmlOrphanNeedsUpdate], tail, XmlOrphanNeedsUpdate);
    CounterOfConcat([XmlOrphanNeedsUpdate], tail, PayloadTextReplace);
  }

  /** What a letter adds to the two counters, in a dry run and in an apply. */
  lemma LetterDifference(t: AliasTable, row: EmailRow, names: map<string, string>, rebuild: Rebuild)
    requires Safe(t)
    ensures var dry, wet := DrySecond(t, row, rebuild), WetSecond(t, row, names, rebuild);
      && CounterOf(dry, XmlOrphanNeedsUpdate)
           == CounterOf(wet, XmlOrphanNeedsUpdate) + One(XmlCleanedFirst(t, row, names, rebuild))
      && CounterOf(dry, PayloadTextReplace) + One(OnlyOthersLeft(t, row, names, rebuild))
           == CounterOf(wet, PayloadTextReplace) + One(TextCleanedFirst(t, row))
  {
    OrphanCounters(t, row, rebuild, false);
    OrphanCounters(t, Coded(t, row, names, rebuild), rebuild, true);
    EmptyTextHasNone(t);
    match row.payload {
      case Absent =>
      case Broken(text) => ReplaceCodesClears(t, text);
      case NonObject(text) => ReplaceCodesClears(t, text);
      case Object(xml, _, _) => ReplaceCodesClears(t, xml);
    }
  }

  /** Both counters agree on a letter if and only if its department was current, or the first pass of
      the apply has nothing to clean in it: no code in a broken payload, and no code in the XML unless
      the rebuilder returns one. */
  lemma LetterAgreesExactly(t: AliasTable, row: EmailRow, names: map<string, string>, rebuild: Rebuild)
    requires Safe(t)
    ensures (forall k :: SecondPass(k) ==>
        CounterOf(DrySecond(t, row, rebuild), k) == CounterOf(WetSecond(t, row, names, rebuild), k))
      <==> (!CodedRetired(t, row) || match row.payload
            case Broken(text) => !HasRetired(t, text)
            case Object(xml, _, _) =>
              HasRetired(t, xml) ==> HasRetired(t, rebuild(WithCurrentDepartment(t, row, names)))
            case _ => true)
  {
    LetterDifference(t, row, names, rebuild);
    assert SecondPass(PayloadTextReplace) && SecondPass(XmlOrphanNeedsUpdate);
  }

  /** A letter a dry run counts and the apply does not: the first pass cleaned its broken payload. */
  lemma SecondPassCountsAgain(t: AliasTable, row: EmailRow, names: map<string, string>, rebuild: Rebuild)
    requires Safe(t) && TextCleanedFirst(t, row)
    ensures DrySecond(t, row, rebuild) == [PayloadTextReplace] && WetSecond(t, row, names, rebuild) == []
  {
    ReplaceCodesClears(t, row.payload.text);
  }

  /** A letter only the apply counts as text replacement: a dry run still sees codes in its XML. */
  lemma SecondPassCountsElsewhere(t: AliasTable, row: EmailRow, names: map<string, string>, rebuild: Rebuild)
    requires Safe(t) && OnlyOthersLeft(t, row, names, rebuild)
    ensures DrySecond(t, row, rebuild) == [XmlOrphanNeedsUpdate]
    ensures WetSecond(t, row, names, rebuild) == [PayloadTextReplace]
  {
    EmptyTextHasNone(t);
    ReplaceCodesClears(t, row.payload.xml);
  }

  /** Both kinds exist for the script's table. */
  lemma ScriptSecondPassDiffers(names: map<string, string>)
    ensures TextCleanedFirst(SCRIPT_TABLE, EmailRow(Some("00-000034"), None, Broken("00-000034"), "m"))
    ensures OnlyOthersLeft(SCRIPT_TABLE, EmailRow(Some("00-000034"), None, Object("00-000034", "00-000034", true), "m"),
                           names, _ => "")
  {
    ScriptCodeIsRetired(0);
    EmptyTextHasNone(SCRIPT_TABLE);
  }

  // ---------------------------------------------------------------- the whole run

  lemma {:induction false} CountsDiffer<S, T>(a: seq<Stat>, b: seq<Stat>, s: seq<S>, s': seq<T>, f: S -> seq<Stat>,
                                              f': T -> seq<Stat>, more: S -> bool, less: S -> bool, k: Stat, n: nat)
    requires n <= |s| && |s| == |s'| && CounterOf(a, k) == CounterOf(b, k)
    requires forall i :: 0 <= i < n ==>
      CounterOf(f(s[i]), k) + One(less(s[i])) == CounterOf(f'(s'[i]), k) + One(more(s[i]))
    ensures CounterOf(CollectFrom(a, s, f, n), k) + CountTo(s, less, n)
         == CounterOf(CollectFrom(b, s', f', n), k) + CountTo(s, more, n)
  {
    if n > 0 {
      CountsDiffer(a, b, s, s', f, f', more, less, k, n - 1);
      CounterOfConcat(CollectFrom(a, s, f, n - 1), f(s[n - 1]), k);
      CounterOfConcat(CollectFrom(b, s', f', n - 1), f'(s'[n - 1]), k);
    }
  }

  lemma FirstPassSilent(t: AliasTable, rows: seq<EmailRow>, names: map<string, string>, rebuild: Rebuild, apply: bool,
                        k: Stat)
    requires SecondPass(k)
    ensures CounterOf(Collect([], rows, row => CodedStats(t, row, names, rebuild, apply)), k) == 0
  {
    CounterOfShort();
    forall i | 0 <= i < |rows| ensures CounterOf(CodedStats(t, rows[i], names, rebuild, apply), k) == 0 {
      if CodedRetired(t, rows[i]) { CodedParts(t, rows[i], names, rebuild, apply, k); }
    }
    CollectNothing([], rows, row => CodedStats(t, row, names, rebuild, apply), k, |rows|);
  }

  /** Letters whose counting differs between the modes. */
  function CleanedXml(t: AliasTable, rows: seq<EmailRow>, names: map<string, string>, rebuild: Rebuild): nat {
    Count(rows, (row: EmailRow) => XmlCleanedFirst(t, row, names, rebuild))
  }

  function LeftOthers(t: AliasTable, rows: seq<EmailRow>, names: map<string, string>, rebuild: Rebuild): nat {
    Count(rows, (row: EmailRow) => OnlyOthersLeft(t, row, names, rebuild))
  }

  function CleanedText(t: AliasTable, rows: seq<EmailRow>): nat {
    Count(rows, (row: EmailRow) => TextCleanedFirst(t, row))
  }

  lemma XmlCounterOfLetters(t: AliasTable, rows: seq<EmailRow>, names: map<string, string>, rebuild: Rebuild)
    requires Safe(t)
    ensures CounterOf(EmailStats(t, [], rows, names, rebuild, false), XmlOrphanNeedsUpdate)
         == CounterOf(EmailStats(t, [], rows, names, rebuild, true), XmlOrphanNeedsUpdate)
            + CleanedXml(t, rows, names, rebuild)
  {
    var k, more, less := XmlOrphanNeedsUpdate, (row: EmailRow) => XmlCleanedFirst(t, row, names, rebuild),
      (row: EmailRow) => false;
    FirstPassSilent(t, rows, names, rebuild, false, k);
    FirstPassSilent(t, rows, names, rebuild, true, k);
    forall i | 0 <= i < |rows|
      ensures CounterOf(DrySecond(t, rows[i], rebuild), k)
           == CounterOf(WetSecond(t, rows[i], names, rebuild), k) + One(more(rows[i]))
    {
      LetterDifference(t, rows[i], names, rebuild);
    }
    CountsDiffer(Collect([], rows, row => CodedStats(t, row, names, rebuild, false)),
                 Collect([], rows, row => CodedStats(t, row, names, rebuild, true)),
                 rows, Map(rows, row => Coded(t, row, names, rebuild)),
                 row => OrphanStats(t, row, rebuild, false), row => OrphanStats(t, row, rebuild, true),
                 more, less, k, |rows|);
    NoneCounted(rows, less, |rows|);
  }

  lemma PayloadCounterOfLetters(t: AliasTable, rows: seq<EmailRow>, names: map<string, string>, rebuild: Rebuild)
    requires Safe(t)
    ensures CounterOf(EmailStats(t, [], rows, names, rebuild, false), PayloadTextReplace)
            + LeftOthers(t, rows, names, rebuild)
         == CounterOf(EmailStats(t, [], rows, names, rebuild, true), PayloadTextReplace) + CleanedText(t, rows)
  {
    var k, more, less := PayloadTextReplace, (row: EmailRow) => TextCleanedFirst(t, row),
      (row: EmailRow) => OnlyOthersLeft(t, row, names, rebuild);
    FirstPassSilent(t, rows, names, rebuild, false, k);
    FirstPassSilent(t, rows, names, rebuild, true, k);
    forall i | 0 <= i < |rows|
      ensures CounterOf(DrySecond(t, rows[i], rebuild), k) + One(less(rows[i]))
           == CounterOf(WetSecond(t, rows[i], names, rebuild), k) + One(more(rows[i]))
    {
      LetterDifference(t, rows[i], names, rebuild);
    }
    CountsDiffer(Collect([], rows, row => CodedStats(t, row, names, rebuild, false)),
                 Collect([], rows, row => CodedStats(t, row, names, rebuild, true)),
                 rows, Map(rows, row => Coded(t, row, names, rebuild)),
                 row => OrphanStats(t, row, rebuild, false), row => OrphanStats(t, row, rebuild, true),
                 more, less, k, |rows|);
  }

  lemma {:induction false} NoneCounted<T>(s: seq<T>, p: T -> bool, n: nat)
    requires n <= |s|
    ensures CountTo(s, p, n) == 0 <==> forall i :: 0 <= i < n ==> !p(s[i])
  {
    if n > 0 { NoneCounted(s, p, n - 1); }
  }

  lemma {:induction false} ErpSilent(t: AliasTable, base: seq<Stat>, rows: seq<ErpDepartment>, order: seq<string>,
                                     names: map<string, string>, apply: bool, k: Stat)
    requires SecondPass(k)
    ensures CounterOf(ErpStats(t, base, rows, order, names, apply), k) == CounterOf(base, k)
  {
    if order != [] {
      var front, code := order[..|order| - 1], order[|order| - 1];
      ErpSilent(t, base, rows, front, names, apply, k);
      var now := if apply then ErpMoved(t, rows, front, names) else rows;
      var newExists := Alias(t, code) in ErpIds(now);
      forall i | 0 <= i < |now| ensures CounterOf(ErpRowStats(t, now[i], code, newExists, apply), k) == 0 {
        ErpRowSilent(t, now[i], code, newExists, apply, k);
      }
      CollectNothing(ErpStats(t, base, rows, front, names, apply), now,
                     r => ErpRowStats(t, r, code, newExists, apply), k, |now|);
    }
  }

  lemma ErpRowSilent(t: AliasTable, r: ErpDepartment, code: string, newExists: bool, apply: bool, k: Stat)
    requires SecondPass(k)
    ensures CounterOf(ErpRowStats(t, r, code, newExists, apply), k) == 0
  {
    CounterOfShort();
    CounterOfConcat([ErpRows], [ErpDeleted], k);
    CounterOfConcat([ErpRows], [ErpRenamed], k);
    assert [ErpRows] + [ErpDeleted] == [ErpRows, ErpDeleted] && [ErpRows] + [ErpRenamed] == [ErpRows, ErpRenamed];
  }

  lemma OtherEntry(log: seq<Stat>, x: Stat, k: Stat)
    requires x != k
    ensures CounterOf(log + [x], k) == CounterOf(log, k)
  {
    CounterOfConcat(log, [x], k);
    CounterOfShort();
  }

  lemma {:induction false} DeletionsSilent(base: seq<Stat>, rows: seq<Department>, codes: seq<string>, hit: Stat,
                                           miss: Stat, apply: bool, k: Stat)
    requires hit != k && miss != k
    ensures CounterOf(DeleteStats(base, rows, codes, hit, miss, apply), k) == CounterOf(base, k)
  {
    if codes != [] {
      var front := codes[..|codes| - 1];
      DeletionsSilent(base, rows, front, hit, miss, apply, k);
      OtherEntry(DeleteStats(base, rows, front, hit, miss, apply), hit, k);
      OtherEntry(DeleteStats(base, rows, front, hit, miss, apply), miss, k);
    }
  }

  lemma ChangeSilent(t: AliasTable, e: ChangeEvent, k: Stat)
    requires SecondPass(k)
    ensures CounterOf(ChangeStats(t, e), k) == 0
  {
    var o := e.oldValue.Some? && IsRetired(t, Strip(e.oldValue.value));
    var n := e.newValue.Some? && IsRetired(t, Strip(e.newValue.value));
    var a, b := if o then [ChangeOldValue] else [], if n then [ChangeNewValue] else [];
    var c := if o || n then [ChangeRows] else [];
    CounterOfShort();
    CounterOfConcat(a, b, k);
    CounterOfConcat(a + b, c, k);
  }

  lemma EventsSilent(t: AliasTable, base: seq<Stat>, classification: seq<ClassificationEvent>,
                     changes: seq<ChangeEvent>, k: Stat)
    requires SecondPass(k)
    ensures CounterOf(EventStats(t, base, classification, changes), k) == CounterOf(base, k)
  {
    CounterOfShort();
    CollectNothing(base, classification, e => ColumnStats(t, e, false), k, |classification|);
    CollectNothing(Collect(base, classification, e => ColumnStats(t, e, false)), classification,
                   e => ColumnStats(t, e, true), k, |classification|);
    forall i | 0 <= i < |changes| ensures CounterOf(ChangeStats(t, changes[i]), k) == 0 {
      ChangeSilent(t, changes[i], k);
    }
    CollectNothing(ClassificationStats(t, base, classification), changes, e => ChangeStats(t, e), k, |changes|);
  }

  lemma TablesSilent(t: AliasTable, base: seq<Stat>, s: State, names: map<string, string>, order: seq<string>,
                     sorted: seq<string>, apply: bool, k: Stat)
    requires SecondPass(k)
    ensures CounterOf(TableStats(t, base, s.erp, s.contractors, s.departments, names, order, sorted, apply), k)
         == CounterOf(base, k)
  {
    ErpSilent(t, base, s.erp, order, names, apply, k);
    var log := ErpStats(t, base, s.erp, order, names, apply);
    CounterOfShort();
    CollectNothing(log, s.contractors, c => ContractorStats(t, c), k, |s.contractors|);
    var all := Collect(log, s.contractors, c => ContractorStats(t, c));
    DeletionsSilent(all, s.departments, sorted, DepartmentDeleted, DepartmentSkipMissing, apply, k);
    DeletionsSilent(DeleteStats(all, s.departments, sorted, DepartmentDeleted, DepartmentSkipMissing, apply),
                    if apply then WithoutEach(s.departments, sorted) else s.departments, t.closed,
                    DepartmentDeletedNoAlias, DepartmentSkipMissingDelete, apply, k);
  }

  /** Only the letters move the two counters. */
  lemma RunCounter(t: AliasTable, s: State, rebuild: Rebuild, order: seq<string>, sorted: seq<string>, apply: bool,
                   k: Stat)
    requires SecondPass(k)
    ensures CounterOf(RunStats(t, s, rebuild, order, sorted, apply), k)
         == CounterOf(EmailStats(t, [], s.emails, DepartmentNames(s.departments), rebuild, apply), k)
  {
    var names := DepartmentNames(s.departments);
    var emails := EmailStats(t, [], s.emails, names, rebuild, apply);
    EventsSilent(t, emails, s.classification, s.changes, k);
    TablesSilent(t, EventStats(t, emails, s.classification, s.changes), s, names, order, sorted, apply, k);
  }

  /** How far a dry run is off: it reports more XML updates, by the letters whose XML the first pass
      cleans; and as text replacements it reports too many the broken payloads the first pass cleans,
      and too few the letters of which that leaves codes outside the XML. */
  lemma SecondPassDifference(t: AliasTable, s: State, rebuild: Rebuild, order: seq<string>, sorted: seq<string>)
    requires Safe(t)
    ensures var names := DepartmentNames(s.departments);
      var dry, wet := RunStats(t, s, rebuild, order, sorted, false), RunStats(t, s, rebuild, order, sorted, true);
      && CounterOf(dry, XmlOrphanNeedsUpdate)
           == CounterOf(wet, XmlOrphanNeedsUpdate) + CleanedXml(t, s.emails, names, rebuild)
      && CounterOf(dry, PayloadTextReplace) + LeftOthers(t, s.emails, names, rebuild)
           == CounterOf(wet, PayloadTextReplace) + CleanedText(t, s.emails)
  {
    var names := DepartmentNames(s.departments);
    RunCounter(t, s, rebuild, order, sorted, false, XmlOrphanNeedsUpdate);
    RunCounter(t, s, rebuild, order, sorted, true, XmlOrphanNeedsUpdate);
    RunCounter(t, s, rebuild, order, sorted, false, PayloadTextReplace);
    RunCounter(t, s, rebuild, order, sorted, true, PayloadTextReplace);
    XmlCounterOfLetters(t, s.emails, names, rebuild);
    PayloadCounterOfLetters(t, s.emails, names, rebuild);
  }

  /** The XML counter of a dry run is right if and only if the first pass cleans the XML of no letter;
      the text counter, if and only if its two errors cancel. */
  lemma SecondPassAgreesExactly(t: AliasTable, s: State, rebuild: Rebuild, order: seq<string>, sorted: seq<string>)
    requires Safe(t)
    ensures var names := DepartmentNames(s.departments);
      var dry, wet := RunStats(t, s, rebuild, order, sorted, false), RunStats(t, s, rebuild, order, sorted, true);
      && (CounterOf(dry, XmlOrphanNeedsUpdate) == CounterOf(wet, XmlOrphanNeedsUpdate) <==>
            forall i :: 0 <= i < |s.emails| ==> !XmlCleanedFirst(t, s.emails[i], names, rebuild))
      && (CounterOf(dry, PayloadTextReplace) == CounterOf(wet, PayloadTextReplace) <==>
            CleanedText(t, s.emails) == LeftOthers(t, s.emails, names, rebuild))
  {
    var names := DepartmentNames(s.departments);
    SecondPassDifference(t, s, rebuild, order, sorted);
    NoneCounted(s.emails, (row: EmailRow) => XmlCleanedFirst(t, row, names, rebuild), |s.emails|);
  }
}
