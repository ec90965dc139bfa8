/** What repeated imports guarantee (scripts/import_spiski_routing.py). */
module SpiskiLaws {
  import opened Text
  import opened Seqs
  import opened TopicMerge
  import opened ContentKeywords
  import opened SpiskiImport
  import opened SpiskiRun

  // ---------------------------------------------------------------- accounting

  function HandledTo(ctx: Context, rows: seq<ImportRow>, n: nat): nat
    requires n <= |rows|
  {
    if n == 0 then 0 else HandledTo(ctx, rows, n - 1) + (if Handled(ctx, rows[n - 1]) then 1 else 0)
  }

  lemma CountedOnce(ctx: Context, s: Store, stats: Stats, row: ImportRow)
    ensures var c, one := Counted(ctx, s, stats, row), if Handled(ctx, row) then 1 else 0;
      && c.added + c.duplicates + c.conflicts + c.covered
           == stats.added + stats.duplicates + stats.conflicts + stats.covered + one
      && c.topicAdded + c.topicDuplicates == stats.topicAdded + stats.topicDuplicates + one
      && |Step(ctx, s, row).exact| + stats.added == |s.exact| + c.added
  {
  }

  /** All e-mails of the topics file: the sum over its departments. */
  ghost function EmailsIn(tz: map<string, TzEntry>, codes: set<string>): nat {
    if codes == {} then 0
    else
      var c :| c in codes;
      |TzEntryOf(tz, c).emails| + EmailsIn(tz, codes - {c})
  }

  ghost function TotalEmails(tz: map<string, TzEntry>): nat {
    EmailsIn(tz, tz.Keys)
  }

  lemma {:induction false} EmailsWithout(tz: map<string, TzEntry>, codes: set<string>, c: string)
    requires c in codes
    ensures EmailsIn(tz, codes) == |TzEntryOf(tz, c).emails| + EmailsIn(tz, codes - {c})
  {
    var d :| d in codes && EmailsIn(tz, codes) == |TzEntryOf(tz, d).emails| + EmailsIn(tz, codes - {d});
    if d != c {
      EmailsWithout(tz, codes - {d}, c);
      EmailsWithout(tz, codes - {c}, d);
      assert codes - {d} - {c} == codes - {c} - {d};
    }
  }

  lemma {:induction false} EmailsSame(a: map<string, TzEntry>, b: map<string, TzEntry>, codes: set<string>)
    requires forall c :: c in codes ==> |TzEntryOf(a, c).emails| == |TzEntryOf(b, c).emails|
    ensures EmailsIn(a, codes) == EmailsIn(b, codes)
  {
    if codes != {} {
      var c :| c in codes;
      EmailsWithout(a, codes, c);
      EmailsWithout(b, codes, c);
      EmailsSame(a, b, codes - {c});
    }
  }

  /** Changing one entry changes the total by what its list grew. */
  lemma TotalChanges(tz: map<string, TzEntry>, code: string, e: TzEntry)
    ensures TotalEmails(tz[code := e]) + |TzEntryOf(tz, code).emails| == TotalEmails(tz) + |e.emails|
  {
    var after, rest := tz[code := e], tz.Keys - {code};
    assert after.Keys == rest + {code} && after.Keys - {code} == rest;
    EmailsWithout(after, after.Keys, code);
    EmailsSame(tz, after, rest);
    if code in tz { EmailsWithout(tz, tz.Keys, code); } else { assert rest == tz.Keys; }
  }

  lemma TopicsGrowAsCounted(ctx: Context, s: Store, stats: Stats, row: ImportRow)
    ensures TotalEmails(Step(ctx, s, row).tz) + stats.topicAdded
         == TotalEmails(s.tz) + Counted(ctx, s, stats, row).topicAdded
  {
    if Handled(ctx, row) {
      var code := Strip(row.code);
      TotalChanges(s.tz, code,
                   EntryAfter(ctx, TzEntryOf(s.tz, code), row, DeptName(code, s.names, row, ctx.structure)));
    }
  }

  /** Every row with an e-mail and a code is counted once as new, duplicate, conflict or covered, and
      once as a topic e-mail added or known; the new ones are exactly the rules the list grew by, the
      added ones exactly the e-mails the topics file grew by. */
  lemma {:induction false} AccountingIsExact(ctx: Context, s: Store, rows: seq<ImportRow>, n: nat)
    requires n <= |rows|
    ensures var c := CountedTo(ctx, s, rows, n);
      && c.added + c.duplicates + c.conflicts + c.covered == HandledTo(ctx, rows, n)
      && c.topicAdded + c.topicDuplicates == HandledTo(ctx, rows, n)
      && |StepsTo(ctx, s, rows, n).exact| == |s.exact| + c.added
      && TotalEmails(StepsTo(ctx, s, rows, n).tz) == TotalEmails(s.tz) + c.topicAdded
  {
    if n > 0 {
      TopicsGrowAsCounted(ctx, StepsTo(ctx, s, rows, n - 1), CountedTo(ctx, s, rows, n - 1), rows[n - 1]);
      AccountingIsExact(ctx, s, rows, n - 1);
      CountedOnce(ctx, StepsTo(ctx, s, rows, n - 1), CountedTo(ctx, s, rows, n - 1), rows[n - 1]);
    }
  }

  // ---------------------------------------------------------------- exact-email rules

  /** The row asks for a rule that did not exist when the run began. */
  predicate AsksForRule(ctx: Context, s: Store, row: ImportRow) {
    Handled(ctx, row) && VerdictOn(ctx, s.exact, EmailOf(ctx, row)) == New
  }

  function Asked(ctx: Context, s: Store, row: ImportRow): seq<string> {
    if AsksForRule(ctx, s, row) then [EmailOf(ctx, row)] else []
  }

  function AskedTo(ctx: Context, s: Store, rows: seq<ImportRow>, n: nat): seq<string>
    requires n <= |rows|
  {
    if n == 0 then [] else AskedTo(ctx, s, rows, n - 1) + Asked(ctx, s, rows[n - 1])
  }

  function EmailsOf(rules: seq<ExactRule>): seq<string> {
    Map(rules, (r: ExactRule) => r.email)
  }

  /** `now` is `s` after appending one rule for each e-mail of `asked`. */
  ghost predicate Answers(ctx: Context, s: Store, now: Store, asked: seq<string>) {
    && s.exact <= now.exact
    && EmailsOf(now.exact[|s.exact|..]) == FirstOccurrences(asked)
    && RuleEmails(ctx.lower, now.exact) == RuleEmails(ctx.lower, s.exact) + Elements(asked)
  }

  lemma NewRuleAppended(ctx: Context, s: Store, row: ImportRow)
    requires LowerTwice(ctx.lower) && Handled(ctx, row) && VerdictOn(ctx, s.exact, EmailOf(ctx, row)) == New
    ensures var after := Step(ctx, s, row).exact;
      && |after| == |s.exact| + 1 && after[..|s.exact|] == s.exact
      && after[|s.exact|].email == EmailOf(ctx, row)
      && RuleEmails(ctx.lower, after) == RuleEmails(ctx.lower, s.exact) + {EmailOf(ctx, row)}
  {
    EmailsSnoc(ctx.lower, s.exact, Step(ctx, s, row).exact[|s.exact|]);
  }

  lemma OneMoreEmail(given: seq<ExactRule>, now: seq<ExactRule>, after: seq<ExactRule>)
    requires |given| <= |now| && |after| == |now| + 1 && after[..|now|] == now
    ensures EmailsOf(after[|given|..]) == EmailsOf(now[|given|..]) + [after[|now|].email]
  {
    assert after[|given|..] == now[|given|..] + [after[|now|]];
  }

  lemma AnsweredNew(ctx: Context, s: Store, now: Store, row: ImportRow, asked: seq<string>)
    requires LowerTwice(ctx.lower) && Answers(ctx, s, now, asked)
    requires AsksForRule(ctx, s, row) && EmailOf(ctx, row) !in asked
    ensures Answers(ctx, s, Step(ctx, now, row), asked + [EmailOf(ctx, row)])
  {
    var email, after := EmailOf(ctx, row), Step(ctx, now, row).exact;
    assert email !in Elements(asked);
    NewRuleAppended(ctx, now, row);
    FirstOccurrencesElements(asked);
    FirstOccurrencesSnoc(asked, email);
    OneMoreEmail(s.exact, now.exact, after);
    ElementsSnoc(asked, email);
  }

  lemma ElementsSnoc(s: seq<string>, x: string)
    ensures Elements(s + [x]) == Elements(s) + {x}
  {
  }

  lemma AnsweredAgain(ctx: Context, s: Store, now: Store, row: ImportRow, asked: seq<string>)
    requires Answers(ctx, s, now, asked)
    requires AsksForRule(ctx, s, row) && EmailOf(ctx, row) in asked
    ensures Answers(ctx, s, Step(ctx, now, row), asked + [EmailOf(ctx, row)])
  {
    var email := EmailOf(ctx, row);
    assert email in Elements(asked);
    FirstOccurrencesElements(asked);
    FirstOccurrencesSnoc(asked, email);
    ElementsSnoc(asked, email);
  }

  lemma NotAsked(ctx: Context, s: Store, now: Store, row: ImportRow, asked: seq<string>)
    requires Answers(ctx, s, now, asked) && !AsksForRule(ctx, s, row)
    ensures Step(ctx, now, row).exact == now.exact
  {
  }

  /** The rules a run appends are those asked for, one for each e-mail, in the order of the rows. The
      index after the run is the index before it and their e-mails. */
  lemma {:induction false} NewRulesAreTheAskedOnes(ctx: Context, s: Store, rows: seq<ImportRow>, n: nat)
    requires n <= |rows| && LowerTwice(ctx.lower)
    ensures Answers(ctx, s, StepsTo(ctx, s, rows, n), AskedTo(ctx, s, rows, n))
  {
    if n == 0 {
      assert s.exact[|s.exact|..] == [];
    } else {
      var now, asked, row := StepsTo(ctx, s, rows, n - 1), AskedTo(ctx, s, rows, n - 1), rows[n - 1];
      NewRulesAreTheAskedOnes(ctx, s, rows, n - 1);
      if !AsksForRule(ctx, s, row) {
        NotAsked(ctx, s, now, row, asked);
        assert asked + [] == asked;
      } else if EmailOf(ctx, row) in asked {
        AnsweredAgain(ctx, s, now, row, asked);
      } else {
        AnsweredNew(ctx, s, now, row, asked);
      }
    }
  }

  ghost predicate Free(ctx: Context, s: Store, email: string) {
    email !in RuleEmails(ctx.lower, s.exact) && email !in ctx.conflicts && !IsCovered(email, ctx.keywords)
  }

  lemma {:induction false} AskedAreFree(ctx: Context, s: Store, rows: seq<ImportRow>, n: nat)
    requires n <= |rows|
    ensures forall x :: x in AskedTo(ctx, s, rows, n) ==> Free(ctx, s, x)
  {
    if n > 0 { AskedAreFree(ctx, s, rows, n - 1); }
  }

  lemma {:induction false} AskedIsComplete(ctx: Context, s: Store, rows: seq<ImportRow>, n: nat, j: nat)
    requires j < n <= |rows| && Handled(ctx, rows[j]) && Free(ctx, s, EmailOf(ctx, rows[j]))
    ensures EmailOf(ctx, rows[j]) in AskedTo(ctx, s, rows, n)
  {
    if j < n - 1 { AskedIsComplete(ctx, s, rows, n - 1, j); }
  }

  /** Pairwise distinct e-mails, each free when the run began, with none of the free ones missing. */
  ghost predicate AreTheFreeOnes(ctx: Context, s: Store, rows: seq<ImportRow>, emails: seq<string>) {
    && Distinct(emails) && (forall e :: e in emails ==> Free(ctx, s, e))
    && (forall j :: 0 <= j < |rows| && Handled(ctx, rows[j]) && Free(ctx, s, EmailOf(ctx, rows[j])) ==>
          EmailOf(ctx, rows[j]) in emails)
  }

  lemma AskedAreSound(ctx: Context, s: Store, rows: seq<ImportRow>)
    ensures AreTheFreeOnes(ctx, s, rows, FirstOccurrences(AskedTo(ctx, s, rows, |rows|)))
  {
    FirstOccurrencesElements(AskedTo(ctx, s, rows, |rows|));
    AskedAreFree(ctx, s, rows, |rows|);
    forall j | 0 <= j < |rows| && Handled(ctx, rows[j]) && Free(ctx, s, EmailOf(ctx, rows[j]))
      ensures EmailOf(ctx, rows[j]) in AskedTo(ctx, s, rows, |rows|)
    {
      AskedIsComplete(ctx, s, rows, |rows|, j);
    }
  }

  lemma SoundIfAnswered(ctx: Context, s: Store, now: Store, rows: seq<ImportRow>, asked: seq<string>)
    requires Answers(ctx, s, now, asked) && AreTheFreeOnes(ctx, s, rows, FirstOccurrences(asked))
    ensures s.exact <= now.exact && AreTheFreeOnes(ctx, s, rows, EmailsOf(now.exact[|s.exact|..]))
  {
  }

  /** New rules have pairwise distinct e-mails; none was in the index before, in conflict or covered by
      a keyword; and the e-mail of every handled row that passes these tests gets one. */
  lemma NewRulesAreSound(ctx: Context, s: Store, rows: seq<ImportRow>)
    requires LowerTwice(ctx.lower)
    ensures s.exact <= StepsTo(ctx, s, rows, |rows|).exact
    ensures AreTheFreeOnes(ctx, s, rows, EmailsOf(StepsTo(ctx, s, rows, |rows|).exact[|s.exact|..]))
  {
    NewRulesAreTheAskedOnes(ctx, s, rows, |rows|);
    AskedAreSound(ctx, s, rows);
    SoundIfAnswered(ctx, s, StepsTo(ctx, s, rows, |rows|), rows, AskedTo(ctx, s, rows, |rows|));
  }

  // ---------------------------------------------------------------- the topics file

  /** The e-mails the first `n` rows bring for a department. */
  function BroughtTo(ctx: Context, rows: seq<ImportRow>, code: string, n: nat): seq<string>
    requires n <= |rows|
  {
    if n == 0 then []
    else if Handled(ctx, rows[n - 1]) && Strip(rows[n - 1].code) == code
    then BroughtTo(ctx, rows, code, n - 1) + [EmailOf(ctx, rows[n - 1])]
    else BroughtTo(ctx, rows, code, n - 1)
  }

  /** A department's topic e-mails are its own, in front, with the brought ones merged in. What it had
      as a name or a task default is kept. */
  lemma {:induction false} TopicEmailsAreMerged(ctx: Context, s: Store, rows: seq<ImportRow>, code: string, n: nat)
    requires n <= |rows| && LowerTwice(ctx.lower)
    ensures var before, after := TzEntryOf(s.tz, code), TzEntryOf(StepsTo(ctx, s, rows, n).tz, code);
      && after.emails == Merged(ctx.lower, before.emails, BroughtTo(ctx, rows, code, n))
      && (before.names != [] ==> after.names == before.names)
      && (before.process != "" ==> after.process == before.process)
      && (before.deadline != "" ==> after.deadline == before.deadline)
  {
    if n > 0 {
      TopicEmailsAreMerged(ctx, s, rows, code, n - 1);
      var brought, row := BroughtTo(ctx, rows, code, n - 1), rows[n - 1];
      TopicStep(ctx, StepsTo(ctx, s, rows, n - 1), row, code);
      if Handled(ctx, row) && Strip(row.code) == code {
        MergedConcat(ctx.lower, TzEntryOf(s.tz, code).emails, brought, [EmailOf(ctx, row)]);
        MergedOne(ctx.lower, Merged(ctx.lower, TzEntryOf(s.tz, code).emails, brought), EmailOf(ctx, row));
      }
    }
  }

  lemma TopicStep(ctx: Context, s: Store, row: ImportRow, code: string)
    ensures TzEntryOf(Step(ctx, s, row).tz, code) ==
      if Handled(ctx, row) && Strip(row.code) == code
      then EntryAfter(ctx, TzEntryOf(s.tz, code), row, DeptName(code, s.names, row, ctx.structure))
      else TzEntryOf(s.tz, code)
  {
  }

  lemma MergedOne(lower: Lower, existing: seq<string>, x: string)
    ensures Merged(lower, existing, [x]) == if lower(x) in Lowers(lower, existing) then existing else existing + [x]
  {
    assert MergedTo(lower, existing, [x], 0) == existing;
  }

  /** An entry only gains: e-mails at the end, a name or a task default where it had none. */
  ghost predicate EntryGrows(a: TzEntry, b: TzEntry) {
    && a.emails <= b.emails && (a.names != [] ==> b.names == a.names)
    && (a.process != "" ==> b.process == a.process) && (a.deadline != "" ==> b.deadline == a.deadline)
  }

  /** Nothing that was there is altered or removed. */
  lemma {:induction false} NamesAreKept(ctx: Context, s: Store, rows: seq<ImportRow>, n: nat)
    requires n <= |rows|
    ensures var after := StepsTo(ctx, s, rows, n);
      && (forall c :: c in s.names ==> c in after.names && after.names[c] == s.names[c])
      && (forall c :: c in s.tz ==> c in after.tz && EntryGrows(s.tz[c], after.tz[c]))
      && after.keywordRules == s.keywordRules && after.content == s.content
  {
    if n > 0 { NamesAreKept(ctx, s, rows, n - 1); }
  }

  // ---------------------------------------------------------------- importing again

  /** The row has nothing left to add. */
  ghost predicate Settled(ctx: Context, s: Store, row: ImportRow) {
    Handled(ctx, row) ==>
      var code := Strip(row.code);
      && (code in s.names || DeptName(code, map[], row, ctx.structure) == code)
      && code in s.tz && s.tz[code].names != []
      && EmailOf(ctx, row) in TzEmails(ctx.lower, s.tz[code])
      && (Strip(row.process) != "" ==> s.tz[code].process != "")
      && (Strip(row.deadline) != "" ==> s.tz[code].deadline != "")
      && VerdictOn(ctx, s.exact, EmailOf(ctx, row)) != New
  }

  lemma SettledAddsNothing(ctx: Context, s: Store, row: ImportRow)
    requires Settled(ctx, s, row)
    ensures Step(ctx, s, row) == s
  {
    if Handled(ctx, row) {
      var code := Strip(row.code);
      assert code !in s.names ==>
        DeptName(code, s.names, row, ctx.structure) == DeptName(code, map[], row, ctx.structure);
      assert s.tz[code := s.tz[code]] == s.tz;
    }
  }

  lemma LowersGrow(lower: Lower, a: seq<string>, b: seq<string>)
    requires a <= b
    ensures Lowers(lower, a) <= Lowers(lower, b)
  {
    assert b == a + b[|a|..];
    LowersConcat(lower, a, b[|a|..], |b| - |a|);
  }

  /** What one step does to one department, and to the index. */
  lemma StepGrows(ctx: Context, s: Store, row: ImportRow, code: string)
    requires LowerTwice(ctx.lower)
    ensures var after := Step(ctx, s, row);
      && (code in s.names ==> code in after.names)
      && RuleEmails(ctx.lower, s.exact) <= RuleEmails(ctx.lower, after.exact)
      && (code in s.tz ==> (code in after.tz
          && (s.tz[code].names != [] ==> after.tz[code].names != [])
          && (s.tz[code].process != "" ==> after.tz[code].process != "")
          && (s.tz[code].deadline != "" ==> after.tz[code].deadline != "")
          && TzEmails(ctx.lower, s.tz[code]) <= TzEmails(ctx.lower, after.tz[code])))
  {
    if Handled(ctx, row) {
      if VerdictOn(ctx, s.exact, EmailOf(ctx, row)) == New { NewRuleAppended(ctx, s, row); }
      if code in s.tz { LowersGrow(ctx.lower, s.tz[code].emails, Step(ctx, s, row).tz[code].emails); }
    }
  }

  lemma SettledStays(ctx: Context, s: Store, next: Store, row: ImportRow, other: ImportRow)
    requires LowerTwice(ctx.lower) && Settled(ctx, s, row) && next == Step(ctx, s, other)
    ensures Settled(ctx, next, row)
  {
    StepGrows(ctx, s, other, Strip(row.code));
  }

  lemma StepSettles(ctx: Context, s: Store, next: Store, row: ImportRow)
    requires LowerTwice(ctx.lower) && next == Step(ctx, s, row)
    ensures Settled(ctx, next, row)
  {
    if Handled(ctx, row) {
      var code, email := Strip(row.code), EmailOf(ctx, row);
      var name, e := DeptName(code, s.names, row, ctx.structure), TzEntryOf(s.tz, code);
      assert code !in s.names ==> name == DeptName(code, map[], row, ctx.structure);
      assert name != "";
      LowersSnoc(ctx.lower, e.emails, email);
      if VerdictOn(ctx, s.exact, email) == New { NewRuleAppended(ctx, s, row); }
    }
  }

  lemma RowStaysSettled(ctx: Context, s: Store, rows: seq<ImportRow>, n: nat, j: nat)
    requires j < n < |rows| && LowerTwice(ctx.lower) && Settled(ctx, StepsTo(ctx, s, rows, n), rows[j])
    ensures Settled(ctx, StepsTo(ctx, s, rows, n + 1), rows[j])
  {
    SettledStays(ctx, StepsTo(ctx, s, rows, n), StepsTo(ctx, s, rows, n + 1), rows[j], rows[n]);
  }

  lemma {:induction false} RowSettles(ctx: Context, s: Store, rows: seq<ImportRow>, n: nat, j: nat)
    requires j < n <= |rows| && LowerTwice(ctx.lower)
    ensures Settled(ctx, StepsTo(ctx, s, rows, n), rows[j])
  {
    if j < n - 1 {
      RowSettles(ctx, s, rows, n - 1, j);
      RowStaysSettled(ctx, s, rows, n - 1, j);
    } else {
      StepSettles(ctx, StepsTo(ctx, s, rows, j), StepsTo(ctx, s, rows, n), rows[j]);
    }
  }

  // ---------------------------------------------------------------- where new rules come from

  /** The rule row `j` appends when its turn comes. */
  function RuleAt(ctx: Context, s: Store, rows: seq<ImportRow>, j: nat): ExactRule
    requires j < |rows|
  {
    var now, code := StepsTo(ctx, s, rows, j), Strip(rows[j].code);
    RuleFor(ctx, rows[j], DeptName(code, now.names, rows[j], ctx.structure),
            DirectionFor(now.exact, now.keywordRules, now.content, rows[j], code))
  }

  /** Row `j` is the first of its e-mail, and `r` is its rule: its e-mail, its code. */
  ghost predicate BroughtBy(ctx: Context, s: Store, rows: seq<ImportRow>, j: nat, r: ExactRule)
    requires j < |rows|
  {
    && Handled(ctx, rows[j]) && r == RuleAt(ctx, s, rows, j)
    && r.email == EmailOf(ctx, rows[j]) && r.code == Strip(rows[j].code)
    && forall i :: 0 <= i < j && Handled(ctx, rows[i]) ==> EmailOf(ctx, rows[i]) != EmailOf(ctx, rows[j])
  }

  lemma FirstOfItsEmail(ctx: Context, s: Store, rows: seq<ImportRow>, j: nat)
    requires LowerTwice(ctx.lower) && j < |rows| && Handled(ctx, rows[j])
    requires VerdictOn(ctx, StepsTo(ctx, s, rows, j).exact, EmailOf(ctx, rows[j])) == New
    ensures BroughtBy(ctx, s, rows, j, RuleAt(ctx, s, rows, j))
  {
    forall i | 0 <= i < j && Handled(ctx, rows[i]) ensures EmailOf(ctx, rows[i]) != EmailOf(ctx, rows[j]) {
      RowSettles(ctx, s, rows, j, i);
    }
  }

  /** What one more row appends. */
  lemma NextRule(ctx: Context, s: Store, rows: seq<ImportRow>, j: nat)
    requires j < |rows|
    ensures var now := StepsTo(ctx, s, rows, j);
      StepsTo(ctx, s, rows, j + 1).exact ==
        if Handled(ctx, rows[j]) && VerdictOn(ctx, now.exact, EmailOf(ctx, rows[j])) == New
        then now.exact + [RuleAt(ctx, s, rows, j)] else now.exact
  {
  }

  /** Every rule a run appends is that of a row, the first one with its e-mail: in particular it sends the
      e-mail to the department this row names. */
  lemma {:induction false} NewRulesComeFromFirstRows(ctx: Context, s: Store, rows: seq<ImportRow>, n: nat, i: nat,
                                                     r: ExactRule)
    returns (j: nat)
    requires LowerTwice(ctx.lower) && n <= |rows|
    requires |s.exact| <= i < |StepsTo(ctx, s, rows, n).exact| && r == StepsTo(ctx, s, rows, n).exact[i]
    ensures j < n && BroughtBy(ctx, s, rows, j, r)
  {
    NextRule(ctx, s, rows, n - 1);
    if i < |StepsTo(ctx, s, rows, n - 1).exact| {
      j := NewRulesComeFromFirstRows(ctx, s, rows, n - 1, i, r);
    } else {
      j := n - 1;
      FirstOfItsEmail(ctx, s, rows, j);
    }
  }

  // ---------------------------------------------------------------- a second run

  lemma {:induction false} SettledRowsStay(ctx: Context, s: Store, rows: seq<ImportRow>, n: nat)
    requires n <= |rows| && forall j :: 0 <= j < |rows| ==> Settled(ctx, s, rows[j])
    ensures StepsTo(ctx, s, rows, n) == s
  {
    if n > 0 {
      SettledRowsStay(ctx, s, rows, n - 1);
      SettledAddsNothing(ctx, s, rows[n - 1]);
    }
  }

  /** Settledness does not read content rules, and survives names added from the structure. */
  lemma SettledUnderNames(ctx: Context, s: Store, row: ImportRow, content: seq<ContentRule>, names: map<string, string>)
    requires Settled(ctx, s, row) && forall c :: c in s.names ==> c in names
    ensures Settled(ctx, s.(content := content, names := names), row)
  {
  }

  /** A second import of the same rows adds no exact-email rule, no topic, name or task default, and no
      department name: only content keywords may move. */
  lemma SecondImportAddsNothing(lower: Lower, structure: map<string, string>, s: Store, classified: seq<ImportRow>,
                                others: seq<ImportRow>)
    requires LowerTwice(lower)
    ensures var once := Imported(lower, structure, s, classified, others);
      var twice := Imported(lower, structure, once, classified, others);
      && twice.exact == once.exact && twice.tz == once.tz && twice.names == once.names
      && twice.keywordRules == once.keywordRules == s.keywordRules
  {
    var ctx, rows := ContextFor(lower, structure, s, classified), classified + others;
    var merged, once := StepsTo(ctx, s, rows, |rows|), Imported(lower, structure, s, classified, others);
    NamesAreKept(ctx, s, rows, |rows|);
    assert ContextFor(lower, structure, once, classified) == ctx;
    forall j | 0 <= j < |rows| ensures Settled(ctx, once, rows[j]) {
      RowSettles(ctx, s, rows, |rows|, j);
      SettledUnderNames(ctx, merged, rows[j], once.content, once.names);
    }
    SettledRowsStay(ctx, once, rows, |rows|);
    assert NamesFromStructure(once.names, structure, rows) == once.names;
  }
}
