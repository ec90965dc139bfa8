/** `merge_import` on the loaded files: index maps are kept beside the lists and agree with them. */
module SpiskiRun {
  import opened Text
  import opened TopicMerge
  import opened ContentKeywords
  import opened SpiskiImport

  /** The index `tz_emails` gives, for every department, the lower-cased e-mails of its entry. */
  ghost predicate IndexAgrees(lower: Lower, tz: map<string, TzEntry>, index: map<string, set<string>>) {
    forall code :: TzEmails(lower, TzEntryOf(tz, code)) == if code in index then index[code] else {}
  }

  lemma IndexUpdated(lower: Lower, tz: map<string, TzEntry>, index: map<string, set<string>>, code: string, e: TzEntry)
    requires IndexAgrees(lower, tz, index)
    ensures IndexAgrees(lower, tz[code := e], index[code := TzEmails(lower, e)])
  {
    var tz', index' := tz[code := e], index[code := TzEmails(lower, e)];
    forall c ensures TzEmails(lower, TzEntryOf(tz', c)) == if c in index' then index'[c] else {} {
      assert c != code ==> TzEntryOf(tz', c) == TzEntryOf(tz, c);
    }
  }

  class Importer {
    var exact: seq<ExactRule>
    var keywordRules: seq<KeywordRule>
    var content: seq<ContentRule>
    var names: map<string, string>
    var tz: map<string, TzEntry>
    var stats: Stats

    function View(): Store
      reads this
    {
      Store(exact, keywordRules, content, names, tz)
    }

    /** Body of the row loop. Both indexes agree with their lists before and after. */
    method MergeRow(ctx: Context, row: ImportRow, exactIndex: set<string>, tzIndex: map<string, set<string>>)
      returns (exactIndex': set<string>, tzIndex': map<string, set<string>>)
      requires LowerTwice(ctx.lower)
      requires exactIndex == RuleEmails(ctx.lower, exact) && IndexAgrees(ctx.lower, tz, tzIndex)
      modifies this
      ensures View() == Step(ctx, old(View()), row)
      ensures stats == Counted(ctx, old(View()), old(stats), row)
      ensures exactIndex' == RuleEmails(ctx.lower, exact) && IndexAgrees(ctx.lower, tz, tzIndex')
    {
      exactIndex', tzIndex' := exactIndex, tzIndex;
      var email, code := ctx.lower(Strip(row.email)), Strip(row.code);
      if email == "" || code == "" { return; }
      var name := DeptName(code, names, row, ctx.structure);
      tzIndex' := MergeTopic(ctx, row, email, code, name, tzIndex);
      exactIndex' := MergeRule(ctx, row, email, name, exactIndex);
    }

    /** The part of the row that concerns the exact-email rules. */
    method MergeRule(ctx: Context, row: ImportRow, email: string, name: string, exactIndex: set<string>)
      returns (exactIndex': set<string>)
      requires LowerTwice(ctx.lower) && email == EmailOf(ctx, row) && exactIndex == RuleEmails(ctx.lower, exact)
      modifies this`exact, this`stats
      ensures exact == WithRule(ctx, old(View()), row, name)
      ensures stats == CountVerdict(old(stats), VerdictOn(ctx, old(exact), email))
      ensures exactIndex' == RuleEmails(ctx.lower, exact)
    {
      exactIndex' := exactIndex;
      if email in exactIndex {
        stats := stats.(duplicates := stats.duplicates + 1);
      } else if email in ctx.conflicts {
        stats := stats.(conflicts := stats.conflicts + 1);
      } else if IsCovered(email, ctx.keywords) {
        stats := stats.(covered := stats.covered + 1);
      } else {
        var direction := DirectionFor(exact, keywordRules, content, row, Strip(row.code));
        var rule := RuleFor(ctx, row, name, direction);
        EmailsSnoc(ctx.lower, exact, rule);
        exact := exact + [rule];
        exactIndex' := exactIndex + {email};
        stats := stats.(added := stats.added + 1);
      }
    }

    /** The part of the row that concerns the topics file and the department names. */
    method MergeTopic(ctx: Context, row: ImportRow, email: string, code: string, name: string,
                      tzIndex: map<string, set<string>>)
      returns (tzIndex': map<string, set<string>>)
      requires LowerTwice(ctx.lower) && IndexAgrees(ctx.lower, tz, tzIndex) && email == EmailOf(ctx, row)
      modifies this`names, this`tz, this`stats
      ensures names == NamesAfter(old(names), code, name)
      ensures tz == old(tz)[code := EntryAfter(ctx, TzEntryOf(old(tz), code), row, name)]
      ensures stats == CountTopic(old(stats), email in TzEmails(ctx.lower, TzEntryOf(old(tz), code)))
      ensures IndexAgrees(ctx.lower, tz, tzIndex')
    {
      if code !in names && name != code { names := names[code := name]; }
      var known := if code in tzIndex then tzIndex[code] else {};
      var e := UpdateEntry(ctx, TzEntryOf(tz, code), row, name, email, known);
      IndexUpdated(ctx.lower, tz, tzIndex, code, e);
      if email !in known {
        tzIndex' := tzIndex[code := known + {email}];
        stats := stats.(topicAdded := stats.topicAdded + 1);
      } else {
        assert known + {email} == known && tzIndex[code := known] == tzIndex;
        tzIndex' := tzIndex;
        stats := stats.(topicDuplicates := stats.topicDuplicates + 1);
      }
      tz := tz[code := e];
    }

    method MergeRows(ctx: Context, rows: seq<ImportRow>)
      requires LowerTwice(ctx.lower)
      modifies this
      ensures View() == StepsTo(ctx, old(View()), rows, |rows|)
      ensures stats == CountedTo(ctx, old(View()), rows, |rows|)
    {
      stats := NO_STATS;
      var exactIndex := RuleEmails(ctx.lower, exact);
      var tzIndex: map<string, set<string>> := map code | code in tz :: TzEmails(ctx.lower, tz[code]);
      for i := 0 to |rows|
        invariant View() == StepsTo(ctx, old(View()), rows, i)
        invariant stats == CountedTo(ctx, old(View()), rows, i)
        invariant exactIndex == RuleEmails(ctx.lower, exact) && IndexAgrees(ctx.lower, tz, tzIndex)
      {
        exactIndex, tzIndex := MergeRow(ctx, rows[i], exactIndex, tzIndex);
      }
    }

    /** `rule["keywords"].append(kw)` for each of the chosen keywords. */
    method AppendKeywords(r: nat, picked: seq<string>)
      requires r < |content|
      modifies this`content
      ensures content == old(content)[r := old(content)[r].(keywords := old(content)[r].keywords + picked)]
    {
      ghost var own := content[r].keywords;
      assert own + picked[..0] == own;
      for n := 0 to |picked|
        invariant content == old(content)[r := old(content)[r].(keywords := own + picked[..n])]
      {
        assert own + picked[..n] + [picked[n]] == own + picked[..n + 1];
        content := content[r := content[r].(keywords := content[r].keywords + [picked[n]])];
      }
      assert picked[..|picked|] == picked;
    }

    /** Appends the chosen keywords to the first rule of the code, which is made if there is none. */
    method AddFor(ctx: Context, classified: seq<ImportRow>, code: string, picked: seq<string>)
      modifies this`content
      ensures content == WithKeywords(ctx, old(View()), classified, code, picked)
    {
      if picked == [] { return; }
      var r := FirstRule(content, code, 0);
      if r == |content| {
        var row := RowOf(classified, code);
        content := content + [ContentRule([], code, DeptName(code, names, row, ctx.structure),
                                          DirectionFor(exact, keywordRules, content, row, code),
                                          Prefix(row.about, 80))];
      }
      AppendKeywords(r, picked);
      assert [] + picked == picked;
    }

    /** Content keywords: chosen for every code against the rules as they were before the first append. */
    method AddContentKeywords(ctx: Context, classified: seq<ImportRow>)
      modifies this`content
      ensures var codes := CodesOf(classified);
        content == ContentTo(ctx, old(View()), classified, codes, |codes|)
    {
      var before, codes := content, CodesOf(classified);
      for i := 0 to |codes|
        invariant content == ContentTo(ctx, old(View()), classified, codes, i)
      {
        var picked := SelectFor(CandidatesOf(classified, codes[i]), ExistingOf(ctx.lower, before, codes[i]));
        AddFor(ctx, classified, codes[i], picked);
      }
    }

    /** `merge_import`. */
    method MergeImport(lower: Lower, structure: map<string, string>, classified: seq<ImportRow>, others: seq<ImportRow>)
      requires LowerTwice(lower)
      modifies this
      ensures View() == Imported(lower, structure, old(View()), classified, others)
      ensures stats == CountedTo(ContextFor(lower, structure, old(View()), classified), old(View()),
                                 classified + others, |classified + others|)
    {
      var ctx, rows := ContextFor(lower, structure, View(), classified), classified + others;
      MergeRows(ctx, rows);
      AddContentKeywords(ctx, classified);
      names := NamesFromStructure(names, structure, rows);
    }
  }

  /** The entry of the row's department; `known` are the e-mails the index has for it. */
  method UpdateEntry(ctx: Context, entry: TzEntry, row: ImportRow, name: string, email: string, known: set<string>)
    returns (e: TzEntry)
    requires LowerTwice(ctx.lower) && email == EmailOf(ctx, row) && known == TzEmails(ctx.lower, entry)
    ensures e == EntryAfter(ctx, entry, row, name)
    ensures TzEmails(ctx.lower, e) == known + {email}
  {
    e := entry;
    if name != "" && name !in e.names && e.names == [] { e := e.(names := [name]); }
    var process, deadline := Strip(row.process), Strip(row.deadline);
    if process != "" && e.process == "" { e := e.(process := process); }
    if deadline != "" && e.deadline == "" { e := e.(deadline := deadline); }
    if email !in known {
      LowersSnoc(ctx.lower, e.emails, email);
      e := e.(emails := e.emails + [email]);
    }
  }

  lemma {:induction false} EmailsPrefix(lower: Lower, rules: seq<ExactRule>, more: seq<ExactRule>, n: nat)
    requires n <= |rules|
    ensures EmailsTo(lower, rules + more, n) == EmailsTo(lower, rules, n)
  {
    if n > 0 { EmailsPrefix(lower, rules, more, n - 1); }
  }

  lemma EmailsSnoc(lower: Lower, rules: seq<ExactRule>, r: ExactRule)
    ensures RuleEmails(lower, rules + [r]) == RuleEmails(lower, rules) + {lower(r.email)}
  {
    EmailsPrefix(lower, rules, [r], |rules|);
  }
}
