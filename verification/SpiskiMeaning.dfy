/** What an import writes, said of the two files and the rows: which direction, name and text a new rule
    gets, which names and task defaults the files gain, what the counters count. */
module SpiskiMeaning {
  import opened Text
  import opened Seqs
  import opened TopicMerge
  import opened ContentKeywords
  import opened SpiskiImport
  import opened SpiskiLaws
  import opened SpiskiContent

  // ---------------------------------------------------------------- directions

  ghost predicate FirstExact(rules: seq<ExactRule>, code: string, d: string) {
    exists i :: 0 <= i < |rules| && rules[i].code == code && rules[i].direction == d
                && forall m :: 0 <= m < i ==> !(rules[m].code == code && rules[m].direction != "")
  }

  ghost predicate FirstKeyword(rules: seq<KeywordRule>, code: string, d: string) {
    exists i :: 0 <= i < |rules| && rules[i].code == code && rules[i].direction == d
                && forall m :: 0 <= m < i ==> !(rules[m].code == code && rules[m].direction != "")
  }

  ghost predicate FirstContent(rules: seq<ContentRule>, code: string, d: string) {
    exists i :: 0 <= i < |rules| && rules[i].code == code && rules[i].direction == d
                && forall m :: 0 <= m < i ==> !(rules[m].code == code && rules[m].direction != "")
  }

  ghost predicate NoExact(rules: seq<ExactRule>, code: string) {
    forall m :: 0 <= m < |rules| ==> !(rules[m].code == code && rules[m].direction != "")
  }

  ghost predicate NoKeyword(rules: seq<KeywordRule>, code: string) {
    forall m :: 0 <= m < |rules| ==> !(rules[m].code == code && rules[m].direction != "")
  }

  ghost predicate NoContent(rules: seq<ContentRule>, code: string) {
    forall m :: 0 <= m < |rules| ==> !(rules[m].code == code && rules[m].direction != "")
  }

  /** The row's own direction; else the first direction a rule of the department has, exact rules before
      keyword rules before content rules; else `ПР`. */
  ghost predicate DirectionIs(d: string, own: string, code: string, exact: seq<ExactRule>,
                              keywords: seq<KeywordRule>, content: seq<ContentRule>)
  {
    if Strip(own) != "" then d == Strip(own)
    else if !NoExact(exact, code) then d != "" && FirstExact(exact, code, d)
    else if !NoKeyword(keywords, code) then d != "" && FirstKeyword(keywords, code, d)
    else if !NoContent(content, code) then d != "" && FirstContent(content, code, d)
    else d == "ПР"
  }

  lemma {:induction false} DirectionOfConcat(a: seq<(string, string)>, b: seq<(string, string)>, code: string)
    ensures DirectionOf(a + b, code) ==
      if DirectionOf(a, code) != "" then DirectionOf(a, code) else DirectionOf(b, code)
  {
    if a == [] {
      assert a + b == b;
    } else {
      assert (a + b)[1..] == a[1..] + b;
      DirectionOfConcat(a[1..], b, code);
    }
  }

  /** The first direction given for the code, or none. */
  ghost predicate FirstGiven(entries: seq<(string, string)>, code: string, d: string) {
    if d == "" then forall m :: 0 <= m < |entries| ==> !(entries[m].0 == code && entries[m].1 != "")
    else exists i :: 0 <= i < |entries| && entries[i].0 == code && entries[i].1 == d
                     && forall m :: 0 <= m < i ==> !(entries[m].0 == code && entries[m].1 != "")
  }

  lemma {:induction false} DirectionOfMeaning(entries: seq<(string, string)>, code: string)
    ensures FirstGiven(entries, code, DirectionOf(entries, code))
  {
    if entries != [] && !(entries[0].0 == code && entries[0].1 != "") {
      var rest, d := entries[1..], DirectionOf(entries[1..], code);
      DirectionOfMeaning(rest, code);
      if d == "" {
        forall m | 0 <= m < |entries| ensures !(entries[m].0 == code && entries[m].1 != "") {
          if m > 0 { assert entries[m] == rest[m - 1]; }
        }
      } else {
        var i :| 0 <= i < |rest| && rest[i].0 == code && rest[i].1 == d
                 && forall m :: 0 <= m < i ==> !(rest[m].0 == code && rest[m].1 != "");
        forall m | 0 <= m < i + 1 ensures !(entries[m].0 == code && entries[m].1 != "") {
          if m > 0 { assert entries[m] == rest[m - 1]; }
        }
        assert entries[i + 1] == rest[i];
      }
    }
  }

  lemma ExactDirection(rules: seq<ExactRule>, code: string)
    ensures var d := DirectionOf(Map(rules, (r: ExactRule) => (r.code, r.direction)), code);
      if d == "" then NoExact(rules, code) else FirstExact(rules, code, d) && !NoExact(rules, code)
  {
    var entries := Map(rules, (r: ExactRule) => (r.code, r.direction));
    DirectionOfMeaning(entries, code);
    assert forall i :: 0 <= i < |rules| ==> entries[i] == (rules[i].code, rules[i].direction);
  }

  lemma KeywordDirection(rules: seq<KeywordRule>, code: string)
    ensures var d := DirectionOf(Map(rules, (r: KeywordRule) => (r.code, r.direction)), code);
      if d == "" then NoKeyword(rules, code) else FirstKeyword(rules, code, d) && !NoKeyword(rules, code)
  {
    var entries := Map(rules, (r: KeywordRule) => (r.code, r.direction));
    DirectionOfMeaning(entries, code);
    assert forall i :: 0 <= i < |rules| ==> entries[i] == (rules[i].code, rules[i].direction);
  }

  lemma ContentDirection(rules: seq<ContentRule>, code: string)
    ensures var d := DirectionOf(Map(rules, (r: ContentRule) => (r.code, r.direction)), code);
      if d == "" then NoContent(rules, code) else FirstContent(rules, code, d) && !NoContent(rules, code)
  {
    var entries := Map(rules, (r: ContentRule) => (r.code, r.direction));
    DirectionOfMeaning(entries, code);
    assert forall i :: 0 <= i < |rules| ==> entries[i] == (rules[i].code, rules[i].direction);
  }

  lemma DirectionForIs(exact: seq<ExactRule>, keywords: seq<KeywordRule>, content: seq<ContentRule>, row: ImportRow,
                       code: string)
    ensures var d := DirectionFor(exact, keywords, content, row, code);
      DirectionIs(d, row.direction, code, exact, keywords, content)
  {
    var a := Map(exact, (r: ExactRule) => (r.code, r.direction));
    var b := Map(keywords, (r: KeywordRule) => (r.code, r.direction));
    var c := Map(content, (r: ContentRule) => (r.code, r.direction));
    DirectionOfConcat(a + b, c, code);
    DirectionOfConcat(a, b, code);
    ExactDirection(exact, code);
    KeywordDirection(keywords, code);
    ContentDirection(content, code);
  }

  // ---------------------------------------------------------------- names

  predicate Proper(name: string, code: string) {
    name != "" && name != code
  }

  /** The name is the first of the candidates that says something other than the code, or the code. */
  ghost predicate FirstProper(name: string, code: string, candidates: seq<string>) {
    if forall i :: 0 <= i < |candidates| ==> !Proper(candidates[i], code) then name == code
    else exists i :: 0 <= i < |candidates| && Proper(candidates[i], code) && name == candidates[i]
                     && forall m :: 0 <= m < i ==> !Proper(candidates[m], code)
  }

  /** The row's own name, the name in the rule file, the name in the structure. */
  function Candidates(row: ImportRow, code: string, names: map<string, string>, structure: map<string, string>)
    : seq<string>
  {
    [Strip(row.name), if code in names then Strip(names[code]) else "",
     if code in structure then structure[code] else ""]
  }

  lemma DeptNameIs(code: string, names: map<string, string>, row: ImportRow, structure: map<string, string>)
    ensures FirstProper(DeptName(code, names, row, structure), code, Candidates(row, code, names, structure))
  {
    var c, name := Candidates(row, code, names, structure), DeptName(code, names, row, structure);
    assert Strip("") == "";
    if Proper(c[0], code) {
      assert name == c[0];
    } else if Proper(c[1], code) {
      assert name == c[1];
    } else if Proper(c[2], code) {
      assert name == c[2];
    }
  }

  /** The first `n` characters, or all there are. */
  ghost predicate IsStart(part: string, text: string, n: nat) {
    part <= text && |part| == if |text| < n then |text| else n
  }

  /** The name a row gives its department when the table has none: its own, or that of the structure. */
  ghost predicate Names(ctx: Context, row: ImportRow, code: string) {
    && Handled(ctx, row) && Strip(row.code) == code
    && (Proper(Strip(row.name), code) || (code in ctx.structure && Proper(ctx.structure[code], code)))
  }

  ghost predicate GivesName(ctx: Context, row: ImportRow, code: string, name: string) {
    if Proper(Strip(row.name), code) then name == Strip(row.name)
    else code in ctx.structure && name == ctx.structure[code]
  }

  /** A department the file did not name gets the name of the first row that has one for it. */
  ghost predicate NameTold(ctx: Context, s: Store, rows: seq<ImportRow>, n: nat, names: map<string, string>, c: string)
    requires n <= |rows|
  {
    if c in s.names then c in names && names[c] == s.names[c]
    else if forall j :: 0 <= j < n ==> !Names(ctx, rows[j], c) then c !in names
    else c in names && exists j :: 0 <= j < n && Names(ctx, rows[j], c) && GivesName(ctx, rows[j], c, names[c])
                                   && forall m :: 0 <= m < j ==> !Names(ctx, rows[m], c)
  }

  lemma NameStep(ctx: Context, names: map<string, string>, row: ImportRow, c: string)
    requires c !in names && Handled(ctx, row) && Strip(row.code) == c
    ensures var name := DeptName(c, names, row, ctx.structure);
      name != c <==> Names(ctx, row, c)
    ensures Names(ctx, row, c) ==> GivesName(ctx, row, c, DeptName(c, names, row, ctx.structure))
  {
    assert Strip("") == "";
  }

  /** The same with the naming row at hand: row `j`, or none when `j` is `n`. */
  ghost predicate NamedBy(ctx: Context, s: Store, rows: seq<ImportRow>, n: nat, names: map<string, string>, c: string,
                          j: nat)
    requires n <= |rows|
  {
    if c in s.names then c in names && names[c] == s.names[c]
    else
      && j <= n && NoneNames(ctx, rows, j, c)
      && if j == n then c !in names
         else Names(ctx, rows[j], c) && c in names && GivesName(ctx, rows[j], c, names[c])
  }

  ghost predicate NoneNames(ctx: Context, rows: seq<ImportRow>, n: nat, c: string)
    requires n <= |rows|
  {
    forall m :: 0 <= m < n ==> !Names(ctx, rows[m], c)
  }

  lemma NameNext(ctx: Context, s: Store, rows: seq<ImportRow>, n: nat, m: nat, before: map<string, string>,
                 after: map<string, string>, c: string, j: nat) returns (j': nat)
    requires n < |rows| && m == n + 1 && NamedBy(ctx, s, rows, n, before, c, j)
    requires NameSteps(ctx, rows[n], before, after, c)
    ensures NamedBy(ctx, s, rows, m, after, c, j')
  {
    j' := if j == n && !Names(ctx, rows[n], c) then m else j;
  }

  lemma NameMoves(ctx: Context, s: Store, row: ImportRow, c: string)
    ensures NameSteps(ctx, row, s.names, Step(ctx, s, row).names, c)
  {
    if Handled(ctx, row) && Strip(row.code) == c && c !in s.names { NameStep(ctx, s.names, row, c); }
  }

  /** The name table before the first row and after each of the rows. */
  ghost function TablesOf(ctx: Context, s: Store, rows: seq<ImportRow>): seq<map<string, string>> {
    seq(|rows| + 1, j requires 0 <= j <= |rows| => StepsTo(ctx, s, rows, j).names)
  }

  /** What one row does to a name table. */
  ghost predicate TableSteps(ctx: Context, row: ImportRow, before: map<string, string>, after: map<string, string>) {
    forall c :: NameSteps(ctx, row, before, after, c)
  }

  ghost predicate NameSteps(ctx: Context, row: ImportRow, before: map<string, string>, after: map<string, string>,
                            c: string)
  {
    && (c in before ==> c in after && after[c] == before[c])
    && (c !in before ==> if Names(ctx, row, c) then c in after && GivesName(ctx, row, c, after[c]) else c !in after)
  }

  ghost predicate TablesStep(ctx: Context, rows: seq<ImportRow>, tables: seq<map<string, string>>) {
    && |tables| == |rows| + 1
    && forall j: nat :: j < |rows| ==> TableSteps(ctx, rows[j], tables[j], tables[j + 1])
  }

  lemma TablesStepOn(ctx: Context, rows: seq<ImportRow>, tables: seq<map<string, string>>, n: nat, c: string)
    requires TablesStep(ctx, rows, tables) && 0 < n <= |rows|
    ensures NameSteps(ctx, rows[n - 1], tables[n - 1], tables[n], c)
  {
    assert TableSteps(ctx, rows[n - 1], tables[n - 1], tables[n - 1 + 1]);
  }

  lemma {:induction false} TablesAreTold(ctx: Context, s: Store, rows: seq<ImportRow>, tables: seq<map<string, string>>,
                                         n: nat, c: string)
    returns (j: nat)
    requires TablesStep(ctx, rows, tables) && tables[0] == s.names && n <= |rows|
    ensures NamedBy(ctx, s, rows, n, tables[n], c, j)
  {
    j := 0;
    if n > 0 {
      j := TablesAreTold(ctx, s, rows, tables, n - 1, c);
      TablesStepOn(ctx, rows, tables, n, c);
      j := NameNext(ctx, s, rows, n - 1, n, tables[n - 1], tables[n], c, j);
    }
  }

  lemma TableMoves(ctx: Context, s: Store, rows: seq<ImportRow>, j: nat)
    requires j < |rows|
    ensures var tables := TablesOf(ctx, s, rows); TableSteps(ctx, rows[j], tables[j], tables[j + 1])
  {
    var now := StepsTo(ctx, s, rows, j);
    forall c ensures NameSteps(ctx, rows[j], now.names, Step(ctx, now, rows[j]).names, c) {
      NameMoves(ctx, now, rows[j], c);
    }
  }

  lemma NamesAreTold(ctx: Context, s: Store, rows: seq<ImportRow>, n: nat, c: string)
    requires n <= |rows|
    ensures NameTold(ctx, s, rows, n, StepsTo(ctx, s, rows, n).names, c)
  {
    var tables := TablesOf(ctx, s, rows);
    forall j: nat | j < |rows| ensures TableSteps(ctx, rows[j], tables[j], tables[j + 1]) {
      TableMoves(ctx, s, rows, j);
    }
    var j := TablesAreTold(ctx, s, rows, tables, n, c);
    NamedByTells(ctx, s, rows, n, tables[n], c, j);
  }

  lemma NamedByTells(ctx: Context, s: Store, rows: seq<ImportRow>, n: nat, names: map<string, string>, c: string,
                     j: nat)
    requires n <= |rows| && NamedBy(ctx, s, rows, n, names, c, j)
    ensures NameTold(ctx, s, rows, n, names, c)
  {
  }

  /** Structure names fill in for codes a row mentions. */
  lemma StructureNames(names: map<string, string>, structure: map<string, string>, rows: seq<ImportRow>, c: string)
    ensures var after := NamesFromStructure(names, structure, rows);
      if c in names then c in after && after[c] == names[c]
      else if c in structure && c != "" && structure[c] != "" && exists i :: 0 <= i < |rows| && rows[i].code == c
      then c in after && after[c] == structure[c]
      else c !in after
  {
  }

  // ---------------------------------------------------------------- the rows' rules

  /** Rule `i` of the list, as row `j` makes it. */
  ghost predicate RuleTold(ctx: Context, s: Store, rows: seq<ImportRow>, j: nat, exact: seq<ExactRule>, i: nat)
    requires j < |rows| && i < |exact|
  {
    var r, row, code, names := exact[i], rows[j], Strip(rows[j].code), StepsTo(ctx, s, rows, j).names;
    && r.email == ctx.lower(Strip(row.email)) && r.email != "" && r.code == code && code != ""
    && (forall m :: 0 <= m < j && Handled(ctx, rows[m]) ==> EmailOf(ctx, rows[m]) != r.email)
    && DirectionIs(r.direction, row.direction, code, exact[..i], s.keywordRules, s.content)
    && FirstProper(r.name, code, Candidates(row, code, names, ctx.structure))
    && IsStart(r.about, if row.about != "" then row.about else r.name, 120)
    && (r.organization == if Strip(row.direction) in ["АЛ", "МГ", "АМ", "МИ", "БМ"] then Strip(row.direction) else "")
  }

  lemma RuleForTells(ctx: Context, s: Store, rows: seq<ImportRow>, j: nat, exact: seq<ExactRule>, i: nat)
    requires j < |rows| && i < |exact| && BroughtBy(ctx, s, rows, j, exact[i])
    requires exact[..i] == StepsTo(ctx, s, rows, j).exact
    ensures RuleTold(ctx, s, rows, j, exact, i)
  {
    var now, code := StepsTo(ctx, s, rows, j), Strip(rows[j].code);
    NamesAreKept(ctx, s, rows, j);
    DirectionForIs(now.exact, now.keywordRules, now.content, rows[j], code);
    DeptNameIs(code, now.names, rows[j], ctx.structure);
    assert DeptName(code, now.names, rows[j], ctx.structure) != "";
  }

  lemma RuleStaysTold(ctx: Context, s: Store, rows: seq<ImportRow>, j: nat, now: seq<ExactRule>, next: seq<ExactRule>,
                      i: nat)
    requires j < |rows| && i < |now| && RuleTold(ctx, s, rows, j, now, i) && now <= next
    ensures RuleTold(ctx, s, rows, j, next, i)
  {
    assert next[i] == now[i] && next[..i] == now[..i];
  }

  /** The rule row `j` appends as number `i`. */
  lemma AppendedIsTold(ctx: Context, s: Store, rows: seq<ImportRow>, j: nat, now: seq<ExactRule>, next: seq<ExactRule>,
                       i: nat)
    requires LowerTwice(ctx.lower) && j < |rows| && |now| == i < |next|
    requires now == StepsTo(ctx, s, rows, j).exact && next == StepsTo(ctx, s, rows, j + 1).exact
    ensures RuleTold(ctx, s, rows, j, next, i)
  {
    NextRule(ctx, s, rows, j);
    FirstOfItsEmail(ctx, s, rows, j);
    assert next[..i] == now;
    RuleForTells(ctx, s, rows, j, next, i);
  }

  /** The rule list before the first row and after each of the rows. */
  ghost function ListsOf(ctx: Context, s: Store, rows: seq<ImportRow>): seq<seq<ExactRule>> {
    seq(|rows| + 1, j requires 0 <= j <= |rows| => StepsTo(ctx, s, rows, j).exact)
  }

  ghost predicate GrowsByOne(lists: seq<seq<ExactRule>>) {
    forall j: nat :: j + 1 < |lists| ==> lists[j] <= lists[j + 1] && |lists[j + 1]| <= |lists[j]| + 1
  }

  lemma OneRuleMore(now: seq<ExactRule>, next: seq<ExactRule>, r: ExactRule)
    requires next == now || next == now + [r]
    ensures now <= next && |next| <= |now| + 1
  {
  }

  lemma ListNext(ctx: Context, s: Store, rows: seq<ImportRow>, j: nat)
    requires j < |rows|
    ensures var lists := ListsOf(ctx, s, rows); lists[j] <= lists[j + 1] && |lists[j + 1]| <= |lists[j]| + 1
  {
    NextRule(ctx, s, rows, j);
    var lists := ListsOf(ctx, s, rows);
    OneRuleMore(lists[j], lists[j + 1], RuleAt(ctx, s, rows, j));
  }

  lemma ListsGrow(ctx: Context, s: Store, rows: seq<ImportRow>)
    ensures GrowsByOne(ListsOf(ctx, s, rows))
  {
    forall j: nat | j < |rows|
      ensures var lists := ListsOf(ctx, s, rows); lists[j] <= lists[j + 1] && |lists[j + 1]| <= |lists[j]| + 1
    {
      ListNext(ctx, s, rows, j);
    }
  }

  lemma {:induction false} AppendingRow(lists: seq<seq<ExactRule>>, n: nat, i: nat) returns (j: nat)
    requires GrowsByOne(lists) && n < |lists| && |lists[0]| <= i < |lists[n]|
    ensures j < n && |lists[j]| == i < |lists[j + 1]| && lists[j + 1] <= lists[n]
  {
    assert lists[n - 1] <= lists[n - 1 + 1];
    if i < |lists[n - 1]| { j := AppendingRow(lists, n - 1, i); } else { j := n - 1; }
  }

  /** Every rule the rows append, told by the row it comes from and the rules before it. */
  lemma NewRulesAreTold(ctx: Context, s: Store, rows: seq<ImportRow>, n: nat, i: nat) returns (j: nat)
    requires LowerTwice(ctx.lower) && n <= |rows|
    requires |s.exact| <= i < |StepsTo(ctx, s, rows, n).exact|
    ensures j < n && RuleTold(ctx, s, rows, j, StepsTo(ctx, s, rows, n).exact, i)
  {
    var lists := ListsOf(ctx, s, rows);
    ListsGrow(ctx, s, rows);
    j := AppendingRow(lists, n, i);
    AppendedIsTold(ctx, s, rows, j, lists[j], lists[j + 1], i);
    RuleStaysTold(ctx, s, rows, j, lists[j + 1], lists[n], i);
  }

  // ---------------------------------------------------------------- the topics file

  /** Row `j` is the first handled one of department `c`. */
  ghost predicate FirstRowOf(ctx: Context, rows: seq<ImportRow>, c: string, j: nat)
    requires j < |rows|
  {
    && Handled(ctx, rows[j]) && Strip(rows[j].code) == c
    && forall m :: 0 <= m < j ==> !(Handled(ctx, rows[m]) && Strip(rows[m].code) == c)
  }

  ghost predicate HasRowOf(ctx: Context, rows: seq<ImportRow>, c: string, n: nat)
    requires n <= |rows|
  {
    exists j :: 0 <= j < n && Handled(ctx, rows[j]) && Strip(rows[j].code) == c
  }

  /** A task default: the one that is set, else the first a row of the department brings. */
  ghost predicate DefaultTold(ctx: Context, rows: seq<ImportRow>, c: string, n: nat, of: ImportRow -> string,
                              before: string, after: string)
    requires n <= |rows|
  {
    if before != "" then after == before
    else if forall j :: 0 <= j < n && Handled(ctx, rows[j]) && Strip(rows[j].code) == c ==> Strip(of(rows[j])) == ""
    then after == ""
    else exists j :: 0 <= j < n && Handled(ctx, rows[j]) && Strip(rows[j].code) == c
                     && Strip(of(rows[j])) != "" && after == Strip(of(rows[j]))
                     && forall m :: 0 <= m < j && Handled(ctx, rows[m]) && Strip(rows[m].code) == c ==>
                          Strip(of(rows[m])) == ""
  }

  function ProcessOf(row: ImportRow): string {
    row.process
  }

  function DeadlineOf(row: ImportRow): string {
    row.deadline
  }

  /** The names of an entry: its own; else the name the first row of the department has. */
  ghost predicate EntryNamesTold(ctx: Context, s: Store, rows: seq<ImportRow>, c: string, n: nat, before: seq<string>,
                                 after: seq<string>)
    requires n <= |rows|
  {
    if before != [] || !HasRowOf(ctx, rows, c, n) then after == before
    else
      && |after| == 1
      && exists j :: 0 <= j < n && FirstRowOf(ctx, rows, c, j)
                     && FirstProper(after[0], c, Candidates(rows[j], c, s.names, ctx.structure))
  }

  /** An entry is there if it was, or if a row is of its department. */
  ghost predicate EntryTold(ctx: Context, s: Store, rows: seq<ImportRow>, n: nat, tz: map<string, TzEntry>, c: string)
    requires n <= |rows|
  {
    var a, b := TzEntryOf(s.tz, c), TzEntryOf(tz, c);
    && (c in tz <==> c in s.tz || HasRowOf(ctx, rows, c, n))
    && EntryNamesTold(ctx, s, rows, c, n, a.names, b.names)
    && DefaultTold(ctx, rows, c, n, ProcessOf, a.process, b.process)
    && DefaultTold(ctx, rows, c, n, DeadlineOf, a.deadline, b.deadline)
  }

  lemma DefaultNext(ctx: Context, rows: seq<ImportRow>, c: string, n: nat, of: ImportRow -> string, before: string,
                    now: string, after: string)
    requires n < |rows| && DefaultTold(ctx, rows, c, n, of, before, now)
    requires after == if Handled(ctx, rows[n]) && Strip(rows[n].code) == c then OrElse(now, Strip(of(rows[n]))) else now
    ensures DefaultTold(ctx, rows, c, n + 1, of, before, after)
  {
  }

  lemma FirstRowSeesNames(ctx: Context, s: Store, rows: seq<ImportRow>, c: string, j: nat)
    requires j < |rows| && FirstRowOf(ctx, rows, c, j)
    ensures var now := StepsTo(ctx, s, rows, j).names;
      (c in now <==> c in s.names) && (c in now ==> now[c] == s.names[c])
  {
    NamesAreTold(ctx, s, rows, j, c);
  }

  lemma EntryNamesNext(ctx: Context, s: Store, rows: seq<ImportRow>, c: string, n: nat, before: seq<string>,
                       now: seq<string>, after: seq<string>)
    requires n < |rows| && EntryNamesTold(ctx, s, rows, c, n, before, now)
    requires var row, names := rows[n], StepsTo(ctx, s, rows, n).names;
      if Handled(ctx, row) && Strip(row.code) == c && now == []
      then after == [DeptName(c, names, row, ctx.structure)] else after == now
    ensures EntryNamesTold(ctx, s, rows, c, n + 1, before, after)
  {
    var row := rows[n];
    if Handled(ctx, row) && Strip(row.code) == c && now == [] {
      assert before == [] && !HasRowOf(ctx, rows, c, n);
      assert FirstRowOf(ctx, rows, c, n);
      FirstRowSeesNames(ctx, s, rows, c, n);
      DeptNameIs(c, s.names, row, ctx.structure);
      assert HasRowOf(ctx, rows, c, n + 1);
    } else if before == [] && HasRowOf(ctx, rows, c, n) {
      assert HasRowOf(ctx, rows, c, n + 1);
    }
  }

  lemma EntryStep(ctx: Context, s: Store, row: ImportRow, c: string)
    ensures var e, after := TzEntryOf(s.tz, c), TzEntryOf(Step(ctx, s, row).tz, c);
      if Handled(ctx, row) && Strip(row.code) == c
      then after.names == (if e.names == [] then [DeptName(c, s.names, row, ctx.structure)] else e.names)
           && after.process == OrElse(e.process, Strip(row.process))
           && after.deadline == OrElse(e.deadline, Strip(row.deadline))
      else after == e
    ensures c in Step(ctx, s, row).tz <==> c in s.tz || (Handled(ctx, row) && Strip(row.code) == c)
  {
    assert Handled(ctx, row) && Strip(row.code) == c ==> DeptName(c, s.names, row, ctx.structure) != "";
  }

  lemma EntryNext(ctx: Context, s: Store, rows: seq<ImportRow>, n: nat, c: string)
    requires n < |rows| && EntryTold(ctx, s, rows, n, StepsTo(ctx, s, rows, n).tz, c)
    ensures EntryTold(ctx, s, rows, n + 1, StepsTo(ctx, s, rows, n + 1).tz, c)
  {
    var now, row := StepsTo(ctx, s, rows, n), rows[n];
    var a, e, b := TzEntryOf(s.tz, c), TzEntryOf(now.tz, c), TzEntryOf(StepsTo(ctx, s, rows, n + 1).tz, c);
    EntryStep(ctx, now, row, c);
    EntryNamesNext(ctx, s, rows, c, n, a.names, e.names, b.names);
    DefaultNext(ctx, rows, c, n, ProcessOf, a.process, e.process, b.process);
    DefaultNext(ctx, rows, c, n, DeadlineOf, a.deadline, e.deadline, b.deadline);
  }

  /** Every entry of the topics file after the rows. */
  lemma {:induction false} EntriesAreTold(ctx: Context, s: Store, rows: seq<ImportRow>, n: nat, c: string)
    requires n <= |rows|
    ensures EntryTold(ctx, s, rows, n, StepsTo(ctx, s, rows, n).tz, c)
  {
    if n > 0 {
      EntriesAreTold(ctx, s, rows, n - 1, c);
      EntryNext(ctx, s, rows, n - 1, c);
    }
  }

  // ---------------------------------------------------------------- the counters

  predicate IsConflict(ctx: Context, s: Store, row: ImportRow) {
    Handled(ctx, row) && EmailOf(ctx, row) !in RuleEmails(ctx.lower, s.exact) && EmailOf(ctx, row) in ctx.conflicts
  }

  predicate IsCoveredRow(ctx: Context, s: Store, row: ImportRow) {
    && Handled(ctx, row) && EmailOf(ctx, row) !in RuleEmails(ctx.lower, s.exact)
    && EmailOf(ctx, row) !in ctx.conflicts && IsCovered(EmailOf(ctx, row), ctx.keywords)
  }

  /** The verdict on a row changes during a run from new to duplicate only. */
  lemma VerdictAt(ctx: Context, s: Store, rows: seq<ImportRow>, n: nat, email: string)
    requires LowerTwice(ctx.lower) && n <= |rows|
    ensures var now := VerdictOn(ctx, StepsTo(ctx, s, rows, n).exact, email);
      now == VerdictOn(ctx, s.exact, email) || (VerdictOn(ctx, s.exact, email) == New && now == Duplicate)
  {
    var asked := AskedTo(ctx, s, rows, n);
    NewRulesAreTheAskedOnes(ctx, s, rows, n);
    AskedAreFree(ctx, s, rows, n);
    assert email in Elements(asked) <==> email in asked;
  }

  lemma RefusalNext(ctx: Context, s: Store, rows: seq<ImportRow>, n: nat)
    requires LowerTwice(ctx.lower) && n < |rows|
    ensures var c, c' := CountedTo(ctx, s, rows, n), CountedTo(ctx, s, rows, n + 1);
      && c'.conflicts == c.conflicts + (if IsConflict(ctx, s, rows[n]) then 1 else 0)
      && c'.covered == c.covered + (if IsCoveredRow(ctx, s, rows[n]) then 1 else 0)
  {
    VerdictAt(ctx, s, rows, n, EmailOf(ctx, rows[n]));
  }

  function Conflicting(ctx: Context, s: Store): ImportRow -> bool {
    r => IsConflict(ctx, s, r)
  }

  function Covering(ctx: Context, s: Store): ImportRow -> bool {
    r => IsCoveredRow(ctx, s, r)
  }

  lemma {:induction false} CountFollows(rows: seq<ImportRow>, p: ImportRow -> bool, counts: seq<nat>, n: nat)
    requires n <= |rows| && |counts| == |rows| + 1 && counts[0] == 0
    requires forall j: nat :: j < |rows| ==> counts[j + 1] == counts[j] + if p(rows[j]) then 1 else 0
    ensures counts[n] == CountTo(rows, p, n)
  {
    if n > 0 {
      CountFollows(rows, p, counts, n - 1);
      assert counts[n - 1 + 1] == counts[n];
    }
  }

  ghost function ConflictCounts(ctx: Context, s: Store, rows: seq<ImportRow>): seq<nat> {
    seq(|rows| + 1, j requires 0 <= j <= |rows| => CountedTo(ctx, s, rows, j).conflicts)
  }

  ghost function CoveredCounts(ctx: Context, s: Store, rows: seq<ImportRow>): seq<nat> {
    seq(|rows| + 1, j requires 0 <= j <= |rows| => CountedTo(ctx, s, rows, j).covered)
  }

  lemma CountsAt(ctx: Context, s: Store, rows: seq<ImportRow>, j: nat)
    requires j <= |rows|
    ensures ConflictCounts(ctx, s, rows)[j] == CountedTo(ctx, s, rows, j).conflicts
    ensures CoveredCounts(ctx, s, rows)[j] == CountedTo(ctx, s, rows, j).covered
  {
  }

  lemma CountsNext(ctx: Context, s: Store, rows: seq<ImportRow>, j: nat)
    requires LowerTwice(ctx.lower) && j < |rows|
    ensures var a, b := ConflictCounts(ctx, s, rows), CoveredCounts(ctx, s, rows);
      && a[j + 1] == a[j] + (if Conflicting(ctx, s)(rows[j]) then 1 else 0)
      && b[j + 1] == b[j] + (if Covering(ctx, s)(rows[j]) then 1 else 0)
  {
    CountsAt(ctx, s, rows, j);
    CountsAt(ctx, s, rows, j + 1);
    RefusalNext(ctx, s, rows, j);
  }

  /** Conflicts and covered rows are counted by what the rule list held before the run: no rule is ever
      made for their e-mails. */
  lemma RefusalsAreCounted(ctx: Context, s: Store, rows: seq<ImportRow>, n: nat)
    requires LowerTwice(ctx.lower) && n <= |rows|
    ensures CountedTo(ctx, s, rows, n).conflicts == CountTo(rows, Conflicting(ctx, s), n)
    ensures CountedTo(ctx, s, rows, n).covered == CountTo(rows, Covering(ctx, s), n)
  {
    var conflicts, covered := ConflictCounts(ctx, s, rows), CoveredCounts(ctx, s, rows);
    forall j: nat | j < |rows|
      ensures conflicts[j + 1] == conflicts[j] + if Conflicting(ctx, s)(rows[j]) then 1 else 0
      ensures covered[j + 1] == covered[j] + if Covering(ctx, s)(rows[j]) then 1 else 0
    {
      CountsNext(ctx, s, rows, j);
    }
    CountFollows(rows, Conflicting(ctx, s), conflicts, n);
    CountFollows(rows, Covering(ctx, s), covered, n);
  }

  // ---------------------------------------------------------------- content rules

  /** A content rule the import makes: of a department of the sheet that had none, told by its first row
      there. */
  ghost predicate ContentRuleTold(ctx: Context, s: Store, rows: seq<ImportRow>, content: seq<ContentRule>, i: nat)
    requires i < |content|
  {
    var r := content[i];
    exists j :: 0 <= j < |rows| && rows[j].code == r.code && (forall m :: 0 <= m < j ==> rows[m].code != r.code)
      && (forall m :: 0 <= m < i ==> content[m].code != r.code)
      && FirstProper(r.name, r.code, Candidates(rows[j], r.code, s.names, ctx.structure))
      && IsStart(r.about, rows[j].about, 80)
      && DirectionIs(r.direction, rows[j].direction, r.code, s.exact, s.keywordRules, [])
  }

  lemma {:induction false} RowOfIsFirst(rows: seq<ImportRow>, code: string) returns (j: nat)
    requires exists i :: 0 <= i < |rows| && rows[i].code == code
    ensures j < |rows| && rows[j].code == code && RowOf(rows, code) == rows[j]
    ensures forall m :: 0 <= m < j ==> rows[m].code != code
  {
    if rows[0].code == code {
      j := 0;
    } else {
      var i :| 0 <= i < |rows| && rows[i].code == code;
      assert rows[1..][i - 1].code == code;
      var k := RowOfIsFirst(rows[1..], code);
      j := k + 1;
      forall m | 0 <= m < j ensures rows[m].code != code { if m > 0 { assert rows[m] == rows[1..][m - 1]; } }
    }
  }

  /** One code of the layer: a rule that it makes is told, its direction by the rules there are. */
  lemma MadeRuleIsTold(ctx: Context, s: Store, rows: seq<ImportRow>, code: string, picked: seq<string>)
    requires picked != [] && FirstRule(s.content, code, 0) == |s.content|
    requires exists i :: 0 <= i < |rows| && rows[i].code == code
    ensures var after, n := WithKeywords(ctx, s, rows, code, picked), |s.content|;
      && |after| == n + 1 && after[..n] == s.content && after[n].code == code && after[n].keywords == picked
      && ContentRuleTold(ctx, s, rows, after, n)
  {
    var after, n, row := WithKeywords(ctx, s, rows, code, picked), |s.content|, RowOf(rows, code);
    var j := RowOfIsFirst(rows, code);
    DeptNameIs(code, s.names, row, ctx.structure);
    DirectionForIs(s.exact, s.keywordRules, s.content, row, code);
    assert after == s.content + [after[n]];
  }

  lemma ToldWhenGrown(ctx: Context, s: Store, rows: seq<ImportRow>, a: seq<ContentRule>, b: seq<ContentRule>, i: nat)
    requires i < |a| && Extends(a, b) && ContentRuleTold(ctx, s, rows, a, i)
    ensures ContentRuleTold(ctx, s, rows, b, i)
  {
    forall m | 0 <= m <= i ensures b[m].code == a[m].code {
      assert b[m] == a[m].(keywords := b[m].keywords);
    }
    assert b[i] == a[i].(keywords := b[i].keywords);
  }

  /** Every rule from `start` on is told. */
  ghost predicate ToldFrom(ctx: Context, s: Store, rows: seq<ImportRow>, content: seq<ContentRule>, start: nat) {
    start <= |content| && forall i: nat :: start <= i < |content| ==> ContentRuleTold(ctx, s, rows, content, i)
  }

  lemma ContentNext(ctx: Context, s: Store, rows: seq<ImportRow>, now: seq<ContentRule>, next: seq<ContentRule>,
                    code: string, picked: seq<string>, start: nat)
    requires exists i :: 0 <= i < |rows| && rows[i].code == code
    requires ToldFrom(ctx, s, rows, now, start)
    requires next == WithKeywords(ctx, s.(content := now), rows, code, picked)
    ensures ToldFrom(ctx, s, rows, next, start)
  {
    var s' := s.(content := now);
    WithKeywordsExtends(ctx, s', rows, code, picked);
    if picked != [] && FirstRule(now, code, 0) == |now| { MadeRuleIsTold(ctx, s', rows, code, picked); }
    forall i: nat | start <= i < |next| ensures ContentRuleTold(ctx, s, rows, next, i) {
      if i < |now| { ToldWhenGrown(ctx, s, rows, now, next, i); }
    }
  }

  /** Every content rule the layer makes. */
  lemma {:induction false} NewContentRulesAreTold(ctx: Context, s: Store, rows: seq<ImportRow>, codes: seq<string>,
                                                  n: nat)
    requires n <= |codes| && forall c :: c in codes ==> exists i :: 0 <= i < |rows| && rows[i].code == c
    ensures ToldFrom(ctx, s, rows, ContentTo(ctx, s, rows, codes, n), |s.content|)
  {
    if n > 0 {
      var now, next := ContentTo(ctx, s, rows, codes, n - 1), ContentTo(ctx, s, rows, codes, n);
      NewContentRulesAreTold(ctx, s, rows, codes, n - 1);
      assert codes[n - 1] in codes;
      ContentNext(ctx, s, rows, now, next, codes[n - 1], PicksFor(ctx, s, rows, codes[n - 1]), |s.content|);
    }
  }

  lemma CodesHaveRows(rows: seq<ImportRow>, c: string)
    ensures c in CodesOf(rows) <==> exists i :: 0 <= i < |rows| && rows[i].code == c
  {
    var column := Map(rows, (r: ImportRow) => r.code);
    FirstOccurrencesElements(column);
    if i :| 0 <= i < |rows| && rows[i].code == c { assert column[i] == c; }
    if c in column { var i :| 0 <= i < |column| && column[i] == c; }
  }

  /** The candidates of a department are the keywords of its rows, one row after another. */
  lemma CandidatesAre(rows: seq<ImportRow>, row: ImportRow, code: string)
    ensures CandidatesOf([], code) == []
    ensures CandidatesOf(rows + [row], code) == CandidatesOf(rows, code) + if row.code == code then row.keywords else []
  {
    CollectSnoc(rows, row, (r: ImportRow) => if r.code == code then r.keywords else []);
  }

  lemma {:induction false} LowersAre(lower: Lower, s: seq<string>, n: nat, x: string)
    requires n <= |s|
    ensures x in LowersTo(lower, s, n) <==> exists k :: 0 <= k < n && lower(s[k]) == x
  {
    if n > 0 { LowersAre(lower, s, n - 1, x); }
  }

  ghost predicate HasKeyword(lower: Lower, r: ContentRule, code: string, x: string) {
    r.code == code && exists k :: 0 <= k < |r.keywords| && lower(r.keywords[k]) == x
  }

  /** Present are the keywords of every rule of the department, ignoring case. */
  lemma {:induction false} PresentAre(lower: Lower, rules: seq<ContentRule>, code: string, n: nat, x: string)
    requires n <= |rules|
    ensures x in KeywordsTo(lower, rules, code, n) <==> exists i :: 0 <= i < n && HasKeyword(lower, rules[i], code, x)
  {
    if n > 0 {
      PresentAre(lower, rules, code, n - 1, x);
      LowersAre(lower, rules[n - 1].keywords, |rules[n - 1].keywords|, x);
    }
  }

  // ---------------------------------------------------------------- one import

  /** The e-mail is assigned to two departments in the sheet. */
  ghost predicate InConflict(classified: seq<ImportRow>, email: string) {
    email != "" && exists p, q :: p in classified && q in classified && p.email == email && q.email == email
                                 && p.code != q.code
  }

  /** `local` is what stands before the first `@`. */
  ghost predicate IsLocalPart(local: string, email: string) {
    local <= email && '@' !in local && (|local| < |email| ==> email[|local|] == '@')
  }

  lemma {:induction false} LocalPartIs(email: string)
    ensures IsLocalPart(LocalPart(email), email)
  {
    if email != "" && email[0] != '@' {
      LocalPartIs(email[1..]);
      assert email == [email[0]] + email[1..];
    }
  }

  /** A keyword rule has its keyword in the local part. */
  ghost predicate IsKeywordCovered(lower: Lower, rules: seq<KeywordRule>, email: string) {
    exists k, local :: k in rules && IsLocalPart(local, email) && Contains(local, lower(k.keyword))
  }

  lemma LocalPartIsUnique(a: string, b: string, email: string)
    requires IsLocalPart(a, email) && IsLocalPart(b, email)
    ensures a == b
  {
    assert a == email[..|a|] && b == email[..|b|];
  }

  lemma ContextTells(lower: Lower, structure: map<string, string>, s: Store, classified: seq<ImportRow>, email: string)
    ensures var ctx := ContextFor(lower, structure, s, classified);
      && (email in ctx.conflicts <==> InConflict(classified, email))
      && (IsCovered(email, ctx.keywords) <==> IsKeywordCovered(lower, s.keywordRules, email))
      && ctx.lower == lower && ctx.structure == structure
  {
    var ctx := ContextFor(lower, structure, s, classified);
    LocalPartIs(email);
    if IsKeywordCovered(lower, s.keywordRules, email) {
      var k, local :| k in s.keywordRules && IsLocalPart(local, email) && Contains(local, lower(k.keyword));
      LocalPartIsUnique(local, LocalPart(email), email);
      assert lower(k.keyword) in ctx.keywords;
    }
    if IsCovered(email, ctx.keywords) {
      var kw :| kw in ctx.keywords && Contains(LocalPart(email), kw);
      var k :| k in s.keywordRules && lower(k.keyword) == kw;
    }
    if email in ctx.conflicts {
      var r :| r in classified && r.email != "" && HasOtherCode(classified, r) && r.email == email;
      var q :| q in classified && q.email == r.email && q.code != r.code;
    }
    if InConflict(classified, email) {
      var p, q :| p in classified && q in classified && p.email == email && q.email == email && p.code != q.code;
      assert HasOtherCode(classified, p);
    }
  }

  lemma NewOnesAreFree(ctx: Context, s: Store, rows: seq<ImportRow>, now: seq<ExactRule>, i: nat)
    requires |s.exact| <= i < |now| && AreTheFreeOnes(ctx, s, rows, EmailsOf(now[|s.exact|..]))
    ensures Free(ctx, s, now[i].email)
  {
    assert EmailsOf(now[|s.exact|..])[i - |s.exact|] == now[i].email;
  }

  /** The e-mail was not in the list, is assigned to one department only, and no keyword rule covers it. */
  ghost predicate WasFree(lower: Lower, s: Store, classified: seq<ImportRow>, email: string) {
    && (forall m :: 0 <= m < |s.exact| ==> lower(s.exact[m].email) != email)
    && !InConflict(classified, email) && !IsKeywordCovered(lower, s.keywordRules, email)
  }

  lemma FreeTells(lower: Lower, structure: map<string, string>, s: Store, classified: seq<ImportRow>, email: string)
    ensures Free(ContextFor(lower, structure, s, classified), s, email) <==> WasFree(lower, s, classified, email)
  {
    ContextTells(lower, structure, s, classified, email);
    RuleEmailsTell(lower, s.exact, |s.exact|, email);
  }

  lemma ImportedList(lower: Lower, structure: map<string, string>, s: Store, classified: seq<ImportRow>,
                     others: seq<ImportRow>)
    ensures var ctx, rows := ContextFor(lower, structure, s, classified), classified + others;
      Imported(lower, structure, s, classified, others).exact == StepsTo(ctx, s, rows, |rows|).exact
  {
  }

  /** A new exact rule of a whole import: it is told by a row, and its e-mail was free. */
  lemma ImportedRule(lower: Lower, structure: map<string, string>, s: Store, classified: seq<ImportRow>,
                     others: seq<ImportRow>, i: nat) returns (j: nat)
    requires LowerTwice(lower) && |s.exact| <= i < |Imported(lower, structure, s, classified, others).exact|
    ensures var rows, exact := classified + others, Imported(lower, structure, s, classified, others).exact;
      && j < |rows| && RuleTold(ContextFor(lower, structure, s, classified), s, rows, j, exact, i)
      && WasFree(lower, s, classified, exact[i].email)
  {
    var ctx, rows := ContextFor(lower, structure, s, classified), classified + others;
    ImportedList(lower, structure, s, classified, others);
    var exact := StepsTo(ctx, s, rows, |rows|).exact;
    assert ctx.lower == lower;
    j := NewRulesAreTold(ctx, s, rows, |rows|, i);
    NewRulesAreSound(ctx, s, rows);
    NewOnesAreFree(ctx, s, rows, exact, i);
    FreeTells(lower, structure, s, classified, exact[i].email);
  }

  /** ... and every free e-mail of a row that has a code gets one. */
  lemma EveryFreeOneIsImported(lower: Lower, structure: map<string, string>, s: Store, classified: seq<ImportRow>,
                               others: seq<ImportRow>, j: nat) returns (i: nat)
    requires LowerTwice(lower) && j < |classified + others|
    requires var row := (classified + others)[j];
      && Strip(row.code) != "" && lower(Strip(row.email)) != ""
      && WasFree(lower, s, classified, lower(Strip(row.email)))
    ensures var rows, exact := classified + others, Imported(lower, structure, s, classified, others).exact;
      |s.exact| <= i < |exact| && exact[i].email == lower(Strip(rows[j].email))
  {
    var ctx, rows := ContextFor(lower, structure, s, classified), classified + others;
    ImportedList(lower, structure, s, classified, others);
    var exact, e := StepsTo(ctx, s, rows, |rows|).exact, lower(Strip(rows[j].email));
    assert ctx.lower == lower;
    FreeTells(lower, structure, s, classified, e);
    NewRulesAreSound(ctx, s, rows);
    assert Handled(ctx, rows[j]) && EmailOf(ctx, rows[j]) == e;
    i := PlaceOf(exact, |s.exact|, e);
  }

  lemma PlaceOf(exact: seq<ExactRule>, start: nat, e: string) returns (i: nat)
    requires start <= |exact| && e in EmailsOf(exact[start..])
    ensures start <= i < |exact| && exact[i].email == e
  {
    var m :| 0 <= m < |exact[start..]| && EmailsOf(exact[start..])[m] == e;
    i := start + m;
  }

  lemma {:induction false} RuleEmailsTell(lower: Lower, rules: seq<ExactRule>, n: nat, e: string)
    requires n <= |rules|
    ensures e in EmailsTo(lower, rules, n) <==> exists m :: 0 <= m < n && lower(rules[m].email) == e
  {
    if n > 0 { RuleEmailsTell(lower, rules, n - 1, e); }
  }

  /** The names, topic entries and content rules of a whole import. */
  lemma ImportedEntries(lower: Lower, structure: map<string, string>, s: Store, classified: seq<ImportRow>,
                        others: seq<ImportRow>, c: string)
    ensures var ctx, rows := ContextFor(lower, structure, s, classified), classified + others;
      var after := Imported(lower, structure, s, classified, others);
      && EntryTold(ctx, s, rows, |rows|, after.tz, c)
      && exists named: map<string, string> :: NameTold(ctx, s, rows, |rows|, named, c) &&
           if c in named then c in after.names && after.names[c] == named[c]
           else if c in structure && c != "" && structure[c] != "" && exists i :: 0 <= i < |rows| && rows[i].code == c
           then c in after.names && after.names[c] == structure[c]
           else c !in after.names
  {
    var ctx, rows := ContextFor(lower, structure, s, classified), classified + others;
    EntriesAreTold(ctx, s, rows, |rows|, c);
    NamesAreTold(ctx, s, rows, |rows|, c);
    StructureNames(StepsTo(ctx, s, rows, |rows|).names, structure, rows, c);
  }

  lemma ImportedContentRules(lower: Lower, structure: map<string, string>, s: Store, classified: seq<ImportRow>,
                             others: seq<ImportRow>, i: nat)
    requires |s.content| <= i < |Imported(lower, structure, s, classified, others).content|
    ensures var ctx, rows := ContextFor(lower, structure, s, classified), classified + others;
      var after := Imported(lower, structure, s, classified, others);
      ContentRuleTold(ctx, StepsTo(ctx, s, rows, |rows|), classified, after.content, i)
  {
    var ctx, rows := ContextFor(lower, structure, s, classified), classified + others;
    NamesAreKept(ctx, s, rows, |rows|);
    forall c | c in CodesOf(classified) ensures exists m :: 0 <= m < |classified| && classified[m].code == c {
      CodesHaveRows(classified, c);
    }
    NewContentRulesAreTold(ctx, StepsTo(ctx, s, rows, |rows|), classified, CodesOf(classified), |CodesOf(classified)|);
  }
}
