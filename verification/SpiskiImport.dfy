/** Importing routing lists into the rule file and the topics file
    (scripts/import_spiski_routing.py, `merge_import`). */
module SpiskiImport {
  import opened Text
  import opened Seqs
  import opened TopicMerge
  import opened ContentKeywords

  // ---------------------------------------------------------------- the two files

  datatype ExactRule = ExactRule(email: string, code: string, name: string, direction: string,
                                 about: string, organization: string)

  datatype KeywordRule = KeywordRule(keyword: string, code: string, direction: string)

  datatype ContentRule = ContentRule(keywords: seq<string>, code: string, name: string, direction: string,
                                     about: string)

  /** An entry of the topics file; "" stands for a task default that is not set. */
  datatype TzEntry = TzEntry(names: seq<string>, emails: seq<string>, process: string, deadline: string)

  datatype Store = Store(exact: seq<ExactRule>, keywordRules: seq<KeywordRule>, content: seq<ContentRule>,
                         names: map<string, string>, tz: map<string, TzEntry>)

  /** An imported row. `keywords` is what `_split_keywords` makes of its "about" cell. */
  datatype ImportRow = ImportRow(email: string, code: string, name: string, direction: string, about: string,
                                 process: string, deadline: string, keywords: seq<string>)

  /** What stays fixed during one run: the conflicts, the e-mail keywords, the structure names. */
  datatype Context = Context(lower: Lower, conflicts: set<string>, keywords: set<string>,
                             structure: map<string, string>)

  datatype Verdict = New | Duplicate | Conflict | Covered

  datatype Stats = Stats(added: nat, duplicates: nat, conflicts: nat, covered: nat, topicAdded: nat,
                         topicDuplicates: nat)

  const NO_STATS := Stats(0, 0, 0, 0, 0, 0)

  ghost predicate LowerTwice(lower: Lower) {
    forall x :: lower(lower(x)) == lower(x)
  }

  // ---------------------------------------------------------------- lookups

  function EmailsTo(lower: Lower, rules: seq<ExactRule>, n: nat): set<string>
    requires n <= |rules|
  {
    if n == 0 then {} else EmailsTo(lower, rules, n - 1) + {lower(rules[n - 1].email)}
  }

  /** `existing_exact_emails`: the keys of the e-mail index. */
  function RuleEmails(lower: Lower, rules: seq<ExactRule>): set<string> {
    EmailsTo(lower, rules, |rules|)
  }

  function TzEntryOf(tz: map<string, TzEntry>, code: string): TzEntry {
    if code in tz then tz[code] else TzEntry([], [], "", "")
  }

  function TzEmails(lower: Lower, e: TzEntry): set<string> {
    Lowers(lower, e.emails)
  }

  /** `email.split("@", 1)[0]`. */
  function LocalPart(email: string): string {
    if email == "" || email[0] == '@' then "" else [email[0]] + LocalPart(email[1..])
  }

  /** `email_covered_by_keyword`. */
  predicate IsCovered(email: string, keywords: set<string>) {
    exists kw :: kw in keywords && Contains(LocalPart(email), kw)
  }

  function OrElse(a: string, b: string): string {
    if a != "" then a else b
  }

  function NameIn(names: map<string, string>, code: string): string {
    if code in names then names[code] else ""
  }

  /** `dept_name_for_code`: the first source that says something other than the code. */
  function DeptName(code: string, names: map<string, string>, row: ImportRow, structure: map<string, string>): string {
    var a, b, c := Strip(row.name), Strip(NameIn(names, code)), NameIn(structure, code);
    if a != "" && a != code then a
    else if b != "" && b != code then b
    else if c != "" && c != code then c
    else code
  }

  function DirectionOf(entries: seq<(string, string)>, code: string): string {
    if entries == [] then ""
    else if entries[0].0 == code && entries[0].1 != "" then entries[0].1
    else DirectionOf(entries[1..], code)
  }

  /** `direction_for_code`. */
  function DirectionFor(exact: seq<ExactRule>, keywordRules: seq<KeywordRule>, content: seq<ContentRule>,
                        row: ImportRow, code: string): string
  {
    var listed := DirectionOf(
      Map(exact, (r: ExactRule) => (r.code, r.direction))
      + Map(keywordRules, (r: KeywordRule) => (r.code, r.direction))
      + Map(content, (r: ContentRule) => (r.code, r.direction)), code);
    OrElse(Strip(row.direction), OrElse(listed, "ПР"))
  }

  // ---------------------------------------------------------------- one row

  function EmailOf(ctx: Context, row: ImportRow): string {
    ctx.lower(Strip(row.email))
  }

  predicate Handled(ctx: Context, row: ImportRow) {
    EmailOf(ctx, row) != "" && Strip(row.code) != ""
  }

  /** What becomes of the row's e-mail. */
  function VerdictOn(ctx: Context, rules: seq<ExactRule>, email: string): Verdict {
    if email in RuleEmails(ctx.lower, rules) then Duplicate
    else if email in ctx.conflicts then Conflict
    else if IsCovered(email, ctx.keywords) then Covered
    else New
  }

  function Prefix(s: string, n: nat): string {
    if |s| <= n then s else s[..n]
  }

  function RuleFor(ctx: Context, row: ImportRow, name: string, direction: string): ExactRule {
    var about, org := Prefix(row.about, 120), Strip(row.direction);
    ExactRule(EmailOf(ctx, row), Strip(row.code), name, direction,
              if about == "" && name != "" then Prefix(name, 120) else about,
              if org in ["АЛ", "МГ", "АМ", "МИ", "БМ"] then org else "")
  }

  function WithRule(ctx: Context, s: Store, row: ImportRow, name: string): seq<ExactRule> {
    if VerdictOn(ctx, s.exact, EmailOf(ctx, row)) == New
    then s.exact + [RuleFor(ctx, row, name, DirectionFor(s.exact, s.keywordRules, s.content, row, Strip(row.code)))]
    else s.exact
  }

  function EntryAfter(ctx: Context, e: TzEntry, row: ImportRow, name: string): TzEntry {
    TzEntry(if name != "" && name !in e.names && e.names == [] then [name] else e.names,
            if EmailOf(ctx, row) in TzEmails(ctx.lower, e) then e.emails else e.emails + [EmailOf(ctx, row)],
            OrElse(e.process, Strip(row.process)), OrElse(e.deadline, Strip(row.deadline)))
  }

  function NamesAfter(names: map<string, string>, code: string, name: string): map<string, string> {
    if code !in names && name != code then names[code := name] else names
  }

  function Step(ctx: Context, s: Store, row: ImportRow): Store {
    if !Handled(ctx, row) then s
    else
      var code := Strip(row.code);
      var name := DeptName(code, s.names, row, ctx.structure);
      s.(names := NamesAfter(s.names, code, name),
         tz := s.tz[code := EntryAfter(ctx, TzEntryOf(s.tz, code), row, name)],
         exact := WithRule(ctx, s, row, name))
  }

  function CountVerdict(stats: Stats, v: Verdict): Stats {
    match v
    case New => stats.(added := stats.added + 1)
    case Duplicate => stats.(duplicates := stats.duplicates + 1)
    case Conflict => stats.(conflicts := stats.conflicts + 1)
    case Covered => stats.(covered := stats.covered + 1)
  }

  function CountTopic(stats: Stats, known: bool): Stats {
    if known then stats.(topicDuplicates := stats.topicDuplicates + 1)
    else stats.(topicAdded := stats.topicAdded + 1)
  }

  function Counted(ctx: Context, s: Store, stats: Stats, row: ImportRow): Stats {
    if !Handled(ctx, row) then stats
    else
      var known := EmailOf(ctx, row) in TzEmails(ctx.lower, TzEntryOf(s.tz, Strip(row.code)));
      CountVerdict(CountTopic(stats, known), VerdictOn(ctx, s.exact, EmailOf(ctx, row)))
  }

  function StepsTo(ctx: Context, s: Store, rows: seq<ImportRow>, n: nat): Store
    requires n <= |rows|
  {
    if n == 0 then s else Step(ctx, StepsTo(ctx, s, rows, n - 1), rows[n - 1])
  }

  function CountedTo(ctx: Context, s: Store, rows: seq<ImportRow>, n: nat): Stats
    requires n <= |rows|
  {
    if n == 0 then NO_STATS
    else Counted(ctx, StepsTo(ctx, s, rows, n - 1), CountedTo(ctx, s, rows, n - 1), rows[n - 1])
  }

  // ---------------------------------------------------------------- content keywords

  function CandidatesOf(rows: seq<ImportRow>, code: string): seq<string> {
    Collect([], rows, (r: ImportRow) => if r.code == code then r.keywords else [])
  }

  function KeywordsTo(lower: Lower, rules: seq<ContentRule>, code: string, n: nat): set<string>
    requires n <= |rules|
  {
    if n == 0 then {}
    else KeywordsTo(lower, rules, code, n - 1)
         + (if rules[n - 1].code == code then Lowers(lower, rules[n - 1].keywords) else {})
  }

  /** `content_keywords_by_code`. */
  function ExistingOf(lower: Lower, rules: seq<ContentRule>, code: string): set<string> {
    KeywordsTo(lower, rules, code, |rules|)
  }

  /** Index of the first rule of `code` at or after `i`; the length when there is none. */
  function FirstRule(rules: seq<ContentRule>, code: string, i: nat): (r: nat)
    requires i <= |rules|
    ensures i <= r <= |rules|
    ensures r < |rules| ==> rules[r].code == code
    ensures forall j :: i <= j < r ==> rules[j].code != code
    decreases |rules| - i
  {
    if i == |rules| || rules[i].code == code then i else FirstRule(rules, code, i + 1)
  }

  function RowOf(rows: seq<ImportRow>, code: string): ImportRow {
    if rows == [] then ImportRow("", "", "", "", "", "", "", [])
    else if rows[0].code == code then rows[0]
    else RowOf(rows[1..], code)
  }

  function WithKeywords(ctx: Context, s: Store, rows: seq<ImportRow>, code: string, picked: seq<string>)
    : seq<ContentRule>
  {
    var i, row := FirstRule(s.content, code, 0), RowOf(rows, code);
    if picked == [] then s.content
    else if i < |s.content| then s.content[i := s.content[i].(keywords := s.content[i].keywords + picked)]
    else s.content + [ContentRule(picked, code, DeptName(code, s.names, row, ctx.structure),
                                  DirectionFor(s.exact, s.keywordRules, s.content, row, code),
                                  Prefix(row.about, 80))]
  }

  function CodesOf(rows: seq<ImportRow>): seq<string> {
    FirstOccurrences(Map(rows, (r: ImportRow) => r.code))
  }

  /** Keywords for the first `n` codes; what is present is read before the first rule changes. */
  function ContentTo(ctx: Context, s: Store, rows: seq<ImportRow>, codes: seq<string>, n: nat): seq<ContentRule>
    requires n <= |codes|
  {
    if n == 0 then s.content
    else
      var code := codes[n - 1];
      WithKeywords(ctx, s.(content := ContentTo(ctx, s, rows, codes, n - 1)), rows, code,
                   Picked(CandidatesOf(rows, code), ExistingOf(ctx.lower, s.content, code)))
  }

  // ---------------------------------------------------------------- one run

  /** Structure names for the codes the rows mention. */
  function NamesFromStructure(names: map<string, string>, structure: map<string, string>, rows: seq<ImportRow>)
    : map<string, string>
  {
    names + map c | c in structure && c != "" && c !in names && structure[c] != "" && Mentioned(rows, c) :: structure[c]
  }

  predicate Mentioned(rows: seq<ImportRow>, code: string) {
    exists i :: 0 <= i < |rows| && rows[i].code == code
  }

  /** E-mails the classification sheet assigns to more than one department. */
  function ConflictsOf(classified: seq<ImportRow>): set<string> {
    set r | r in classified && r.email != "" && HasOtherCode(classified, r) :: r.email
  }

  predicate HasOtherCode(classified: seq<ImportRow>, r: ImportRow) {
    exists q :: q in classified && q.email == r.email && q.code != r.code
  }

  function ContextFor(lower: Lower, structure: map<string, string>, s: Store, classified: seq<ImportRow>): Context {
    Context(lower, ConflictsOf(classified), set r | r in s.keywordRules :: lower(r.keyword), structure)
  }

  /** The whole run on the two files. */
  function Imported(lower: Lower, structure: map<string, string>, s: Store, classified: seq<ImportRow>,
                    others: seq<ImportRow>): Store
  {
    var ctx, rows := ContextFor(lower, structure, s, classified), classified + others;
    var merged, codes := StepsTo(ctx, s, rows, |rows|), CodesOf(classified);
    merged.(content := ContentTo(ctx, merged, classified, codes, |codes|),
            names := NamesFromStructure(merged.names, structure, rows))
  }
}
