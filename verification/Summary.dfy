/** The e-mail classification summary: five sources folded into one table keyed by (e-mail, code),
    then partitioned (scripts/export_email_classification_summary.py). */
module Summary {
  import opened Text
  import opened Seqs

  const HOME_ORG := "НП"

  const ORG_ORDER: seq<string> := ["НП", "АЛ", "МГ", "АМ", "МИ", "БМ"]

  /** Tables and helpers that stay fixed during one build. `upper`, `emailOrg` and `deptName` stand for
      `str.upper`, `_resolve_org_from_email` and the part of `_resolve_dept_name` that reads the reference
      tables. `detect` and `detectByStructure` are the two calls of `detect_organization`: that of an
      upsert, which may fall back on the active rows, and that of the override, which may not. */
  datatype Env = Env(lower: string -> string, upper: string -> string, labels: map<string, string>,
                     directions: map<string, string>, activeDirection: string -> string,
                     emailOrg: string -> string, detect: (string, string, string) -> string,
                     detectByStructure: (string, string) -> string,
                     deptName: string -> string)

  type Key = (string, string)

  datatype Entry = Entry(orgCode: string, orgName: string, direction: string, name: string,
                         note: string, sources: seq<string>)

  /** The calls a build makes, in order: `upsert(...)`, and the structure override after a topics row. */
  datatype Call =
    | Upsert(email: string, code: string, name: string, direction: string, org: string, source: string, note: string)
    | Override(key: Key, setOrg: string)

  function ResolveDirection(env: Env, code: string, explicit: string): string {
    if Strip(explicit) != "" then Strip(explicit)
    else if code in env.directions then env.directions[code]
    else Strip(env.activeDirection(code))
  }

  function ResolveOrg(env: Env, email: string, code: string, explicit: string, direction: string): string {
    var org := env.upper(Strip(explicit));
    if org in env.labels then org
    else if env.emailOrg(email) != "" then env.emailOrg(email)
    else if direction in env.labels then direction
    else env.detect(email, code, direction)
  }

  function ResolveName(env: Env, code: string, explicit: string): string {
    if Strip(explicit) != "" && Strip(explicit) != code then Strip(explicit) else env.deptName(code)
  }

  function Label(env: Env, org: string): string {
    if org in env.labels then env.labels[org] else org
  }

  function JoinNote(before: string, note: string): string {
    if note == "" || Contains(before, note) then before
    else if before == "" then note
    else before + "; " + note
  }

  function KeyOf(env: Env, c: Call): Key {
    match c
    case Upsert(email, code, _, _, _, _, _) => (Strip(env.lower(email)), Strip(code))
    case Override(key, _) => key
  }

  predicate Counts(env: Env, c: Call) {
    c.Override? || (KeyOf(env, c).0 != "" && KeyOf(env, c).1 != "")
  }

  function DirectionIn(env: Env, c: Call): string
    requires c.Upsert?
  {
    ResolveDirection(env, Strip(c.code), c.direction)
  }

  function OrgIn(env: Env, c: Call): string
    requires c.Upsert?
  {
    ResolveOrg(env, Strip(env.lower(c.email)), Strip(c.code), c.org, DirectionIn(env, c))
  }

  function Updated(env: Env, e: Entry, c: Call): Entry
    requires c.Upsert?
  {
    var org := if e.orgCode == HOME_ORG && OrgIn(env, c) != HOME_ORG then OrgIn(env, c) else e.orgCode;
    Entry(org, if org == e.orgCode then e.orgName else Label(env, org),
          if e.direction == "" then DirectionIn(env, c) else e.direction, e.name,
          JoinNote(e.note, c.note), WithNew(e.sources, c.source))
  }

  function Created(env: Env, c: Call): Entry
    requires c.Upsert?
  {
    Entry(OrgIn(env, c), Label(env, OrgIn(env, c)), DirectionIn(env, c), ResolveName(env, Strip(c.code), c.name),
          c.note, [c.source])
  }

  function Called(env: Env, m: map<Key, Entry>, c: Call): map<Key, Entry> {
    var key := KeyOf(env, c);
    if !Counts(env, c) then m
    else
      match c
      case Upsert(_, _, _, _, _, _, _) => m[key := if key in m then Updated(env, m[key], c) else Created(env, c)]
      case Override(_, org) => if key in m then m[key := m[key].(orgCode := org, orgName := Label(env, org))] else m
  }

  function CalledTo(env: Env, calls: seq<Call>, n: nat): map<Key, Entry>
    requires n <= |calls|
  {
    if n == 0 then map[] else Called(env, CalledTo(env, calls, n - 1), calls[n - 1])
  }

  // ---------------------------------------------------------------- the five sources

  datatype SourceRow = SourceRow(email: string, code: string, name: string, direction: string, org: string,
                                 sheet: string)

  datatype Rule = Rule(pattern: string, code: string, name: string, direction: string, about: string)

  datatype TopicRow = TopicRow(code: string, name: string, emails: seq<string>, note: string)

  datatype ActiveRow = ActiveRow(code: string, emails: seq<string>, name: string, direction: string, org: string)

  /** `validCode` is the check against `00-` and six digits; `topics` come sorted by code. */
  datatype Sources = Sources(validCode: string -> bool, rows: seq<SourceRow>, exact: seq<Rule>, keywords: seq<Rule>,
                             topics: seq<TopicRow>, active: seq<ActiveRow>)

  /** `_resolve_org_from_direction`: a direction that is an organisation, otherwise the home one. */
  function OrgOfDirection(env: Env, direction: string): string {
    if Strip(direction) in env.labels then Strip(direction) else HOME_ORG
  }

  function RowCalls(src: Sources, r: SourceRow): seq<Call> {
    if src.validCode(Strip(r.code))
    then [Upsert(r.email, Strip(r.code), r.name, r.direction, r.org, "classification_xlsx", "лист: " + r.sheet)]
    else []
  }

  function ExactCalls(env: Env, r: Rule): seq<Call> {
    if Strip(r.pattern) == "" || Strip(r.code) == "" then []
    else [Upsert(Strip(r.pattern), Strip(r.code), r.name, Strip(r.direction), OrgOfDirection(env, r.direction),
                 "exact_email_rule", r.about)]
  }

  function KeywordCalls(env: Env, r: Rule): seq<Call> {
    if Strip(r.pattern) == "" || Strip(r.code) == "" then []
    else [Upsert("*" + Strip(r.pattern) + "*@turbo-don.ru", Strip(r.code), r.name, Strip(r.direction),
                 OrgOfDirection(env, r.direction), "email_keyword_rule",
                 "ключевое слово «" + Strip(r.pattern) + "» в локальной части")]
  }

  function TopicCalls(env: Env, r: TopicRow): seq<Call> {
    Collect([], r.emails, FromTopicEmails(env, r))
  }

  function TopicEmailCalls(env: Env, r: TopicRow, email: string): seq<Call> {
    var e := Strip(email);
    if e == "" then []
    else [Upsert(e, r.code, r.name, if r.code in env.directions then env.directions[r.code] else "", "", "tz_topics",
                 r.note),
          Override((env.lower(e), r.code), env.detectByStructure(e, r.code))]
  }

  function ActiveCalls(r: ActiveRow): seq<Call> {
    Collect([], r.emails, FromActiveEmails(r))
  }

  // The sources as functions from a row to its calls.

  function FromRows(src: Sources): SourceRow -> seq<Call> {
    r => RowCalls(src, r)
  }

  function FromExact(env: Env): Rule -> seq<Call> {
    r => ExactCalls(env, r)
  }

  function FromKeywords(env: Env): Rule -> seq<Call> {
    r => KeywordCalls(env, r)
  }

  function FromTopics(env: Env): TopicRow -> seq<Call> {
    r => TopicCalls(env, r)
  }

  function FromTopicEmails(env: Env, r: TopicRow): string -> seq<Call> {
    email => TopicEmailCalls(env, r, email)
  }

  function FromActiveEmails(r: ActiveRow): string -> seq<Call> {
    email => [Upsert(email, r.code, r.name, r.direction, r.org, "export_rows", "")]
  }

  function AllCalls(env: Env, src: Sources): seq<Call> {
    Collect(Collect(Collect(Collect(Collect([], src.rows, FromRows(src)), src.exact, FromExact(env)),
                            src.keywords, FromKeywords(env)),
                    src.topics, FromTopics(env)),
            src.active, ActiveCalls)
  }

  class SummaryTable {
    var merged: map<Key, Entry>
    ghost var made: seq<Call>

    /** The table is what the calls made so far amount to. */
    ghost predicate Valid(env: Env)
      reads this
    {
      merged == CalledTo(env, made, |made|)
    }

    constructor (env: Env)
      ensures Valid(env) && made == []
    {
      merged, made := map[], [];
    }

    /** `upsert`. */
    method UpsertRow(env: Env, c: Call)
      requires c.Upsert? && Valid(env)
      modifies this
      ensures Valid(env) && made == old(made) + [c]
    {
      CallsSnoc(env, made, c);
      made := made + [c];
      var email, code := Strip(env.lower(c.email)), Strip(c.code);
      if email == "" || code == "" { return; }
      var direction := ResolveDirection(env, code, c.direction);
      var org := ResolveOrg(env, email, code, c.org, direction);
      var key := (email, code);
      if key in merged {
        var e := merged[key];
        if e.direction == "" && direction != "" { e := e.(direction := direction); }
        if e.orgCode == HOME_ORG && org != HOME_ORG { e := e.(orgCode := org, orgName := Label(env, org)); }
        if c.note != "" && !Contains(e.note, c.note) {
          e := e.(note := if e.note == "" then c.note else e.note + "; " + c.note);
        }
        if c.source !in e.sources { e := e.(sources := e.sources + [c.source]); }
        merged := merged[key := e];
      } else {
        merged := merged[key := Entry(org, Label(env, org), direction, ResolveName(env, code, c.name), c.note,
                                      [c.source])];
      }
    }

    /** The organisation as the structure of the topics row has it. */
    method OverrideOrg(env: Env, key: Key, org: string)
      requires Valid(env)
      modifies this
      ensures Valid(env) && made == old(made) + [Override(key, org)]
    {
      CallsSnoc(env, made, Override(key, org));
      made := made + [Override(key, org)];
      if key in merged { merged := merged[key := merged[key].(orgCode := org, orgName := Label(env, org))]; }
    }
  }

  /** Makes the calls of one row. */
  method MakeCalls(env: Env, table: SummaryTable, calls: seq<Call>)
    requires table.Valid(env)
    modifies table
    ensures table.Valid(env) && table.made == old(table.made) + calls
  {
    for i := 0 to |calls|
      invariant table.Valid(env) && table.made == old(table.made) + calls[..i]
    {
      assert calls[..i + 1] == calls[..i] + [calls[i]];
      match calls[i] {
        case Upsert(_, _, _, _, _, _, _) => table.UpsertRow(env, calls[i]);
        case Override(key, org) => table.OverrideOrg(env, key, org);
      }
    }
    assert calls[..|calls|] == calls;
  }

  /** One source: the calls of each of its rows, in order. */
  method AddSource<R>(env: Env, table: SummaryTable, rows: seq<R>, calls: R -> seq<Call>)
    requires table.Valid(env)
    modifies table
    ensures table.Valid(env) && table.made == Collect(old(table.made), rows, calls)
  {
    for i := 0 to |rows|
      invariant table.Valid(env) && table.made == CollectFrom(old(table.made), rows, calls, i)
    {
      MakeCalls(env, table, calls(rows[i]));
    }
  }

  /** `build_summary_rows` up to the final sort: the five sources in order of precedence. */
  method BuildSummary(env: Env, src: Sources) returns (table: SummaryTable)
    ensures fresh(table) && table.Valid(env) && table.made == AllCalls(env, src)
  {
    table := new SummaryTable(env);
    AddSource(env, table, src.rows, FromRows(src));
    AddSource(env, table, src.exact, FromExact(env));
    AddSource(env, table, src.keywords, FromKeywords(env));
    AddSource(env, table, src.topics, FromTopics(env));
    AddSource(env, table, src.active, ActiveCalls);
  }

  lemma {:induction false} CallsPrefix(env: Env, a: seq<Call>, b: seq<Call>, n: nat)
    requires n <= |a|
    ensures CalledTo(env, a + b, n) == CalledTo(env, a, n)
  {
    if n > 0 { CallsPrefix(env, a, b, n - 1); }
  }

  lemma CallsSnoc(env: Env, calls: seq<Call>, c: Call)
    ensures CalledTo(env, calls + [c], |calls| + 1) == Called(env, CalledTo(env, calls, |calls|), c)
  {
    CallsPrefix(env, calls, [c], |calls|);
  }
}
