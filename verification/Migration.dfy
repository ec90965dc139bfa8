/** Moving retired department codes to current ones in the mail database
    (scripts/migrate_department_codes.py). */
module Migration {
  import opened Text
  import opened Seqs
  import opened Codes

  // ---------------------------------------------------------------- tables

  /** `raw_payload_json`: the text column, seen through `json.loads`.
      `canonical` tells that the text is exactly what `json.dumps` would write. */
  datatype Payload =
    | Absent
    | Broken(text: string)
    | NonObject(text: string)
    | Object(xml: string, others: string, canonical: bool)

  datatype EmailRow = EmailRow(departmentId: Option<string>, departmentName: Option<string>,
                               payload: Payload, message: string)

  datatype ClassificationEvent = ClassificationEvent(
    oldId: Option<string>, oldName: Option<string>, newId: Option<string>, newName: Option<string>)

  datatype ChangeEvent = ChangeEvent(field: string, oldValue: Option<string>, newValue: Option<string>)

  datatype ErpDepartment = ErpDepartment(source: string, id: string, name: string)

  datatype CodeList = NotJson | NotAList | CodeList(codes: seq<string>)

  datatype Contractor = Contractor(name: string, departments: CodeList)

  datatype Department = Department(code: string, name: string)

  datatype State = State(emails: seq<EmailRow>, classification: seq<ClassificationEvent>,
                         changes: seq<ChangeEvent>, erp: seq<ErpDepartment>,
                         contractors: seq<Contractor>, departments: seq<Department>)

  /** Keys of the script's `stats` counter. */
  datatype Stat =
    | EmailDepartmentId | EmailXmlRebuilt | EmailXmlStringReplace | EmailXmlNeedsUpdate | EmailRawPayload
    | PayloadTextReplace | XmlOrphanNeedsUpdate | XmlOrphanRebuilt | XmlOrphanStringReplace
    | ClassificationOldId | ClassificationNewId
    | ChangeOldValue | ChangeNewValue | ChangeRows
    | ErpRows | ErpDeleted | ErpRenamed
    | ContractorCodes
    | DepartmentDeleted | DepartmentSkipMissing | DepartmentDeletedNoAlias | DepartmentSkipMissingDelete

  /** `rebuild_xml_document_from_row`: any function of the row; "" stands for a falsy result. */
  type Rebuild = EmailRow -> string

  // ---------------------------------------------------------------- what one row becomes

  function OrEmpty(v: Option<string>): string {
    if v.Some? then v.value else ""
  }

  function NameOf(names: map<string, string>, code: string): string {
    if code in names then names[code] else ""
  }

  predicate TextHasRetired(t: AliasTable, p: Payload) {
    match p
    case Absent => false
    case Broken(text) => HasRetired(t, text)
    case NonObject(text) => HasRetired(t, text)
    case Object(xml, others, _) => HasRetired(t, xml) || HasRetired(t, others)
  }

  predicate CodedRetired(t: AliasTable, row: EmailRow) {
    IsRetired(t, Strip(OrEmpty(row.departmentId)))
  }

  function WithCurrentDepartment(t: AliasTable, row: EmailRow, names: map<string, string>): EmailRow {
    var code := Alias(t, Strip(OrEmpty(row.departmentId)));
    row.(departmentId := Some(code), departmentName := Some(NameOf(names, code)))
  }

  /** First pass: rows whose department column is retired. */
  function Coded(t: AliasTable, row: EmailRow, names: map<string, string>, rebuild: Rebuild): EmailRow {
    if !CodedRetired(t, row) then row
    else
      var moved := WithCurrentDepartment(t, row, names);
      match row.payload
      case Absent => moved
      case Broken(text) => moved.(payload := Broken(ReplaceCodes(t, text)))
      case NonObject(text) => moved.(payload := NonObject(ReplaceCodes(t, text)))
      case Object(xml, others, _) =>
        var rebuilt := rebuild(moved);
        var xml' := if !HasRetired(t, xml) then xml else if rebuilt != "" then rebuilt else ReplaceCodes(t, xml);
        moved.(payload := Object(xml', others, true))
  }

  function CodedStats(t: AliasTable, row: EmailRow, names: map<string, string>, rebuild: Rebuild, apply: bool)
    : seq<Stat>
  {
    if !CodedRetired(t, row) then []
    else
      [EmailDepartmentId]
      + XmlStats(t, row, names, rebuild, apply)
      + (if TextChanges(t, row.payload) then [EmailRawPayload] else [])
  }

  function XmlStats(t: AliasTable, row: EmailRow, names: map<string, string>, rebuild: Rebuild, apply: bool)
    : seq<Stat>
  {
    if !row.payload.Object? || !HasRetired(t, row.payload.xml) then []
    else if !apply then [EmailXmlNeedsUpdate]
    else if rebuild(WithCurrentDepartment(t, row, names)) != "" then [EmailXmlRebuilt]
    else [EmailXmlStringReplace]
  }

  predicate TextChanges(t: AliasTable, p: Payload) {
    match p
    case Absent => false
    case Broken(text) => HasRetired(t, text)
    case NonObject(text) => HasRetired(t, text)
    case Object(xml, _, canonical) => HasRetired(t, xml) || !canonical
  }

  /** Second pass: rows that still hold a retired code somewhere in the payload text. */
  function Orphan(t: AliasTable, row: EmailRow, rebuild: Rebuild): EmailRow {
    if !TextHasRetired(t, row.payload) then row
    else
      match row.payload
      case Broken(text) => row.(payload := Broken(ReplaceCodes(t, text)))
      case Object(xml, others, canonical) =>
        if !HasRetired(t, xml) then row.(payload := Object(ReplaceCodes(t, xml), ReplaceCodes(t, others), canonical))
        else
          var rebuilt := rebuild(row);
          var xml' := if rebuilt != "" && !HasRetired(t, rebuilt) then rebuilt else ReplaceCodes(t, xml);
          row.(payload := Object(xml', others, true))
      case _ => row
  }

  function OrphanStats(t: AliasTable, row: EmailRow, rebuild: Rebuild, apply: bool): seq<Stat> {
    if !TextHasRetired(t, row.payload) || row.payload.NonObject? then []
    else if row.payload.Broken? || !HasRetired(t, row.payload.xml) then [PayloadTextReplace]
    else [XmlOrphanNeedsUpdate] + OrphanXmlStats(t, rebuild(row), apply)
  }

  function OrphanXmlStats(t: AliasTable, rebuilt: string, apply: bool): seq<Stat> {
    if !apply then []
    else if rebuilt != "" && !HasRetired(t, rebuilt) then [XmlOrphanRebuilt]
    else [XmlOrphanStringReplace]
  }

  /** `column.in_(OLD_CODES)`: SQL equality, no stripping. */
  predicate ColumnRetired(t: AliasTable, v: Option<string>) {
    v.Some? && IsRetired(t, v.value)
  }

  function MovedOldId(t: AliasTable, e: ClassificationEvent, names: map<string, string>): ClassificationEvent {
    if ColumnRetired(t, e.oldId)
    then e.(oldId := Some(Alias(t, e.oldId.value)), oldName := Some(NameOf(names, Alias(t, e.oldId.value))))
    else e
  }

  function MovedNewId(t: AliasTable, e: ClassificationEvent, names: map<string, string>): ClassificationEvent {
    if ColumnRetired(t, e.newId)
    then e.(newId := Some(Alias(t, e.newId.value)), newName := Some(NameOf(names, Alias(t, e.newId.value))))
    else e
  }

  function MovedValue(t: AliasTable, v: Option<string>): Option<string> {
    if v.Some? && IsRetired(t, Strip(v.value)) then Some(Alias(t, Strip(v.value))) else v
  }

  function MovedChange(t: AliasTable, e: ChangeEvent): ChangeEvent {
    e.(oldValue := MovedValue(t, e.oldValue), newValue := MovedValue(t, e.newValue))
  }

  function ChangeStats(t: AliasTable, e: ChangeEvent): seq<Stat> {
    var o := e.oldValue.Some? && IsRetired(t, Strip(e.oldValue.value));
    var n := e.newValue.Some? && IsRetired(t, Strip(e.newValue.value));
    (if o then [ChangeOldValue] else [])
    + (if n then [ChangeNewValue] else [])
    + (if o || n then [ChangeRows] else [])
  }

  predicate ListsRetired(t: AliasTable, codes: seq<string>) {
    ListsRetiredTo(t, codes, |codes|)
  }

  predicate ListsRetiredTo(t: AliasTable, codes: seq<string>, n: nat)
    requires n <= |codes|
  {
    n > 0 && (ListsRetiredTo(t, codes, n - 1) || IsRetired(t, Strip(codes[n - 1])))
  }

  /** The aliases of the first `n` codes, each kept once. */
  function MovedCodes(t: AliasTable, codes: seq<string>, n: nat): seq<string>
    requires n <= |codes|
  {
    if n == 0 then [] else WithNew(MovedCodes(t, codes, n - 1), Alias(t, Strip(codes[n - 1])))
  }

  function MovedContractor(t: AliasTable, c: Contractor): Contractor {
    if c.departments.CodeList? && ListsRetired(t, c.departments.codes)
    then c.(departments := CodeList(MovedCodes(t, c.departments.codes, |c.departments.codes|)))
    else c
  }

  function ContractorStats(t: AliasTable, c: Contractor): seq<Stat> {
    if c.departments.CodeList? && ListsRetired(t, c.departments.codes) then [ContractorCodes] else []
  }

  // ---------------------------------------------------------------- the department tables

  function ErpIds(rows: seq<ErpDepartment>): set<string> {
    set r | r in rows :: r.id
  }

  /** One retired code: its rows go when the current code is present, otherwise they take it over. */
  function ErpStep(t: AliasTable, rows: seq<ErpDepartment>, code: string, names: map<string, string>)
    : seq<ErpDepartment>
  {
    ErpRewrite(t, rows, code, Alias(t, code) in ErpIds(rows), names)
  }

  function ErpRewrite(t: AliasTable, rows: seq<ErpDepartment>, code: string, newExists: bool,
                      names: map<string, string>): seq<ErpDepartment>
  {
    Collect([], rows, r => ErpRowAfter(t, r, code, newExists, names))
  }

  function ErpRowAfter(t: AliasTable, r: ErpDepartment, code: string, newExists: bool, names: map<string, string>)
    : seq<ErpDepartment>
  {
    if r.id != code then [r]
    else if newExists then []
    else [r.(id := Alias(t, code), name := NameOf(names, Alias(t, code)))]
  }

  /** The codes of `order`, a listing of the frozenset, taken one by one. */
  function ErpMoved(t: AliasTable, rows: seq<ErpDepartment>, order: seq<string>, names: map<string, string>)
    : seq<ErpDepartment>
  {
    if order == [] then rows
    else ErpStep(t, ErpMoved(t, rows, order[..|order| - 1], names), order[|order| - 1], names)
  }

  function ErpRowStats(t: AliasTable, r: ErpDepartment, code: string, newExists: bool, apply: bool): seq<Stat> {
    if r.id != code then []
    else if !apply then [ErpRows]
    else if newExists then [ErpRows, ErpDeleted]
    else [ErpRows, ErpRenamed]
  }

  function ErpStats(t: AliasTable, base: seq<Stat>, rows: seq<ErpDepartment>, order: seq<string>,
                    names: map<string, string>, apply: bool): seq<Stat>
  {
    if order == [] then base
    else
      var front, code := order[..|order| - 1], order[|order| - 1];
      var now := if apply then ErpMoved(t, rows, front, names) else rows;
      var newExists := Alias(t, code) in ErpIds(now);
      Collect(ErpStats(t, base, rows, front, names, apply), now, r => ErpRowStats(t, r, code, newExists, apply))
  }

  predicate HasCode(rows: seq<Department>, code: string) {
    exists i :: 0 <= i < |rows| && rows[i].code == code
  }

  /** Deletes the row `.first()` finds. */
  function WithoutFirst(rows: seq<Department>, code: string): seq<Department> {
    if rows == [] then []
    else if rows[0].code == code then rows[1..]
    else [rows[0]] + WithoutFirst(rows[1..], code)
  }

  function WithoutEach(rows: seq<Department>, codes: seq<string>): seq<Department> {
    if codes == [] then rows
    else WithoutFirst(WithoutEach(rows, codes[..|codes| - 1]), codes[|codes| - 1])
  }

  /** Hits and misses of a run of deletions. */
  function DeleteStats(base: seq<Stat>, rows: seq<Department>, codes: seq<string>, hit: Stat, miss: Stat, apply: bool)
    : seq<Stat>
  {
    if codes == [] then base
    else
      var front := codes[..|codes| - 1];
      var now := if apply then WithoutEach(rows, front) else rows;
      DeleteStats(base, rows, front, hit, miss, apply) + [if HasCode(now, codes[|codes| - 1]) then hit else miss]
  }

  /** `{row.code: row.name for row in rows}`: a later row wins. */
  function DepartmentNames(rows: seq<Department>): map<string, string> {
    if rows == [] then map[]
    else DepartmentNames(rows[..|rows| - 1])[rows[|rows| - 1].code := rows[|rows| - 1].name]
  }

  /** Every current code exists as a department: what `_load_new_names` demands. */
  predicate TargetsExist(t: AliasTable, rows: seq<Department>) {
    forall i :: 0 <= i < |t.current| ==> HasCode(rows, t.current[i])
  }

  /** A listing of the frozenset OLD_CODES: its iteration order is unspecified. */
  ghost predicate IsListingOfRetired(t: AliasTable, order: seq<string>) {
    Distinct(order) && forall c :: c in order <==> IsRetired(t, c)
  }

  // ---------------------------------------------------------------- the whole migration

  /** A message after one apply. */
  function Applied(t: AliasTable, row: EmailRow, names: map<string, string>, rebuild: Rebuild): EmailRow {
    Orphan(t, Coded(t, row, names, rebuild), rebuild)
  }

  function Migrated(t: AliasTable, s: State, rebuild: Rebuild, order: seq<string>, sorted: seq<string>): State {
    MigratedWith(t, s, DepartmentNames(s.departments), rebuild, order, sorted)
  }

  function MigratedWith(t: AliasTable, s: State, names: map<string, string>, rebuild: Rebuild,
                        order: seq<string>, sorted: seq<string>): State
  {
    State(Map(s.emails, row => Applied(t, row, names, rebuild)),
          Map(s.classification, e => MovedNewId(t, MovedOldId(t, e, names), names)),
          Map(s.changes, e => MovedChange(t, e)),
          ErpMoved(t, s.erp, order, names),
          Map(s.contractors, c => MovedContractor(t, c)),
          WithoutEach(WithoutEach(s.departments, sorted), t.closed))
  }
}
