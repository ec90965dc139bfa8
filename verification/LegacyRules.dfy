/** Retired codes in the routing-rule file (scripts/cleanup_legacy_departments.py, `patch_routing_rules`). */
module LegacyRules {
  import opened Seqs
  import opened Dedup

  datatype Target = Target(code: string, name: string)

  /** MIGRATE with its dictionary order, REMOVE_FROM_DEPARTMENT_NAMES, KEYWORD_REDIRECT_BEFORE_DELETE. */
  datatype Cleanup = Cleanup(order: seq<string>, migrate: map<string, Target>, remove: set<string>,
                             redirect: map<string, Target>)

  /** A row of a rule list. `Some("")` stands for a key that is present with a falsy value. */
  datatype Row =
    | Scalar(text: string)
    | Rule(code: Option<string>, departmentId: Option<string>, name: Option<string>,
           departmentName: Option<string>, rest: string)

  predicate Gone(k: Cleanup, code: string) {
    code in k.migrate || code in k.remove || code in k.redirect
  }

  /** Replacement codes are themselves in use: no target is migrated, removed or redirected. */
  ghost predicate Sound(k: Cleanup) {
    && (forall c :: c in k.order <==> c in k.migrate)
    && (forall c :: c in k.migrate ==> k.migrate[c].code != "" && !Gone(k, k.migrate[c].code))
    && (forall c :: c in k.redirect ==> k.redirect[c].code != "" && !Gone(k, k.redirect[c].code))
    && (forall c :: c in k.migrate || c in k.redirect ==> c in k.remove)
    && "" !in k.remove
  }

  /** The tables as the script lists them: `migrated[i]` goes to `targets[i]`. */
  function FromLists(migrated: seq<string>, targets: seq<Target>, closed: seq<string>, redirected: string,
                     redirectTo: Target): Cleanup
    requires |migrated| == |targets|
  {
    Cleanup(migrated, map c | c in migrated :: TargetOf(migrated, targets, c, |migrated|),
            set c | c in migrated + closed + [redirected], map[redirected := redirectTo])
  }

  function TargetOf(migrated: seq<string>, targets: seq<Target>, code: string, n: nat): Target
    requires n <= |migrated| == |targets|
  {
    if n == 0 then Target("", "")
    else if migrated[n - 1] == code then targets[n - 1]
    else TargetOf(migrated, targets, code, n - 1)
  }

  lemma {:induction false} TargetOfListed(migrated: seq<string>, targets: seq<Target>, code: string, n: nat)
    returns (i: nat)
    requires n <= |migrated| == |targets| && code in migrated[..n]
    ensures i < n && TargetOf(migrated, targets, code, n) == targets[i]
  {
    if migrated[n - 1] == code { i := n - 1; } else { i := TargetOfListed(migrated, targets, code, n - 1); }
  }

  ghost predicate InUse(removed: seq<string>, c: string) {
    c != "" && c !in removed
  }

  lemma FromListsIsSound(migrated: seq<string>, targets: seq<Target>, closed: seq<string>, redirected: string,
                         redirectTo: Target)
    requires |migrated| == |targets| && "" !in migrated + closed + [redirected]
    requires forall i :: 0 <= i < |targets| ==> InUse(migrated + closed + [redirected], targets[i].code)
    requires InUse(migrated + closed + [redirected], redirectTo.code)
    ensures Sound(FromLists(migrated, targets, closed, redirected, redirectTo))
  {
    var k := FromLists(migrated, targets, closed, redirected, redirectTo);
    forall c | c in k.migrate ensures InUse(migrated + closed + [redirected], k.migrate[c].code) {
      var i := TargetOfListed(migrated, targets, c, |migrated|);
    }
  }

  const MIGRATED: seq<string> := [
    "00-000037", "00-000109", "00-000122", "00-000139", "00-000140",
    "00-000141", "00-000105", "00-000075", "00-000034", "00-000131"]

  const TARGETS: seq<Target> := [
    Target("00-000163", "ТЕХНИЧЕСКИЙ ДИРЕКТОР"),
    Target("00-000163", "ТЕХНИЧЕСКИЙ ДИРЕКТОР"),
    Target("00-000163", "ТЕХНИЧЕСКИЙ ДИРЕКТОР"),
    Target("00-000042", "Отдел по работе с ключевыми клиентами"),
    Target("00-000042", "Отдел по работе с ключевыми клиентами"),
    Target("00-000042", "Отдел по работе с ключевыми клиентами"),
    Target("00-000155", "Отдел дилерских продаж"),
    Target("00-000155", "Отдел дилерских продаж"),
    Target("00-000152", "ОПЕРАЦИОННЫЙ ДИРЕКТОР"),
    Target("00-000128", "Отдел продаж БМИ")]

  const REDIRECT_TO := Target("00-000063", "Служба управления персоналом")

  const SCRIPT_CLEANUP :=
    FromLists(MIGRATED, TARGETS, ["00-000045", "00-000081"], "00-000016", REDIRECT_TO)

  lemma ScriptTargetInUse(c: string)
    requires REDIRECT_TO.code == c || exists i :: 0 <= i < |TARGETS| && TARGETS[i].code == c
    ensures InUse(MIGRATED + ["00-000045", "00-000081"] + ["00-000016"], c)
  {
    var removed := MIGRATED + ["00-000045", "00-000081"] + ["00-000016"];
    forall j | 0 <= j < |removed| ensures removed[j] != c {
      assert removed[j][6..] != c[6..];
    }
  }

  lemma ScriptCleanupIsSound()
    ensures Sound(SCRIPT_CLEANUP)
  {
    var removed := MIGRATED + ["00-000045", "00-000081"] + ["00-000016"];
    forall i | 0 <= i < |TARGETS| ensures InUse(removed, TARGETS[i].code) {
      ScriptTargetInUse(TARGETS[i].code);
    }
    ScriptTargetInUse(REDIRECT_TO.code);
    FromListsIsSound(MIGRATED, TARGETS, ["00-000045", "00-000081"], "00-000016", REDIRECT_TO);
  }

  function Truthy(v: Option<string>): string {
    if v.Some? then v.value else ""
  }

  /** `row.get("code") or row.get("department_id")`. */
  function Effective(row: Row): string
    requires row.Rule?
  {
    if Truthy(row.code) != "" then Truthy(row.code) else Truthy(row.departmentId)
  }

  function SetIfPresent(v: Option<string>, x: string): Option<string> {
    if v.Some? then Some(x) else None
  }

  /** `_migrate_row`. */
  function MigrateRow(k: Cleanup, row: Row): Row
    requires row.Rule?
  {
    if Effective(row) !in k.migrate then row
    else
      var to := k.migrate[Effective(row)];
      var coded := row.(code := SetIfPresent(row.code, to.code),
                        departmentId := SetIfPresent(row.departmentId, to.code));
      if to.name == "" then coded
      else coded.(name := SetIfPresent(row.name, to.name), departmentName := SetIfPresent(row.departmentName, to.name))
  }

  predicate Dropped(k: Cleanup, row: Row) {
    row.Rule? && Truthy(row.code) !in k.redirect && Truthy(row.code) in k.remove && Truthy(row.code) !in k.migrate
  }

  /** What one row of a list turns into: nothing, or one row. */
  function PatchRow(k: Cleanup, row: Row): seq<Row> {
    if row.Scalar? then [row]
    else if Truthy(row.code) in k.redirect then
      var to := k.redirect[Truthy(row.code)];
      [row.(code := Some(to.code), name := Some(to.name))]
    else if Dropped(k, row) then []
    else [MigrateRow(k, row)]
  }

  function Patching(k: Cleanup): Row -> seq<Row> {
    row => PatchRow(k, row)
  }

  function PatchedRows(k: Cleanup, rows: seq<Row>): seq<Row> {
    Collect([], rows, Patching(k))
  }

  function PatchList(k: Cleanup, rows: seq<Row>, key: Row -> string): seq<Row> {
    var patched := PatchedRows(k, rows);
    DedupeTo(patched, key, |patched|)
  }

  /** Defaults for the first `n` migration targets. */
  function WithDefaults(k: Cleanup, names: map<string, string>, n: nat): map<string, string>
    requires n <= |k.order|
  {
    if n == 0 || k.order[n - 1] !in k.migrate then names
    else
      var to, before := k.migrate[k.order[n - 1]], WithDefaults(k, names, n - 1);
      if to.code in before then before else before[to.code := to.name]
  }

  /** `_migrate_row` on a correction; other entries stay. */
  function Correcting(k: Cleanup): Row -> Row {
    (row: Row) => if row.Rule? then MigrateRow(k, row) else row
  }

  function PatchNames(k: Cleanup, names: map<string, string>): map<string, string> {
    WithDefaults(k, names - (k.redirect.Keys + k.remove), |k.order|)
  }

  /** The parts of the file that the patch looks at. */
  datatype Rules = Rules(names: map<string, string>, keywordRules: seq<Row>, exactRules: seq<Row>,
                         contentRules: seq<Row>, corrections: seq<Row>)

  function Patched(k: Cleanup, key: Row -> string, f: Rules): Rules {
    Rules(PatchNames(k, f.names), PatchList(k, f.keywordRules, key), PatchList(k, f.exactRules, key),
          PatchList(k, f.contentRules, key), Map(f.corrections, Correcting(k)))
  }

  // ---------------------------------------------------------------- what the patch guarantees

  lemma PatchedRowIsClean(k: Cleanup, row: Row)
    requires Sound(k)
    ensures forall r :: r in PatchRow(k, row) ==> PatchRow(k, r) == [r] && (r.Rule? ==> !Gone(k, Truthy(r.code)))
    ensures PatchRow(k, row) == [] <==> Dropped(k, row)
    ensures |PatchRow(k, row)| <= 1
  {
  }

  lemma {:induction false} CollectIdentity<T>(s: seq<T>, f: T -> seq<T>, n: nat)
    requires n <= |s| && forall y :: y in s ==> f(y) == [y]
    ensures CollectFrom([], s, f, n) == s[..n]
  {
    if n > 0 { CollectIdentity(s, f, n - 1); }
  }

  lemma PatchedRowsAreClean(k: Cleanup, rows: seq<Row>)
    requires Sound(k)
    ensures forall r :: r in PatchedRows(k, rows) ==> PatchRow(k, r) == [r] && (r.Rule? ==> !Gone(k, Truthy(r.code)))
  {
    CollectMembers(rows, Patching(k), |rows|);
    forall r | r in PatchedRows(k, rows) ensures PatchRow(k, r) == [r] && (r.Rule? ==> !Gone(k, Truthy(r.code))) {
      var i :| 0 <= i < |rows| && r in PatchRow(k, rows[i]);
      PatchedRowIsClean(k, rows[i]);
    }
  }

  /** After the patch no row of a list carries a retired code, keys are pairwise distinct, and a second
      patch changes nothing. */
  lemma PatchListGuarantees(k: Cleanup, rows: seq<Row>, key: Row -> string)
    requires Sound(k)
    ensures var after := PatchList(k, rows, key);
      && (forall r :: r in after && r.Rule? ==> !Gone(k, Truthy(r.code)))
      && DistinctKeys(after, key)
      && PatchList(k, after, key) == after
  {
    var patched, after := PatchedRows(k, rows), PatchList(k, rows, key);
    PatchedRowsAreClean(k, rows);
    DedupeMembers(patched, key, |patched|);
    DedupeIsDistinct(patched, key, |patched|);
    CollectIdentity(after, Patching(k), |after|);
    DedupeOfDistinct(after, key, |after|);
    assert after[..|after|] == after;
  }

  /** The row `r` is kept, has the key of what row `i` turns into, and comes from row `i` or an earlier one. */
  ghost predicate KeptFor(k: Cleanup, rows: seq<Row>, key: Row -> string, i: nat, h: nat, r: Row)
    requires i < |rows| && PatchRow(k, rows[i]) != []
  {
    && h <= i && r in PatchRow(k, rows[h]) && r in PatchList(k, rows, key)
    && key(r) == key(PatchRow(k, rows[i])[0])
  }

  /** A row is lost only if its code has no successor, or a row that is kept repeats it: one that comes
      from the same or an earlier place and has, once rewritten, the same key. */
  lemma PatchListKeeps(k: Cleanup, rows: seq<Row>, key: Row -> string, i: nat)
    requires Sound(k) && i < |rows|
    ensures if Dropped(k, rows[i]) then PatchRow(k, rows[i]) == []
            else |PatchRow(k, rows[i])| == 1
                 && exists h, r :: KeptFor(k, rows, key, i, h, r)
  {
    PatchedRowIsClean(k, rows[i]);
    if !Dropped(k, rows[i]) {
      var h, r := CollectedKeptBefore(rows, Patching(k), key, i);
      assert KeptFor(k, rows, key, i, h, r);
    }
  }

  /** `department_id` is not cleaned as thoroughly as `code`: it stays retired exactly when the code
      that decides the rewrite is redirected, or is not one that migrates. */
  lemma DepartmentIdStaysExactly(k: Cleanup, row: Row)
    requires Sound(k) && row.Rule? && !Dropped(k, row)
    ensures var after := PatchRow(k, row)[0];
      after.Rule? && (Gone(k, Truthy(after.departmentId)) <==>
        Gone(k, Truthy(row.departmentId)) && (Truthy(row.code) in k.redirect || Effective(row) !in k.migrate))
  {
  }

  /** For instance: a rule for a department in use that still names a retired one in `department_id`
      comes back as it was. */
  lemma RetiredDepartmentIdSurvives()
    ensures var row := Rule(Some("00-000163"), Some("00-000037"), None, None, "");
      Gone(SCRIPT_CLEANUP, Truthy(row.departmentId)) && PatchRow(SCRIPT_CLEANUP, row) == [row]
  {
    assert MIGRATED[0] == "00-000037" && TARGETS[0].code == "00-000163";
    ScriptTargetInUse("00-000163");
  }

  lemma {:induction false} DefaultsKeep(k: Cleanup, names: map<string, string>, n: nat, c: string)
    requires Sound(k) && n <= |k.order|
    ensures var after := WithDefaults(k, names, n);
      && (c in names ==> c in after && after[c] == names[c])
      && (c in after && c !in names ==> !Gone(k, c))
  {
    if n > 0 { DefaultsKeep(k, names, n - 1, c); }
  }

  lemma {:induction false} DefaultsCover(k: Cleanup, names: map<string, string>, n: nat, i: nat)
    requires Sound(k) && i < n <= |k.order|
    ensures k.migrate[k.order[i]].code in WithDefaults(k, names, n)
  {
    if i < n - 1 { DefaultsCover(k, names, n - 1, i); }
  }

  /** The name table: retired codes are gone, the successor of every migrated code has a name, all other
      names are kept; a second patch changes nothing. */
  lemma PatchNamesGuarantees(k: Cleanup, names: map<string, string>)
    requires Sound(k)
    ensures var after := PatchNames(k, names);
      && (forall c :: c in after ==> !Gone(k, c))
      && (forall c :: c in k.migrate ==> k.migrate[c].code in after)
      && (forall c :: c in names && !Gone(k, c) ==> c in after && after[c] == names[c])
      && PatchNames(k, after) == after
  {
    var kept := names - (k.redirect.Keys + k.remove);
    var after := PatchNames(k, names);
    forall c ensures c in kept ==> c in after && after[c] == kept[c]
             ensures c in after && c !in kept ==> !Gone(k, c)
    {
      DefaultsKeep(k, kept, |k.order|, c);
    }
    forall c | c in k.migrate ensures k.migrate[c].code in after {
      var i :| 0 <= i < |k.order| && k.order[i] == c;
      DefaultsCover(k, kept, |k.order|, i);
    }
    assert after - (k.redirect.Keys + k.remove) == after;
    DefaultsPresent(k, after, |k.order|);
  }

  lemma {:induction false} DefaultsPresent(k: Cleanup, names: map<string, string>, n: nat)
    requires n <= |k.order|
    requires forall i :: 0 <= i < |k.order| && k.order[i] in k.migrate ==> k.migrate[k.order[i]].code in names
    ensures WithDefaults(k, names, n) == names
  {
    if n > 0 { DefaultsPresent(k, names, n - 1); }
  }

  /** A name that is new comes from a migration target among the first `n`. */
  lemma {:induction false} DefaultsOrigin(k: Cleanup, names: map<string, string>, n: nat, c: string)
    requires Sound(k) && n <= |k.order|
    ensures c in WithDefaults(k, names, n) ==>
      c in names || exists m :: m in k.migrate && k.migrate[m].code == c
  {
    if n > 0 { DefaultsOrigin(k, names, n - 1, c); }
  }

  /** Which codes have a name afterwards: those in use that had one, and the successors of migrated codes. */
  lemma NamedExactly(k: Cleanup, names: map<string, string>, c: string)
    requires Sound(k)
    ensures c in PatchNames(k, names) <==>
      (c in names && !Gone(k, c)) || exists m :: m in k.migrate && k.migrate[m].code == c
  {
    PatchNamesGuarantees(k, names);
    DefaultsOrigin(k, names - (k.redirect.Keys + k.remove), |k.order|, c);
  }

  /** The successor of a redirected code gets no name: a rule of the closed department goes to one that
      the name table need not know. */
  lemma RedirectTargetStaysUnnamed()
    ensures var row := Rule(Some("00-000016"), None, None, None, "");
      && PatchRow(SCRIPT_CLEANUP, row) == [row.(code := Some(REDIRECT_TO.code), name := Some(REDIRECT_TO.name))]
      && REDIRECT_TO.code !in PatchNames(SCRIPT_CLEANUP, map[])
  {
    ScriptCleanupIsSound();
    NamedExactly(SCRIPT_CLEANUP, map[], REDIRECT_TO.code);
    forall m | m in SCRIPT_CLEANUP.migrate ensures SCRIPT_CLEANUP.migrate[m].code != REDIRECT_TO.code {
      var i := TargetOfListed(MIGRATED, TARGETS, m, |MIGRATED|);
      RedirectTargetIsNoTarget(i);
    }
  }

  lemma RedirectTargetIsNoTarget(i: nat)
    requires i < |TARGETS|
    ensures TARGETS[i].code != REDIRECT_TO.code
  {
  }
}
