/** What the patch of the rule file does, field by field: to which department a rule goes, which rules go,
    which names are new. */
module LegacyMeaning {
  import opened Seqs
  import opened Dedup
  import opened LegacyRules

  // ---------------------------------------------------------------- rules

  /** The department that decides: `code` unless it is missing or empty, else `department_id`. */
  ghost predicate DecidedBy(row: Row, c: string)
    requires row.Rule?
  {
    if row.code.Some? && row.code.value != "" then c == row.code.value
    else if row.departmentId.Some? then c == row.departmentId.value
    else c == ""
  }

  /** A present field gets the value; an absent one stays absent. */
  ghost predicate Sets(before: Option<string>, after: Option<string>, x: string) {
    (before.None? ==> after.None?) && (before.Some? ==> after == Some(x))
  }

  /** The rule goes to the successor of its department; `x` is its name where the table has one. */
  ghost predicate GoesTo(row: Row, to: Target, after: Row)
    requires row.Rule?
  {
    && after.Rule? && after.rest == row.rest
    && Sets(row.code, after.code, to.code) && Sets(row.departmentId, after.departmentId, to.code)
    && (to.name != "" ==>
          Sets(row.name, after.name, to.name) && Sets(row.departmentName, after.departmentName, to.name))
    && (to.name == "" ==> after.name == row.name && after.departmentName == row.departmentName)
  }

  /** A migrated rule goes to the successor of its department, any other stays as it is. */
  ghost predicate Migrates(k: Cleanup, row: Row, after: Row)
    requires row.Rule?
  {
    exists c :: DecidedBy(row, c) && if c in k.migrate then GoesTo(row, k.migrate[c], after) else after == row
  }

  ghost predicate HasCode(row: Row, codes: set<string>)
    requires row.Rule?
  {
    if row.code.None? then "" in codes else row.code.value in codes
  }

  /** What a row of a list turns into. */
  ghost predicate TurnsInto(k: Cleanup, row: Row, out: seq<Row>) {
    if row.Scalar? then out == [row]
    else if HasCode(row, k.redirect.Keys) then
      exists c :: c in k.redirect && c == (if row.code.None? then "" else row.code.value)
        && out == [Rule(Some(k.redirect[c].code), row.departmentId, Some(k.redirect[c].name), row.departmentName,
                        row.rest)]
    else if HasCode(row, k.remove) && !HasCode(row, k.migrate.Keys) then out == []
    else |out| == 1 && Migrates(k, row, out[0])
  }

  lemma PatchRowTurns(k: Cleanup, row: Row, out: seq<Row>)
    ensures TurnsInto(k, row, out) <==> out == PatchRow(k, row)
  {
    if row.Rule? {
      assert DecidedBy(row, Effective(row));
      assert forall c :: DecidedBy(row, c) ==> c == Effective(row);
      if |out| == 1 { MigrateRowGoes(k, row, out[0]); }
    }
  }

  lemma MigrateRowGoes(k: Cleanup, row: Row, after: Row)
    requires row.Rule?
    ensures Migrates(k, row, after) <==> after == MigrateRow(k, row)
  {
    assert DecidedBy(row, Effective(row));
    assert forall c :: DecidedBy(row, c) ==> c == Effective(row);
  }

  // ---------------------------------------------------------------- lists

  /** The list afterwards, with the rows it comes from: in order, each what its row turns into, keys
      pairwise distinct, and for every row that is not dropped one of its key, from it or an earlier row. */
  ghost predicate ListComesFrom(k: Cleanup, rows: seq<Row>, key: Row -> string, after: seq<Row>, places: seq<nat>) {
    && |places| == |after| && Rising(places, |rows|)
    && (forall x :: 0 <= x < |after| ==> TurnsInto(k, rows[places[x]], [after[x]]))
    && (forall x, y :: 0 <= x < y < |after| ==> key(after[x]) != key(after[y]))
    && (forall i: nat, r :: i < |rows| && TurnsInto(k, rows[i], [r]) ==> KeptEarlier(after, key, places, i, key(r)))
  }

  ghost predicate ListTold(k: Cleanup, rows: seq<Row>, key: Row -> string, after: seq<Row>) {
    exists places :: ListComesFrom(k, rows, key, after, places)
  }

  lemma ListIsTold(k: Cleanup, rows: seq<Row>, key: Row -> string)
    ensures ListTold(k, rows, key, PatchList(k, rows, key))
  {
    var after, f := PatchList(k, rows, key), Patching(k);
    var places := CollectedFirsts(rows, f, key, |rows|);
    forall x | 0 <= x < |after| ensures TurnsInto(k, rows[places[x]], [after[x]]) {
      PatchRowTurns(k, rows[places[x]], [after[x]]);
    }
    forall i: nat, r | i < |rows| && TurnsInto(k, rows[i], [r]) ensures KeptEarlier(after, key, places, i, key(r)) {
      PatchRowTurns(k, rows[i], [r]);
      assert f(rows[i]) == [r];
    }
    assert ListComesFrom(k, rows, key, after, places);
  }

  /** Corrections are migrated in place; none is redirected or dropped. */
  ghost predicate CorrectionsTold(k: Cleanup, before: seq<Row>, after: seq<Row>) {
    && |after| == |before|
    && forall i :: 0 <= i < |before| ==>
         if before[i].Scalar? then after[i] == before[i] else Migrates(k, before[i], after[i])
  }

  lemma CorrectionsAreTold(k: Cleanup, rows: seq<Row>)
    ensures CorrectionsTold(k, rows, Map(rows, Correcting(k)))
  {
    forall i | 0 <= i < |rows| && rows[i].Rule? ensures Migrates(k, rows[i], Map(rows, Correcting(k))[i]) {
      MigrateRowGoes(k, rows[i], MigrateRow(k, rows[i]));
    }
  }

  // ---------------------------------------------------------------- names

  ghost predicate IsSuccessor(k: Cleanup, m: nat, c: string)
    requires m < |k.order| && k.order[m] in k.migrate
  {
    k.migrate[k.order[m]].code == c
  }

  /** The name of a code: its own when it is kept, else that of the first successor with this code. */
  ghost predicate NameTold(k: Cleanup, n: nat, before: map<string, string>, after: map<string, string>, c: string)
    requires n <= |k.order| && forall m :: 0 <= m < |k.order| ==> k.order[m] in k.migrate
  {
    if c in before && c !in k.redirect && c !in k.remove then c in after && after[c] == before[c]
    else if forall m :: 0 <= m < n ==> !IsSuccessor(k, m, c) then c !in after
    else c in after && exists m: nat :: m < n && IsSuccessor(k, m, c) && after[c] == k.migrate[k.order[m]].name
                                        && forall l :: 0 <= l < m ==> !IsSuccessor(k, l, c)
  }

  ghost predicate NamesTold(k: Cleanup, before: map<string, string>, after: map<string, string>)
    requires Sound(k)
  {
    forall c :: NameTold(k, |k.order|, before, after, c)
  }

  lemma {:induction false} DefaultsTell(k: Cleanup, names: map<string, string>, n: nat, c: string)
    requires n <= |k.order| && forall m :: 0 <= m < |k.order| ==> k.order[m] in k.migrate
    ensures NameTold(k, n, names, WithDefaults(k, names - (k.redirect.Keys + k.remove), n), c)
  {
    if n > 0 { DefaultsTell(k, names, n - 1, c); }
  }

  lemma NamesAreTold(k: Cleanup, names: map<string, string>)
    requires Sound(k)
    ensures NamesTold(k, names, PatchNames(k, names))
  {
    forall c ensures NameTold(k, |k.order|, names, PatchNames(k, names), c) { DefaultsTell(k, names, |k.order|, c); }
  }

  // ---------------------------------------------------------------- the file

  ghost predicate FileTold(k: Cleanup, key: Row -> string, before: Rules, after: Rules)
    requires Sound(k)
  {
    && NamesTold(k, before.names, after.names)
    && ListTold(k, before.keywordRules, key, after.keywordRules)
    && ListTold(k, before.exactRules, key, after.exactRules)
    && ListTold(k, before.contentRules, key, after.contentRules)
    && CorrectionsTold(k, before.corrections, after.corrections)
  }

  lemma PatchedIsTold(k: Cleanup, key: Row -> string, f: Rules)
    requires Sound(k)
    ensures FileTold(k, key, f, Patched(k, key, f))
  {
    NamesAreTold(k, f.names);
    ListIsTold(k, f.keywordRules, key);
    ListIsTold(k, f.exactRules, key);
    ListIsTold(k, f.contentRules, key);
    CorrectionsAreTold(k, f.corrections);
  }

  // ---------------------------------------------------------------- the script's tables

  lemma {:induction false} TargetOfDistinct(migrated: seq<string>, targets: seq<Target>, n: nat, i: nat)
    requires Distinct(migrated) && i < n <= |migrated| == |targets|
    ensures TargetOf(migrated, targets, migrated[i], n) == targets[i]
  {
    if i < n - 1 { TargetOfDistinct(migrated, targets, n - 1, i); }
  }

  lemma MigratedAreDistinct()
    ensures Distinct(MIGRATED)
  {
    forall i, j | 0 <= i < j < |MIGRATED| ensures MIGRATED[i] != MIGRATED[j] {
      assert MIGRATED[i][6..] != MIGRATED[j][6..];
    }
  }

  /** A rule of a migrated department of the script comes back with the successor beside it. */
  lemma ScriptRuleGoes(i: nat, row: Row)
    requires i < |MIGRATED| && row.Rule? && row.code == Some(MIGRATED[i])
    ensures |PatchRow(SCRIPT_CLEANUP, row)| == 1
    ensures var after := PatchRow(SCRIPT_CLEANUP, row)[0];
      && after.Rule? && after.code == Some(TARGETS[i].code)
      && Sets(row.departmentId, after.departmentId, TARGETS[i].code)
      && Sets(row.name, after.name, TARGETS[i].name) && Sets(row.departmentName, after.departmentName, TARGETS[i].name)
      && after.rest == row.rest
  {
    MigratedAreDistinct();
    TargetOfDistinct(MIGRATED, TARGETS, |MIGRATED|, i);
    assert MIGRATED[i] in MIGRATED && MIGRATED[i][0] == '0' && MIGRATED[i][6..] != "00-000016"[6..];
    assert TARGETS[i].name != "";
  }
}
