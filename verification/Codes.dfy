/** The table of retired department codes and the text replacement driven by it
    (scripts/migrate_department_codes.py). */
module Codes {
  import opened Text
  import opened Seqs

  /** `retired[i]` is renamed to `current[i]`; `closed` codes go without a successor. */
  datatype Table = Table(retired: seq<string>, current: seq<string>, closed: seq<string>)

  type AliasTable = t: Table | |t.retired| == |t.current| && "" !in t.retired witness Table([], [], [])

  /** DEPARTMENT_CODE_ALIASES, in dictionary order, and DELETE_DEPARTMENT_CODES. */
  const SCRIPT_TABLE: AliasTable := Table(
    ["00-000034", "00-000037", "00-000109", "00-000122", "00-000139",
     "00-000140", "00-000141", "00-000075", "00-000105", "00-000131"],
    ["00-000152", "00-000163", "00-000163", "00-000163", "00-000042",
     "00-000042", "00-000042", "00-000155", "00-000155", "00-000128"],
    ["00-000016", "00-000045", "00-000081"])

  /** `00`, a dash, six characters that are not dashes. */
  ghost predicate CodeShape(c: string) {
    && |c| == 9 && c[0] == '0' && c[1] == '0' && c[2] == '-'
    && forall i :: 3 <= i < 9 ==> c[i] != '-'
  }

  /** What makes a table safe for sequential replacement: codes of one shape, and current codes
      that do not end in '0' and are neither retired nor closed. The results below hold for every
      such table; `ScriptTableIsSafe` says that the script's is one. */
  ghost predicate Safe(t: AliasTable) {
    SafeTo(t, |t.retired|)
  }

  ghost predicate SafeTo(t: AliasTable, n: nat)
    requires n <= |t.retired|
  {
    n == 0 || (SafeTo(t, n - 1) && SafeRow(t, t.retired[n - 1], t.current[n - 1]))
  }

  ghost predicate SafeRow(t: AliasTable, from: string, to: string) {
    && CodeShape(from) && CodeShape(to) && to[8] != '0' && !IsSpace(to[8]) && to !in t.retired && to !in t.closed
    && from !in t.closed
  }

  lemma {:induction false} SafeAt(t: AliasTable, n: nat, i: nat)
    requires i < n <= |t.retired| && SafeTo(t, n)
    ensures SafeRow(t, t.retired[i], t.current[i])
  {
    if i < n - 1 { SafeAt(t, n - 1, i); }
  }

  lemma ScriptTableIsSafe()
    ensures Safe(SCRIPT_TABLE)
  {
    ScriptRowsAreSafe(|SCRIPT_TABLE.retired|);
  }

  lemma {:induction false} ScriptRowsAreSafe(n: nat)
    requires n <= |SCRIPT_TABLE.retired|
    ensures SafeTo(SCRIPT_TABLE, n)
  {
    if n > 0 {
      ScriptRowsAreSafe(n - 1);
      ScriptRowIsSafe(n - 1);
    }
  }

  lemma ScriptRowIsSafe(i: nat)
    requires i < |SCRIPT_TABLE.retired|
    ensures SafeRow(SCRIPT_TABLE, SCRIPT_TABLE.retired[i], SCRIPT_TABLE.current[i])
  {
    ScriptCurrentIsNotRetired(i);
    ScriptRowIsNotClosed(i);
  }

  lemma ScriptCurrentIsNotRetired(i: nat)
    requires i < |SCRIPT_TABLE.retired|
    ensures SCRIPT_TABLE.current[i] !in SCRIPT_TABLE.retired
  {
  }

  lemma ScriptRowIsNotClosed(i: nat)
    requires i < |SCRIPT_TABLE.retired|
    ensures SCRIPT_TABLE.current[i] !in SCRIPT_TABLE.closed && SCRIPT_TABLE.retired[i] !in SCRIPT_TABLE.closed
  {
    var t := SCRIPT_TABLE;
    forall j | 0 <= j < |t.closed| ensures t.current[i] != t.closed[j] && t.retired[i] != t.closed[j] {
      assert t.current[i][6..] != t.closed[j][6..] && t.retired[i][6..] != t.closed[j][6..];
    }
  }

  predicate IsRetired(t: AliasTable, c: string) {
    c in t.retired
  }

  /** `DEPARTMENT_CODE_ALIASES.get(c, c)`. */
  function Alias(t: AliasTable, c: string): string {
    AliasIn(t, c, |t.retired|)
  }

  function AliasIn(t: AliasTable, c: string, n: nat): string
    requires n <= |t.retired|
  {
    if n == 0 then c
    else if t.retired[n - 1] == c then t.current[n - 1]
    else AliasIn(t, c, n - 1)
  }

  /** An alias is a current code, never itself retired. */
  lemma AliasFacts(t: AliasTable, c: string)
    requires Safe(t)
    ensures IsRetired(t, c) ==> Alias(t, c) in t.current
    ensures !IsRetired(t, Alias(t, c))
  {
    AliasInFacts(t, c, |t.retired|);
    assert t.retired[..|t.retired|] == t.retired;
    if Alias(t, c) in t.current {
      var i :| 0 <= i < |t.current| && t.current[i] == Alias(t, c);
      SafeAt(t, |t.retired|, i);
    }
  }

  /** Stripping and aliasing a second time changes nothing. */
  lemma AliasOfStripped(t: AliasTable, c: string)
    requires Safe(t)
    ensures var a := Alias(t, Strip(c)); Strip(a) == a && !IsRetired(t, a)
  {
    AliasFacts(t, Strip(c));
    if IsRetired(t, Strip(c)) {
      var i :| 0 <= i < |t.current| && t.current[i] == Alias(t, Strip(c));
      SafeAt(t, |t.retired|, i);
      assert Trimmed(t.current[i]);
    } else {
      AliasOfOther(t, Strip(c));
      StripIdempotent(c);
    }
  }

  /** A retired code goes to the current code of its row; dictionary keys are distinct. */
  lemma {:induction false} AliasOfRow(t: AliasTable, i: nat, n: nat)
    requires Distinct(t.retired) && i < n <= |t.retired|
    ensures AliasIn(t, t.retired[i], n) == t.current[i]
  {
    if i < n - 1 { AliasOfRow(t, i, n - 1); }
  }

  lemma AliasOfOther(t: AliasTable, c: string)
    requires !IsRetired(t, c)
    ensures Alias(t, c) == c
  {
    AliasInFacts(t, c, |t.retired|);
  }

  lemma {:induction false} AliasInFacts(t: AliasTable, c: string, n: nat)
    requires n <= |t.retired|
    ensures c in t.retired[..n] ==> AliasIn(t, c, n) in t.current
    ensures c !in t.retired[..n] ==> AliasIn(t, c, n) == c
  {
    if n > 0 { AliasInFacts(t, c, n - 1); }
  }

  // ---------------------------------------------------------------- codes inside text

  /** `any(old in s for old in OLD_CODES)`. */
  predicate HasRetired(t: AliasTable, s: string) {
    HasRetiredIn(t, s, |t.retired|)
  }

  predicate HasRetiredIn(t: AliasTable, s: string, n: nat)
    requires n <= |t.retired|
  {
    n > 0 && (HasRetiredIn(t, s, n - 1) || Contains(s, t.retired[n - 1]))
  }

  lemma {:induction false} HasRetiredMeaning(t: AliasTable, s: string, n: nat)
    requires n <= |t.retired|
    ensures HasRetiredIn(t, s, n) <==> exists j :: 0 <= j < n && Contains(s, t.retired[j])
  {
    if n > 0 { HasRetiredMeaning(t, s, n - 1); }
  }

  function ReplaceCodes(t: AliasTable, s: string): string {
    ReplaceRows(t, s, |t.retired|)
  }

  /** `updated = updated.replace(old, new)` for the first `n` rows of the table. */
  function ReplaceRows(t: AliasTable, s: string, n: nat): string
    requires n <= |t.retired|
  {
    if n == 0 then s else Replace(ReplaceRows(t, s, n - 1), t.retired[n - 1], t.current[n - 1])
  }

  /** `_replace_codes_in_json_text`. */
  method ReplaceCodesInJsonText(t: AliasTable, text: string) returns (updated: string)
    ensures updated == ReplaceCodes(t, text)
    ensures Safe(t) ==> !HasRetired(t, updated) && |updated| == |text|
  {
    updated := text;
    for n := 0 to |t.retired|
      invariant updated == ReplaceRows(t, text, n)
    {
      updated := Replace(updated, t.retired[n], t.current[n]);
    }
    if Safe(t) {
      ReplaceCodesClears(t, text);
      ReplaceRowsKeepsLength(t, text, |t.retired|);
    }
  }

  /** A code meets a replacement block in at most one character, which the two codes share. */
  lemma SafePairIsCompatible(t: AliasTable, j: nat, i: nat)
    requires Safe(t) && j < |t.retired| && i < |t.retired|
    ensures Compatible(t.retired[j], t.retired[i], t.current[i])
  {
    SafeAt(t, |t.retired|, i);
    SafeAt(t, |t.retired|, j);
    ShapesAreCompatible(t.retired[j], t.retired[i], t.current[i]);
  }

  lemma ShapesAreCompatible(c: string, from: string, to: string)
    requires CodeShape(c) && CodeShape(from) && CodeShape(to)
    requires to[8] != '0' && to != c
    ensures Compatible(c, from, to)
  {
    forall k: nat | 1 <= k <= 9 ensures to[9 - k..] != c[..k] {
      if k == 9 {
        assert to[0..] == to && c[..9] == c;
      } else if k >= 3 {
        assert to[9 - k..][2] != c[..k][2];
      } else {
        assert to[9 - k..][k - 1] != c[..k][k - 1];
      }
    }
    forall k: nat | 3 <= k < 9 ensures c[9 - k..] != to[..k] {
      assert c[9 - k..][2] != to[..k][2];
    }
  }

  /** Row `n` clears its own code and brings back none that an earlier row cleared. */
  lemma {:induction false} SequentialReplaceClears(t: AliasTable, s: string, n: nat, j: nat)
    requires Safe(t)
    requires j < n <= |t.retired|
    ensures !Contains(ReplaceRows(t, s, n), t.retired[j])
  {
    if j < n - 1 { SequentialReplaceClears(t, s, n - 1, j); }
    SafePairIsCompatible(t, j, n - 1);
    ReplaceClears(ReplaceRows(t, s, n - 1), t.retired[n - 1], t.current[n - 1], t.retired[j]);
  }

  /** Whatever the text, and however codes overlap in it, no retired code is left anywhere. */
  lemma ReplaceCodesClears(t: AliasTable, s: string)
    requires Safe(t)
    ensures !HasRetired(t, ReplaceCodes(t, s))
  {
    HasRetiredMeaning(t, ReplaceCodes(t, s), |t.retired|);
    forall j | 0 <= j < |t.retired| ensures !Contains(ReplaceCodes(t, s), t.retired[j]) {
      SequentialReplaceClears(t, s, |t.retired|, j);
    }
  }

  /** In particular for the table of the script, where "00-000140" ends like other codes begin. */
  lemma ScriptReplacementClears(s: string, j: nat)
    requires j < |SCRIPT_TABLE.retired|
    ensures !Contains(ReplaceCodes(SCRIPT_TABLE, s), SCRIPT_TABLE.retired[j])
  {
    ScriptTableIsSafe();
    SequentialReplaceClears(SCRIPT_TABLE, s, |SCRIPT_TABLE.retired|, j);
  }

  lemma {:induction false} ReplaceRowsKeepsLength(t: AliasTable, s: string, n: nat)
    requires Safe(t)
    requires n <= |t.retired|
    ensures |ReplaceRows(t, s, n)| == |s|
  {
    if n > 0 {
      ReplaceRowsKeepsLength(t, s, n - 1);
      SafeAt(t, |t.retired|, n - 1);
      ReplaceLength(ReplaceRows(t, s, n - 1), t.retired[n - 1], t.current[n - 1]);
    }
  }

  lemma {:induction false} ReplaceRowsAbsent(t: AliasTable, s: string, n: nat)
    requires n <= |t.retired| && !HasRetired(t, s)
    ensures ReplaceRows(t, s, n) == s
  {
    HasRetiredMeaning(t, s, |t.retired|);
    if n > 0 {
      ReplaceRowsAbsent(t, s, n - 1);
      ReplaceAbsent(s, t.retired[n - 1], t.current[n - 1]);
    }
  }

  lemma ReplaceCodesAbsent(t: AliasTable, s: string)
    requires !HasRetired(t, s)
    ensures ReplaceCodes(t, s) == s
  {
    ReplaceRowsAbsent(t, s, |t.retired|);
  }

  /** A code of the script's table, as a text of its own, has a retired code. */
  lemma ScriptCodeIsRetired(i: nat)
    requires i < |SCRIPT_TABLE.retired|
    ensures IsRetired(SCRIPT_TABLE, SCRIPT_TABLE.retired[i]) && HasRetired(SCRIPT_TABLE, SCRIPT_TABLE.retired[i])
  {
    var c := SCRIPT_TABLE.retired[i];
    assert OccursAt(c, c, 0);
    HasRetiredMeaning(SCRIPT_TABLE, c, |SCRIPT_TABLE.retired|);
  }

  lemma EmptyTextHasNone(t: AliasTable)
    ensures !HasRetired(t, "")
  {
    HasRetiredMeaning(t, "", |t.retired|);
  }

  /** Position `k` lies inside no retired code of `s`. */
  ghost predicate OutsideCodes(t: AliasTable, s: string, k: nat) {
    forall i: nat, j :: 0 <= j < |t.retired| && OccursAt(s, t.retired[j], i) ==> !(i <= k < i + 9)
  }

  /** Text that is not part of a retired code survives every pass. */
  lemma {:induction false} TextOutsideCodesUntouched(t: AliasTable, s: string, k: nat, n: nat)
    requires Safe(t)
    requires n <= |t.retired| && k < |s| && OutsideCodes(t, s, k)
    ensures var r := ReplaceRows(t, s, n); |r| == |s| && r[k] == s[k] && OutsideCodes(t, r, k)
  {
    if n > 0 {
      TextOutsideCodesUntouched(t, s, k, n - 1);
      var r := ReplaceRows(t, s, n - 1);
      var q := Replace(r, t.retired[n - 1], t.current[n - 1]);
      forall i: nat, j | 0 <= j < |t.retired| && OccursAt(q, t.retired[j], i) ensures !(i <= k < i + 9) {
        SafePairIsCompatible(t, j, n - 1);
        ReplaceCreatesNone(r, t.retired[n - 1], t.current[n - 1], t.retired[j], i);
      }
      SafeAt(t, |t.retired|, n - 1);
      ReplaceKeepsRest(r, t.retired[n - 1], t.current[n - 1], k);
    }
  }
}
