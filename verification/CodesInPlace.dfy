/** Where a retired code stands apart from others in a text, its current code takes its place. */
module CodesInPlace {
  import opened Text
  import opened Seqs
  import opened Codes

  /** An occurrence that no other one of the same text overlaps is replaced in place. */
  lemma {:induction false} ReplaceAt(s: string, from: string, to: string, k: nat)
    requires |to| == |from| > 0 && OccursAt(s, from, k)
    requires forall i: nat :: OccursAt(s, from, i) && i != k ==> i + |from| <= k || k + |from| <= i
    ensures OccursAt(Replace(s, from, to), to, k)
  {
    var n := |from|;
    ReplaceLength(s, from, to);
    assert s[0..0 + n] == s[..n];
    if k > 0 {
      var step := if s[..n] == from then n else 1;
      assert s[..n] == from ==> OccursAt(s, from, 0);
      forall i: nat | OccursAt(s[step..], from, i) && i != k - step ensures i + n <= k - step || k - step + n <= i {
        OccursShift(s, step, from, step + i);
      }
      OccursShift(s, step, from, k);
      ReplaceAt(s[step..], from, to, k - step);
      assert Replace(s, from, to)[step..] == Replace(s[step..], from, to);
      OccursShift(Replace(s, from, to), step, to, k);
    }
  }

  /** A block that no occurrence overlaps is kept. */
  lemma BlockKept(s: string, from: string, to: string, c: string, k: nat)
    requires |to| == |from| == |c| > 0 && OccursAt(s, c, k)
    requires forall i: nat :: OccursAt(s, from, i) ==> i + |from| <= k || k + |from| <= i
    ensures OccursAt(Replace(s, from, to), c, k)
  {
    var r := Replace(s, from, to);
    ReplaceLength(s, from, to);
    forall m | k <= m < k + |c| ensures r[m] == s[m] {
      ReplaceKeepsRest(s, from, to, m);
    }
    assert r[k..k + |c|] == s[k..k + |c|];
  }

  /** No retired code of the text overlaps the nine characters at `k`, except one that fills them. */
  ghost predicate StandsApart(t: AliasTable, s: string, k: nat) {
    forall i: nat, j :: 0 <= j < |t.retired| && OccursAt(s, t.retired[j], i) && i != k ==> i + 9 <= k || k + 9 <= i
  }

  lemma StaysApart(t: AliasTable, s: string, k: nat, n: nat)
    requires Safe(t) && n < |t.retired| && StandsApart(t, s, k)
    ensures StandsApart(t, Replace(s, t.retired[n], t.current[n]), k)
  {
    var q := Replace(s, t.retired[n], t.current[n]);
    forall i: nat, j | 0 <= j < |t.retired| && OccursAt(q, t.retired[j], i) && i != k
      ensures i + 9 <= k || k + 9 <= i
    {
      SafePairIsCompatible(t, j, n);
      ReplaceCreatesNone(s, t.retired[n], t.current[n], t.retired[j], i);
    }
  }

  /** One pass, on a block that holds a code other than the one replaced. */
  lemma OtherCodeKept(t: AliasTable, s: string, c: string, k: nat, n: nat)
    requires Safe(t) && n < |t.retired| && StandsApart(t, s, k)
    requires |c| == 9 && OccursAt(s, c, k) && c != t.retired[n]
    ensures OccursAt(Replace(s, t.retired[n], t.current[n]), c, k)
  {
    SafeAt(t, |t.retired|, n);
    forall i: nat | OccursAt(s, t.retired[n], i) ensures i + 9 <= k || k + 9 <= i {
      assert i != k;
    }
    BlockKept(s, t.retired[n], t.current[n], c, k);
  }

  lemma {:induction false} InPlaceAfter(t: AliasTable, s: string, j: nat, k: nat, n: nat)
    requires Safe(t) && Distinct(t.retired) && j < |t.retired| && n <= |t.retired|
    requires OccursAt(s, t.retired[j], k) && StandsApart(t, s, k)
    ensures StandsApart(t, ReplaceRows(t, s, n), k)
    ensures OccursAt(ReplaceRows(t, s, n), if n <= j then t.retired[j] else t.current[j], k)
  {
    if n > 0 {
      var r := ReplaceRows(t, s, n - 1);
      InPlaceAfter(t, s, j, k, n - 1);
      StaysApart(t, r, k, n - 1);
      SafeAt(t, |t.retired|, j);
      SafeAt(t, |t.retired|, n - 1);
      if n - 1 == j {
        ReplaceAt(r, t.retired[j], t.current[j], k);
      } else {
        OtherCodeKept(t, r, if n <= j then t.retired[j] else t.current[j], k, n - 1);
      }
    }
  }

  /** A retired code that no other one overlaps becomes the current code of its row, at its place. */
  lemma ReplacedInPlace(t: AliasTable, s: string, j: nat, k: nat)
    requires Safe(t) && Distinct(t.retired) && j < |t.retired|
    requires OccursAt(s, t.retired[j], k) && StandsApart(t, s, k)
    ensures OccursAt(ReplaceCodes(t, s), Alias(t, t.retired[j]), k)
  {
    InPlaceAfter(t, s, j, k, |t.retired|);
    AliasOfRow(t, j, |t.retired|);
  }

  lemma ScriptRetiredAreDistinct()
    ensures Distinct(SCRIPT_TABLE.retired)
  {
  }

  /** The alias map of the script, row by row. */
  lemma ScriptAlias(i: nat)
    requires i < |SCRIPT_TABLE.retired|
    ensures Alias(SCRIPT_TABLE, SCRIPT_TABLE.retired[i]) == SCRIPT_TABLE.current[i]
  {
    ScriptRetiredAreDistinct();
    AliasOfRow(SCRIPT_TABLE, i, |SCRIPT_TABLE.retired|);
  }
}
