/** Choosing content keywords for a department (scripts/import_spiski_routing.py, `_select_content_keywords`). */
module ContentKeywords {
  import opened Text
  import opened Seqs
  import opened Ordering

  const MAX_PER_CODE := 12

  /** How often `kw` is among the first `n` candidates. */
  function FreqTo(kws: seq<string>, kw: string, n: nat): nat
    requires n <= |kws|
  {
    if n == 0 then 0 else FreqTo(kws, kw, n - 1) + (if kws[n - 1] == kw then 1 else 0)
  }

  function Freq(kws: seq<string>, kw: string): nat {
    FreqTo(kws, kw, |kws|)
  }

  /** The sort key `(-frequency, length, text)`. */
  predicate Before(kws: seq<string>, a: string, b: string) {
    || Freq(kws, a) > Freq(kws, b)
    || (Freq(kws, a) == Freq(kws, b) && (|a| < |b| || (|a| == |b| && TextLess(a, b))))
  }

  lemma BeforeTotal(kws: seq<string>, a: string, b: string)
    ensures a != b ==> Before(kws, a, b) || Before(kws, b, a)
    ensures !(Before(kws, a, b) && Before(kws, b, a))
    ensures Before(kws, a, b) ==> a != b
  {
    TextLessTotal(a, b);
  }

  lemma BeforeTransitive(kws: seq<string>, a: string, b: string, c: string)
    requires Before(kws, a, b) && Before(kws, b, c)
    ensures Before(kws, a, c)
  {
    if TextLess(a, b) && TextLess(b, c) { TextLessTransitive(a, b, c); }
  }

  function RankOrder(kws: seq<string>): Less<string> {
    (a, b) => Before(kws, a, b)
  }

  lemma RankOrderIsTotal(kws: seq<string>)
    ensures StrictOrder(RankOrder(kws)) && forall s: seq<string> :: TotalOn(RankOrder(kws), s)
  {
    forall a, b
      ensures (a != b ==> Before(kws, a, b) || Before(kws, b, a)) && !(Before(kws, a, b) && Before(kws, b, a))
    {
      BeforeTotal(kws, a, b);
    }
    forall a, b, c | Before(kws, a, b) && Before(kws, b, c) ensures Before(kws, a, c) {
      BeforeTransitive(kws, a, b, c);
    }
  }

  lemma RankAscendingUnique(kws: seq<string>, a: seq<string>, b: seq<string>)
    requires Ascending(RankOrder(kws), a) && Ascending(RankOrder(kws), b) && forall x :: x in a <==> x in b
    ensures a == b
  {
    RankOrderIsTotal(kws);
    AscendingUnique(RankOrder(kws), a, b);
  }

  // ---------------------------------------------------------------- ranking

  lemma InsertMeaning(kws: seq<string>, s: seq<string>, x: string)
    requires Ascending(RankOrder(kws), s) && x !in s
    ensures Ascending(RankOrder(kws), Insert(RankOrder(kws), s, x))
    ensures forall y :: y in Insert(RankOrder(kws), s, x) <==> y == x || y in s
  {
    RankOrderIsTotal(kws);
    InsertAscending(RankOrder(kws), s, x);
    InsertElements(RankOrder(kws), s, x);
  }

  /** The candidates that are not present yet, each once, in rank order. */
  function RankedTo(kws: seq<string>, existing: set<string>, n: nat): seq<string>
    requires n <= |kws|
  {
    if n == 0 then []
    else if kws[n - 1] in existing || kws[n - 1] in RankedTo(kws, existing, n - 1)
    then RankedTo(kws, existing, n - 1)
    else Insert(RankOrder(kws), RankedTo(kws, existing, n - 1), kws[n - 1])
  }

  lemma {:induction false} RankedMeaning(kws: seq<string>, existing: set<string>, n: nat)
    requires n <= |kws|
    ensures Ascending(RankOrder(kws), RankedTo(kws, existing, n))
    ensures forall x :: x in RankedTo(kws, existing, n) <==> x in kws[..n] && x !in existing
  {
    if n > 0 {
      var before, kw := RankedTo(kws, existing, n - 1), kws[n - 1];
      RankedMeaning(kws, existing, n - 1);
      assert forall x :: x in kws[..n] <==> x in kws[..n - 1] || x == kw by {
        assert kws[..n] == kws[..n - 1] + [kw];
      }
      if kw !in existing && kw !in before { InsertMeaning(kws, before, kw); }
    }
  }

  /** Rare long phrases are passed over. */
  predicate Worthy(kws: seq<string>, kw: string) {
    !(Freq(kws, kw) < 2 && |kw| > 20)
  }

  function WorthyTo(kws: seq<string>, s: seq<string>, n: nat): seq<string>
    requires n <= |s|
  {
    if n == 0 then []
    else if Worthy(kws, s[n - 1]) then WorthyTo(kws, s, n - 1) + [s[n - 1]]
    else WorthyTo(kws, s, n - 1)
  }

  /** All keywords that could be added for a code, best first. */
  function Eligible(kws: seq<string>, existing: set<string>): seq<string> {
    var ranked := RankedTo(kws, existing, |kws|);
    WorthyTo(kws, ranked, |ranked|)
  }

  lemma {:induction false} WorthyMeaning(kws: seq<string>, s: seq<string>, n: nat)
    requires n <= |s| && Ascending(RankOrder(kws), s)
    ensures Ascending(RankOrder(kws), WorthyTo(kws, s, n))
    ensures forall x :: x in WorthyTo(kws, s, n) <==> x in s[..n] && Worthy(kws, x)
  {
    if n > 0 {
      WorthyMeaning(kws, s, n - 1);
      assert s[..n] == s[..n - 1] + [s[n - 1]];
      var front := WorthyTo(kws, s, n - 1);
      forall i | 0 <= i < |front| ensures Before(kws, front[i], s[n - 1]) {
        assert front[i] in front;
        var m :| 0 <= m < n - 1 && s[..n - 1][m] == front[i];
      }
    }
  }

  lemma EligibleMeaning(kws: seq<string>, existing: set<string>)
    ensures Ascending(RankOrder(kws), Eligible(kws, existing))
    ensures Distinct(Eligible(kws, existing))
    ensures forall x :: x in Eligible(kws, existing) <==> x in kws && x !in existing && Worthy(kws, x)
  {
    RankedMeaning(kws, existing, |kws|);
    var ranked := RankedTo(kws, existing, |kws|);
    WorthyMeaning(kws, ranked, |ranked|);
    assert kws[..|kws|] == kws && ranked[..|ranked|] == ranked;
    var e := Eligible(kws, existing);
    forall i, j | 0 <= i < j < |e| ensures e[i] != e[j] { BeforeTotal(kws, e[i], e[j]); }
  }

  function Min(a: nat, b: nat): nat {
    if a < b then a else b
  }

  function Picked(kws: seq<string>, existing: set<string>): seq<string> {
    var e := Eligible(kws, existing);
    e[..Min(MAX_PER_CODE, |e|)]
  }

  /** The one occurs more often; or as often and is shorter; or as often, is as long and comes before the
      other in code-point order. */
  ghost predicate Preferred(kws: seq<string>, a: string, b: string) {
    var n, m := multiset(kws)[a], multiset(kws)[b];
    n > m || (n == m && |a| < |b|) || (n == m && |a| == |b| && ComesBefore(a, b))
  }

  /** A candidate that is not present, and is repeated or has at most 20 characters. */
  ghost predicate Qualifies(kws: seq<string>, existing: set<string>, x: string) {
    x in kws && x !in existing && (multiset(kws)[x] >= 2 || |x| <= 20)
  }

  /** The best twelve of those that qualify, or all there are, best first. */
  ghost predicate AreTheBest(kws: seq<string>, existing: set<string>, picked: seq<string>) {
    && |picked| <= 12 && (forall x :: x in picked ==> Qualifies(kws, existing, x))
    && (forall i, j :: 0 <= i < j < |picked| ==> Preferred(kws, picked[i], picked[j]))
    && (forall x :: Qualifies(kws, existing, x) && x !in picked ==>
          |picked| == 12 && forall i :: 0 <= i < |picked| ==> Preferred(kws, picked[i], x))
  }

  lemma {:induction false} FreqIsCount(kws: seq<string>, kw: string, n: nat)
    requires n <= |kws|
    ensures FreqTo(kws, kw, n) == multiset(kws[..n])[kw]
  {
    if n > 0 {
      FreqIsCount(kws, kw, n - 1);
      assert kws[..n] == kws[..n - 1] + [kws[n - 1]];
    }
  }

  lemma BeforeMeansPreferred(kws: seq<string>, a: string, b: string)
    ensures Before(kws, a, b) <==> Preferred(kws, a, b)
  {
    FreqIsCount(kws, a, |kws|);
    FreqIsCount(kws, b, |kws|);
    assert kws[..|kws|] == kws;
    TextLessMeaning(a, b);
  }

  lemma EligibleMeansQualifies(kws: seq<string>, existing: set<string>, x: string)
    ensures x in Eligible(kws, existing) <==> Qualifies(kws, existing, x)
  {
    EligibleMeaning(kws, existing);
    FreqIsCount(kws, x, |kws|);
    assert kws[..|kws|] == kws;
  }

  /** A prefix of the eligible keywords: what is not in it comes after all of it. */
  lemma PickedAreTheBest(kws: seq<string>, existing: set<string>)
    ensures AreTheBest(kws, existing, Picked(kws, existing))
  {
    var e, picked := Eligible(kws, existing), Picked(kws, existing);
    EligibleMeaning(kws, existing);
    forall x | x in picked ensures Qualifies(kws, existing, x) { EligibleMeansQualifies(kws, existing, x); }
    forall i, j | 0 <= i < j < |picked| ensures Preferred(kws, picked[i], picked[j]) {
      BeforeMeansPreferred(kws, e[i], e[j]);
    }
    forall x | Qualifies(kws, existing, x) && x !in picked
      ensures |picked| == 12 && forall i :: 0 <= i < |picked| ==> Preferred(kws, picked[i], x)
    {
      EligibleMeansQualifies(kws, existing, x);
      var j :| 0 <= j < |e| && e[j] == x;
      forall i | 0 <= i < |picked| ensures Preferred(kws, picked[i], x) { BeforeMeansPreferred(kws, e[i], e[j]); }
    }
  }

  ghost predicate CountsTo(kws: seq<string>, freq: map<string, nat>, n: nat)
    requires n <= |kws|
  {
    forall k :: k in freq ==> freq[k] == FreqTo(kws, k, n)
  }

  lemma CountsNext(kws: seq<string>, freq: map<string, nat>, n: nat)
    requires n < |kws| && CountsTo(kws, freq, n)
    ensures CountsTo(kws, freq[kws[n] := FreqTo(kws, kws[n], n) + 1], n + 1)
    ensures kws[n] !in freq ==> CountsTo(kws, freq, n + 1)
  {
  }

  /** The table and the ranking of its keys after the first `n` candidates. */
  ghost predicate Tabled(kws: seq<string>, existing: set<string>, freq: map<string, nat>, ranked: seq<string>, n: nat)
    requires n <= |kws|
  {
    ranked == RankedTo(kws, existing, n) && CountsTo(kws, freq, n) && forall k :: k in freq <==> k in ranked
  }

  lemma AbsentIsNew(kws: seq<string>, existing: set<string>, n: nat)
    requires n < |kws|
    ensures kws[n] in existing ==> kws[n] !in RankedTo(kws, existing, n)
    ensures kws[n] !in existing && kws[n] !in RankedTo(kws, existing, n) ==> FreqTo(kws, kws[n], n) == 0
  {
    RankedMeaning(kws, existing, n);
    FreqOfAbsent(kws, kws[n], n);
  }

  lemma TabledNext(kws: seq<string>, existing: set<string>, freq: map<string, nat>, ranked: seq<string>, n: nat)
    requires n < |kws| && Tabled(kws, existing, freq, ranked, n)
    ensures var kw := kws[n];
      if kw in existing then Tabled(kws, existing, freq, ranked, n + 1)
      else if kw in freq then Tabled(kws, existing, freq[kw := freq[kw] + 1], ranked, n + 1)
      else Tabled(kws, existing, freq[kw := 1], Insert(RankOrder(kws), ranked, kw), n + 1)
  {
    AbsentIsNew(kws, existing, n);
    CountsNext(kws, freq, n);
    if kws[n] !in existing && kws[n] !in freq {
      RankedMeaning(kws, existing, n);
      InsertMeaning(kws, ranked, kws[n]);
    }
  }

  /** The frequency table of the keywords not present yet, and its keys sorted. */
  method CountAndRank(kws: seq<string>, existing: set<string>) returns (freq: map<string, nat>, ranked: seq<string>)
    ensures ranked == RankedTo(kws, existing, |kws|)
    ensures forall k :: k in ranked ==> k in freq && freq[k] == Freq(kws, k)
  {
    freq, ranked := map[], [];
    for i := 0 to |kws|
      invariant Tabled(kws, existing, freq, ranked, i)
    {
      var kw := kws[i];
      TabledNext(kws, existing, freq, ranked, i);
      if kw !in existing {
        if kw in freq {
          freq := freq[kw := freq[kw] + 1];
        } else {
          ranked := Insert(RankOrder(kws), ranked, kw);
          freq := freq[kw := 1];
        }
      }
    }
  }

  /** `_select_content_keywords` for one code. */
  method SelectFor(kws: seq<string>, existing: set<string>) returns (picked: seq<string>)
    ensures picked == Picked(kws, existing)
  {
    var freq, ranked := CountAndRank(kws, existing);
    picked := [];
    for i := 0 to |ranked|
      invariant picked == WorthyTo(kws, ranked, i) && |picked| < MAX_PER_CODE
    {
      WorthyPrefix(kws, ranked, i + 1, |ranked|);
      assert ranked[i] in ranked;
      if freq[ranked[i]] < 2 && |ranked[i]| > 20 { continue; }
      picked := picked + [ranked[i]];
      if |picked| >= MAX_PER_CODE { return; }
    }
  }

  lemma {:induction false} FreqOfAbsent(kws: seq<string>, kw: string, n: nat)
    requires n <= |kws|
    ensures kw !in kws[..n] ==> FreqTo(kws, kw, n) == 0
  {
    if n > 0 {
      FreqOfAbsent(kws, kw, n - 1);
      assert kws[..n] == kws[..n - 1] + [kws[n - 1]];
    }
  }

  lemma {:induction false} WorthyPrefix(kws: seq<string>, s: seq<string>, m: nat, n: nat)
    requires m <= n <= |s|
    ensures WorthyTo(kws, s, m) <= WorthyTo(kws, s, n)
  {
    if m < n { WorthyPrefix(kws, s, m, n - 1); }
  }

  // ---------------------------------------------------------------- repeated imports

  function Elements(s: seq<string>): set<string> {
    set x | x in s
  }

  /** What is present after adding the first `m` eligible keywords leaves exactly the rest eligible,
      in the same order. */
  lemma EligibleAfter(kws: seq<string>, existing: set<string>, m: nat)
    requires m <= |Eligible(kws, existing)|
    ensures var e := Eligible(kws, existing);
      Eligible(kws, existing + Elements(e[..m])) == e[m..]
  {
    var e := Eligible(kws, existing);
    var later := Eligible(kws, existing + Elements(e[..m]));
    EligibleMeaning(kws, existing);
    EligibleMeaning(kws, existing + Elements(e[..m]));
    forall x ensures x in later <==> x in e[m..] {
      assert e == e[..m] + e[m..];
      if x in e[m..] {
        var i :| 0 <= i < |e[m..]| && e[m..][i] == x;
        assert e[m + i] == x;
        assert x !in e[..m];
      }
    }
    RankAscendingUnique(kws, later, e[m..]);
  }

  /** Everything `k` successive imports of the same candidates add. */
  function AddedBy(kws: seq<string>, existing: set<string>, k: nat): seq<string> {
    if k == 0 then []
    else
      var before := AddedBy(kws, existing, k - 1);
      before + Picked(kws, existing + Elements(before))
  }

  lemma PrefixThen(e: seq<string>, m: nat, n: nat)
    requires m <= |e| && n <= |e| - m
    ensures e[..m] + e[m..][..n] == e[..m + n]
  {
  }

  /** After `k` imports exactly the first `12 * k` eligible keywords were added, in rank order. */
  lemma {:induction false} ImportsAdvance(kws: seq<string>, existing: set<string>, k: nat)
    ensures var e := Eligible(kws, existing);
      AddedBy(kws, existing, k) == e[..Min(MAX_PER_CODE * k, |e|)]
  {
    if k > 0 {
      ImportsAdvance(kws, existing, k - 1);
      var e := Eligible(kws, existing);
      var m := Min(MAX_PER_CODE * (k - 1), |e|);
      EligibleAfter(kws, existing, m);
      PrefixThen(e, m, Min(MAX_PER_CODE, |e| - m));
    }
  }

  lemma PrefixesOf(e: seq<string>, a: nat, b: nat)
    requires a <= b <= |e| && Distinct(e)
    ensures Distinct(e[..a])
    ensures e[..b] == e[..a] <==> a == b
  {
    assert |e[..a]| == a && |e[..b]| == b;
  }

  /** Convergence: none is added twice, and once `12 * k` covers the eligible keywords a further
      import adds nothing. */
  lemma ImportsConverge(kws: seq<string>, existing: set<string>, k: nat)
    ensures Distinct(AddedBy(kws, existing, k))
    ensures |Eligible(kws, existing)| <= MAX_PER_CODE * k <==>
      AddedBy(kws, existing, k + 1) == AddedBy(kws, existing, k)
  {
    EligibleMeaning(kws, existing);
    ImportsAdvance(kws, existing, k);
    ImportsAdvance(kws, existing, k + 1);
    var e := Eligible(kws, existing);
    PrefixesOf(e, Min(MAX_PER_CODE * k, |e|), Min(MAX_PER_CODE * (k + 1), |e|));
  }
}
