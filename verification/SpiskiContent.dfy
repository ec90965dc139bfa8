/** Content keywords over repeated imports: every run moves each code twelve keywords further down its
    ranking, and the runs converge (scripts/import_spiski_routing.py). */
module SpiskiContent {
  import opened Seqs
  import opened TopicMerge
  import opened CK = ContentKeywords
  import opened SpiskiImport
  import opened SL = SpiskiLaws

  /** The keywords of the first rule of a code: the list the import appends to. */
  function FirstKeywords(rules: seq<ContentRule>, code: string): seq<string> {
    var i := FirstRule(rules, code, 0);
    if i < |rules| then rules[i].keywords else []
  }

  lemma {:induction false} KeywordsPrefix(lower: Lower, a: seq<ContentRule>, b: seq<ContentRule>, code: string, n: nat)
    requires n <= |a| && n <= |b| && forall j :: 0 <= j < n ==> a[j] == b[j]
    ensures KeywordsTo(lower, a, code, n) == KeywordsTo(lower, b, code, n)
  {
    if n > 0 { KeywordsPrefix(lower, a, b, code, n - 1); }
  }

  /** Appending `picked` to rule `r` adds its keywords for the code of that rule and no other. */
  lemma {:induction false} KeywordsAfterAppend(lower: Lower, a: seq<ContentRule>, r: nat, picked: seq<string>,
                                               code: string, n: nat)
    requires r < n <= |a|
    ensures var b := a[r := a[r].(keywords := a[r].keywords + picked)];
      KeywordsTo(lower, b, code, n) ==
        KeywordsTo(lower, a, code, n) + (if a[r].code == code then Lowers(lower, picked) else {})
  {
    var b := a[r := a[r].(keywords := a[r].keywords + picked)];
    if r == n - 1 {
      KeywordsPrefix(lower, a, b, code, n - 1);
      LowersConcat(lower, a[r].keywords, picked, |picked|);
    } else {
      KeywordsAfterAppend(lower, a, r, picked, code, n - 1);
    }
  }

  lemma FirstRuleSameCodes(a: seq<ContentRule>, b: seq<ContentRule>, c: string)
    requires |a| == |b| && forall j :: 0 <= j < |a| ==> a[j].code == b[j].code
    ensures FirstRule(a, c, 0) == FirstRule(b, c, 0)
  {
    var i, j := FirstRule(a, c, 0), FirstRule(b, c, 0);
    assert i < |a| ==> b[i].code == c;
    assert j < |a| ==> a[j].code == c;
  }

  /** `after` adds `more` to the keywords of code `c`. */
  ghost predicate Grown(lower: Lower, before: seq<ContentRule>, after: seq<ContentRule>, c: string, more: seq<string>) {
    && FirstKeywords(after, c) == FirstKeywords(before, c) + more
    && ExistingOf(lower, after, c) == ExistingOf(lower, before, c) + Lowers(lower, more)
  }

  lemma NotGrown(lower: Lower, rules: seq<ContentRule>, c: string)
    ensures Grown(lower, rules, rules, c, [])
  {
    assert FirstKeywords(rules, c) + [] == FirstKeywords(rules, c);
  }

  lemma RuleGrows(lower: Lower, rules: seq<ContentRule>, code: string, picked: seq<string>, c: string)
    requires FirstRule(rules, code, 0) < |rules|
    ensures var r := FirstRule(rules, code, 0);
      Grown(lower, rules, rules[r := rules[r].(keywords := rules[r].keywords + picked)], c,
            if c == code then picked else [])
  {
    var r := FirstRule(rules, code, 0);
    var after := rules[r := rules[r].(keywords := rules[r].keywords + picked)];
    KeywordsAfterAppend(lower, rules, r, picked, c, |rules|);
    FirstRuleSameCodes(after, rules, c);
    NotGrown(lower, rules, c);
  }

  lemma KeywordsOfAppended(lower: Lower, rules: seq<ContentRule>, rule: ContentRule, c: string)
    ensures ExistingOf(lower, rules + [rule], c) ==
      ExistingOf(lower, rules, c) + (if rule.code == c then Lowers(lower, rule.keywords) else {})
  {
    KeywordsPrefix(lower, rules, rules + [rule], c, |rules|);
  }

  lemma FirstKeywordsOfAppended(rules: seq<ContentRule>, rule: ContentRule, c: string)
    requires FirstRule(rules, rule.code, 0) == |rules|
    ensures FirstKeywords(rules + [rule], c) == FirstKeywords(rules, c) + if c == rule.code then rule.keywords else []
  {
    FirstRuleAppend(rules, rule, c, 0);
  }

  lemma RuleAppears(lower: Lower, rules: seq<ContentRule>, rule: ContentRule, c: string)
    requires FirstRule(rules, rule.code, 0) == |rules|
    ensures Grown(lower, rules, rules + [rule], c, if c == rule.code then rule.keywords else [])
  {
    KeywordsOfAppended(lower, rules, rule, c);
    FirstKeywordsOfAppended(rules, rule, c);
  }

  lemma {:induction false} FirstRuleAppend(rules: seq<ContentRule>, rule: ContentRule, c: string, i: nat)
    requires i <= |rules|
    ensures FirstRule(rules + [rule], c, i) ==
      if FirstRule(rules, c, i) < |rules| || rule.code == c then FirstRule(rules, c, i) else |rules| + 1
    decreases |rules| - i
  {
    if i < |rules| && rules[i].code != c { FirstRuleAppend(rules, rule, c, i + 1); }
  }

  /** What adding keywords for `code` does to the keywords of any code `c`. */
  lemma WithKeywordsMeaning(ctx: Context, s: Store, rows: seq<ImportRow>, code: string, picked: seq<string>, c: string)
    ensures Grown(ctx.lower, s.content, WithKeywords(ctx, s, rows, code, picked), c, if c == code then picked else [])
  {
    NotGrown(ctx.lower, s.content, c);
    if picked != [] {
      var r := FirstRule(s.content, code, 0);
      if r < |s.content| {
        RuleGrows(ctx.lower, s.content, code, picked, c);
      } else {
        RuleAppears(ctx.lower, s.content, WithKeywords(ctx, s, rows, code, picked)[|s.content|], c);
      }
    }
  }

  function PicksFor(ctx: Context, s: Store, rows: seq<ImportRow>, code: string): seq<string> {
    Picked(CandidatesOf(rows, code), ExistingOf(ctx.lower, s.content, code))
  }

  lemma GrownThenNothing(lower: Lower, before: seq<ContentRule>, now: seq<ContentRule>, after: seq<ContentRule>,
                         c: string, more: seq<string>)
    requires Grown(lower, before, now, c, more) && Grown(lower, now, after, c, [])
    ensures Grown(lower, before, after, c, more)
  {
    assert FirstKeywords(now, c) + [] == FirstKeywords(now, c);
  }

  lemma NothingThenGrown(lower: Lower, before: seq<ContentRule>, now: seq<ContentRule>, after: seq<ContentRule>,
                         c: string, more: seq<string>)
    requires Grown(lower, before, now, c, []) && Grown(lower, now, after, c, more)
    ensures Grown(lower, before, after, c, more)
  {
    assert FirstKeywords(before, c) + [] == FirstKeywords(before, c);
  }

  /** One code of the layer, seen from code `c`, which is due `picks`. */
  lemma LayerStep(lower: Lower, before: seq<ContentRule>, now: seq<ContentRule>, after: seq<ContentRule>, c: string,
                  picks: seq<string>, had: bool, gets: bool)
    requires !(had && gets) && Grown(lower, before, now, c, if had then picks else [])
    requires Grown(lower, now, after, c, if gets then picks else [])
    ensures Grown(lower, before, after, c, if had || gets then picks else [])
  {
    if gets {
      NothingThenGrown(lower, before, now, after, c, picks);
    } else {
      GrownThenNothing(lower, before, now, after, c, if had then picks else []);
    }
  }

  lemma OneMoreCode(codes: seq<string>, c: string, n: nat)
    requires Distinct(codes) && 0 < n <= |codes|
    ensures c in codes[..n] <==> c in codes[..n - 1] || c == codes[n - 1]
    ensures !(c in codes[..n - 1] && c == codes[n - 1])
  {
    assert codes[..n] == codes[..n - 1] + [codes[n - 1]];
  }

  /** One content layer: every code of the rows gets its picks, no other code changes. */
  lemma {:induction false} ContentLayer(ctx: Context, s: Store, rows: seq<ImportRow>, codes: seq<string>, c: string,
                                        n: nat)
    requires Distinct(codes) && n <= |codes|
    ensures Grown(ctx.lower, s.content, ContentTo(ctx, s, rows, codes, n), c,
                  if c in codes[..n] then PicksFor(ctx, s, rows, c) else [])
  {
    NotGrown(ctx.lower, s.content, c);
    if n > 0 {
      ContentLayer(ctx, s, rows, codes, c, n - 1);
      var code, now := codes[n - 1], ContentTo(ctx, s, rows, codes, n - 1);
      var after, picked := ContentTo(ctx, s, rows, codes, n), PicksFor(ctx, s, rows, code);
      WithKeywordsMeaning(ctx, s.(content := now), rows, code, picked, c);
      OneMoreCode(codes, c, n);
      LayerStep(ctx.lower, s.content, now, after, c, PicksFor(ctx, s, rows, c), c in codes[..n - 1], c == code);
    }
  }

  /** Rules that exist keep their place and fields; their keyword lists only grow at the end. */
  ghost predicate Extends(before: seq<ContentRule>, after: seq<ContentRule>) {
    |before| <= |after| && forall i :: 0 <= i < |before| ==>
      before[i].keywords <= after[i].keywords && after[i] == before[i].(keywords := after[i].keywords)
  }

  lemma WithKeywordsExtends(ctx: Context, s: Store, rows: seq<ImportRow>, code: string, picked: seq<string>)
    ensures Extends(s.content, WithKeywords(ctx, s, rows, code, picked))
  {
  }

  lemma {:induction false} RulesAreKept(ctx: Context, s: Store, rows: seq<ImportRow>, codes: seq<string>, n: nat)
    requires n <= |codes|
    ensures Extends(s.content, ContentTo(ctx, s, rows, codes, n))
  {
    if n > 0 {
      RulesAreKept(ctx, s, rows, codes, n - 1);
      WithKeywordsExtends(ctx, s.(content := ContentTo(ctx, s, rows, codes, n - 1)), rows, codes[n - 1],
                          PicksFor(ctx, s, rows, codes[n - 1]));
    }
  }

  // ---------------------------------------------------------------- k runs

  /** The two files after `k` imports of the same rows. */
  function Runs(lower: Lower, structure: map<string, string>, s: Store, classified: seq<ImportRow>,
                others: seq<ImportRow>, k: nat): Store
  {
    if k == 0 then s
    else Imported(lower, structure, Runs(lower, structure, s, classified, others, k - 1), classified, others)
  }

  /** `_split_keywords` lower-cases what it returns. */
  ghost predicate LowerCased(lower: Lower, kws: seq<string>) {
    forall x :: x in kws ==> lower(x) == x
  }

  lemma {:induction false} LowersOfLower(lower: Lower, s: seq<string>, n: nat)
    requires n <= |s| && LowerCased(lower, s)
    ensures LowersTo(lower, s, n) == Elements(s[..n])
  {
    if n > 0 {
      LowersOfLower(lower, s, n - 1);
      assert s[..n] == s[..n - 1] + [s[n - 1]];
    }
  }

  lemma PicksAreLower(lower: Lower, kws: seq<string>, existing: set<string>)
    requires LowerCased(lower, kws)
    ensures var p := Picked(kws, existing); Lowers(lower, p) == Elements(p)
  {
    var p := Picked(kws, existing);
    EligibleMeaning(kws, existing);
    LowersOfLower(lower, p, |p|);
    assert p[..|p|] == p;
  }

  /** The state of one code after some runs added `added` to what it had. */
  ghost predicate Reached(lower: Lower, s: Store, now: Store, c: string, added: seq<string>) {
    && FirstKeywords(now.content, c) == FirstKeywords(s.content, c) + added
    && ExistingOf(lower, now.content, c) == ExistingOf(lower, s.content, c) + Elements(added)
  }

  /** One run, seen from one code of the classification sheet. */
  lemma RunAdvances(lower: Lower, structure: map<string, string>, s: Store, classified: seq<ImportRow>,
                    others: seq<ImportRow>, c: string)
    requires c in CodesOf(classified) && LowerCased(lower, CandidatesOf(classified, c))
    ensures var after := Imported(lower, structure, s, classified, others);
      var picked := Picked(CandidatesOf(classified, c), ExistingOf(lower, s.content, c));
      Reached(lower, s, after, c, picked)
  {
    var ctx, rows, codes := ContextFor(lower, structure, s, classified), classified + others, CodesOf(classified);
    var merged := StepsTo(ctx, s, rows, |rows|);
    NamesAreKept(ctx, s, rows, |rows|);
    var column := Map(classified, (r: ImportRow) => r.code);
    FirstOccurrencesElements(column);
    ContentLayer(ctx, merged, classified, codes, c, |codes|);
    assert codes[..|codes|] == codes;
    PicksAreLower(lower, CandidatesOf(classified, c), ExistingOf(lower, s.content, c));
  }

  lemma ReachedNext(lower: Lower, s: Store, now: Store, after: Store, c: string, added: seq<string>,
                    picked: seq<string>)
    requires Reached(lower, s, now, c, added) && Reached(lower, now, after, c, picked)
    ensures Reached(lower, s, after, c, added + picked)
  {
    ElementsConcat(added, picked);
  }

  lemma ElementsConcat(a: seq<string>, b: seq<string>)
    ensures Elements(a + b) == Elements(a) + Elements(b)
  {
  }

  /** Stores of which each adds the picks of its predecessor. */
  ghost predicate Chain(lower: Lower, stores: seq<Store>, kws: seq<string>, c: string) {
    forall i :: 0 <= i < |stores| - 1 ==>
      Reached(lower, stores[i], stores[i + 1], c, Picked(kws, ExistingOf(lower, stores[i].content, c)))
  }

  lemma ChainGrows(lower: Lower, stores: seq<Store>, now: Store, next: Store, kws: seq<string>, c: string)
    requires Chain(lower, stores, kws, c) && stores != [] && stores[|stores| - 1] == now
    requires Reached(lower, now, next, c, Picked(kws, ExistingOf(lower, now.content, c)))
    ensures Chain(lower, stores + [next], kws, c)
  {
  }

  lemma {:induction false} PicksAddUp(lower: Lower, stores: seq<Store>, kws: seq<string>, c: string, k: nat)
    requires k < |stores| && Chain(lower, stores, kws, c)
    ensures Reached(lower, stores[0], stores[k], c, AddedBy(kws, ExistingOf(lower, stores[0].content, c), k))
  {
    if k == 0 {
      assert FirstKeywords(stores[0].content, c) + [] == FirstKeywords(stores[0].content, c);
    } else {
      PicksAddUp(lower, stores, kws, c, k - 1);
      ReachedNext(lower, stores[0], stores[k - 1], stores[k], c,
                  AddedBy(kws, ExistingOf(lower, stores[0].content, c), k - 1),
                  Picked(kws, ExistingOf(lower, stores[k - 1].content, c)));
    }
  }

  lemma OneMoreRun(lower: Lower, structure: map<string, string>, s: Store, classified: seq<ImportRow>,
                   others: seq<ImportRow>, c: string, k: nat)
    requires c in CodesOf(classified) && LowerCased(lower, CandidatesOf(classified, c))
    ensures var now := Runs(lower, structure, s, classified, others, k);
      Reached(lower, now, Runs(lower, structure, s, classified, others, k + 1), c,
              Picked(CandidatesOf(classified, c), ExistingOf(lower, now.content, c)))
  {
    RunAdvances(lower, structure, Runs(lower, structure, s, classified, others, k), classified, others, c);
  }

  lemma {:induction false} RunsAreAChain(lower: Lower, structure: map<string, string>, s: Store,
                                         classified: seq<ImportRow>, others: seq<ImportRow>, c: string, k: nat)
    returns (stores: seq<Store>)
    requires c in CodesOf(classified) && LowerCased(lower, CandidatesOf(classified, c))
    ensures |stores| == k + 1 && stores[0] == s && stores[k] == Runs(lower, structure, s, classified, others, k)
    ensures Chain(lower, stores, CandidatesOf(classified, c), c)
  {
    if k == 0 {
      stores := [s];
    } else {
      var before := RunsAreAChain(lower, structure, s, classified, others, c, k - 1);
      var next := Runs(lower, structure, s, classified, others, k);
      OneMoreRun(lower, structure, s, classified, others, c, k - 1);
      ChainGrows(lower, before, before[k - 1], next, CandidatesOf(classified, c), c);
      stores := before + [next];
    }
  }

  lemma RunsAdd(lower: Lower, structure: map<string, string>, s: Store, classified: seq<ImportRow>,
                others: seq<ImportRow>, c: string, k: nat)
    requires c in CodesOf(classified) && LowerCased(lower, CandidatesOf(classified, c))
    ensures Reached(lower, s, Runs(lower, structure, s, classified, others, k), c,
                    AddedBy(CandidatesOf(classified, c), ExistingOf(lower, s.content, c), k))
  {
    var stores := RunsAreAChain(lower, structure, s, classified, others, c, k);
    PicksAddUp(lower, stores, CandidatesOf(classified, c), c, k);
  }

  /** After `k` runs the keywords of a code's first rule are its own and then exactly the first `12 * k`
      of the eligible candidates, in (frequency descending, length, text) order. */
  lemma RunsAdvance(lower: Lower, structure: map<string, string>, s: Store, classified: seq<ImportRow>,
                    others: seq<ImportRow>, c: string, k: nat)
    requires c in CodesOf(classified) && LowerCased(lower, CandidatesOf(classified, c))
    ensures var e := Eligible(CandidatesOf(classified, c), ExistingOf(lower, s.content, c));
      FirstKeywords(Runs(lower, structure, s, classified, others, k).content, c)
      == FirstKeywords(s.content, c) + e[..CK.Min(MAX_PER_CODE * k, |e|)]
  {
    RunsAdd(lower, structure, s, classified, others, c, k);
    ImportsAdvance(CandidatesOf(classified, c), ExistingOf(lower, s.content, c), k);
  }

  /** Convergence: the list stops growing exactly when `12 * k` covers the eligible candidates. */
  lemma RunsConverge(lower: Lower, structure: map<string, string>, s: Store, classified: seq<ImportRow>,
                     others: seq<ImportRow>, c: string, k: nat)
    requires c in CodesOf(classified) && LowerCased(lower, CandidatesOf(classified, c))
    ensures |Eligible(CandidatesOf(classified, c), ExistingOf(lower, s.content, c))| <= MAX_PER_CODE * k <==>
        FirstKeywords(Runs(lower, structure, s, classified, others, k + 1).content, c)
        == FirstKeywords(Runs(lower, structure, s, classified, others, k).content, c)
  {
    var kws, existing := CandidatesOf(classified, c), ExistingOf(lower, s.content, c);
    RunsAdd(lower, structure, s, classified, others, c, k);
    RunsAdd(lower, structure, s, classified, others, c, k + 1);
    ImportsConverge(kws, existing, k);
    SameTail(FirstKeywords(s.content, c), AddedBy(kws, existing, k + 1), AddedBy(kws, existing, k));
  }

  lemma SameTail(front: seq<string>, a: seq<string>, b: seq<string>)
    ensures front + a == front + b <==> a == b
  {
    assert (front + a)[|front|..] == a && (front + b)[|front|..] == b;
  }

  // ---------------------------------------------------------------- all that was there

  /** Nothing is altered or removed: rules stay in front, content rules only gain keywords at their end,
      names stay, topic entries only gain. */
  ghost predicate Keeps(s: Store, after: Store) {
    && s.exact <= after.exact && s.keywordRules == after.keywordRules && Extends(s.content, after.content)
    && (forall c :: c in s.names ==> c in after.names && after.names[c] == s.names[c])
    && (forall c :: c in s.tz ==> c in after.tz && EntryGrows(s.tz[c], after.tz[c]))
  }

  lemma {:induction false} RulesStayInFront(ctx: Context, s: Store, rows: seq<ImportRow>, n: nat)
    requires n <= |rows|
    ensures s.exact <= StepsTo(ctx, s, rows, n).exact
  {
    if n > 0 {
      RulesStayInFront(ctx, s, rows, n - 1);
      NextRule(ctx, s, rows, n - 1);
    }
  }

  lemma ImportKeeps(lower: Lower, structure: map<string, string>, s: Store, classified: seq<ImportRow>,
                    others: seq<ImportRow>)
    ensures Keeps(s, Imported(lower, structure, s, classified, others))
  {
    var ctx, rows, codes := ContextFor(lower, structure, s, classified), classified + others, CodesOf(classified);
    NamesAreKept(ctx, s, rows, |rows|);
    RulesStayInFront(ctx, s, rows, |rows|);
    RulesAreKept(ctx, StepsTo(ctx, s, rows, |rows|), classified, codes, |codes|);
  }

  lemma KeepsTwice(a: Store, b: Store, c: Store)
    requires Keeps(a, b) && Keeps(b, c)
    ensures Keeps(a, c)
  {
  }

  lemma NextRunKeeps(lower: Lower, structure: map<string, string>, s: Store, classified: seq<ImportRow>,
                     others: seq<ImportRow>, k: nat)
    ensures Keeps(Runs(lower, structure, s, classified, others, k),
                  Runs(lower, structure, s, classified, others, k + 1))
  {
    ImportKeeps(lower, structure, Runs(lower, structure, s, classified, others, k), classified, others);
  }

  ghost predicate KeepsChain(stores: seq<Store>) {
    forall i :: 0 <= i < |stores| - 1 ==> Keeps(stores[i], stores[i + 1])
  }

  lemma KeepsChainGrows(stores: seq<Store>, now: Store, next: Store)
    requires KeepsChain(stores) && stores != [] && stores[|stores| - 1] == now && Keeps(now, next)
    ensures KeepsChain(stores + [next])
  {
  }

  lemma {:induction false} KeepsAlong(stores: seq<Store>, k: nat)
    requires k < |stores| && KeepsChain(stores)
    ensures Keeps(stores[0], stores[k])
  {
    if k > 0 {
      KeepsAlong(stores, k - 1);
      KeepsTwice(stores[0], stores[k - 1], stores[k]);
    }
  }

  lemma {:induction false} RunsAreAKeepsChain(lower: Lower, structure: map<string, string>, s: Store,
                                              classified: seq<ImportRow>, others: seq<ImportRow>, k: nat)
    returns (stores: seq<Store>)
    ensures |stores| == k + 1 && stores[0] == s && stores[k] == Runs(lower, structure, s, classified, others, k)
    ensures KeepsChain(stores)
  {
    if k == 0 {
      stores := [s];
    } else {
      var before := RunsAreAKeepsChain(lower, structure, s, classified, others, k - 1);
      var next := Runs(lower, structure, s, classified, others, k);
      NextRunKeeps(lower, structure, s, classified, others, k - 1);
      KeepsChainGrows(before, before[k - 1], next);
      stores := before + [next];
    }
  }

  /** No number of imports alters or removes anything that was there. */
  lemma RunsKeep(lower: Lower, structure: map<string, string>, s: Store, classified: seq<ImportRow>,
                 others: seq<ImportRow>, k: nat)
    ensures Keeps(s, Runs(lower, structure, s, classified, others, k))
  {
    var stores := RunsAreAKeepsChain(lower, structure, s, classified, others, k);
    KeepsAlong(stores, k);
  }

  // ---------------------------------------------------------------- the whole run converges

  /** The candidates of every code of the sheet are used up after `k` runs. */
  ghost predicate AllCovered(lower: Lower, s: Store, classified: seq<ImportRow>, k: nat) {
    forall c :: c in CodesOf(classified) ==>
      |Eligible(CandidatesOf(classified, c), ExistingOf(lower, s.content, c))| <= MAX_PER_CODE * k
  }

  ghost predicate AllLowerCased(lower: Lower, classified: seq<ImportRow>) {
    forall c :: c in CodesOf(classified) ==> LowerCased(lower, CandidatesOf(classified, c))
  }

  lemma NothingLeftToPick(lower: Lower, structure: map<string, string>, s: Store, classified: seq<ImportRow>,
                          others: seq<ImportRow>, c: string, k: nat)
    requires c in CodesOf(classified) && LowerCased(lower, CandidatesOf(classified, c))
    requires |Eligible(CandidatesOf(classified, c), ExistingOf(lower, s.content, c))| <= MAX_PER_CODE * k
    ensures Picked(CandidatesOf(classified, c),
                   ExistingOf(lower, Runs(lower, structure, s, classified, others, k).content, c)) == []
  {
    var kws, existing := CandidatesOf(classified, c), ExistingOf(lower, s.content, c);
    var e := Eligible(kws, existing);
    RunsAdd(lower, structure, s, classified, others, c, k);
    ImportsAdvance(kws, existing, k);
    EligibleAfter(kws, existing, |e|);
    assert e[..|e|] == e && e[|e|..] == [];
  }

  lemma {:induction false} NothingPickedNothingChanged(ctx: Context, s: Store, rows: seq<ImportRow>, codes: seq<string>,
                                                       n: nat)
    requires n <= |codes| && forall c :: c in codes ==> PicksFor(ctx, s, rows, c) == []
    ensures ContentTo(ctx, s, rows, codes, n) == s.content
  {
    if n > 0 {
      NothingPickedNothingChanged(ctx, s, rows, codes, n - 1);
      assert codes[n - 1] in codes;
    }
  }

  lemma ContentStays(lower: Lower, structure: map<string, string>, now: Store, classified: seq<ImportRow>,
                     others: seq<ImportRow>)
    requires forall c :: c in CodesOf(classified) ==>
      Picked(CandidatesOf(classified, c), ExistingOf(lower, now.content, c)) == []
    ensures Imported(lower, structure, now, classified, others).content == now.content
  {
    var ctx, rows, codes := ContextFor(lower, structure, now, classified), classified + others, CodesOf(classified);
    NamesAreKept(ctx, now, rows, |rows|);
    NothingPickedNothingChanged(ctx, StepsTo(ctx, now, rows, |rows|), classified, codes, |codes|);
  }

  lemma OnlyContentMoves(lower: Lower, structure: map<string, string>, s: Store, classified: seq<ImportRow>,
                         others: seq<ImportRow>, k: nat)
    requires LowerTwice(lower) && k >= 1
    ensures var now := Runs(lower, structure, s, classified, others, k);
      Runs(lower, structure, s, classified, others, k + 1)
        == now.(content := Imported(lower, structure, now, classified, others).content)
  {
    SecondImportAddsNothing(lower, structure, Runs(lower, structure, s, classified, others, k - 1), classified, others);
  }

  /** From the first run on: a further import changes nothing in either file if and only if the runs so
      far cover the eligible candidates of every code. */
  lemma ImportConverges(lower: Lower, structure: map<string, string>, s: Store, classified: seq<ImportRow>,
                        others: seq<ImportRow>, k: nat)
    requires LowerTwice(lower) && AllLowerCased(lower, classified) && k >= 1
    ensures Runs(lower, structure, s, classified, others, k + 1) == Runs(lower, structure, s, classified, others, k)
      <==> AllCovered(lower, s, classified, k)
  {
    OnlyContentMoves(lower, structure, s, classified, others, k);
    if AllCovered(lower, s, classified, k) {
      forall c | c in CodesOf(classified)
        ensures Picked(CandidatesOf(classified, c),
                       ExistingOf(lower, Runs(lower, structure, s, classified, others, k).content, c)) == []
      {
        NothingLeftToPick(lower, structure, s, classified, others, c, k);
      }
      ContentStays(lower, structure, Runs(lower, structure, s, classified, others, k), classified, others);
    } else {
      var c :| c in CodesOf(classified) &&
        |Eligible(CandidatesOf(classified, c), ExistingOf(lower, s.content, c))| > MAX_PER_CODE * k;
      RunsConverge(lower, structure, s, classified, others, c, k);
    }
  }
}
