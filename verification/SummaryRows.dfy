/** The rows of the summary, sorted (scripts/export_email_classification_summary.py). A row's key is part
    of the sort key, so the result does not depend on the order in which the table was filled. */
module SummaryRows {
  import opened Text
  import opened Ordering
  import opened Summary
  import opened SummaryMeaning

  datatype Item = Item(key: Key, entry: Entry)

  /** `ORG_ORDER.index(org)` from place `i` on, 99 for an organisation that is not listed. */
  function OrgRank(org: string, i: nat): nat
    requires i <= |ORG_ORDER|
    decreases |ORG_ORDER| - i
  {
    if i == |ORG_ORDER| then 99 else if ORG_ORDER[i] == org then i else OrgRank(org, i + 1)
  }

  /** Rows without a direction come last in their organisation. */
  function DirectionKey(e: Entry): string {
    if e.direction == "" then "ZZ" else e.direction
  }

  /** By organisation, direction, code and e-mail. */
  predicate RowLess(a: Item, b: Item) {
    var ra, rb := OrgRank(a.entry.orgCode, 0), OrgRank(b.entry.orgCode, 0);
    var da, db := DirectionKey(a.entry), DirectionKey(b.entry);
    if ra != rb then ra < rb
    else if da != db then TextLess(da, db)
    else if a.key.1 != b.key.1 then TextLess(a.key.1, b.key.1)
    else TextLess(a.key.0, b.key.0)
  }

  ghost predicate IsOrgPlace(org: string, place: nat) {
    var listed := ["НП", "АЛ", "МГ", "АМ", "МИ", "БМ"];
    if org in listed then place < 6 && listed[place] == org else place == 99
  }

  /** The one text is before the other in code-point order, or they are the same and `next` decides. */
  ghost predicate ThenBy(s: string, t: string, next: bool) {
    ComesBefore(s, t) || (s == t && next)
  }

  /** By the place of the organisation (НП, АЛ, МГ, АМ, МИ, БМ, any other), direction (`ZZ` for none),
      code and e-mail. */
  ghost predicate Precedes(a: Item, b: Item) {
    exists p, q :: IsOrgPlace(a.entry.orgCode, p) && IsOrgPlace(b.entry.orgCode, q)
      && (p < q
          || (p == q && ThenBy(if a.entry.direction == "" then "ZZ" else a.entry.direction,
                               if b.entry.direction == "" then "ZZ" else b.entry.direction,
                               ThenBy(a.key.1, b.key.1, ComesBefore(a.key.0, b.key.0)))))
  }

  lemma OrgRankIsPlace(org: string)
    ensures IsOrgPlace(org, OrgRank(org, 0))
    ensures forall p :: IsOrgPlace(org, p) ==> p == OrgRank(org, 0)
  {
    var o := ORG_ORDER;
    assert o[0] == "НП" && o[1] == "АЛ" && o[2] == "МГ" && o[3] == "АМ" && o[4] == "МИ" && o[5] == "БМ";
    assert OrgRank(org, 5) == if org == o[5] then 5 else 99;
    assert OrgRank(org, 3) == if org == o[3] then 3 else if org == o[4] then 4 else OrgRank(org, 5);
    assert OrgRank(org, 1) == if org == o[1] then 1 else if org == o[2] then 2 else OrgRank(org, 3);
  }

  lemma RowLessPrecedes(a: Item, b: Item)
    ensures RowLess(a, b) <==> Precedes(a, b)
  {
    OrgRankIsPlace(a.entry.orgCode);
    OrgRankIsPlace(b.entry.orgCode);
    var da, db := DirectionKey(a.entry), DirectionKey(b.entry);
    TextLessMeaning(da, db);
    TextLessTotal(da, db);
    TextLessMeaning(a.key.1, b.key.1);
    TextLessTotal(a.key.1, b.key.1);
    TextLessMeaning(a.key.0, b.key.0);
  }

  function RowOrder(): Less<Item> {
    (a, b) => RowLess(a, b)
  }

  lemma RowLessAsymmetric(a: Item, b: Item)
    ensures !(RowLess(a, b) && RowLess(b, a))
    ensures a.key != b.key ==> RowLess(a, b) || RowLess(b, a)
  {
    TextLessTotal(DirectionKey(a.entry), DirectionKey(b.entry));
    TextLessTotal(a.key.1, b.key.1);
    TextLessTotal(a.key.0, b.key.0);
  }

  lemma TextChain(a: string, b: string, c: string)
    requires (a == b || TextLess(a, b)) && (b == c || TextLess(b, c))
    ensures if a == b && b == c then a == c else TextLess(a, c) && a != c
  {
    if a != b && b != c { TextLessTransitive(a, b, c); }
    TextLessTotal(a, c);
  }

  lemma RowLessTransitive(a: Item, b: Item, c: Item)
    requires RowLess(a, b) && RowLess(b, c)
    ensures RowLess(a, c)
  {
    var da, db, dc := DirectionKey(a.entry), DirectionKey(b.entry), DirectionKey(c.entry);
    if OrgRank(a.entry.orgCode, 0) == OrgRank(b.entry.orgCode, 0) == OrgRank(c.entry.orgCode, 0) {
      TextChain(da, db, dc);
      if da == db == dc {
        TextChain(a.key.1, b.key.1, c.key.1);
        if a.key.1 == b.key.1 == c.key.1 { TextChain(a.key.0, b.key.0, c.key.0); }
      }
    }
  }

  lemma RowOrderIsStrict()
    ensures StrictOrder(RowOrder())
  {
    forall a, b ensures !(RowLess(a, b) && RowLess(b, a)) { RowLessAsymmetric(a, b); }
    forall a, b, c | RowLess(a, b) && RowLess(b, c) ensures RowLess(a, c) { RowLessTransitive(a, b, c); }
  }

  /** The rows of the table whose keys are in `keys`, each once, in order. */
  ghost predicate SortedRows(table: map<Key, Entry>, keys: set<Key>, rows: seq<Item>) {
    && Ascending(RowOrder(), rows)
    && forall x :: x in rows <==> x.key in keys && x.key in table && table[x.key] == x.entry
  }

  lemma OneMoreRow(table: map<Key, Entry>, keys: set<Key>, rows: seq<Item>, key: Key)
    requires SortedRows(table, keys, rows) && key in table && key !in keys
    ensures SortedRows(table, keys + {key}, Insert(RowOrder(), rows, Item(key, table[key])))
  {
    var x := Item(key, table[key]);
    RowOrderIsStrict();
    forall a, b | a in rows + [x] && b in rows + [x] && a != b ensures RowLess(a, b) || RowLess(b, a) {
      RowLessAsymmetric(a, b);
    }
    InsertElements(RowOrder(), rows, x);
    InsertAscending(RowOrder(), rows, x);
  }

  /** `result = list(merged.values())` and `result.sort(...)`; the dictionary may list its rows in any order. */
  method SortRows(table: map<Key, Entry>) returns (rows: seq<Item>)
    ensures SortedRows(table, table.Keys, rows)
  {
    rows := [];
    var done, left: set<Key> := {}, table.Keys;
    while left != {}
      invariant done + left == table.Keys && done !! left && SortedRows(table, done, rows)
    {
      var key :| key in left;
      OneMoreRow(table, done, rows, key);
      rows := Insert(RowOrder(), rows, Item(key, table[key]));
      done, left := done + {key}, left - {key};
    }
  }

  lemma SortedMeansPrecedes(rows: seq<Item>)
    requires Ascending(RowOrder(), rows)
    ensures forall i, j :: 0 <= i < j < |rows| ==> Precedes(rows[i], rows[j])
  {
    forall i, j | 0 <= i < j < |rows| ensures Precedes(rows[i], rows[j]) {
      assert RowLess(rows[i], rows[j]);
      RowLessPrecedes(rows[i], rows[j]);
    }
  }

  /** `build_summary_rows`: the rows of a table that tells its sources, by organisation, direction, code
      and e-mail. */
  method BuildSummaryRows(env: Env, src: Sources) returns (rows: seq<Item>)
    ensures var calls := AllCalls(env, src); var table := CalledTo(env, calls, |calls|);
      SortedRows(table, table.Keys, rows) && TableTold(env, src, table)
    ensures forall i, j :: 0 <= i < j < |rows| ==> Precedes(rows[i], rows[j])
  {
    var table := BuildSummary(env, src);
    rows := SortRows(table.merged);
    BuiltTableIsTold(env, src);
    SortedMeansPrecedes(rows);
  }

  /** The sorted list is determined by the table, and lists each key of the table exactly once. */
  lemma SortedRowsAreDetermined(table: map<Key, Entry>, a: seq<Item>, b: seq<Item>)
    requires SortedRows(table, table.Keys, a) && SortedRows(table, table.Keys, b)
    ensures a == b
    ensures forall i, j :: 0 <= i < j < |a| ==> a[i].key != a[j].key
    ensures forall k :: k in table <==> exists i :: 0 <= i < |a| && a[i].key == k
  {
    RowOrderIsStrict();
    AscendingUnique(RowOrder(), a, b);
    forall i, j | 0 <= i < j < |a| ensures a[i].key != a[j].key {
      assert a[i] in a && a[j] in a;
      assert RowLess(a[i], a[j]);
      RowLessAsymmetric(a[i], a[j]);
    }
    forall k | k in table ensures exists i :: 0 <= i < |a| && a[i].key == k {
      assert Item(k, table[k]) in a;
      var i :| 0 <= i < |a| && a[i] == Item(k, table[k]);
    }
    forall i | 0 <= i < |a| ensures a[i].key in table { assert a[i] in a; }
  }
}
