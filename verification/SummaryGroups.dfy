/** The sorted rows of the summary, partitioned by organisation and by direction
    (scripts/export_email_classification_summary.py). */
module SummaryGroups {
  import opened Text
  import opened Seqs
  import opened Ordering
  import opened Summary
  import opened SummaryRows

  const DIRECTION_ORDER: seq<string> := ["КС", "ПР", "СС", "МС", "АЛ", "МГ", "АМ", "МИ", "БМ", "—"]

  function OrgName(row: Item): string {
    row.entry.orgCode
  }

  /** Rows without a direction go under the dash. */
  function DirectionName(row: Item): string {
    if row.entry.direction == "" then "—" else row.entry.direction
  }

  datatype Group = Group(name: string, rows: seq<Item>)

  function TextOrder(): Less<string> {
    (a, b) => TextLess(a, b)
  }

  lemma TextOrderIsTotal()
    ensures StrictOrder(TextOrder()) && forall s: seq<string> :: TotalOn(TextOrder(), s)
  {
    forall a: string, b: string
      ensures (a != b ==> TextLess(a, b) || TextLess(b, a)) && !(TextLess(a, b) && TextLess(b, a))
    {
      TextLessTotal(a, b);
    }
    forall a, b, c | TextLess(a, b) && TextLess(b, c) ensures TextLess(a, c) { TextLessTransitive(a, b, c); }
  }

  /** `sorted(...)` of the names that are not listed, one insertion for each new one. */
  function OthersTo(rows: seq<Item>, name: Item -> string, order: seq<string>, n: nat)
    : seq<string>
    requires n <= |rows|
  {
    if n == 0 then []
    else
      var before := OthersTo(rows, name, order, n - 1);
      if name(rows[n - 1]) in order || name(rows[n - 1]) in before then before
      else Insert(TextOrder(), before, name(rows[n - 1]))
  }

  function MembersOf(rows: seq<Item>, name: Item -> string, x: string): seq<Item> {
    Filter(rows, (r: Item) => name(r) == x)
  }

  function GroupsTo(rows: seq<Item>, name: Item -> string, names: seq<string>, n: nat): seq<Group>
    requires n <= |names|
  {
    if n == 0 then []
    else
      var members := MembersOf(rows, name, names[n - 1]);
      if members == [] then GroupsTo(rows, name, names, n - 1)
      else GroupsTo(rows, name, names, n - 1) + [Group(names[n - 1], members)]
  }

  /** `build_by_org_rows` and `build_by_direction_rows`: the listed names first, then the others. */
  function Groups(rows: seq<Item>, name: Item -> string, order: seq<string>): seq<Group> {
    var names := order + OthersTo(rows, name, order, |rows|);
    GroupsTo(rows, name, names, |names|)
  }

  lemma AscendingIsDistinct(s: seq<string>)
    requires Ascending(TextOrder(), s)
    ensures Distinct(s)
  {
    forall i, j | 0 <= i < j < |s| ensures s[i] != s[j] { TextLessTotal(s[i], s[j]); }
  }

  lemma {:induction false} OthersElements(rows: seq<Item>, name: Item -> string,
                                          order: seq<string>, n: nat)
    requires n <= |rows|
    ensures forall x :: x in OthersTo(rows, name, order, n) <==>
      x !in order && exists i :: 0 <= i < n && name(rows[i]) == x
  {
    if n > 0 {
      OthersElements(rows, name, order, n - 1);
      var before, x := OthersTo(rows, name, order, n - 1), name(rows[n - 1]);
      if x !in order && x !in before { InsertElements(TextOrder(), before, x); }
    }
  }

  lemma {:induction false} OthersAscending(rows: seq<Item>, name: Item -> string, order: seq<string>, n: nat)
    requires n <= |rows|
    ensures Ascending(TextOrder(), OthersTo(rows, name, order, n)) && Distinct(OthersTo(rows, name, order, n))
  {
    if n > 0 {
      OthersAscending(rows, name, order, n - 1);
      var before, x := OthersTo(rows, name, order, n - 1), name(rows[n - 1]);
      TextOrderIsTotal();
      if x !in before { InsertAscending(TextOrder(), before, x); }
    }
    AscendingIsDistinct(OthersTo(rows, name, order, n));
  }

  lemma {:induction false} FilterMembers(rows: seq<Item>, keep: Item -> bool, n: nat)
    requires n <= |rows|
    ensures forall r :: r in FilterTo(rows, keep, n) <==> r in rows[..n] && keep(r)
  {
    if n > 0 {
      FilterMembers(rows, keep, n - 1);
      assert rows[..n] == rows[..n - 1] + [rows[n - 1]];
    }
  }

  lemma MembersMeaning(rows: seq<Item>, name: Item -> string, x: string)
    ensures forall r :: r in MembersOf(rows, name, x) <==> r in rows && name(r) == x
  {
    FilterMembers(rows, (r: Item) => name(r) == x, |rows|);
    assert rows[..|rows|] == rows;
  }

  /** A group is all the rows of its name, in table order, and at least one. */
  ghost predicate TrueGroup(rows: seq<Item>, name: Item -> string, g: Group) {
    g.rows == MembersOf(rows, name, g.name) && g.rows != []
  }

  ghost predicate TrueGroups(rows: seq<Item>, name: Item -> string, names: seq<string>, gs: seq<Group>) {
    && (forall i :: 0 <= i < |gs| ==> TrueGroup(rows, name, gs[i]) && gs[i].name in names)
    && (forall i, j :: 0 <= i < j < |gs| ==> gs[i].name != gs[j].name)
  }

  lemma OneMoreGroup(rows: seq<Item>, name: Item -> string, names: seq<string>, gs: seq<Group>, g: Group)
    requires TrueGroups(rows, name, names, gs) && g.name !in names && TrueGroup(rows, name, g)
    ensures TrueGroups(rows, name, names + [g.name], gs + [g])
  {
    var more := gs + [g];
    forall i, j | 0 <= i < j < |more| ensures more[i].name != more[j].name {
      assert more[i] == gs[i] && gs[i].name in names;
    }
  }

  lemma {:induction false} GroupsAreTrue(rows: seq<Item>, name: Item -> string, names: seq<string>, n: nat)
    requires n <= |names| && Distinct(names)
    ensures TrueGroups(rows, name, names[..n], GroupsTo(rows, name, names, n))
  {
    if n > 0 {
      GroupsAreTrue(rows, name, names, n - 1);
      var before, x := GroupsTo(rows, name, names, n - 1), names[n - 1];
      assert names[..n] == names[..n - 1] + [x];
      if MembersOf(rows, name, x) != [] {
        OneMoreGroup(rows, name, names[..n - 1], before, Group(x, MembersOf(rows, name, x)));
      }
    }
  }

  lemma {:induction false} NameHasGroup(rows: seq<Item>, name: Item -> string, names: seq<string>, n: nat, k: nat)
    requires k < n <= |names| && MembersOf(rows, name, names[k]) != []
    ensures exists i :: 0 <= i < |GroupsTo(rows, name, names, n)| && GroupsTo(rows, name, names, n)[i].name == names[k]
  {
    var gs := GroupsTo(rows, name, names, n);
    if k == n - 1 {
      assert gs[|gs| - 1].name == names[k];
    } else {
      NameHasGroup(rows, name, names, n - 1, k);
      var i :| 0 <= i < |GroupsTo(rows, name, names, n - 1)| && GroupsTo(rows, name, names, n - 1)[i].name == names[k];
      assert gs[i].name == names[k];
    }
  }

  lemma AllNamesListed(rows: seq<Item>, name: Item -> string, order: seq<string>)
    requires Distinct(order)
    ensures var names := order + OthersTo(rows, name, order, |rows|);
      Distinct(names) && forall r :: r in rows ==> name(r) in names
  {
    OthersElements(rows, name, order, |rows|);
    OthersAscending(rows, name, order, |rows|);
    var others := OthersTo(rows, name, order, |rows|);
    forall i, j | 0 <= i < |order| && 0 <= j < |others| ensures order[i] != others[j] { assert others[j] in others; }
    forall r | r in rows ensures name(r) in order + others {
      var i :| 0 <= i < |rows| && rows[i] == r;
      assert name(r) in order || name(r) in others;
    }
  }

  /** Every row falls into exactly one group, the one of its name; groups hold nothing else, none is
      empty, and no name has two. */
  ghost predicate Partitions(rows: seq<Item>, name: Item -> string, gs: seq<Group>) {
    && (forall i :: 0 <= i < |gs| ==> TrueGroup(rows, name, gs[i]))
    && (forall i, j :: 0 <= i < j < |gs| ==> gs[i].name != gs[j].name)
    && (forall r :: r in rows ==> exists i :: 0 <= i < |gs| && gs[i].name == name(r) && r in gs[i].rows)
  }

  lemma GroupsPartition(rows: seq<Item>, name: Item -> string, order: seq<string>)
    requires Distinct(order)
    ensures Partitions(rows, name, Groups(rows, name, order))
  {
    var names := order + OthersTo(rows, name, order, |rows|);
    var gs := Groups(rows, name, order);
    AllNamesListed(rows, name, order);
    GroupsAreTrue(rows, name, names, |names|);
    forall r | r in rows ensures exists i :: 0 <= i < |gs| && gs[i].name == name(r) && r in gs[i].rows {
      MembersMeaning(rows, name, name(r));
      assert r in MembersOf(rows, name, name(r));
      var k :| 0 <= k < |names| && names[k] == name(r);
      NameHasGroup(rows, name, names, |names|, k);
      var i :| 0 <= i < |gs| && gs[i].name == names[k];
      assert gs[i].rows == MembersOf(rows, name, name(r));
    }
  }

  lemma {:induction false} GroupNamesTo(rows: seq<Item>, name: Item -> string, names: seq<string>, n: nat)
    requires n <= |names|
    ensures Map(GroupsTo(rows, name, names, n), (g: Group) => g.name)
         == FilterTo(names, x => MembersOf(rows, name, x) != [], n)
  {
    if n > 0 { GroupNamesTo(rows, name, names, n - 1); }
  }

  /** The groups come in the fixed order, those it does not list after it in text order; names without
      rows are passed over. */
  lemma GroupsComeInOrder(rows: seq<Item>, name: Item -> string, order: seq<string>)
    ensures var others := OthersTo(rows, name, order, |rows|);
      && Map(Groups(rows, name, order), (g: Group) => g.name)
           == Filter(order + others, x => MembersOf(rows, name, x) != [])
      && Ascending(TextOrder(), others)
      && (forall x :: x in others <==> x !in order && exists r :: r in rows && name(r) == x)
  {
    var others := OthersTo(rows, name, order, |rows|);
    OthersElements(rows, name, order, |rows|);
    OthersAscending(rows, name, order, |rows|);
    GroupNamesTo(rows, name, order + others, |order + others|);
    forall x ensures x in others <==> x !in order && exists r :: r in rows && name(r) == x {
      if r :| r in rows && name(r) == x { var i :| 0 <= i < |rows| && rows[i] == r; }
    }
  }

  function RowsIn(gs: seq<Group>, n: nat): nat
    requires n <= |gs|
  {
    if n == 0 then 0 else RowsIn(gs, n - 1) + |gs[n - 1].rows|
  }

  lemma {:induction false} RowsInPrefix(gs: seq<Group>, g: Group, n: nat)
    requires n <= |gs|
    ensures RowsIn(gs + [g], n) == RowsIn(gs, n)
  {
    if n > 0 { RowsInPrefix(gs, g, n - 1); }
  }

  lemma {:induction false} OneMoreName(rows: seq<Item>, name: Item -> string, names: seq<string>, x: string, k: nat)
    requires k <= |rows| && x !in names
    ensures CountTo(rows, (r: Item) => name(r) in names + [x], k)
         == CountTo(rows, (r: Item) => name(r) in names, k) + |FilterTo(rows, (r: Item) => name(r) == x, k)|
  {
    if k > 0 { OneMoreName(rows, name, names, x, k - 1); }
  }

  lemma {:induction false} GroupSizes(rows: seq<Item>, name: Item -> string, names: seq<string>, n: nat)
    requires n <= |names| && Distinct(names)
    ensures var gs := GroupsTo(rows, name, names, n);
      RowsIn(gs, |gs|) == Count(rows, (r: Item) => name(r) in names[..n])
  {
    if n == 0 {
      CountNone(rows, (r: Item) => name(r) in names[..n], |rows|);
    } else {
      GroupSizes(rows, name, names, n - 1);
      var gs, x := GroupsTo(rows, name, names, n - 1), names[n - 1];
      OneMoreName(rows, name, names[..n - 1], x, |rows|);
      assert names[..n] == names[..n - 1] + [x];
      RowsInPrefix(gs, Group(x, MembersOf(rows, name, x)), |gs|);
    }
  }

  lemma {:induction false} CountNone<T>(s: seq<T>, p: T -> bool, n: nat)
    requires n <= |s| && forall x :: x in s ==> !p(x)
    ensures CountTo(s, p, n) == 0
  {
    if n > 0 { CountNone(s, p, n - 1); }
  }

  lemma {:induction false} CountAll<T>(s: seq<T>, p: T -> bool, n: nat)
    requires n <= |s| && forall x :: x in s ==> p(x)
    ensures CountTo(s, p, n) == n
  {
    if n > 0 { CountAll(s, p, n - 1); }
  }

  /** Counted with multiplicity, too, the groups hold exactly the rows of the table. */
  lemma GroupSizesAddUp(rows: seq<Item>, name: Item -> string, order: seq<string>)
    requires Distinct(order)
    ensures var gs := Groups(rows, name, order); RowsIn(gs, |gs|) == |rows|
  {
    var names := order + OthersTo(rows, name, order, |rows|);
    AllNamesListed(rows, name, order);
    GroupSizes(rows, name, names, |names|);
    assert names[..|names|] == names;
    CountAll(rows, (r: Item) => name(r) in names, |rows|);
  }

  lemma ScriptOrdersAreDistinct()
    ensures Distinct(ORG_ORDER) && Distinct(DIRECTION_ORDER)
  {
    forall i, j | 0 <= i < j < |ORG_ORDER| ensures ORG_ORDER[i] != ORG_ORDER[j] {
      assert ORG_ORDER[i][0] != ORG_ORDER[j][0] || ORG_ORDER[i][1] != ORG_ORDER[j][1];
    }
    forall i, j | 0 <= i < j < |DIRECTION_ORDER| ensures DIRECTION_ORDER[i] != DIRECTION_ORDER[j] {
      assert j == 9 || DIRECTION_ORDER[i][0] != DIRECTION_ORDER[j][0] || DIRECTION_ORDER[i][1] != DIRECTION_ORDER[j][1];
    }
  }

  function Bucket(buckets: map<string, seq<Item>>, x: string): seq<Item> {
    if x in buckets then buckets[x] else []
  }

  function MembersTo(rows: seq<Item>, name: Item -> string, x: string, n: nat): seq<Item>
    requires n <= |rows|
  {
    FilterTo(rows, (r: Item) => name(r) == x, n)
  }

  lemma NextMember(rows: seq<Item>, name: Item -> string, x: string, n: nat)
    requires n < |rows|
    ensures var earlier := MembersTo(rows, name, x, n);
      MembersTo(rows, name, x, n + 1) == if name(rows[n]) == x then earlier + [rows[n]] else earlier
  {
  }

  /** The grouping dictionary, and the names in it that are not listed, sorted. */
  method FillBuckets(rows: seq<Item>, name: Item -> string, order: seq<string>)
    returns (buckets: map<string, seq<Item>>, others: seq<string>)
    ensures forall x :: Bucket(buckets, x) == MembersOf(rows, name, x)
    ensures others == OthersTo(rows, name, order, |rows|)
  {
    buckets, others := map[], [];
    for i := 0 to |rows|
      invariant forall x :: Bucket(buckets, x) == MembersTo(rows, name, x, i)
      invariant others == OthersTo(rows, name, order, i)
    {
      var x := name(rows[i]);
      ghost var earlier := buckets;
      buckets := buckets[x := Bucket(buckets, x) + [rows[i]]];
      forall y ensures Bucket(buckets, y) == MembersTo(rows, name, y, i + 1) {
        NextMember(rows, name, y, i);
        assert Bucket(earlier, y) == MembersTo(rows, name, y, i);
      }
      if x !in order && x !in others { others := Insert(TextOrder(), others, x); }
    }
    assert forall x :: MembersTo(rows, name, x, |rows|) == MembersOf(rows, name, x);
  }

  lemma OthersKeepTheirBuckets(buckets: map<string, seq<Item>>, rows: seq<Item>, name: Item -> string,
                               names: seq<string>, k: nat)
    requires Distinct(names) && k < |names|
    requires forall j :: k <= j < |names| ==> Bucket(buckets, names[j]) == MembersOf(rows, name, names[j])
    ensures forall j :: k < j < |names| ==> Bucket(buckets - {names[k]}, names[j]) == MembersOf(rows, name, names[j])
  {
  }

  /** The groups in the order of their names; every bucket is popped as it is used. */
  method BuildGroups(rows: seq<Item>, name: Item -> string, order: seq<string>)
    returns (gs: seq<Group>)
    requires Distinct(order)
    ensures gs == Groups(rows, name, order)
  {
    var buckets, others := FillBuckets(rows, name, order);
    var names := order + others;
    assert Distinct(names) by { AllNamesListed(rows, name, order); }
    gs := [];
    for k := 0 to |names|
      invariant gs == GroupsTo(rows, name, names, k)
      invariant forall j :: k <= j < |names| ==> Bucket(buckets, names[j]) == MembersOf(rows, name, names[j])
    {
      var members := Bucket(buckets, names[k]);
      OthersKeepTheirBuckets(buckets, rows, name, names, k);
      buckets := buckets - {names[k]};
      if members != [] { gs := gs + [Group(names[k], members)]; }
    }
  }

  /** The row is in one group and in no other. */
  ghost predicate InOneGroup(gs: seq<Group>, row: Item) {
    exists i :: 0 <= i < |gs| && row in gs[i].rows && forall j :: 0 <= j < |gs| && row in gs[j].rows ==> j == i
  }

  lemma PartitionMeaning(rows: seq<Item>, name: Item -> string, gs: seq<Group>, row: Item)
    requires Partitions(rows, name, gs) && row in rows
    ensures InOneGroup(gs, row)
  {
    var i :| 0 <= i < |gs| && gs[i].name == name(row) && row in gs[i].rows;
    forall j | 0 <= j < |gs| && row in gs[j].rows ensures j == i {
      assert TrueGroup(rows, name, gs[j]);
      MembersMeaning(rows, name, gs[j].name);
    }
  }

  /** `build_by_org_rows` and `build_by_direction_rows` on the rows the build returns: each row of the table
      is in exactly one organisation group and in exactly one direction group. */
  lemma SummaryIsPartitionedTwice(table: map<Key, Entry>, rows: seq<Item>, key: Key)
    requires SortedRows(table, table.Keys, rows)
    ensures Partitions(rows, OrgName, Groups(rows, OrgName, ORG_ORDER))
    ensures Partitions(rows, DirectionName, Groups(rows, DirectionName, DIRECTION_ORDER))
    ensures key in table ==>
      && InOneGroup(Groups(rows, OrgName, ORG_ORDER), Item(key, table[key]))
      && InOneGroup(Groups(rows, DirectionName, DIRECTION_ORDER), Item(key, table[key]))
  {
    ScriptOrdersAreDistinct();
    GroupsPartition(rows, OrgName, ORG_ORDER);
    GroupsPartition(rows, DirectionName, DIRECTION_ORDER);
    if key in table {
      assert Item(key, table[key]) in rows;
      PartitionMeaning(rows, OrgName, Groups(rows, OrgName, ORG_ORDER), Item(key, table[key]));
      PartitionMeaning(rows, DirectionName, Groups(rows, DirectionName, DIRECTION_ORDER), Item(key, table[key]));
    }
  }
}
