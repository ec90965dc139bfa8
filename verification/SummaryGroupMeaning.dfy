/** The two partitions of the summary, said of the rows' own fields. */
module SummaryGroupMeaning {
  import opened Text
  import opened Seqs
  import opened Dedup
  import opened Ordering
  import opened Summary
  import opened SummaryRows
  import opened SummaryGroups

  ghost predicate HasOrg(row: Item, org: string) {
    row.entry.orgCode == org
  }

  /** Rows without a direction go under the dash. */
  ghost predicate HasDirection(row: Item, direction: string) {
    row.entry.direction == direction || (row.entry.direction == "" && direction == "—")
  }

  /** The group holds the rows at the places `at`, in order: all of its name. */
  ghost predicate HoldsAt(rows: seq<Item>, name: Item -> string, g: Group, at: seq<nat>) {
    && |at| == |g.rows| && Rising(at, |rows|)
    && (forall x :: 0 <= x < |at| ==> g.rows[x] == rows[at[x]])
    && (forall i: nat :: i < |rows| ==> (i in at <==> name(rows[i]) == g.name))
  }

  /** What the filter keeps of the first `n` rows stands at these places. */
  ghost predicate KeptAt(rows: seq<Item>, keep: Item -> bool, n: nat, kept: seq<Item>, at: seq<nat>)
    requires n <= |rows|
  {
    && |at| == |kept| && Rising(at, n)
    && (forall x :: 0 <= x < |at| ==> kept[x] == rows[at[x]])
    && (forall i: nat :: i < n ==> (i in at <==> keep(rows[i])))
  }

  lemma KeptNext(rows: seq<Item>, keep: Item -> bool, n: nat, m: nat, kept: seq<Item>, kept': seq<Item>, at: seq<nat>)
    returns (at': seq<nat>)
    requires n < |rows| && m == n + 1 && KeptAt(rows, keep, n, kept, at)
    requires kept' == if keep(rows[n]) then kept + [rows[n]] else kept
    ensures KeptAt(rows, keep, m, kept', at')
  {
    assert n !in at;
    if keep(rows[n]) {
      at' := at + [n];
      assert at'[|at|] == n;
    } else {
      at' := at;
    }
  }

  lemma {:induction false} FilterPlaces(rows: seq<Item>, keep: Item -> bool, n: nat) returns (at: seq<nat>)
    requires n <= |rows|
    ensures KeptAt(rows, keep, n, FilterTo(rows, keep, n), at)
  {
    at := [];
    if n > 0 {
      at := FilterPlaces(rows, keep, n - 1);
      at := KeptNext(rows, keep, n - 1, n, FilterTo(rows, keep, n - 1), FilterTo(rows, keep, n), at);
    }
  }

  lemma GroupHolds(rows: seq<Item>, name: Item -> string, g: Group) returns (at: seq<nat>)
    requires TrueGroup(rows, name, g)
    ensures HoldsAt(rows, name, g, at) && g.rows != []
  {
    at := FilterPlaces(rows, (r: Item) => name(r) == g.name, |rows|);
  }

  /** A name stands before another: earlier in the fixed list, or in it and the other is not, or neither is
      and it comes first in code-point order. */
  ghost predicate NameBefore(order: seq<string>, x: string, y: string) {
    || (exists i, j :: 0 <= i < j < |order| && order[i] == x && order[j] == y)
    || (x in order && y !in order)
    || (x !in order && y !in order && ComesBefore(x, y))
  }

  lemma {:induction false} FilteredInOrder(names: seq<string>, keep: string -> bool, n: nat, i: nat, j: nat)
    requires n <= |names| && i < j < |FilterTo(names, keep, n)|
    ensures var kept := FilterTo(names, keep, n);
      exists a, b :: 0 <= a < b < n && names[a] == kept[i] && names[b] == kept[j]
  {
    var before := FilterTo(names, keep, n - 1);
    if j < |before| {
      FilteredInOrder(names, keep, n - 1, i, j);
    } else {
      var a := FilteredFrom(names, keep, n - 1, i);
      assert names[a] == FilterTo(names, keep, n)[i] && names[n - 1] == FilterTo(names, keep, n)[j];
    }
  }

  lemma {:induction false} FilteredFrom(names: seq<string>, keep: string -> bool, n: nat, i: nat) returns (a: nat)
    requires n <= |names| && i < |FilterTo(names, keep, n)|
    ensures a < n && names[a] == FilterTo(names, keep, n)[i]
  {
    if i < |FilterTo(names, keep, n - 1)| { a := FilteredFrom(names, keep, n - 1, i); } else { a := n - 1; }
  }

  lemma GroupNamesInOrder(rows: seq<Item>, name: Item -> string, order: seq<string>, i: nat, j: nat)
    requires Distinct(order) && i < j < |Groups(rows, name, order)|
    ensures NameBefore(order, Groups(rows, name, order)[i].name, Groups(rows, name, order)[j].name)
  {
    var gs, others := Groups(rows, name, order), OthersTo(rows, name, order, |rows|);
    var names, keep := order + others, x => MembersOf(rows, name, x) != [];
    GroupsComeInOrder(rows, name, order);
    var listed := Map(gs, (g: Group) => g.name);
    assert listed[i] == gs[i].name && listed[j] == gs[j].name;
    FilteredInOrder(names, keep, |names|, i, j);
    var a, b :| 0 <= a < b < |names| && names[a] == gs[i].name && names[b] == gs[j].name;
    PlacesInOrder(order, others, a, b);
  }

  lemma PlacesInOrder(order: seq<string>, others: seq<string>, a: nat, b: nat)
    requires a < b < |order + others| && Ascending(TextOrder(), others) && forall x :: x in others ==> x !in order
    ensures NameBefore(order, (order + others)[a], (order + others)[b])
  {
    var x, y := (order + others)[a], (order + others)[b];
    if b < |order| {
      assert order[a] == x && order[b] == y;
    } else if a < |order| {
      assert others[b - |order|] == y;
    } else {
      assert others[a - |order|] == x && others[b - |order|] == y;
      TextLessMeaning(x, y);
    }
  }

  /** The partition by organisation: НП, АЛ, МГ, АМ, МИ, БМ, then any other; of each, its rows in order. */
  lemma OrgGroupsTell(rows: seq<Item>, i: nat)
    requires i < |Groups(rows, OrgName, ORG_ORDER)|
    ensures var gs := Groups(rows, OrgName, ORG_ORDER);
      && gs[i].rows != []
      && (exists at :: HoldsAt(rows, OrgName, gs[i], at))
      && (forall r :: r in gs[i].rows <==> r in rows && HasOrg(r, gs[i].name))
      && (forall j :: i < j < |gs| ==> NameBefore(["НП", "АЛ", "МГ", "АМ", "МИ", "БМ"], gs[i].name, gs[j].name))
  {
    var gs := Groups(rows, OrgName, ORG_ORDER);
    ScriptOrdersAreDistinct();
    GroupsPartition(rows, OrgName, ORG_ORDER);
    var at := GroupHolds(rows, OrgName, gs[i]);
    MembersMeaning(rows, OrgName, gs[i].name);
    forall j | i < j < |gs| ensures NameBefore(ORG_ORDER, gs[i].name, gs[j].name) {
      GroupNamesInOrder(rows, OrgName, ORG_ORDER, i, j);
    }
  }

  /** The partition by direction. */
  lemma DirectionGroupsTell(rows: seq<Item>, i: nat)
    requires i < |Groups(rows, DirectionName, DIRECTION_ORDER)|
    ensures var gs := Groups(rows, DirectionName, DIRECTION_ORDER);
      && gs[i].rows != []
      && (exists at :: HoldsAt(rows, DirectionName, gs[i], at))
      && (forall r :: r in gs[i].rows <==> r in rows && HasDirection(r, gs[i].name) && gs[i].name != "")
      && (forall j :: i < j < |gs| ==>
            NameBefore(["КС", "ПР", "СС", "МС", "АЛ", "МГ", "АМ", "МИ", "БМ", "—"], gs[i].name, gs[j].name))
  {
    var gs := Groups(rows, DirectionName, DIRECTION_ORDER);
    ScriptOrdersAreDistinct();
    GroupsPartition(rows, DirectionName, DIRECTION_ORDER);
    var at := GroupHolds(rows, DirectionName, gs[i]);
    MembersMeaning(rows, DirectionName, gs[i].name);
    assert gs[i].rows[0] in gs[i].rows;
    forall r ensures r in gs[i].rows <==> r in rows && HasDirection(r, gs[i].name) && gs[i].name != "" {
      assert |"—"| == 1;
    }
    forall j | i < j < |gs| ensures NameBefore(DIRECTION_ORDER, gs[i].name, gs[j].name) {
      GroupNamesInOrder(rows, DirectionName, DIRECTION_ORDER, i, j);
    }
  }
}
