/** `patch_routing_rules`: the rule file rewritten in place (scripts/cleanup_legacy_departments.py). */
module LegacyRun {
  import opened Seqs
  import opened Dedup
  import opened LegacyRules
  import opened LegacyMeaning

  class RulesFile {
    var names: map<string, string>
    var keywordRules: seq<Row>
    var exactRules: seq<Row>
    var contentRules: seq<Row>
    var corrections: seq<Row>

    function View(): Rules
      reads this
    {
      Rules(names, keywordRules, exactRules, contentRules, corrections)
    }

    /** `patch_routing_rules` on the loaded file. */
    method PatchRoutingRules(k: Cleanup, key: Row -> string)
      requires Sound(k)
      modifies this
      ensures View() == Patched(k, key, old(View())) && FileTold(k, key, old(View()), View())
    {
      ghost var was := View();
      PatchNameTable(k);
      keywordRules := PatchRows(k, keywordRules, key);
      exactRules := PatchRows(k, exactRules, key);
      contentRules := PatchRows(k, contentRules, key);
      PatchCorrections(k);
      PatchedView(k, key, was);
      PatchedIsTold(k, key, was);
    }

    lemma PatchedView(k: Cleanup, key: Row -> string, was: Rules)
      requires names == PatchNames(k, was.names) && corrections == Map(was.corrections, Correcting(k))
      requires keywordRules == PatchList(k, was.keywordRules, key) && exactRules == PatchList(k, was.exactRules, key)
      requires contentRules == PatchList(k, was.contentRules, key)
      ensures View() == Patched(k, key, was)
    {
    }

    method PatchNameTable(k: Cleanup)
      requires Sound(k)
      modifies this`names
      ensures names == PatchNames(k, old(names))
    {
      names := names - (k.redirect.Keys + k.remove);
      for n := 0 to |k.order|
        invariant names == WithDefaults(k, old(names) - (k.redirect.Keys + k.remove), n)
      {
        var to := k.migrate[k.order[n]];
        if to.code !in names { names := names[to.code := to.name]; }
      }
    }

    method PatchCorrections(k: Cleanup)
      modifies this`corrections
      ensures corrections == Map(old(corrections), Correcting(k))
    {
      ghost var was := corrections;
      ghost var g := Correcting(k);
      for i := 0 to |corrections|
        invariant corrections == Rewritten(was, g, i)
      {
        RewrittenAt(was, g, i, i);
        if corrections[i].Rule? { corrections := corrections[i := MigrateRow(k, corrections[i])]; }
      }
      RewrittenAll(was, g);
    }
  }

  /** One rule list: rewrite or drop every row, then deduplicate. */
  method PatchRows(k: Cleanup, rows: seq<Row>, key: Row -> string) returns (kept: seq<Row>)
    ensures kept == PatchList(k, rows, key)
  {
    var newRows: seq<Row> := [];
    ghost var f := Patching(k);
    for i := 0 to |rows|
      invariant newRows == CollectFrom([], rows, f, i)
    {
      var row := rows[i];
      if row.Scalar? {
        newRows := newRows + [row];
      } else if Truthy(row.code) in k.redirect {
        var to := k.redirect[Truthy(row.code)];
        newRows := newRows + [row.(code := Some(to.code), name := Some(to.name))];
      } else if !(Truthy(row.code) in k.remove && Truthy(row.code) !in k.migrate) {
        newRows := newRows + [MigrateRow(k, row)];
      }
    }
    assert newRows == PatchedRows(k, rows);
    kept := Dedupe(newRows, key);
  }
}
