/** `cleanup_spam_learning` on the stored entries (scripts/cleanup_learning_data.py). */
module LearningRun {
  import opened LearningCleanup
  import opened LearningMeaning

  class SpamStore {
    var entries: seq<Entry>

    /** `cleanup_spam_learning`. */
    method CleanupSpamLearning(env: Env, dryRun: bool) returns (stats: Stats)
      modifies this
      ensures entries == if dryRun then old(entries) else Kept(env, old(entries))
      ensures stats.before == |old(entries)| && stats.after == |Kept(env, old(entries))|
      ensures DroppedKeywords(env, old(entries)) >= 0
      ensures Balanced(stats, Kept(env, old(entries)), DroppedKeywords(env, old(entries)), |old(entries)|)
      ensures ReasonsTold(env, old(entries), stats)
      ensures stats.keywordsBefore == KeywordsBefore(env, old(entries), |old(entries)|)
      ensures !dryRun ==> StoreTold(env, old(entries), entries)
    {
      var kept, cleaned, dropped := CleanAll(env, entries);
      stats := cleaned.(after := |kept|);
      StoreIsTold(env, entries);
      ReasonsAreTold(env, entries, stats);
      if !dryRun { entries := kept; }
    }
  }
}
