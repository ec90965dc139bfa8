# Department codes, routing lists and attachments: a verified model

Agent Pochta routes incoming letters to departments, and departments are named by codes such as
`00-000140`. When departments are closed, a family of maintenance scripts moves the old codes out of the
mail database, the routing-rule file and the topics file, imports routing lists, summarises and proposes
rules, and repairs data on the 1C side. This project models those scripts and proves what they promise
over all inputs and whole runs. Imperative code is modelled imperatively: a script that changes a database
or a file is a class whose methods update fields, each method is proved equal to a specification function,
and the promises are lemmas about those functions. The modules named `...Meaning` say what the methods leave
behind in terms of the rows and fields before and after alone, as a second definition that does not use the
specification functions.

| file | what it models |
|---|---|
| `Text.dfy`, `Seqs.dfy`, `Dedup.dfy`, `Sorting.dfy`, `Ordering.dfy` | `str.replace`, `strip`, string order, loops over lists, first-occurrence deduplication, stable sorting, sorting by a strict order |
| `Codes.dfy`, `CodesInPlace.dfy` | the alias table and the sequential replacement of codes in text |
| `Migration.dfy`, `MigrationRun.dfy`, `MigrationMeaning.dfy`, `MigrationLaws.dfy`, `MigrationCounts.dfy`, `MigrationSources.dfy`, `MigrationDryRun.dfy`, `MigrationSecondPass.dfy` | the database migration: what a row becomes, the passes as methods of a session, every column and counter after a run, fixpoint and coverage, the staging table source by source, dry run against apply |
| `LegacyRules.dfy`, `LegacyMeaning.dfy`, `LegacyRun.dfy`, `TopicMerge.dfy` | the same codes in the rule file and in the topics file |
| `ContentKeywords.dfy`, `SpiskiImport.dfy`, `SpiskiRun.dfy`, `SpiskiLaws.dfy`, `SpiskiContent.dfy`, `SpiskiMeaning.dfy` | the import of routing lists, run once and again |
| `Summary.dfy`, `SummaryLaws.dfy`, `SummaryOffers.dfy`, `SummaryMeaning.dfy`, `SummaryRows.dfy`, `SummaryGroups.dfy`, `SummaryGroupMeaning.dfy` | the five-source summary table, its sorted rows and its two partitions |
| `Proposals.dfy`, `ProposalsMeaning.dfy`, `ProposalsRun.dfy` | rule proposals from majorities |
| `GapScan.dfy` | the search for a slot between busy intervals |
| `LearningCleanup.dfy`, `LearningMeaning.dfy`, `LearningRun.dfy` | deduplication of learned spam entries with exact accounting |
| `EventBackfill.dfy`, `EventMeaning.dfy` | the backfill of registry events |
| `Reattach.dfy` | replacing an attachment in a remote document, call by call |

Conventions. A table is a sequence of rows in the order the session yields them; a session reads its own
earlier writes. `str.lower` is an arbitrary function, idempotent where an index is rebuilt from what it
returned. Helpers from other packages are parameters: the XML rebuilder is any function of the row, the
slot finder any function that finds the earliest admissible start in a window. A run that stops with
`SystemExit` never commits, so the model leaves the database as it was. Counters of a run are a log of
counter names; the value of a counter is how often its name is in the log.

Six results a reader of the scripts may not expect:

- One apply of the migration can leave retired codes outside the XML of a payload (the branch at
  `scripts/migrate_department_codes.py:194-204` writes back only the XML). `MigrationLaws.LeftoverIsExact` says
  exactly when. A second apply clears them, and a third changes nothing; only JSON values that are not
  objects, in letters whose department was already current, stay dirty for good (`SettlesInTwoApplies`).
  `ScriptLeavesCodes` and `ScriptNeverCleansLists` are letters of both kinds.
- The counters a dry run shares with an apply agree, apart from the two of the second pass over letters,
  because a dry run has not written the first pass. It reports more XML updates, by the letters whose XML the
  first pass cleans. Its text replacements can err both ways: it counts broken payloads the first pass cleans,
  and misses letters in which the first pass leaves codes outside the XML only.
  `MigrationSecondPass.SecondPassDifference` gives both differences, `SecondPassAgreesExactly` the conditions.
- The staging table of departments is keyed by source and id, but the migration asks for the target id
  without regard to the source, so a source can lose a department (`MigrationSources.ScriptLosesASource`).
  `SourceKeepsImageExactly` says when for a given order of the frozenset, `SourceKeepsImageInAnyOrder` when no
  order does it.
- `patch_routing_rules` clears `code` in every row but not `department_id`: `LegacyRules.DepartmentIdStaysExactly`
  gives the exact condition and `RetiredDepartmentIdSurvives` an example.
- `patch_routing_rules` also redirects rules of `00-000016` to `00-000063` without giving that department a name
  (`RedirectTargetStaysUnnamed`); `NamedExactly` says which codes have a name afterwards.
- A second event backfill inserts nothing, yet reports every entry that tells of no event as backfilled
  (`EventBackfill.SecondRunSettles`, `ReportedEveryTime`).

The abort "no target department" in the deletion of departments
(`scripts/migrate_department_codes.py:287-290`) is never reached: a run without all target departments has
stopped when it loaded their names, and no deletion removes a target (`MigrationRun.Session.DeleteRetired`).

## Model

| member | source | states |
|---|---|---|
| Text.ReplaceCreatesNone | scripts/migrate_department_codes.py:107-111 | a left-to-right replacement brings no occurrence of a code that was absent, if the code meets the inserted block only where the replaced block agreed with it |
| Text.ReplaceClears | scripts/migrate_department_codes.py:109-110 | after one `str.replace` the replaced code is gone, and a code absent before is still absent |
| Codes.ScriptTableIsSafe | scripts/migrate_department_codes.py:52-67 | the ten aliases meet the conditions the results need: nine-character codes, no target retired or closed, no target ending in the digit a code begins with |
| Codes.SafePairIsCompatible | scripts/migrate_department_codes.py:52-63 | no retired code can arise across the border of any replacement, for every pair of table rows |
| Codes.SequentialReplaceClears | scripts/migrate_department_codes.py:107-111 | after the first n replacements in sequence, none of the first n codes is a substring: no later replacement recreates an earlier code |
| Codes.ReplaceCodesClears | scripts/migrate_department_codes.py:107-111 | for every text, the whole sequence leaves no retired code as a substring |
| Codes.ScriptReplacementClears | scripts/migrate_department_codes.py:52-63 | the same for the table the script contains, code by code |
| Codes.ReplaceCodesAbsent | scripts/migrate_department_codes.py:107-111 | a text without retired codes is unchanged |
| Codes.TextOutsideCodesUntouched | scripts/migrate_department_codes.py:107-111 | a character that belongs to no occurrence of a retired code survives at its place |
| CodesInPlace.ReplacedInPlace | scripts/migrate_department_codes.py:107-111 | an occurrence of a retired code that no other one overlaps becomes the current code of its row, at its place |
| CodesInPlace.ScriptAlias | scripts/migrate_department_codes.py:52-63 | every retired code of the script goes to the current code beside it |
| Codes.ReplaceCodesInJsonText | scripts/migrate_department_codes.py:107-111 | the loop computes the sequential replacement; for a safe table the result is clean and as long as the text |
| Codes.AliasOfStripped | scripts/migrate_department_codes.py:70-74 | stripping and aliasing yields a code that is trimmed and not retired, so a second time changes nothing |
| MigrationRun.MoveCodedRow | scripts/migrate_department_codes.py:121-165 | first pass on one letter: new row and counters, for apply and dry run |
| MigrationRun.MoveOrphanRow | scripts/migrate_department_codes.py:167-204 | second pass on one letter, with its three ways out |
| MigrationRun.MoveChangeRow | scripts/migrate_department_codes.py:220-230 | both values of a change event, and its counters |
| MigrationRun.MoveCodeList | scripts/migrate_department_codes.py:265-275 | the loop over a code list yields the alias image kept at first occurrences, and whether anything was retired |
| MigrationRun.Session.LoadNewNames | scripts/migrate_department_codes.py:77-84 | names are loaded exactly when every target department exists |
| MigrationRun.Session.MoveEmails | scripts/migrate_department_codes.py:121-204 | both letter passes over the table, the second reading what the first wrote |
| MigrationRun.Session.MoveClassificationColumn | scripts/migrate_department_codes.py:206-218 | one column of the classification events moved with its name column |
| MigrationRun.Session.MoveErpCode | scripts/migrate_department_codes.py:232-256 | one retired id: rows deleted if the target id is present, renamed otherwise |
| MigrationRun.Session.MoveContractors | scripts/migrate_department_codes.py:258-279 | every contractor list rewritten or left |
| MigrationRun.Session.DeleteRetired | scripts/migrate_department_codes.py:281-293 | departments with a successor deleted; the abort is unreachable once all targets exist, in both modes |
| MigrationRun.Session.DeleteClosed | scripts/migrate_department_codes.py:295-302 | departments without a successor deleted |
| MigrationRun.Session.Migrate | scripts/migrate_department_codes.py:114-308 | the whole script: a dry run and a stopped run leave the database unchanged; after an apply every letter, event and list of `retired[j]` has `current[j]` and the last name of that code in the departments table, all others are as they were, and each payload is the rebuilt or replaced document its case calls for; counters in both modes |
| MigrationMeaning.MigratedIsMoved | scripts/migrate_department_codes.py:121-279 | the same of the migrated database, for every table without repeated codes, rebuilder and order of the frozenset; staging rows without a retired id stay, and the others that are left took over the successor and its name |
| MigrationCounts.DryRunCounts | scripts/migrate_department_codes.py:114-312 | every predicted counter of a dry run is the number of rows of its kind, counted on the rows before the run |
| MigrationCounts.ApplyCounts | scripts/migrate_department_codes.py:114-312 | so is that of an apply |
| MigrationLaws.ApplyCleansXml | scripts/migrate_department_codes.py:121-204 | after one apply, whatever the XML rebuilder returns, the department column is current and the XML of an object payload is free of retired codes |
| MigrationLaws.LeftoverIsExact | scripts/migrate_department_codes.py:182-204 | a retired code is left in the payload text if and only if one of two named branches was taken |
| MigrationLaws.ScriptLeavesCodes | scripts/migrate_department_codes.py:194-204 | a letter that keeps a retired code after one apply, whatever the rebuilder |
| MigrationLaws.ScriptNeverCleansLists | scripts/migrate_department_codes.py:182-183 | a letter with a JSON list that no apply changes |
| MigrationLaws.SecondApplySettles | scripts/migrate_department_codes.py:121-204 | the second apply keeps the columns and clears the payload except in non-object JSON; the third changes nothing |
| MigrationLaws.ClassificationSettles | scripts/migrate_department_codes.py:206-218 | both id columns are current afterwards and stay as they are |
| MigrationLaws.ChangeSettles | scripts/migrate_department_codes.py:220-230 | neither value of a moved change event is a retired code, and moving it again changes nothing |
| MigrationLaws.MovedCodesMeaning | scripts/migrate_department_codes.py:265-275 | a rewritten list is the first-occurrence deduplication of the alias image, without repeats |
| MigrationLaws.ContractorSettles | scripts/migrate_department_codes.py:258-279 | a list is rewritten if and only if it holds a retired code; afterwards it holds none, and it is never rewritten again |
| MigrationLaws.ErpIdsAreTheAliasImage | scripts/migrate_department_codes.py:232-256 | the id set afterwards is the alias image of the set before, for every iteration order of the frozenset |
| MigrationSources.StepKeepsSourceExactly | scripts/migrate_department_codes.py:232-256 | one code: a source ends with the alias image of its ids if and only if it did not know the code, knows the target, or no source does |
| MigrationSources.SourceIdsAfter | scripts/migrate_department_codes.py:232-256 | exactly which ids each source knows after the whole pass |
| MigrationSources.SourceKeepsImageExactly | scripts/migrate_department_codes.py:232-256 | whole pass: a source never gains an id beyond its alias image, and keeps all of it if and only if each of its retired codes has its target in the source, or in no source and renamed there first |
| MigrationSources.SourceKeepsImageInAnyOrder | scripts/migrate_department_codes.py:232-256 | every iteration order keeps a source's image if and only if, for each of its retired codes, it knows the target, or no source does and it knows every code of the table with that target |
| MigrationSources.ScriptLosesASource | scripts/migrate_department_codes.py:232-256 | a table in which a source loses its only department, for every iteration order |
| MigrationLaws.ErpIdsStayUnique | scripts/migrate_department_codes.py:232-256 | ids that were unique, over the table or per source, stay unique |
| MigrationLaws.DepartmentsAfter | scripts/migrate_department_codes.py:281-302 | exactly the retired and the closed departments are gone, all others kept in order |
| MigrationLaws.OneApplyIsCurrent | scripts/migrate_department_codes.py:114-308 | one apply leaves every coded column and XML document current, and the database fit for another run |
| MigrationLaws.CurrentColumnsStay | scripts/migrate_department_codes.py:114-308 | on a current database an apply changes no column |
| MigrationLaws.SettlesInTwoApplies | scripts/migrate_department_codes.py:114-308 | fixpoint: the second apply changes no column and leaves codes in exactly the payloads that stay dirty, the third is the identity, each run with its own order and rebuilder |
| MigrationDryRun.DryRunPredictsApply | scripts/migrate_department_codes.py:114-312 | every predicted counter (department ids, raw payloads, classification and change events, ERP rows, contractor lists, deletions and misses) is equal in a dry run and an apply from the same database |
| MigrationDryRun.XmlUpdatesAccounted | scripts/migrate_department_codes.py:140-153 | XML reported as in need of an update equals XML rebuilt plus XML string-replaced by the apply |
| MigrationSecondPass.LetterAgreesExactly | scripts/migrate_department_codes.py:121-203 | a letter adds the same to both second-pass counters in a dry run and an apply if and only if its department was current or the first pass has nothing to clean in it |
| MigrationSecondPass.SecondPassCountsAgain | scripts/migrate_department_codes.py:160-181 | a broken payload the first pass cleans is counted by the dry run and not by the apply |
| MigrationSecondPass.SecondPassCountsElsewhere | scripts/migrate_department_codes.py:140-194 | a letter left with codes outside the XML is an XML update to the dry run and a text replacement to the apply |
| MigrationSecondPass.ScriptSecondPassDiffers | scripts/migrate_department_codes.py:121-203 | letters of both kinds for the script's table |
| MigrationSecondPass.SecondPassDifference | scripts/migrate_department_codes.py:114-312 | whole run: by how much the two second-pass counters of a dry run differ from those of an apply |
| MigrationSecondPass.SecondPassAgreesExactly | scripts/migrate_department_codes.py:114-312 | whole run: the XML counter agrees if and only if the first pass cleans the XML of no letter, the text counter if and only if its two errors are equally many |
| MigrationDryRun.ErpCountsAgree | scripts/migrate_department_codes.py:232-256 | the ERP row counter agrees although the apply changes the table between codes |
| LegacyRules.ScriptCleanupIsSound | scripts/cleanup_legacy_departments.py:24-55 | no replacement code of the script's tables is itself migrated, removed or redirected |
| LegacyRun.PatchRows | scripts/cleanup_legacy_departments.py:120-138 | the loop over one rule list computes rewriting, dropping and deduplication |
| LegacyRun.RulesFile.PatchRoutingRules | scripts/cleanup_legacy_departments.py:103-144 | the whole patch: the three lists, the name table and the corrections as the next five rows tell them |
| LegacyMeaning.PatchRowTurns | scripts/cleanup_legacy_departments.py:64-137 | one row: a redirected one gets code and name of its target, a closed one goes, one decided by a migrated code gets the successor's code in each present code field and its name in each present name field, any other stays; absent fields stay absent |
| LegacyMeaning.ListIsTold | scripts/cleanup_legacy_departments.py:120-138 | one list: in order, what its rows turn into, keys pairwise distinct, and for every row that is not dropped one of its key from the same or an earlier row |
| LegacyMeaning.NamesAreTold | scripts/cleanup_legacy_departments.py:107-118 | which codes have a name afterwards and which: their own, else that of the first migrated code with this successor |
| LegacyMeaning.CorrectionsAreTold | scripts/cleanup_legacy_departments.py:140-142 | corrections are migrated in place, none redirected or dropped |
| LegacyMeaning.ScriptRuleGoes | scripts/cleanup_legacy_departments.py:26-77 | a rule of a migrated department of the script comes back with the code and name beside it |
| LegacyRules.PatchListGuarantees | scripts/cleanup_legacy_departments.py:103-138 | no row carries a retired code, keys are pairwise distinct, and a second patch changes nothing |
| LegacyRules.PatchListKeeps | scripts/cleanup_legacy_departments.py:122-138 | a row is lost only if its code has no successor, or a kept row that comes from the same or an earlier place has its key |
| LegacyRules.DepartmentIdStaysExactly | scripts/cleanup_legacy_departments.py:64-77 | `department_id` stays retired if and only if the row is redirected or decided by a code that does not migrate |
| LegacyRules.RetiredDepartmentIdSurvives | scripts/cleanup_legacy_departments.py:64-77 | a rule of the script's own tables that keeps a retired `department_id` |
| LegacyRules.PatchNamesGuarantees | scripts/cleanup_legacy_departments.py:107-118 | the name table: retired codes gone, the successor of every migrated code named, other names kept, patch idempotent |
| LegacyRules.NamedExactly | scripts/cleanup_legacy_departments.py:107-118 | a code has a name afterwards if and only if it is in use and had one, or succeeds a migrated code |
| LegacyRules.RedirectTargetStaysUnnamed | scripts/cleanup_legacy_departments.py:107-134 | a redirected rule of the script's own tables goes to a department that the name table does not get |
| Dedup.Dedupe | scripts/cleanup_legacy_departments.py:80-89 | the `seen` loop keeps the first element of each key |
| Dedup.DedupeKeepsFirsts | scripts/cleanup_legacy_departments.py:80-89 | the result is the in-order sublist of those elements whose key did not occur before |
| Dedup.KeptBefore | scripts/cleanup_legacy_departments.py:80-89 | an element that is dropped has a kept one of its key at or before its place |
| Dedup.DedupeCovers | scripts/cleanup_legacy_departments.py:80-89 | every key of the list has an element in the result |
| TopicMerge.MergeKeywords | scripts/cleanup_legacy_departments.py:92-100 | the list afterwards is the own list and behind it, in order, exactly those of the other list that read differently from everything before them |
| TopicMerge.MergedIsUnion | scripts/cleanup_legacy_departments.py:92-100 | the merge is, case-insensitively, the union, with the original list in front |
| TopicMerge.MergedConcat | scripts/cleanup_legacy_departments.py:92-100 | successive merges equal one merge of the concatenation |
| TopicMerge.MergeOrderIrrelevant | scripts/cleanup_legacy_departments.py:92-100 | for two keyword lists the order of merging does not matter to the resulting set, and merging them again adds nothing |
| TopicMerge.TopicsFile.PatchTzTopics | scripts/cleanup_legacy_departments.py:147-186 | all merges in order, then the dropped keys |
| TopicMerge.TargetsGather | scripts/cleanup_legacy_departments.py:150-174 | a target ends with one merge of everything its sources held, and with its own task defaults or those of its first source that has any |
| TopicMerge.TargetIsUnion | scripts/cleanup_legacy_departments.py:150-184 | a target's topics, names and e-mails are, case-insensitively, exactly the union of its own and all its sources' |
| TopicMerge.OrderOfMovesIrrelevant | scripts/cleanup_legacy_departments.py:150-184 | whole file: for every order of the same merges the same departments are left, each standing for the same topics, names and e-mails |
| TopicMerge.ScriptLosesNothing | scripts/cleanup_legacy_departments.py:167-184 | with the script's merges and dropped keys, every merged source is contained in its target |
| TopicMerge.NothingLost | scripts/cleanup_legacy_departments.py:150-174 | topics, names and e-mails of a merged source are all in its target, whose own lists stay prefixes |
| TopicMerge.PatchedKeys | scripts/cleanup_legacy_departments.py:150-184 | exactly which departments the file knows afterwards |
| TopicMerge.PatchTopicsSettles | scripts/cleanup_legacy_departments.py:147-186 | a second patch changes nothing |
| TopicMerge.ScriptMovesAreProper | scripts/cleanup_legacy_departments.py:167-174 | in the script's merges no source moves twice and none is a target |
| ContentKeywords.CountAndRank | scripts/import_spiski_routing.py:151-155 | frequencies of the keywords not present yet, and their ranking |
| ContentKeywords.SelectFor | scripts/import_spiski_routing.py:143-165 | the loop with its two exits picks the first twelve eligible keywords |
| ContentKeywords.PickedAreTheBest | scripts/import_spiski_routing.py:143-165 | the pick in terms of the candidates alone: at most twelve, none present, each repeated or of at most 20 characters, by how often they occur, length and code points; what qualifies and is not picked comes after twelve that are |
| ContentKeywords.EligibleMeaning | scripts/import_spiski_routing.py:152-160 | eligible are exactly the candidates that are not present and not both rare and long, strictly ascending in (frequency descending, length, text) |
| ContentKeywords.EligibleAfter | scripts/import_spiski_routing.py:143-165 | once the first m are present, exactly the rest is eligible, in the same order |
| ContentKeywords.ImportsAdvance | scripts/import_spiski_routing.py:143-165 | k selections add exactly the first 12k eligible keywords, in rank order |
| ContentKeywords.ImportsConverge | scripts/import_spiski_routing.py:143-165 | none is added twice, and a further selection adds nothing if and only if 12k covers the eligible ones |
| SpiskiRun.Importer.MergeRow | scripts/import_spiski_routing.py:407-468 | one row: files, counters and both index maps, which keep agreeing with the lists they index |
| SpiskiRun.Importer.MergeRows | scripts/import_spiski_routing.py:405-468 | the loop over all rows, starting from indexes built from the files |
| SpiskiRun.Importer.AddContentKeywords | scripts/import_spiski_routing.py:470-493 | the content layer, code by code |
| SpiskiRun.Importer.MergeImport | scripts/import_spiski_routing.py:371-523 | the whole import of both files |
| SpiskiLaws.AccountingIsExact | scripts/import_spiski_routing.py:407-466 | every row with e-mail and code is counted in exactly one of new, duplicate, conflict and covered, and in exactly one of the two topic counters; rules added are the growth of the rule list, topic e-mails added the growth of the e-mail lists of all departments together |
| SpiskiLaws.NewRulesAreTheAskedOnes | scripts/import_spiski_routing.py:441-468 | the e-mails of the rules added are, in order, the first occurrences of those that pass the tests; the index afterwards is the index before and these |
| SpiskiLaws.NewRulesComeFromFirstRows | scripts/import_spiski_routing.py:407-468 | every rule added is that of a row, with its e-mail and its code, and no earlier handled row has that e-mail |
| SpiskiLaws.NewRulesAreSound | scripts/import_spiski_routing.py:399-468 | old rules stay in front; new rules have pairwise distinct e-mails, none indexed before, in conflict or keyword-covered; no such row is forgotten |
| SpiskiLaws.TopicEmailsAreMerged | scripts/import_spiski_routing.py:418-439 | a department's topic e-mails are its own with the brought ones merged in; names and task defaults it had are kept |
| SpiskiLaws.NamesAreKept | scripts/import_spiski_routing.py:413-419 | no department name is altered or removed; a topic entry stays and only gains: e-mails at the end, a name or task default where it had none |
| SpiskiLaws.SecondImportAddsNothing | scripts/import_spiski_routing.py:371-523 | a second import of the same rows changes no e-mail rule, topic entry, task default or department name |
| SpiskiMeaning.ImportedRule | scripts/import_spiski_routing.py:344-468 | a new rule of a whole import, field by field: e-mail and code of its row, the first with that e-mail; the row's own direction, else the first that a rule of the code has (exact, keyword, content), else ПР; the first proper name of row, rule file and structure; what it is about, and its organisation. Its e-mail was not listed, in conflict, or covered by a keyword |
| SpiskiMeaning.EveryFreeOneIsImported | scripts/import_spiski_routing.py:405-468 | every row with a code whose e-mail is none of these has its rule |
| SpiskiMeaning.NamesAreTold | scripts/import_spiski_routing.py:413-416 | a department without a name gets that of the first row that has one for it |
| SpiskiMeaning.ImportedEntries | scripts/import_spiski_routing.py:413-523 | names and topic entries of a whole import: which are there, the name and both task defaults of each, and the names filled in from the structure |
| SpiskiMeaning.ImportedContentRules | scripts/import_spiski_routing.py:470-493 | a content rule the import makes: of a code that had none, with name, direction and description by the first row of the code |
| SpiskiMeaning.RefusalsAreCounted | scripts/import_spiski_routing.py:441-458 | conflicts and covered rows are counted by the rule list as it was before the run |
| SpiskiMeaning.CandidatesAre | scripts/import_spiski_routing.py:470-476 | the candidates of a code are the keywords of its rows, row after row |
| SpiskiMeaning.PresentAre | scripts/import_spiski_routing.py:328-334 | present are the keywords of all rules of the code, ignoring case |
| SpiskiContent.ContentLayer | scripts/import_spiski_routing.py:476-493 | each code of the sheet gets its picks appended to its first rule, no other code changes, whatever the order of codes |
| SpiskiContent.RulesAreKept | scripts/import_spiski_routing.py:477-493 | existing content rules keep place and fields, their keywords only grow at the end |
| SpiskiContent.RunsAdvance | scripts/import_spiski_routing.py:371-493 | after k whole imports a code holds its own keywords and then exactly the first 12k eligible ones |
| SpiskiContent.RunsConverge | scripts/import_spiski_routing.py:371-493 | a further import adds no keyword to a code if and only if 12k covers its eligible candidates |
| SpiskiContent.ImportConverges | scripts/import_spiski_routing.py:371-523 | from the first run on, a further import leaves both files as they are if and only if 12k covers the eligible candidates of every code |
| SpiskiContent.ImportKeeps | scripts/import_spiski_routing.py:371-523 | one import alters and removes nothing: rules stay in front, content rules and topic entries only gain, names stay |
| SpiskiContent.RunsKeep | scripts/import_spiski_routing.py:371-523 | nor does any number of imports |
| Summary.SummaryTable.UpsertRow | scripts/export_email_classification_summary.py:263-329 | one upsert is one more call; the table stays what the calls so far amount to |
| Summary.SummaryTable.OverrideOrg | scripts/export_email_classification_summary.py:409-414 | the structure override is one more call |
| Summary.BuildSummary | scripts/export_email_classification_summary.py:331-429 | the five sources make their calls in order of precedence |
| SummaryRows.SortRows | scripts/export_email_classification_summary.py:431-439 | the rows of the table, each once, ascending by organisation, direction, code and e-mail |
| SummaryRows.BuildSummaryRows | scripts/export_email_classification_summary.py:236-440 | the whole build: the rows of a table that tells its sources (next row), by the place of their organisation, direction (`ZZ` for none), code and e-mail |
| SummaryMeaning.BuiltTableIsTold | scripts/export_email_classification_summary.py:263-429 | over the rows of the five sources in order: a key is there if and only if one of them names it; its tags are exactly those of the sources that do, in order; its name is that of the first such row, its direction the first that is not empty, its organisation and note as in the next row |
| SummaryOffers.RowTellsOffers | scripts/export_email_classification_summary.py:306-329 | what a list of offers for one key leaves: the first name, the first direction, each source once, the organisation set last outright or the home one until another is offered, its label, and the notes in order, none that is contained already |
| SummaryRows.RowLessPrecedes | scripts/export_email_classification_summary.py:432-438 | the sort key on the fields, with the literal order of organisations and code-point order of texts |
| SummaryRows.SortedRowsAreDetermined | scripts/export_email_classification_summary.py:431-439 | the sorted list depends on the table only, not on the order in which it was filled, and lists each key once |
| SummaryLaws.TableTells | scripts/export_email_classification_summary.py:263-429 | for every sequence of calls, a key has a row if and only if an upsert named it, and the row is the first name, the first non-empty direction, the sources once each, the first organisation other than the home one since the last override, and its label |
| SummaryLaws.CallKeeps | scripts/export_email_classification_summary.py:306-318 | one call keeps the name, a direction once set and the sources; an upsert moves the organisation only away from the home one |
| SummaryGroups.FillBuckets | scripts/export_email_classification_summary.py:444-446 | the grouping dictionary holds, under each name, its rows in table order |
| SummaryGroups.BuildGroups | scripts/export_email_classification_summary.py:487-520 | filling the dictionary and popping it name by name yields the groups, listed names first |
| SummaryGroups.GroupsPartition | scripts/export_email_classification_summary.py:443-520 | every row is in exactly one group, that of its name; groups are full, not empty and named once |
| SummaryGroups.GroupsComeInOrder | scripts/export_email_classification_summary.py:449-518 | groups come in the fixed order, unlisted names after it in text order, names without rows left out |
| SummaryGroupMeaning.OrgGroupsTell | scripts/export_email_classification_summary.py:443-485 | each organisation's group: exactly its rows, in the order of the table; groups in the literal order, others after it by code points |
| SummaryGroupMeaning.DirectionGroupsTell | scripts/export_email_classification_summary.py:487-520 | the same for directions, rows without one under the dash |
| SummaryGroups.GroupSizesAddUp | scripts/export_email_classification_summary.py:443-520 | group sizes add up to the table, counting repeats |
| SummaryGroups.SummaryIsPartitionedTwice | scripts/export_email_classification_summary.py:443-520 | for the sorted rows of the build and the script's fixed orders, each row of the table is in exactly one organisation group and exactly one direction group |
| Proposals.MostCommon | scripts/analyze_akinina_routing.py:305-306 | a code whose count no other code exceeds |
| Proposals.CountAll | scripts/analyze_akinina_routing.py:261-299 | the nested counters tell totals and hits of every key, keys in the order they were first seen |
| Proposals.ProposeKind | scripts/analyze_akinina_routing.py:301-363 | the proposals of one kind are exactly the warranted ones, busiest key first, of equally busy ones that which was seen first |
| ProposalsMeaning.EvidenceIsWarranted | scripts/analyze_akinina_routing.py:301-363 | a proposal is warranted if and only if of at least three letters that bear its key 70 per cent (75 and at least three for a domain) went to its code, counted as sets of letters; and which of the three priorities it has |
| Proposals.WarrantedIsMajority | scripts/analyze_akinina_routing.py:305-309 | a proposal that passes its threshold names the unique most frequent code |
| Proposals.OrderOfLettersIrrelevant | scripts/analyze_akinina_routing.py:261-363 | the proposals before the cut are the same for every ordering of the letters |
| ProposalsRun.ProposeImprovements | scripts/analyze_akinina_routing.py:254-420 | the evidence is exactly what the letters warrant, in the order of kinds and totals; the list handed out is determined by it and the other remarks as the next row says |
| ProposalsMeaning.HandedOutIsTold | scripts/analyze_akinina_routing.py:410-420 | each proposal has a smaller priority than the next, or more letters, or an earlier place; no two have one subject; at most 25; every proposal that is left out has one ahead of it on its subject, or the list is full of such that are ahead |
| Proposals.HandedOutGuarantees | scripts/analyze_akinina_routing.py:410-420 | on the fields: the list is ordered by priority and descending count, has distinct keys, at most 25 items and nothing invented; a proposal that is left out has there one of its key that ranks no worse, or the list is full of such |
| GapScan.TraceGaps | scripts/check_solomicheva_nearest.py:106-125 | the reported slot is admissible, within the bounds and free of every busy interval, and no earlier one lies in a gap closed by a busy interval; nothing is reported only if there is none |
| GapScan.GapHoldsNone | scripts/check_solomicheva_nearest.py:108-125 | a gap without a hit adds no slot, overlapping intervals included |
| LearningRun.SpamStore.CleanupSpamLearning | scripts/cleanup_learning_data.py:226-311 | a dry run keeps the store, any other leaves it as the next rows say; entries and keywords balance in both modes, and the three lists name, in order, exactly the routing corrections, the entries that come out empty and those that repeat an earlier one |
| LearningMeaning.StoreIsTold | scripts/cleanup_learning_data.py:247-304 | the store afterwards: entries with label, reason and keywords settled, in order, no two teaching the same, and for every entry that passes one that teaches the same, from it or an earlier one |
| LearningMeaning.SameFingerprint | scripts/cleanup_learning_data.py:208-215 | fingerprints agree if and only if sender, label and keywords in any order do, and without keywords the messages |
| LearningCleanup.CleanEntry | scripts/cleanup_learning_data.py:247-302 | one entry: kept, or counted in exactly one of the three reason lists |
| LearningCleanup.KeptMeaning | scripts/cleanup_learning_data.py:296-302 | kept entries are the in-order sublist of first fingerprints; every one that is dropped has a kept entry with its fingerprint before it |
| EventBackfill.Registry.UpdateCancelled | scripts/add_registry_events_table.py:136-145 | no row appears, goes or changes another column; a row with another id or a value in the column is untouched; the others of the id have the given time |
| EventBackfill.Registry.Backfill | scripts/add_registry_events_table.py:116-247 | the loop, whose look-ups see its own inserts, equals a row-wise specification |
| EventMeaning.InsertedEvents | scripts/add_registry_events_table.py:147-245 | the events after a run: those from before, then entry by entry and kind by kind exactly those told of by entries that had none, each with its memo, its moment read from the payload and its actor |
| EventMeaning.FilledIn | scripts/add_registry_events_table.py:134-145 | only `cancelled_at` changes, where it was missing, to the moment its payload reads as, if any |
| EventMeaning.ReportCounts | scripts/add_registry_events_table.py:147-247 | the report is the number of entries that had no event |
| EventBackfill.OneEventPerKind | scripts/add_registry_events_table.py:147-245 | an entry with events gets none; one without gets exactly one of each kind whose time it tells; earlier events stay in front |
| EventBackfill.SecondRunSettles | scripts/add_registry_events_table.py:116-247 | a second run inserts nothing and changes no entry; it reports exactly the entries that tell of no event |
| EventBackfill.ReportedEveryTime | scripts/add_registry_events_table.py:147-245 | an entry without any stamp is reported by every run and never changed |
| EventBackfill.CancelledNeverOverwritten | scripts/add_registry_events_table.py:134-145 | after any number of runs `cancelled_at` is its first value, or the payload's if it had none |
| Reattach.AgentAttachmentRefs | scripts/fix_003900_reattach.py:90-98 | collected are exactly the stripped references, not blank, of files whose stripped description is the document's number |
| Reattach.AgentRefsOfListing | scripts/fix_003900_reattach.py:90-98 | on a complete listing these are exactly the agent's attachments of the document |
| Reattach.StepKeepsInv | scripts/fix_003900_reattach.py:129-154 | listing, uploading, deleting and other users' uploads all keep the invariant |
| Reattach.NeverWithout | scripts/attach_letter_to_1c.py:95-125 | wherever a run is cut short, files that are not the agent's are untouched and the document has an agent's attachment if it had one |
| Reattach.DeletesOnlyReplaced | scripts/attach_letter_to_1c.py:118-125 | only attachments that were the agent's are deleted, and only with the new one in place |
| Reattach.CompletedLeavesOne | scripts/fix_003900_reattach.py:143-154 | a completed run leaves the new file as the only agent's attachment |
| Reattach.Document.ReplaceAttachment | scripts/fix_003900_reattach.py:129-154 | the calls of the script form a completed run of the protocol |

## Left out

- JSON text: a payload is seen as its XML document and the rest, so escaped codes, codes that span two
  fields and an `xml_document` that is not a string are not modelled.
- Database rows have no identity and no aliasing: tables are sequences of values, flushes happen at once.
- MigratedIsMoved: of staging rows with a retired id it says what they become; which of them are left is in
  `MigrationSources.SourceIdsAfter`.
- DryRunPredictsApply: does not cover the two counters of the second pass over letters, which differ; by how
  much and when is in `MigrationSecondPass`.
- SettlesInTwoApplies: keeps retired codes in JSON payloads that are not objects, because the script skips
  them.
- ErpIdsAreTheAliasImage: speaks of the ids of the whole table; per source it fails, exactly as
  `MigrationSources` states.
- PatchListGuarantees: speaks of `code`; `department_id` has its own exact lemma.
- PatchRoutingRules: takes the key of a row (its sorted JSON) as any function, and corrections only through
  `_migrate_row`.
- NothingLost: covers the merged sources; the keys the script drops without a merge are lost, and
  `PatchedKeys` names them.
- OrderOfMovesIrrelevant: not of the task defaults, which are those of the first source that has any.
- `patch_rag_keywords`, `patch_routing_corrections`, the priority rules and the enterprise positions repeat the
  same merging on other files.
- The regular expression of `_split_keywords` and `_is_routing_keyword`: a row brings its keywords.
- The lists inside the import statistics and the exported topics file; only their counts are modelled.
- TopicEmailsAreMerged: the `topics` list of an entry is not modelled, because the import never changes it.
- RunsAdvance: needs candidates to be lower-cased, as `_split_keywords` makes them.
- ImportConverges: needs the same, and an idempotent `str.lower`.
- BuildSummary: the two uses of `detect_organization`, e-mail extraction and the reference tables behind names
  are parameters.
- GroupsPartition: groups are modelled with their rows, not with the counts and samples printed about them.
- ProposeImprovements: corrections, data-quality notes and keyword boosts enter as given remarks; shares are
  ratios of whole numbers, where the script divides floats.
- TraceGaps: the time after the last busy interval is not searched, as in the script; the finder's own
  stepping is a contract, and a meeting has a positive length.
- CleanupSpamLearning: normalisation and keyword cleaning are functions; the counters of fixed reasons,
  reconciled labels and sample keywords are not modelled.
- `cleanup_routing_corrections`: the same clean-up on another store.
- Backfill: message texts, JSON payloads and identifiers of events are not modelled, nor the creation of the
  table.
- NeverWithout: other users attach files during a run but delete none, and the upload returns a reference
  that was never used.
- The scripts that delete an attachment before uploading do not have the reattach property and are not modelled.
- Excel, HTTP, OData, IMAP and command-line handling.
