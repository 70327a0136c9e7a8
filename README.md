# SimpleStats database store, modelled in Dafny

This project models `SimpleStatsDb`, the SQLite store of the kirby3-simplestats
plugin. The store is small and schema-versioned, and it upgrades itself in place:

- **Database file.** `getDbFile` and `getLogsPath` choose the file: the configured
  `.sqlite` file, or `simplestats.sqlite` in the logs directory.
- **Singleton and bootstrap.** `database()` and `createDBInstance` build the static
  `Database` singleton. When the file does not exist they create and bootstrap it.
  The bootstrap creates seven tables. The `pagevisits` table gets one `hits_<code>`
  column per language. Finally the file is stamped with version 3.
- **Upgrade.** `checkUpgradeDatabase($dryRun)` runs these steps in order:
  - It detects a version 1 database that has no `simplestats` table. It then creates
    the table and stamps version 2.
  - It reads the installed version, the largest stamped one.
  - It adds the missing language columns.
  - Below version 3 it runs the content migration:
    1. It renames translated slugs to default-language slugs.
    2. It merges rows that share a `(uid, monthyear)`: the `min(id)` row gets the
       group's `hits`, `hits_fr` and `hits_en` sums, and the other rows are deleted.
    3. It stamps version 3.

  A boolean `$ret` collects the failures. A refused `ALTER TABLE` is the exception:
  it raises an uncaught `Error`, which ends the check with no return value.

The SQL engine is not modelled. The database is a value (`Schema.DbState`) with four parts:

- the set of tables;
- the `simplestats` version records;
- the column set of `pagevisits`;
- the `pagevisits` rows, where each row is an id, a uid, a month, and a map of integer counters.

Every statement the code issues is a `Schema.Call`. Whether it succeeds is an input, `succeeds: Call -> bool`.

Two SQLite rules are decided by the state rather than by that input, because the code's behaviour turns on them:

- `ALTER TABLE ... ADD COLUMN` fails for a column that already exists. It also fails for a code listed twice, because the first statement added the column.
- The duplicate query fails when `hits_fr` or `hits_en` is missing, because it sums both.

The `pagevisits` declaration fails when its column list is empty, or when it names a column twice.

The `UPDATE` and `DELETE` batches run one statement after another (`Batches.ExecBatch`). They are also described row by row (`Batches.Survivors`), and the two descriptions are proved to agree. The merge is then stated group by group (`Merge.MergeByGroup`).

The inputs that come from the CMS are parameters:

- the configured option;
- the logs and config roots;
- multi-language mode;
- the ordered list of language codes;
- the default language;
- the pages with their slugs;
- the date (`Ymd`).

The modules are:

| module | file | what it models |
|---|---|---|
| Common | common.dfy | options, distinct sequences, the text after a separator |
| DbPaths | paths.dfy | `getDbFile`, `getLogsPath` |
| Schema | schema.dfy | tables, rows, version records, statements |
| Bootstrap | bootstrap.dfy | the `$langKeys` column list and the new database |
| Batches | batches.dfy | `UPDATE`/`DELETE` statements on `pagevisits` and batches of them |
| Merge | merge.dfy | the duplicate query, the merge batches and what they do |
| Upgrade | upgrade.dfy | `checkUpgradeDatabase` as a function of the database |
| SimpleStats | store.dfy | the class: singleton, file, bootstrap and upgrade as methods |

The class methods in `SimpleStats.SimpleStatsDb` change the database fields in place. Each one is proved to leave exactly the state that the matching specification function describes. The properties are proved about those functions.

## Model

| member | source | states |
|---|---|---|
| DbPaths.Extension | src/models/SimpleStatsDb.php:128 | the extension of a path contains no dot and no slash; it is empty when the last segment has no dot, and otherwise it is the text after the last dot of the last segment (the segment ends in `.` followed by it) |
| DbPaths.SegmentExtension | src/models/SimpleStatsDb.php:128 | the same for one segment without `/`: empty without a dot, otherwise exactly the text after the last dot |
| DbPaths.BaseNameIsLastSegment | src/models/SimpleStatsDb.php:128 | the base name is a suffix of the path preceded by `/`, and the whole path when it has no `/` |
| DbPaths.LogsPath | src/models/SimpleStatsDb.php:136-140 | the path ends in `/` and the file name; with a logs root it is that root, one `/` and the file; otherwise it is the config root, `/../logs/` and the file |
| DbPaths.DbFile | src/models/SimpleStatsDb.php:123-134 | the configured value is kept exactly when it is truthy (not absent, `""` or `"0"`) and its extension is `sqlite`; otherwise the result is the logs path of `simplestats.sqlite`; either way the chosen file has extension `sqlite` |
| DbPaths.FallbackIsSqlite | src/models/SimpleStatsDb.php:130 | the fallback path has base name `simplestats.sqlite` and extension `sqlite`, whatever the roots are |
| DbPaths.DbFileIsStable | src/models/SimpleStatsDb.php:125-133 | configuring the chosen path selects that same path again |
| Schema.LangColumnInjective | src/models/SimpleStatsDb.php:241 | two language codes name the same `hits_<code>` column exactly when they are equal |
| Schema.MaxVersion | src/models/SimpleStatsDb.php:267-268 | the installed version (first row of `ORDER BY version DESC`) is absent exactly when no record exists; otherwise it is a stamped version and no record is higher |
| Schema.MaxVersionAppend | src/models/SimpleStatsDb.php:356 | appending a record raises the installed version to the new one when it is higher and otherwise keeps it |
| Bootstrap.ColumnDef | src/models/SimpleStatsDb.php:71 | the declaration of a code's counter column contains a comma exactly when the code does, which is what lets `LangKeysRoundTrip` split the list at `", "` |
| Bootstrap.JoinDefs | src/models/SimpleStatsDb.php:69-72 | the joined list is empty exactly when there is no language |
| Bootstrap.BuildLangKeys | src/models/SimpleStatsDb.php:64-73 | the loop builds `$langKeys`: `hits_en` alone on a single-language site, otherwise the joined declarations; it is empty exactly when a multi-language site has no language |
| Bootstrap.LangKeysRoundTrip | src/models/SimpleStatsDb.php:64-73 | for a non-empty list of codes without commas, splitting `$langKeys` at `", "` gives one declaration per active language, in order, so there is no leading, trailing or doubled separator |
| Bootstrap.BootstrapColumns | src/models/SimpleStatsDb.php:80 | a new `pagevisits` has exactly `id`, `uid`, `monthyear`, `hits` and a column per active language (`hits_en` alone on a single-language site), and no other column |
| Bootstrap.NewDatabase | src/models/SimpleStatsDb.php:77-85 | a new database is well formed, holds no rows, and has at most one version record, which carries version 3 and the date |
| Bootstrap.NewDatabaseComplete | src/models/SimpleStatsDb.php:77-85 | when every statement succeeds, and a multi-language site has at least one language and no code twice, the new database has all seven tables and exactly one version record; its installed version is 3, and it has a column for each language |
| Bootstrap.NoLanguagesNoPageVisits | src/models/SimpleStatsDb.php:80 | on a multi-language site with no language, `pagevisits` is never created |
| Batches.RowAfter | src/models/SimpleStatsDb.php:322-323 | no statement changes a row's id or month, and only a rename changes its uid |
| Batches.ExecBatchIsSurvivors | src/models/SimpleStatsDb.php:330-333 | running a batch statement by statement leaves the same table as sending each row through the whole batch, in table order |
| Batches.ExecBatchAppend | src/models/SimpleStatsDb.php:330-333 | running the update batch and then the delete batch is running the two as one batch |
| Batches.ThroughKeepsIdentity | src/models/SimpleStatsDb.php:322-323 | a row that survives a batch keeps its id and month, and also its uid when the batch has no rename |
| Batches.ThroughUnnamedUpdates | src/models/SimpleStatsDb.php:322 | a row that no update names passes the update batch unchanged |
| Batches.ThroughOneUpdate | src/models/SimpleStatsDb.php:322 | a row that exactly one update names ends with that update's `hits`, `hits_fr` and `hits_en` |
| Batches.ThroughDeletes | src/models/SimpleStatsDb.php:323 | a delete batch removes a row exactly when one of its statements matches the row, and otherwise leaves the row unchanged |
| Batches.SurvivorsUniqueIds | src/models/SimpleStatsDb.php:80 | every batch keeps `id` a key of `pagevisits` |
| Batches.RenamesKeepRows | src/models/SimpleStatsDb.php:297-301 | the rename batch keeps every row, in order; it changes only the uid, to the uid the pairs lead to |
| Batches.RenamedUidUntouched | src/models/SimpleStatsDb.php:299 | a uid that no pair renames is kept |
| Batches.RenamedUidFirstMatch | src/models/SimpleStatsDb.php:299 | a uid becomes the target of the first pair that matches it, when no pair renames that target again |
| Merge.Group | src/models/SimpleStatsDb.php:311 | a group holds exactly the rows with its `(uid, monthyear)` |
| Merge.KeptRow | src/models/SimpleStatsDb.php:311 | `idtokeep` is a row of the group with the smallest id |
| Merge.DuplicateKeys | src/models/SimpleStatsDb.php:311 | the duplicate keys are distinct, and a key is among them exactly when its group has more than one row |
| Merge.ScannedKeys | src/models/SimpleStatsDb.php:311 | the scan returns at most 10000 distinct duplicate keys: all of them when there are no more, otherwise the first 10000 |
| Merge.ScannedStatements | src/models/SimpleStatsDb.php:320-323 | for each scanned group, the update sets the kept row's `hits`, `hits_fr` and `hits_en` to the group sums, and the delete removes every other row of the group |
| Merge.BuildMergeBatches | src/models/SimpleStatsDb.php:315-326 | the loop writes one update and one delete per duplicate, in order; the batches are empty exactly when there is no duplicate |
| Merge.Collapse | src/models/SimpleStatsDb.php:322 | the merged row is the kept row, with the group sums of `hits`, `hits_fr` and `hits_en`; every other column is as that row had it |
| Merge.DeletesOnGroupRow | src/models/SimpleStatsDb.php:323 | the delete batch removes a row exactly when its group was scanned and it is not the kept row |
| Merge.RowThroughMerge | src/models/SimpleStatsDb.php:322-323 | through both batches, a row outside the scanned groups is unchanged; the kept row becomes the merged row; every other row of a scanned group is deleted |
| Merge.MergeByGroup | src/models/SimpleStatsDb.php:311-333 | after update and delete, each scanned duplicate group is exactly its one merged row, and every other group is exactly as before |
| Merge.MergedUniqueIds | src/models/SimpleStatsDb.php:322-323 | the merge keeps `id` a key |
| Merge.MergeKeepsTotals | src/models/SimpleStatsDb.php:311 | each group's totals of `hits`, `hits_fr` and `hits_en` are the same after the merge |
| Merge.MergeDropsOtherColumns | src/models/SimpleStatsDb.php:322 | in a merged group any other language column keeps only the kept row's value |
| Merge.MergeLeavesNoDuplicatesIff | src/models/SimpleStatsDb.php:311 | after one merge every `(uid, monthyear)` has at most one row exactly when there were at most 10000 duplicate groups |
| Merge.MergeTwoRows | src/models/SimpleStatsDb.php:311-333 | two rows of the same page and month that hold `hits`, `hits_fr` and `hits_en` become the one row with the smaller id, carrying the sums of the two rows |
| Upgrade.MissingCodes | src/models/SimpleStatsDb.php:217-222 | the missing codes are exactly the active codes whose column is absent; they form a subsequence of the codes (same relative order), and they are distinct when the codes are |
| Upgrade.MissingLangs | src/models/SimpleStatsDb.php:211-223 | on a multi-language site the missing codes are the active codes without a column; on a single-language site the list is `en` exactly when `hits_en` is present |
| Upgrade.CollectMissingLangs | src/models/SimpleStatsDb.php:208-223 | the loop builds exactly `$missingLangs` |
| Upgrade.AlterTwiceFails | src/models/SimpleStatsDb.php:241 | a second `ALTER TABLE` for the same code always fails, because SQLite refuses an existing column, whether the first one succeeded or not |
| Upgrade.AddColumnsTwiceFails | src/models/SimpleStatsDb.php:239-250 | running the `ALTER TABLE` loop again over the same non-empty missing codes always stops at a refused statement |
| Upgrade.FirstRefused | src/models/SimpleStatsDb.php:239-242 | the position of the first missing code whose statement is refused: every earlier statement succeeds on a column that is neither present nor added before it, and the statement at that position does not |
| Upgrade.AddColumnsResult | src/models/SimpleStatsDb.php:239-250 | after the loop the table has its old columns plus the columns of the codes before the first refused statement, and nothing else; the loop runs to its end exactly when no statement is refused |
| Upgrade.AddColumnsStopped | src/models/SimpleStatsDb.php:239-243 | once a statement is refused the later codes are never tried: the rest of the list changes nothing |
| Upgrade.AddColumnsOk | src/models/SimpleStatsDb.php:239-250 | the loop runs to its end exactly when every statement succeeded, no column existed and no code was listed twice |
| Upgrade.Reconcile | src/models/SimpleStatsDb.php:204-264 | the language check changes only the columns and only grows them; it changes them only outside a dry run, on a readable, non-empty `pagevisits`; it returns `false` exactly when the table is unreadable or empty, and then changes nothing; a refused statement raises, and never in a dry run |
| Upgrade.ReconcileMultilang | src/models/SimpleStatsDb.php:204-253 | on a multi-language site a real run adds the columns of the missing languages before the first refused statement, and no other; it returns exactly when the missing codes are distinct and every statement succeeded, and then reports success with a column for every active language; otherwise it raises |
| Upgrade.SingleLanguageCheckFails | src/models/SimpleStatsDb.php:211-246 | on a single-language site with `hits_en`, the language check never succeeds and changes nothing; on a readable, non-empty table the second `hits_en` is refused and the check raises |
| Upgrade.PageSlugs | src/models/SimpleStatsDb.php:288-295 | a page contributes `(translated, default)` for each language whose slug differs from the default-language slug, and nothing else |
| Upgrade.SlugsToRestore | src/models/SimpleStatsDb.php:287-296 | the pairs are exactly those of the pages of the site |
| Upgrade.SlugsToRestoreMeaning | src/models/SimpleStatsDb.php:283-296 | a pair is listed exactly when some page has a language slug that differs from its default-language slug |
| Upgrade.CollectSlugsToRestore | src/models/SimpleStatsDb.php:285-296 | the two nested loops build exactly `$slugsToRestore` |
| Upgrade.CollectPageSlugs | src/models/SimpleStatsDb.php:288-294 | the inner loop over the languages of one page builds exactly that page's pairs |
| Upgrade.BuildRenameBatch | src/models/SimpleStatsDb.php:297-300 | the loop writes one `UPDATE ... SET uid` per pair, in order |
| Upgrade.MergeStep | src/models/SimpleStatsDb.php:328-352 | when the merge step succeeds the table is the full merge of its rows |
| Upgrade.MigrateV2ToV3 | src/models/SimpleStatsDb.php:279-365 | the migration changes only rows and version records, and appends at most one version 3 record; when it appends one, the rows are the merge of the renamed rows; a version 3 record is appended exactly when the duplicate query runs, the merge succeeds (or finds nothing) and the `INSERT` succeeds, whatever the rename did; it reports success exactly when the rename succeeded and version 3 was stamped |
| Upgrade.FailedRenameStillStamps | src/models/SimpleStatsDb.php:301-360 | a failed rename batch clears the flag but the merge still runs on the unrenamed rows and version 3 is still stamped |
| Upgrade.NoDeleteWithoutUpdate | src/models/SimpleStatsDb.php:330-346 | when the update batch fails nothing is deleted or stamped, and the migration fails |
| Upgrade.UpdateWithoutDelete | src/models/SimpleStatsDb.php:330-341 | when the update succeeds and the delete fails, every row is still there with the updated counters, no version is stamped, and the migration fails |
| Upgrade.ReadVersion | src/models/SimpleStatsDb.php:148 | the version query fails without `simplestats`; otherwise its answer is the installed version |
| Upgrade.DryRunChangesNothing | src/models/SimpleStatsDb.php:153-155 | a dry run leaves the database exactly as it was |
| Upgrade.LegacyDetection | src/models/SimpleStatsDb.php:149-183 | without `simplestats`, a real run creates the table and stamps version 2 before going on; if either statement fails it returns `false` at once; a dry run reports `false` and changes nothing |
| Upgrade.MetaOnlyGrows | src/models/SimpleStatsDb.php:164-356 | version records are only appended, at most two, each a version 2 or version 3 record dated with the run's date |
| Upgrade.V3StampedOnlyAfterMerge | src/models/SimpleStatsDb.php:355-360 | when a run stamps version 3, `pagevisits` is the merge of the renamed rows |
| Upgrade.NoMigrationFromV3 | src/models/SimpleStatsDb.php:270-279 | with an installed version of 3 or more, no row and no version record changes |
| Upgrade.VersionNeverDecreases | src/models/SimpleStatsDb.php:267-268 | the installed version never goes down |
| Upgrade.UpgradeFromV2Succeeds | src/models/SimpleStatsDb.php:142-386 | a version 2 database whose columns are complete and which has rows, where the seven statements the run issues succeed, ends at version 3 with success and with the merged renamed rows |
| Upgrade.CompleteV2RunMigrates | src/models/SimpleStatsDb.php:147-365 | at version 2 with no missing language, a real run is the migration alone |
| Upgrade.MigrateSucceeds | src/models/SimpleStatsDb.php:279-365 | a migration whose statements all succeed reports success, merges the renamed rows and stamps version 3 |
| Upgrade.SingleLanguageUpgradeFails | src/models/SimpleStatsDb.php:211-246 | on a single-language site with `hits_en` a real run never returns `true`: it returns `false` or raises |
| Upgrade.CheckUpgradeWellFormed | src/models/SimpleStatsDb.php:142-386 | the check keeps ids unique, keeps version records only with the `simplestats` table, and keeps columns and rows only with `pagevisits` |
| Upgrade.FailedLanguageCheckStillMigrates | src/models/SimpleStatsDb.php:204-279 | below version 3, a language check that finds `pagevisits` unreadable or empty clears the flag, and the migration still runs on the unchanged database |
| Upgrade.RefusedAlterStops | src/models/SimpleStatsDb.php:239-279 | after a readable version, a failed statement for a missing language raises: only the columns of the codes before the first refused one are added, and no row, table or version record changes, whatever the version |
| Upgrade.RefusedAlterEndsCheck | src/models/SimpleStatsDb.php:142-279 | with a readable version, a failed statement for a missing language ends the whole check with the error; nothing is migrated or stamped |
| Upgrade.FailedMigrationKeepsColumns | src/models/SimpleStatsDb.php:204-279 | below version 3, the columns the language check added stay; after a refused statement nothing else runs; otherwise the flag is true exactly when both the check and the migration succeeded |
| Upgrade.NoFrenchColumnNeverMigrates | src/models/SimpleStatsDb.php:311-365 | without a `hits_fr` column that the language check could add, the `SUM(hits_fr)` query fails: no version 3 record is ever appended and no real run below version 3 returns `true` |
| Upgrade.UnreadableVersionStops | src/models/SimpleStatsDb.php:148-198 | when the version query fails on an existing `simplestats`, the check changes nothing, skips the language check and reports failure |
| Upgrade.UnreadableRequeryStops | src/models/SimpleStatsDb.php:183-198 | when the re-query after the legacy upgrade fails, the check stops with the new table and its version 2 record and reports failure |
| Upgrade.EmptyVersionTableFails | src/models/SimpleStatsDb.php:267-380 | an empty `simplestats` yields no version: only the language check runs, and the check reports failure unless that check raised |
| SimpleStats.CreateInstanceMeaning | src/models/SimpleStatsDb.php:43-121 | tables are created only when the file did not exist, and a new file holds exactly the bootstrap database; an existing singleton is kept, and a new one opens the file `getDbFile` names; the call reports success exactly when a connection exists afterwards |
| SimpleStats.ConnectedIsStable | src/models/SimpleStatsDb.php:36-41 | once `database()` has a connection, calling it again changes nothing and returns the same handle |
| SimpleStats.SimpleStatsDb.constructor | src/models/SimpleStatsDb.php:23-34 | the class starts with no singleton over the file as found |
| SimpleStats.SimpleStatsDb.CreateTables | src/models/SimpleStatsDb.php:77-85 | the seven `CREATE TABLE` statements and the stamp leave exactly the bootstrap database |
| SimpleStats.SimpleStatsDb.CreateDbInstance | src/models/SimpleStatsDb.php:43-121 | the file, the database and the singleton end as `CreateInstance` describes, and the invariant holds: a singleton implies an existing file, and at most one `Database` is ever built |
| SimpleStats.SimpleStatsDb.CreateFile | src/models/SimpleStatsDb.php:47-97 | a file that did not exist is created and holds exactly the bootstrap database; the singleton is untouched |
| SimpleStats.SimpleStatsDb.OpenSingleton | src/models/SimpleStatsDb.php:100-120 | an existing singleton is kept; otherwise one is built over the file `getDbFile` names when the connection succeeds; success exactly when a singleton exists |
| SimpleStats.SimpleStatsDb.Database | src/models/SimpleStatsDb.php:36-41 | `createDBInstance` runs only while the singleton is null; an existing handle is returned unchanged, and nothing else changes |
| SimpleStats.SimpleStatsDb.AddMissingColumns | src/models/SimpleStatsDb.php:239-251 | the `ALTER TABLE` loop, which stops at the first refused statement, leaves the columns and the flag `AddColumns` describes, and changes nothing else |
| SimpleStats.SimpleStatsDb.ReconcileLanguages | src/models/SimpleStatsDb.php:204-264 | the language check leaves the state, the flag and the raised error that `Reconcile` describes |
| SimpleStats.SimpleStatsDb.MigrateToV3 | src/models/SimpleStatsDb.php:279-365 | the migration leaves the state and flag `MigrateV2ToV3` describes |
| SimpleStats.SimpleStatsDb.UpgradeConnected | src/models/SimpleStatsDb.php:147-198 | with a connection, the upgrade leaves the state, the flag and the raised error that `CheckUpgrade` describes |
| SimpleStats.SimpleStatsDb.ContinueAfterVersion | src/models/SimpleStatsDb.php:198-381 | after the version query, the steps leave the state, the flag and the raised error that `AfterVersion` describes: an unreadable or empty `pagevisits` still lets the migration run (`Upgrade.FailedLanguageCheckStillMigrates`), a refused `ALTER TABLE` ends the check (`Upgrade.RefusedAlterStops`) |
| SimpleStats.SimpleStatsDb.CheckUpgradeDatabase | src/models/SimpleStatsDb.php:142-386 | the singleton and the file are what `database()` leaves, and the upgrade does not disturb them; without a connection the result is the connection error; after a refused `ALTER TABLE` it is the error that statement raises; otherwise it is the upgrade's `$ret`; in both upgrade cases the database is the one the upgrade leaves; the class invariant is kept |

Behaviours of the code that the model keeps as written:

- A failed slug rename clears `$ret` but does not block the merge or the version 3 stamp (src/models/SimpleStatsDb.php:301-308, 355). `Upgrade.FailedRenameStillStamps` states it for all inputs. A language check that finds `pagevisits` unreadable or empty does not stop the migration either (`Upgrade.FailedLanguageCheckStillMigrates`).
- A refused `ALTER TABLE` does not just clear `$ret`, although the commented-out `return true` and the `$ret = false` after it suggest that intent. The warning message at line 242 asks the `SQLite3` handle for `lastError()`, a method that class does not have (line 168 uses `lastErrorMsg()`). The resulting `Error` is not caught in `checkUpgradeDatabase`. So the first refused statement ends the check: no later column is added, the handle is not closed, the version is not compared, nothing is migrated, and no value is returned. The columns added before it stay. `Upgrade.RefusedAlterStops`, `Upgrade.RefusedAlterEndsCheck` and `SimpleStats.SimpleStatsDb.CheckUpgradeDatabase` (result `Raised`) state this. On a single-language site with `hits_en` and a non-empty `pagevisits`, every real run ends this way (`Upgrade.SingleLanguageCheckFails`).
- When the version cannot be read, neither by the first query nor by the re-query after the legacy upgrade, the check does nothing more: the language check sits in the `else` branch (src/models/SimpleStatsDb.php:187-198), although the comment at line 195 says the global checks can still proceed. `Upgrade.UnreadableVersionStops` and `Upgrade.UnreadableRequeryStops` state this.
- The duplicate query sums `hits_fr` (src/models/SimpleStatsDb.php:311), so on a database without that column it fails, the migration never stamps version 3 and the check keeps reporting failure (`Upgrade.NoFrenchColumnNeverMigrates`).
- The results of the bootstrap `CREATE TABLE` statements are not checked (src/models/SimpleStatsDb.php:77-85). `Bootstrap.NewDatabase` creates the tables whose statements succeed and reports nothing.

## Left out

- SQLite and Kirby `Database` internals are not modelled: SQL text, quoting and escaping of the concatenated queries, and how `execute` splits a multi-statement string. A batch either succeeds as a whole or fails with no effect.
- SQL `SUM` over NULL is not modelled. An absent counter counts as 0 (`Schema.Counter`).
- The order of the groups the duplicate query returns is not fixed by SQL. The model takes the order of first appearance, which matters only beyond 10000 groups.
- The success of each statement is one input per statement kind (`succeeds`). A statement that is repeated, such as a second `ALTER TABLE` for the same code, therefore meets the same oracle answer.
- `F::exists`, `Dir::make` and the second existence check after the bootstrap are not modelled. The file exists once `new SQLite3` has succeeded.
- The short-lived `SQLite3` handles are not modelled: opening them during the upgrade (assumed to succeed) and closing them. The `close()` inside the `ALTER TABLE` loop is never reached, because the error is raised on the line before it.
- `Logger` calls are left out, and `date('Ymd')` is a parameter.
- Dry-run reporting is left out; every dry-run branch is empty.
- `kirby()->defaultLanguage()` on a single-language site (where the code would call `code()` on null) is not modelled. The default language is always a given code.
- DbPaths.Extension: `F::extension` is modelled as the text after the last dot of the last `/`-separated segment, without Kirby's lowercasing (`Str::lower` of `pathinfo`'s extension). A configured `stats.SQLITE` is therefore kept by the source but replaced by the fallback in `DbPaths.DbFile`. `pathinfo` also ignores a trailing `/` (`db.sqlite/` has extension `sqlite`), while the model gives an empty extension there.
- Concurrency is not modelled; the code has none.
- The two connections (the Kirby `Database` and the `SQLite3` handle) are modelled as one view of the same file.
- The PHP default arguments are not modelled: `checkUpgradeDatabase` defaults to a dry run (src/models/SimpleStatsDb.php:142) and `getLogsPath` to an empty file name (src/models/SimpleStatsDb.php:136). The model always takes both as explicit arguments.
- Column names are compared case-sensitively. SQLite compares them case-insensitively, so language codes that differ only in case are distinct columns in the model but one column in SQLite.
