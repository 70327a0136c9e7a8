/** The `SimpleStatsDb` class: the static `Database` singleton, the database
    file it opens (created and bootstrapped on first use) and the upgrade
    routine, as methods that change the abstract database in place. */
module SimpleStats {
  import opened Common
  import opened Schema
  import opened DbPaths
  import opened Bootstrap
  import opened Batches
  import opened Merge
  import opened Upgrade

  /** The Kirby `Database` connection the singleton holds, to the file it opened. */
  datatype Handle = Handle(file: string)

  /** The configuration `getDbFile` reads. */
  datatype Config = Config(dbOption: Option<string>, logsRoot: Option<string>, configRoot: string)

  /** What `checkUpgradeDatabase` ends with: its `$ret`, the error raised when
      `database()` has no connection to return, or the error raised after a
      refused `ALTER TABLE`. */
  datatype UpgradeResult = Completed(ok: bool) | NoConnection | Raised

  /** The file, the database in it and the singleton, with the value
      `createDBInstance` returns. */
  datatype Connection = Connection(fileExists: bool, db: DbState, handle: Option<Handle>, ok: bool)

  /** `createDBInstance()`: create and bootstrap the file when it does not exist,
      then build the singleton if there is none yet. */
  function CreateInstance(fileExists: bool, db: DbState, handle: Option<Handle>,
                          config: Config, site: Site, date: int, succeeds: Call -> bool): Connection
  {
    var target := DbFile(config.dbOption, config.logsRoot, config.configRoot);
    if !fileExists && !succeeds(OpenFile) then Connection(false, db, handle, false)
    else
      var db' := if fileExists then db else NewDatabase(site.multilang, site.languages, date, succeeds);
      if handle.Some? then Connection(true, db', handle, true)
      else if succeeds(OpenDatabase) then Connection(true, db', Some(Handle(target)), true)
      else Connection(true, db', None, false)
  }

  /** `database()`: `createDBInstance` only while the singleton is null. */
  function Connected(fileExists: bool, db: DbState, handle: Option<Handle>,
                     config: Config, site: Site, date: int, succeeds: Call -> bool): Connection
  {
    if handle.Some? then Connection(fileExists, db, handle, true)
    else CreateInstance(fileExists, db, handle, config, site, date, succeeds)
  }

  /** Tables are created only in a file that did not exist; a new file holds
      exactly the bootstrap database; an existing singleton is kept, a new one
      opens the file `getDbFile` names; the call reports success exactly when
      there is a connection afterwards. */
  lemma CreateInstanceMeaning(fileExists: bool, db: DbState, handle: Option<Handle>,
                              config: Config, site: Site, date: int, succeeds: Call -> bool)
    requires handle.Some? ==> fileExists
    ensures var c := CreateInstance(fileExists, db, handle, config, site, date, succeeds);
            && (c.ok <==> c.handle.Some?)
            && (c.fileExists <==> fileExists || succeeds(OpenFile))
            && (c.db != db ==> !fileExists)
            && (!fileExists && succeeds(OpenFile) ==> c.db == NewDatabase(site.multilang, site.languages, date, succeeds))
            && (handle.Some? ==> c.handle == handle)
            && (handle.None? && c.handle.Some? ==>
                  c.handle == Some(Handle(DbFile(config.dbOption, config.logsRoot, config.configRoot))))
            && (c.handle.Some? ==> c.fileExists)
  {
  }

  /** Once `database()` has a connection, calling it again changes nothing and
      returns the same handle: the singleton is built at most once. */
  lemma ConnectedIsStable(fileExists: bool, db: DbState, handle: Option<Handle>,
                          config: Config, site: Site, date: int, date': int, succeeds: Call -> bool)
    ensures var c := Connected(fileExists, db, handle, config, site, date, succeeds);
            c.handle.Some? ==>
              Connected(c.fileExists, c.db, c.handle, config, site, date', succeeds) == c.(ok := true)
  {
  }

  class SimpleStatsDb {
    /** Whether the database file exists. */
    var fileExists: bool
    var tables: set<string>
    var meta: seq<MetaRecord>
    var columns: set<string>
    var rows: seq<Row>
    /** The static `$database` singleton. */
    var database: Option<Handle>
    /** How many `Database` objects were built. */
    ghost var connections: nat

    /** The database in the file. */
    function State(): DbState
      reads this
    {
      DbState(tables, meta, columns, rows)
    }

    ghost predicate Valid()
      reads this
    {
      && WellFormed(State())
      && (!fileExists ==> State() == EmptyDb)
      && (database.Some? ==> fileExists)
      && connections == (if database.Some? then 1 else 0)
    }

    /** The class before any call: no singleton yet, and the file as found on disk. */
    constructor (fileExists: bool, onDisk: DbState)
      requires WellFormed(onDisk) && (!fileExists ==> onDisk == EmptyDb)
      ensures Valid()
      ensures this.fileExists == fileExists && State() == onDisk && database == None
    {
      this.fileExists := fileExists;
      tables, meta, columns, rows := onDisk.tables, onDisk.meta, onDisk.columns, onDisk.rows;
      database := None;
      connections := 0;
    }

    /** The seven `CREATE TABLE` statements and the version stamp of a new file. */
    method CreateTables(keys: string, site: Site, date: int, succeeds: Call -> bool)
      requires keys == LangKeys(site.multilang, site.languages)
      modifies this
      ensures State() == NewDatabase(site.multilang, site.languages, date, succeeds)
      ensures fileExists == old(fileExists) && database == old(database) && connections == old(connections)
    {
      // The seven statements; their failures are not checked.
      var declarable := keys != "" && (site.multilang ==> Distinct(site.languages));
      tables := set t | t in AllTables && succeeds(CreateTable(t)) && (t == PageVisits ==> declarable);
      meta := [];
      if MetaTable in tables && succeeds(StampNew) {
        meta := meta + [MetaRecord(EngineDbVersion, date)];
      }
      columns := if PageVisits in tables then BootstrapColumns(site.multilang, site.languages) else {};
      rows := [];
    }

    /** `createDBInstance()`. */
    method CreateDbInstance(config: Config, site: Site, date: int, succeeds: Call -> bool) returns (ok: bool)
      requires Valid()
      modifies this
      ensures Valid()
      ensures Connection(fileExists, State(), database, ok)
              == CreateInstance(old(fileExists), old(State()), old(database), config, site, date, succeeds)
    {
      if !fileExists {
        if !succeeds(OpenFile) {
          return false;
        }
        CreateFile(site, date, succeeds);
      }
      ok := OpenSingleton(config, succeeds);
    }

    /** A new file: the bootstrap statements run on it, and it exists from now on. */
    method CreateFile(site: Site, date: int, succeeds: Call -> bool)
      requires Valid() && !fileExists
      modifies this
      ensures Valid() && fileExists
      ensures State() == NewDatabase(site.multilang, site.languages, date, succeeds)
      ensures database == old(database) && connections == old(connections)
    {
      var keys := BuildLangKeys(site.multilang, site.languages);
      CreateTables(keys, site, date, succeeds);
      fileExists := true;
    }

    /** The singleton is built over the file `getDbFile` names, unless one exists. */
    method OpenSingleton(config: Config, succeeds: Call -> bool) returns (ok: bool)
      requires Valid() && fileExists
      modifies this
      ensures Valid() && fileExists && State() == old(State())
      ensures database == if old(database).Some? then old(database)
                          else if succeeds(OpenDatabase) then Some(Handle(DbFile(config.dbOption, config.logsRoot, config.configRoot)))
                          else None
      ensures ok <==> database.Some?
    {
      if database.None? && succeeds(OpenDatabase) {
        database := Some(Handle(DbFile(config.dbOption, config.logsRoot, config.configRoot)));
        connections := connections + 1;
      }
      ok := database.Some?;
    }

    /** `database()`: the singleton, created on first use. */
    method Database(config: Config, site: Site, date: int, succeeds: Call -> bool) returns (h: Option<Handle>)
      requires Valid()
      modifies this
      ensures Valid()
      ensures Connection(fileExists, State(), database, h.Some?)
              == Connected(old(fileExists), old(State()), old(database), config, site, date, succeeds)
      ensures h == database
      ensures old(database).Some? ==> h == old(database) && State() == old(State()) && fileExists == old(fileExists)
    {
      if database.None? {
        var _ := CreateDbInstance(config, site, date, succeeds);
      }
      h := database;
    }

    /** The `ALTER TABLE` loop over the missing codes. The first refused
        statement raises; `ok` is false when that ended the loop. */
    method AddMissingColumns(missing: seq<string>, succeeds: Call -> bool) returns (ok: bool)
      modifies this
      ensures Altered(columns, ok) == AddColumns(old(columns), missing, succeeds)
      ensures tables == old(tables) && meta == old(meta) && rows == old(rows)
      ensures fileExists == old(fileExists) && database == old(database) && connections == old(connections)
    {
      var i := 0;
      while i < |missing|
        invariant 0 <= i <= |missing|
        invariant Altered(columns, true) == AddColumns(old(columns), missing[..i], succeeds)
        invariant tables == old(tables) && meta == old(meta) && rows == old(rows)
        invariant fileExists == old(fileExists) && database == old(database) && connections == old(connections)
      {
        assert missing[..i + 1][..i] == missing[..i];
        var l := missing[i];
        if !succeeds(AddColumn(l)) || LangColumn(l) in columns {
          AddColumnsStopped(old(columns), missing, i + 1, succeeds);
          return false;
        }
        columns := columns + {LangColumn(l)};
        i := i + 1;
      }
      assert missing[..i] == missing;
      ok := true;
    }

    /** The language check of `checkUpgradeDatabase`; `raised` when a refused
        statement ended it. */
    method ReconcileLanguages(site: Site, dryRun: bool, succeeds: Call -> bool) returns (ok: bool, raised: bool)
      modifies this
      ensures (if raised then Thrown(State()) else Outcome(ok, State())) == Reconcile(old(State()), site, dryRun, succeeds)
      ensures fileExists == old(fileExists) && database == old(database) && connections == old(connections)
    {
      if PageVisits !in tables || !succeeds(QueryPageVisits) {
        return false, false;
      }
      if rows == [] {
        return false, false;
      }
      var missing := CollectMissingLangs(site.multilang, site.languages, columns);
      ok, raised := true, false;
      if |missing| > 0 && !dryRun {
        var added := AddMissingColumns(missing, succeeds);
        raised := !added;
      }
    }

    /** The v2 to v3 migration of `checkUpgradeDatabase`. */
    method MigrateToV3(site: Site, date: int, succeeds: Call -> bool) returns (ok: bool)
      modifies this
      ensures Outcome(ok, State()) == MigrateV2ToV3(old(State()), site, date, succeeds)
      ensures fileExists == old(fileExists) && database == old(database) && connections == old(connections)
    {
      ok := true;
      var pairs := CollectSlugsToRestore(site.pages, site.languages, site.defaultLanguage);
      var renames := BuildRenameBatch(pairs);
      if succeeds(RenameSlugs) {
        rows := ExecBatch(rows, renames);
      } else {
        ok := false;
      }
      if !(succeeds(QueryDuplicates) && HitsFr in columns && HitsEn in columns) {
        return false;
      }
      var dups := SelectDuplicates(rows);
      var updates, deletes := BuildMergeBatches(dups);
      var changeToV3 := false;
      if |deletes| > 0 || |updates| > 0 {
        if succeeds(MergeUpdate) {
          rows := ExecBatch(rows, updates);
          if succeeds(MergeDelete) {
            rows := ExecBatch(rows, deletes);
            changeToV3 := true;
          } else {
            ok := false;
          }
        } else {
          ok := false;
        }
      } else {
        changeToV3 := true;
      }
      if changeToV3 {
        if succeeds(StampV3) {
          meta := meta + [MetaRecord(EngineDbVersion, date)];
        } else {
          ok := false;
        }
      }
    }

    /** `checkUpgradeDatabase($dryRun)`. */
    method CheckUpgradeDatabase(config: Config, site: Site, date: int, dryRun: bool, succeeds: Call -> bool)
      returns (res: UpgradeResult)
      requires Valid()
      modifies this
      ensures Valid()
      ensures var c := Connected(old(fileExists), old(State()), old(database), config, site, date, succeeds);
              && database == c.handle && fileExists == c.fileExists
              && (c.handle.None? ==> res == NoConnection && State() == c.db)
              && (c.handle.Some? ==>
                    var r := CheckUpgrade(c.db, site, date, dryRun, succeeds);
                    res == (if r.Thrown? then Raised else Completed(r.ok)) && State() == r.db)
    {
      var h := Database(config, site, date, succeeds);
      if h.None? {
        return NoConnection;
      }
      CheckUpgradeWellFormed(State(), site, date, dryRun, succeeds);
      var ok, raised := UpgradeConnected(site, date, dryRun, succeeds);
      return if raised then Raised else Completed(ok);
    }

    /** The body of `checkUpgradeDatabase` once `database()` has a connection. */
    method UpgradeConnected(site: Site, date: int, dryRun: bool, succeeds: Call -> bool) returns (ok: bool, raised: bool)
      modifies this
      ensures (if raised then Thrown(State()) else Outcome(ok, State())) == CheckUpgrade(old(State()), site, date, dryRun, succeeds)
      ensures fileExists == old(fileExists) && database == old(database) && connections == old(connections)
    {
      ghost var s0 := State();
      var q := if MetaTable in tables && succeeds(QueryVersions) then Versions(MaxVersion(meta)) else Unreadable;
      if q.Unreadable? && MetaTable !in tables && !dryRun {
        if !succeeds(CreateMetaTable) {
          return false, false;
        }
        tables := tables + {MetaTable};
        if !succeeds(StampV2) {
          return false, false;
        }
        meta := meta + [MetaRecord(FirstMetaVersion, date)];
        assert State() == LegacyStamped(s0, date);
        q := if succeeds(RequeryVersion) then Versions(MaxVersion(meta)) else Unreadable;
      }
      ok, raised := ContinueAfterVersion(q, site, date, dryRun, succeeds);
    }

    /** `checkUpgradeDatabase` once the version query has an answer (or has
        failed for good): the language check, then, unless it raised, the
        version comparison. */
    method ContinueAfterVersion(q: VersionAnswer, site: Site, date: int, dryRun: bool, succeeds: Call -> bool)
      returns (ok: bool, raised: bool)
      modifies this
      ensures (if raised then Thrown(State()) else Outcome(ok, State())) == AfterVersion(old(State()), q, site, date, dryRun, succeeds)
      ensures fileExists == old(fileExists) && database == old(database) && connections == old(connections)
    {
      ok, raised := true, false;
      if q.Unreadable? {
        ok := false;
      } else {
        var langsOk;
        langsOk, raised := ReconcileLanguages(site, dryRun, succeeds);
        if raised {
          return;
        }
        ok := ok && langsOk;
        match q.top
        case None =>
          ok := false;
        case Some(v) =>
          if v != EngineDbVersion {
            if !dryRun && v < EngineDbVersion {
              var migrated := MigrateToV3(site, date, succeeds);
              ok := ok && migrated;
            }
          }
      }
    }
  }
}
