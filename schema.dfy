/** The data model of the statistics database: its tables, the `pagevisits`
    rows, the `simplestats` version records and the whole database as one value.

    The SQL engine itself is not modelled: each statement the core issues is
    named by a `Call`, and whether it succeeds is an input (`succeeds: Call -> bool`). */
module Schema {
  import opened Common

  /** Version of the database layout this software needs (`engineDbVersion`). */
  const EngineDbVersion: int := 3
  /** The first version that has the `simplestats` table. */
  const FirstMetaVersion: int := 2

  const PageVisitors: string := "pagevisitors"
  const Referers: string := "referers"
  const PageVisits: string := "pagevisits"
  const Devices: string := "devices"
  const Engines: string := "engines"
  const Systems: string := "systems"
  const MetaTable: string := "simplestats"

  /** Every table the bootstrap creates. */
  const AllTables: set<string> := {PageVisitors, Referers, PageVisits, Devices, Engines, Systems, MetaTable}

  /** The fixed columns of `pagevisits`; the `hits_<code>` columns come on top. */
  const FixedColumns: set<string> := {"id", "uid", "monthyear", "hits"}
  const HitsColumn: string := "hits"

  /** The per-language counter column of a language code. */
  function LangColumn(code: string): (column: string)
    ensures |column| == |code| + 5 && column[5..] == code
  {
    "hits_" + code
  }

  const HitsFr: string := LangColumn("fr")
  const HitsEn: string := LangColumn("en")

  lemma LangColumnInjective(a: string, b: string)
    ensures LangColumn(a) == LangColumn(b) <==> a == b
  {
    if LangColumn(a) == LangColumn(b) {
      assert a == LangColumn(a)[5..] == LangColumn(b)[5..] == b;
    }
  }

  /** A `pagevisits` row. `counters` holds the integer columns `hits` and
      `hits_<code>`; a column without an entry reads as 0. */
  datatype Row = Row(id: int, uid: string, monthyear: int, counters: map<string, int>)

  /** The `(uid, monthyear)` pair that should identify a row. */
  datatype Key = Key(uid: string, monthyear: int)

  function KeyOf(r: Row): Key {
    Key(r.uid, r.monthyear)
  }

  function Counter(r: Row, column: string): int {
    if column in r.counters then r.counters[column] else 0
  }

  /** A `simplestats` row: the version stamped and the date (YYYYMMDD) of stamping. */
  datatype MetaRecord = MetaRecord(version: int, migrationDate: int)

  /** The database as the core sees it. `columns` is the column set of
      `pagevisits`; the other tables' contents never change here. */
  datatype DbState = DbState(tables: set<string>, meta: seq<MetaRecord>, columns: set<string>, rows: seq<Row>)

  const EmptyDb: DbState := DbState({}, [], {}, [])

  /** Each statement the core issues, as the key of the success oracle. */
  datatype Call =
    | OpenFile                 // new SQLite3($target) when the file does not exist yet
    | CreateTable(name: string)
    | StampNew                 // INSERT of engineDbVersion into a new database
    | OpenDatabase             // new Database([...]) for the singleton
    | QueryVersions            // SELECT * FROM simplestats ORDER BY version DESC LIMIT 10
    | CreateMetaTable          // CREATE TABLE simplestats, when upgrading from v1
    | StampV2                  // INSERT of version 2 after that
    | RequeryVersion           // SELECT version FROM simplestats ... LIMIT 1
    | QueryPageVisits          // SELECT * FROM pagevisits LIMIT 1
    | AddColumn(code: string)  // ALTER TABLE pagevisits ADD COLUMN hits_<code>
    | RenameSlugs              // the batch of slug renames
    | QueryDuplicates          // the GROUP BY uid, monthyear HAVING COUNT > 1 query
    | MergeUpdate              // the batch of counter updates
    | MergeDelete              // the batch of deletions
    | StampV3                  // INSERT of version 3

  function IdSet(rows: seq<Row>): set<int> {
    set r | r in rows :: r.id
  }

  /** `id` is the primary key of `pagevisits`. */
  predicate UniqueIds(rows: seq<Row>) {
    forall i, j :: 0 <= i < j < |rows| ==> rows[i].id != rows[j].id
  }

  lemma UniqueIdsCons(rows: seq<Row>)
    requires rows != []
    ensures UniqueIds(rows) <==> UniqueIds(rows[1..]) && rows[0].id !in IdSet(rows[1..])
  {
    var tail := rows[1..];
    if UniqueIds(rows) {
      forall i, j | 0 <= i < j < |tail| ensures tail[i].id != tail[j].id {
        assert tail[i] == rows[i + 1] && tail[j] == rows[j + 1];
      }
    }
    if UniqueIds(tail) && rows[0].id !in IdSet(tail) {
      forall i, j | 0 <= i < j < |rows| ensures rows[i].id != rows[j].id {
        if i == 0 {
          assert rows[j] == tail[j - 1];
          assert rows[j] in tail;
        } else {
          assert rows[i] == tail[i - 1] && rows[j] == tail[j - 1];
        }
      }
    }
  }

  /** In a table keyed by id, two rows with the same id are the same row. */
  lemma SameIdSameRow(rows: seq<Row>, a: Row, b: Row)
    requires UniqueIds(rows) && a in rows && b in rows && a.id == b.id
    ensures a == b
  {
    var i :| 0 <= i < |rows| && rows[i] == a;
    var j :| 0 <= j < |rows| && rows[j] == b;
    assert i == j;
  }

  /** The invariants every database the core produces keeps. */
  predicate WellFormed(s: DbState) {
    && UniqueIds(s.rows)
    && (MetaTable !in s.tables ==> s.meta == [])
    && (PageVisits !in s.tables ==> s.columns == {} && s.rows == [])
  }

  /** The installed version: the first row of `ORDER BY version DESC`, i.e. the
      largest stamped version; none when the table is empty. */
  function MaxVersion(meta: seq<MetaRecord>): (v: Option<int>)
    ensures v.None? <==> meta == []
    ensures v.Some? ==> exists i :: 0 <= i < |meta| && meta[i].version == v.value
    ensures v.Some? ==> forall i :: 0 <= i < |meta| ==> meta[i].version <= v.value
  {
    if meta == [] then None
    else
      var last := meta[|meta| - 1].version;
      match MaxVersion(meta[..|meta| - 1])
      case None => Some(last)
      case Some(m) => Some(if last > m then last else m)
  }

  /** Appending a record can only raise the installed version, to at most the new one. */
  lemma MaxVersionAppend(meta: seq<MetaRecord>, m: MetaRecord)
    ensures MaxVersion(meta + [m]) ==
      match MaxVersion(meta)
      case None => Some(m.version)
      case Some(v) => Some(if m.version > v then m.version else v)
  {
    assert (meta + [m])[..|meta|] == meta;
  }
}
