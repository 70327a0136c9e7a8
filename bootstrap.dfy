/** Creating a new database: the `hits_<code>` column list of `pagevisits`
    (built by a loop that appends to a string) and the state the seven
    `CREATE TABLE` statements and the version stamp leave behind. */
module Bootstrap {
  import opened Common
  import opened Schema

  /** The declaration of one language counter column, `` `hits_<code>` INTEGER ``. */
  function ColumnDef(code: string): (def: string)
    ensures ',' in def <==> ',' in code
  {
    var def := "`hits_" + code + "` INTEGER";
    assert def == "`hits_" + code + "` INTEGER";
    def
  }

  /** The declarations of `codes`, in order, separated by `", "`. */
  function JoinDefs(codes: seq<string>): (fragment: string)
    ensures |fragment| == 0 <==> codes == []
  {
    if codes == [] then ""
    else if |codes| == 1 then ColumnDef(codes[0])
    else JoinDefs(codes[..|codes| - 1]) + ", " + ColumnDef(codes[|codes| - 1])
  }

  /** The language part of the `pagevisits` declaration: `hits_en` alone on a
      single-language site, one column per active language otherwise. */
  function LangKeys(multilang: bool, codes: seq<string>): string {
    if multilang then JoinDefs(codes) else ColumnDef("en")
  }

  /** The pre-computation of `$langKeys`: append a separator whenever the string
      is already non-empty, then the next declaration. */
  method BuildLangKeys(multilang: bool, codes: seq<string>) returns (keys: string)
    ensures keys == LangKeys(multilang, codes)
    ensures keys == "" <==> multilang && codes == []
  {
    keys := "";
    if !multilang {
      keys := ColumnDef("en");
    } else {
      var i := 0;
      while i < |codes|
        invariant 0 <= i <= |codes|
        invariant keys == JoinDefs(codes[..i])
      {
        assert codes[..i + 1][..i] == codes[..i];
        if |keys| > 0 {
          keys := keys + ", ";
        }
        keys := keys + ColumnDef(codes[i]);
        i := i + 1;
      }
      assert codes[..|codes|] == codes;
    }
  }

  /** Splits a column list back into its declarations, at every `", "`. */
  function SplitDefs(s: string): (parts: seq<string>)
    ensures |parts| >= 1
    decreases |s|
  {
    if ',' !in s then [s]
    else
      var tail := AfterLast(s, ',');
      var head := s[..|s| - |tail| - 1];
      SplitDefs(head) + [if tail != [] && tail[0] == ' ' then tail[1..] else tail]
  }

  lemma SplitDefsJoin(head: string, last: string)
    requires ',' !in last
    ensures SplitDefs(head + ", " + last) == SplitDefs(head) + [last]
  {
    var s := head + ", " + last;
    assert s == head + [','] + (" " + last);
    AfterLastOfJoin(head, ',', " " + last);
    assert s[..|s| - |" " + last| - 1] == head;
  }

  /** One more declaration at the end keeps the pieces matching the codes. */
  lemma DefsSnoc(parts: seq<string>, prev: seq<string>, codes: seq<string>)
    requires codes != [] && |prev| == |codes| - 1
    requires parts == prev + [ColumnDef(codes[|codes| - 1])]
    requires forall i :: 0 <= i < |prev| ==> prev[i] == ColumnDef(codes[i])
    ensures |parts| == |codes|
    ensures forall i :: 0 <= i < |codes| ==> parts[i] == ColumnDef(codes[i])
  {
  }

  /** The column list can be read back: splitting it at `", "` gives one
      declaration per active language, in order, with no empty piece (so no
      leading, trailing or doubled separator). */
  lemma {:induction false} LangKeysRoundTrip(codes: seq<string>)
    requires codes != []
    requires forall i :: 0 <= i < |codes| ==> ',' !in codes[i]
    ensures |SplitDefs(LangKeys(true, codes))| == |codes|
    ensures forall i :: 0 <= i < |codes| ==> SplitDefs(LangKeys(true, codes))[i] == ColumnDef(codes[i])
  {
    if |codes| == 1 {
      assert ',' !in LangKeys(true, codes);
    } else {
      var init := codes[..|codes| - 1];
      var last := codes[|codes| - 1];
      assert forall i :: 0 <= i < |init| ==> ',' !in init[i];
      LangKeysRoundTrip(init);
      assert LangKeys(true, codes) == JoinDefs(init) + ", " + ColumnDef(last);
      SplitDefsJoin(JoinDefs(init), ColumnDef(last));
      DefsSnoc(SplitDefs(LangKeys(true, codes)), SplitDefs(LangKeys(true, init)), codes);
    }
  }

  /** The `pagevisits` columns a new database declares. */
  function BootstrapColumns(multilang: bool, codes: seq<string>): (columns: set<string>)
    ensures FixedColumns <= columns
    ensures forall c :: c in codes && multilang ==> LangColumn(c) in columns
    ensures !multilang ==> HitsEn in columns
    ensures forall c :: c in columns ==>
              || c in FixedColumns
              || (multilang && exists k :: k in codes && c == LangColumn(k))
              || (!multilang && c == HitsEn)
  {
    FixedColumns + (if multilang then set c | c in codes :: LangColumn(c) else {HitsEn})
  }

  /** The `pagevisits` statement is valid SQL only with at least one language
      column and no column declared twice. */
  predicate PageVisitsDeclarable(multilang: bool, codes: seq<string>) {
    LangKeys(multilang, codes) != "" && (multilang ==> Distinct(codes))
  }

  /** The database the bootstrap leaves when the file did not exist: each
      `CREATE TABLE` that succeeds adds its table (their failures are not
      checked), then one version record when the `simplestats` insert succeeds. */
  function NewDatabase(multilang: bool, codes: seq<string>, date: int, succeeds: Call -> bool): (s: DbState)
    ensures WellFormed(s) && s.rows == [] && s.tables <= AllTables
    ensures |s.meta| <= 1 && forall i :: 0 <= i < |s.meta| ==> s.meta[i] == MetaRecord(EngineDbVersion, date)
    ensures PageVisits in s.tables ==> s.columns == BootstrapColumns(multilang, codes)
  {
    var tables := set t | t in AllTables && succeeds(CreateTable(t))
                                         && (t == PageVisits ==> PageVisitsDeclarable(multilang, codes));
    DbState(tables,
            if MetaTable in tables && succeeds(StampNew) then [MetaRecord(EngineDbVersion, date)] else [],
            if PageVisits in tables then BootstrapColumns(multilang, codes) else {},
            [])
  }

  /** When every statement succeeds a new database has all seven tables, exactly
      one version record stamped `engineDbVersion`, and a counter column for each
      active language (`hits_en` alone on a single-language site). */
  lemma NewDatabaseComplete(multilang: bool, codes: seq<string>, date: int, succeeds: Call -> bool)
    requires forall t :: t in AllTables ==> succeeds(CreateTable(t))
    requires succeeds(StampNew)
    requires multilang ==> codes != [] && Distinct(codes)
    ensures var s := NewDatabase(multilang, codes, date, succeeds);
            && s.tables == AllTables
            && s.meta == [MetaRecord(EngineDbVersion, date)]
            && MaxVersion(s.meta) == Some(EngineDbVersion)
            && (multilang ==> forall c :: c in codes ==> LangColumn(c) in s.columns)
            && (!multilang ==> HitsEn in s.columns)
  {
    var s := NewDatabase(multilang, codes, date, succeeds);
    assert PageVisitsDeclarable(multilang, codes);
    assert PageVisits in s.tables;
    assert MetaTable in s.tables;
  }

  /** With no active language on a multi-language site the declaration ends in
      `", )"`, so `pagevisits` is never created. */
  lemma NoLanguagesNoPageVisits(date: int, succeeds: Call -> bool)
    ensures PageVisits !in NewDatabase(true, [], date, succeeds).tables
  {
  }
}
