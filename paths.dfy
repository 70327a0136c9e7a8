/** Where the database file lives: `getDbFile` and `getLogsPath`.

    The configured option, the presence of a `logs` root and the two roots are
    supplied by the caller (they come from the CMS configuration). */
module DbPaths {
  import opened Common

  /** File name used when the configured database path is not accepted. */
  const DefaultDbFileName: string := "simplestats.sqlite"
  /** The only extension under which the configured path is accepted. */
  const SqliteExtension: string := "sqlite"

  /** The last segment of a `/`-separated path. */
  function BaseName(path: string): (base: string)
    ensures '/' !in base
  {
    AfterLast(path, '/')
  }

  /** The base name is the text after the last `/`, and the whole path when
      there is none. */
  lemma BaseNameIsLastSegment(path: string)
    ensures var base := BaseName(path);
            && |base| <= |path| && base == path[|path| - |base|..]
            && (|base| < |path| ==> path[|path| - |base| - 1] == '/')
            && ('/' !in path ==> base == path)
  {
  }

  /** The extension of a path as `pathinfo` reports it: the text after the last
      dot of the last segment, empty when that segment has no dot. */
  function Extension(path: string): (ext: string)
    ensures '.' !in ext && '/' !in ext
    ensures '.' !in BaseName(path) ==> ext == ""
    ensures var base := BaseName(path);
            '.' in base ==> |ext| < |base| && base[|base| - |ext| - 1] == '.' && base[|base| - |ext|..] == ext
  {
    SegmentExtension(BaseName(path))
  }

  /** The extension of one segment: the text after its last dot, empty when it
      has none. */
  function SegmentExtension(name: string): (ext: string)
    requires '/' !in name
    ensures '.' !in ext && '/' !in ext
    ensures '.' !in name ==> ext == ""
    ensures '.' in name ==> |ext| < |name| && name[|name| - |ext| - 1] == '.' && name[|name| - |ext|..] == ext
  {
    ExtensionHasNoSeparator(name);
    ExtensionOfUndotted(name);
    ExtensionFollowsLastDot(name);
    AfterLastDot(name)
  }

  /** What `SegmentExtension` computes, before its contract is established by
      the three lemmas below. */
  function AfterLastDot(name: string): string {
    var after := AfterLast(name, '.');
    if |after| < |name| then after else ""
  }

  /** The extension holds neither a dot nor, in a segment, a slash. */
  lemma ExtensionHasNoSeparator(name: string)
    requires '/' !in name
    ensures var ext := AfterLastDot(name);
            '.' !in ext && '/' !in ext
  {
    AfterLastLacks(name, '.', '/');
  }

  /** A segment without a dot has no extension. */
  lemma ExtensionOfUndotted(name: string)
    ensures '.' !in name ==> AfterLastDot(name) == ""
  {
  }

  /** In a segment with a dot the extension is what follows the last dot. */
  lemma ExtensionFollowsLastDot(name: string)
    ensures var ext := AfterLastDot(name);
            '.' in name ==> |ext| < |name| && name[|name| - |ext| - 1] == '.' && name[|name| - |ext|..] == ext
  {
    if '.' in name {
      AfterLastOfSome(name, '.');
    }
  }

  /** PHP truthiness of the option value: an absent option (`false`), `""` and
      `"0"` are all falsy. */
  predicate Truthy(option: Option<string>) {
    option.Some? && option.value != "" && option.value != "0"
  }

  /** `getLogsPath($file)`: under the `logs` root when the CMS has one,
      otherwise under `config/../logs/`. */
  function LogsPath(file: string, logsRoot: Option<string>, configRoot: string): (p: string)
    ensures |p| > |file| && p[|p| - |file|..] == file && p[|p| - |file| - 1] == '/'
    ensures logsRoot.Some? ==> |p| == |logsRoot.value| + 1 + |file|
                               && p[..|logsRoot.value|] == logsRoot.value
                               && p[|logsRoot.value|..|p| - |file|] == "/"
    ensures logsRoot.None? ==> |p| == |configRoot| + 9 + |file|
                               && p[..|configRoot|] == configRoot
                               && p[|configRoot|..|p| - |file|] == "/../logs/"
  {
    match logsRoot
    case Some(root) =>
      var p := root + "/" + file;
      assert p[|root|..|p| - |file|] == "/";
      p
    case None =>
      var p := configRoot + "/../logs/" + file;
      assert p[|configRoot|..|p| - |file|] == "/../logs/";
      p
  }

  /** `getDbFile()`: the configured option when it is set and names a `.sqlite`
      file, otherwise `simplestats.sqlite` in the logs directory. */
  function DbFile(option: Option<string>, logsRoot: Option<string>, configRoot: string): (target: string)
    ensures Truthy(option) && Extension(option.value) == SqliteExtension ==> target == option.value
    ensures !(Truthy(option) && Extension(option.value) == SqliteExtension) ==>
              target == LogsPath(DefaultDbFileName, logsRoot, configRoot)
    ensures Extension(target) == SqliteExtension
  {
    if !Truthy(option) || Extension(option.value) != SqliteExtension then
      var fallback := LogsPath(DefaultDbFileName, logsRoot, configRoot);
      FallbackIsSqlite(logsRoot, configRoot);
      fallback
    else
      option.value
  }

  /** A file name put under a directory keeps its base name and its extension. */
  lemma FileUnderDir(dir: string, name: string)
    requires '/' !in name
    ensures BaseName(dir + "/" + name) == name
    ensures Extension(dir + "/" + name) == Extension(name)
  {
    assert dir + "/" + name == dir + ['/'] + name;
    AfterLastOfJoin(dir, '/', name);
    assert BaseName(name) == name;
  }

  /** The fallback path always carries the accepted extension. */
  lemma FallbackIsSqlite(logsRoot: Option<string>, configRoot: string)
    ensures BaseName(LogsPath(DefaultDbFileName, logsRoot, configRoot)) == DefaultDbFileName
    ensures Extension(LogsPath(DefaultDbFileName, logsRoot, configRoot)) == SqliteExtension
  {
    var dir := match logsRoot
      case Some(root) => root
      case None => configRoot + "/../logs";
    assert LogsPath(DefaultDbFileName, logsRoot, configRoot) == dir + "/" + DefaultDbFileName;
    DefaultNameExtension();
    FileUnderDir(dir, DefaultDbFileName);
  }

  lemma DefaultNameExtension()
    ensures '/' !in DefaultDbFileName
    ensures Extension(DefaultDbFileName) == SqliteExtension
  {
    var name := DefaultDbFileName;
    assert name == "simplestats" + ['.'] + SqliteExtension;
    assert '/' !in name;
    assert BaseName(name) == name;
    assert name[11] == '.';
    AfterLastOfJoin("simplestats", '.', SqliteExtension);
  }

  /** Feeding the chosen path back in as the option selects it again. */
  lemma DbFileIsStable(option: Option<string>, logsRoot: Option<string>, configRoot: string)
    ensures DbFile(Some(DbFile(option, logsRoot, configRoot)), logsRoot, configRoot)
            == DbFile(option, logsRoot, configRoot)
  {
    var target := DbFile(option, logsRoot, configRoot);
    var base := BaseName(target);
    assert |Extension(target)| == 6;
    assert |base| >= 7;
    assert |target| >= |base|;
    assert target != "" && target != "0";
  }
}
