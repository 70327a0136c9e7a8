/** `checkUpgradeDatabase` as a function of the database state: the legacy v1
    detection, the version read, the language column reconciliation, the v2 to
    v3 content migration and the `$ret` flag that collects their failures. */
module Upgrade {
  import opened Common
  import opened Schema
  import opened Batches
  import opened Merge

  /** A page of the site: its slug in the default content and its translated slugs. */
  datatype Page = Page(slug: string, translations: map<string, string>)

  /** `$page->slug($code)`: the translated slug when there is one. */
  function Slug(p: Page, code: string): string {
    if code in p.translations then p.translations[code] else p.slug
  }

  /** What the CMS tells the upgrade about the site. */
  datatype Site = Site(multilang: bool, languages: seq<string>, defaultLanguage: string, pages: seq<Page>)

  /** The outcome of a step: the `$ret` it leaves and the database after it, or
      the `Error` a refused `ALTER TABLE` raises, with the database the
      statements before it left. The warning of that branch asks the `SQLite3`
      handle for `lastError()`, a method the class does not have, and nothing in
      `checkUpgradeDatabase` catches the error: the check returns no value. */
  datatype Outcome = Outcome(ok: bool, db: DbState) | Thrown(db: DbState)

  // ---------------------------------------------------------------------------
  // Language columns

  /** The active codes without a `hits_<code>` column, in order. */
  function MissingCodes(codes: seq<string>, present: set<string>): (missing: seq<string>)
    ensures |missing| <= |codes|
    ensures forall l :: l in missing <==> l in codes && LangColumn(l) !in present
    ensures Distinct(codes) ==> Distinct(missing)
    ensures Subsequence(missing, codes)
  {
    if codes == [] then
      assert Embeds<string>([], codes, []);
      []
    else
      var init := codes[..|codes| - 1];
      var last := codes[|codes| - 1];
      assert init + [last] == codes;
      MissingCodesSnoc(init, last, MissingCodes(init, present), present);
      MissingCodes(init, present) + (if LangColumn(last) !in present then [last] else [])
  }

  /** One more code keeps the missing codes' properties. */
  lemma MissingCodesSnoc(init: seq<string>, last: string, prev: seq<string>, present: set<string>)
    requires |prev| <= |init|
    requires forall l :: l in prev <==> l in init && LangColumn(l) !in present
    requires Distinct(init) ==> Distinct(prev)
    requires Subsequence(prev, init)
    ensures var codes := init + [last];
            var missing := prev + (if LangColumn(last) !in present then [last] else []);
            && |missing| <= |codes|
            && (forall l :: l in missing <==> l in codes && LangColumn(l) !in present)
            && (Distinct(codes) ==> Distinct(missing))
            && Subsequence(missing, codes)
  {
    var codes := init + [last];
    assert forall l :: l in codes <==> l in init || l == last;
    DistinctSnoc(init, last);
    DistinctSnoc(prev, last);
    SubsequenceSnocIf(prev, init, last, LangColumn(last) !in present);
  }

  /** When every active language has its column nothing is missing. */
  lemma {:induction false} NothingMissing(codes: seq<string>, present: set<string>)
    requires forall l :: l in codes ==> LangColumn(l) in present
    ensures MissingCodes(codes, present) == []
    decreases |codes|
  {
    if codes != [] {
      var init := codes[..|codes| - 1];
      assert forall l :: l in init ==> l in codes;
      assert codes[|codes| - 1] in codes;
      NothingMissing(init, present);
    }
  }

  /** `$missingLangs`. On a single-language site the source lists `en` when the
      sampled row already HAS `hits_en`, the opposite of what the name says. */
  function MissingLangs(multilang: bool, codes: seq<string>, present: set<string>): (missing: seq<string>)
    ensures multilang ==> forall l :: l in missing <==> l in codes && LangColumn(l) !in present
    ensures !multilang ==> (missing == ["en"] <==> HitsEn in present)
    ensures !multilang ==> (missing == [] <==> HitsEn !in present)
  {
    if !multilang then (if HitsEn in present then ["en"] else [])
    else MissingCodes(codes, present)
  }

  /** One more code of the prefix adds that code exactly when its column is absent. */
  lemma MissingCodesStep(codes: seq<string>, i: int, present: set<string>)
    requires 0 <= i < |codes|
    ensures MissingCodes(codes[..i + 1], present)
            == MissingCodes(codes[..i], present) + (if LangColumn(codes[i]) !in present then [codes[i]] else [])
  {
    assert codes[..i + 1][..i] == codes[..i];
  }

  /** The loop that composes `$missingLangs`. */
  method CollectMissingLangs(multilang: bool, codes: seq<string>, present: set<string>) returns (missing: seq<string>)
    ensures missing == MissingLangs(multilang, codes, present)
  {
    if !multilang {
      missing := [];
      if HitsEn in present {
        missing := missing + ["en"];
      }
    } else {
      missing := CollectMissingCodes(codes, present);
    }
  }

  /** The multilingual branch of that loop: one pass over the active codes. */
  method CollectMissingCodes(codes: seq<string>, present: set<string>) returns (missing: seq<string>)
    ensures missing == MissingCodes(codes, present)
  {
    missing := [];
    var i := 0;
    while i < |codes|
      invariant 0 <= i <= |codes|
      invariant missing == MissingCodes(codes[..i], present)
    {
      MissingCodesStep(codes, i, present);
      if LangColumn(codes[i]) !in present {
        missing := missing + [codes[i]];
      }
      i := i + 1;
    }
    assert codes[..i] == codes;
  }

  /** The columns of `pagevisits` and the `$ret` contribution after some `ALTER TABLE`s. */
  datatype Altered = Altered(columns: set<string>, ok: bool)

  /** One `ALTER TABLE pagevisits ADD COLUMN hits_<code>`: SQLite refuses a
      column that already exists; otherwise the statement may still fail. */
  function AlterOnce(columns: set<string>, code: string, succeeds: Call -> bool): Altered {
    if succeeds(AddColumn(code)) && LangColumn(code) !in columns
    then Altered(columns + {LangColumn(code)}, true)
    else Altered(columns, false)
  }

  /** The `ALTER TABLE` loop: one statement per missing code, until the first
      refused one raises and ends it; `ok` says that no statement was refused. */
  function AddColumns(columns: set<string>, missing: seq<string>, succeeds: Call -> bool): (a: Altered)
    decreases |missing|
  {
    if missing == [] then Altered(columns, true)
    else
      var prev := AddColumns(columns, missing[..|missing| - 1], succeeds);
      if !prev.ok then prev
      else AlterOnce(prev.columns, missing[|missing| - 1], succeeds)
  }

  /** Once a statement is refused the later codes change nothing. */
  lemma {:induction false} AddColumnsStopped(columns: set<string>, missing: seq<string>, k: nat, succeeds: Call -> bool)
    requires k <= |missing| && !AddColumns(columns, missing[..k], succeeds).ok
    ensures AddColumns(columns, missing, succeeds) == AddColumns(columns, missing[..k], succeeds)
    decreases |missing| - k
  {
    if k < |missing| {
      assert missing[..k + 1][..k] == missing[..k];
      AddColumnsStopped(columns, missing, k + 1, succeeds);
    } else {
      assert missing[..k] == missing;
    }
  }

  /** The columns `codes` declare. */
  function Declared(codes: seq<string>): set<string> {
    set l | l in codes :: LangColumn(l)
  }

  lemma DeclaredHas(codes: seq<string>, code: string)
    ensures LangColumn(code) in Declared(codes) <==> code in codes
  {
    forall l | l in codes ensures LangColumn(l) == LangColumn(code) <==> l == code {
      LangColumnInjective(l, code);
    }
  }

  /** SQLite accepts the statement for `code` after those for `before`: it
      succeeds, and the column is neither in the table nor added by them. */
  predicate Accepted(columns: set<string>, before: seq<string>, code: string, succeeds: Call -> bool) {
    succeeds(AddColumn(code)) && LangColumn(code) !in columns && code !in before
  }

  /** The position of the first missing code whose statement is refused, or
      `|missing|` when none is. */
  function FirstRefused(columns: set<string>, missing: seq<string>, succeeds: Call -> bool): (n: nat)
    ensures n <= |missing|
    ensures forall k :: 0 <= k < n ==> Accepted(columns, missing[..k], missing[k], succeeds)
    ensures n < |missing| ==> !Accepted(columns, missing[..n], missing[n], succeeds)
    decreases |missing|
  {
    if missing == [] then 0
    else
      var init := missing[..|missing| - 1];
      var n := FirstRefused(columns, init, succeeds);
      assert forall k :: 0 <= k < |init| ==> missing[..k] == init[..k] && missing[k] == init[k];
      if n < |init| then n
      else if Accepted(columns, init, missing[|missing| - 1], succeeds) then |missing|
      else |init|
  }

  /** After the loop `pagevisits` has every column it had and the columns of the
      codes before the first refused one, and no other; the loop ran to its end
      exactly when no statement was refused. */
  lemma {:induction false} AddColumnsResult(columns: set<string>, missing: seq<string>, succeeds: Call -> bool)
    ensures var a := AddColumns(columns, missing, succeeds);
            var n := FirstRefused(columns, missing, succeeds);
            && a.columns == columns + Declared(missing[..n])
            && (a.ok <==> n == |missing|)
    decreases |missing|
  {
    if missing != [] {
      var init := missing[..|missing| - 1];
      var last := missing[|missing| - 1];
      AddColumnsResult(columns, init, succeeds);
      var n0 := FirstRefused(columns, init, succeeds);
      if n0 == |init| {
        assert init[..n0] == init && missing[..|missing|] == missing;
        DeclaredHas(init, last);
        assert Declared(missing) == Declared(init) + {LangColumn(last)} by {
          assert forall l :: l in missing <==> l in init || l == last;
        }
      } else {
        assert missing[..n0] == init[..n0];
      }
    }
  }

  /** The loop runs to its end exactly when every missing code got its column
      from its own statement: each statement succeeded, no column existed
      before, and no code was listed twice. */
  lemma {:induction false} AddColumnsOk(columns: set<string>, missing: seq<string>, succeeds: Call -> bool)
    ensures AddColumns(columns, missing, succeeds).ok <==>
              && Distinct(missing)
              && forall l :: l in missing ==> succeeds(AddColumn(l)) && LangColumn(l) !in columns
    decreases |missing|
  {
    if missing != [] {
      var init := missing[..|missing| - 1];
      var last := missing[|missing| - 1];
      AddColumnsOk(columns, init, succeeds);
      AddColumnsResult(columns, init, succeeds);
      assert forall l :: l in missing <==> l in init || l == last;
      assert Distinct(missing) <==> Distinct(init) && last !in init by {
        DistinctSnoc(init, last);
        assert missing == init + [last];
      }
      if AddColumns(columns, init, succeeds).ok {
        assert init[..|init|] == init;
        DeclaredHas(init, last);
      }
    }
  }

  /** SQLite refuses a column that already exists: a second `ALTER TABLE` for
      the same code fails, whether the first one succeeded or not. */
  lemma AlterTwiceFails(columns: set<string>, code: string, succeeds: Call -> bool)
    ensures !AlterOnce(AlterOnce(columns, code, succeeds).columns, code, succeeds).ok
  {
  }

  /** Running the `ALTER TABLE` loop a second time over the same missing codes
      is always refused: the first code's column is now present, or its
      statement is refused again. */
  lemma AddColumnsTwiceFails(columns: set<string>, missing: seq<string>, succeeds: Call -> bool)
    requires missing != []
    ensures !AddColumns(AddColumns(columns, missing, succeeds).columns, missing, succeeds).ok
  {
    var after := AddColumns(columns, missing, succeeds).columns;
    var n := FirstRefused(columns, missing, succeeds);
    AddColumnsResult(columns, missing, succeeds);
    AddColumnsOk(after, missing, succeeds);
    var l := missing[0];
    assert l in missing && missing[..0] == [];
    if n > 0 {
      assert l in missing[..n];
      DeclaredHas(missing[..n], l);
    }
  }

  lemma DistinctSnoc<T>(s: seq<T>, x: T)
    ensures Distinct(s + [x]) <==> Distinct(s) && x !in s
  {
    var t := s + [x];
    if Distinct(t) {
      forall i, j | 0 <= i < j < |s| ensures s[i] != s[j] {
        assert s[i] == t[i] && s[j] == t[j];
      }
      forall i | 0 <= i < |s| ensures s[i] != x {
        assert t[i] == s[i] && t[|s|] == x;
      }
    }
  }

  /** The language check: it needs a readable, non-empty `pagevisits`; unless in
      a dry run it adds the missing columns, and a refused statement raises. */
  function Reconcile(s: DbState, site: Site, dryRun: bool, succeeds: Call -> bool): (r: Outcome)
    ensures r.db.tables == s.tables && r.db.meta == s.meta && r.db.rows == s.rows
    ensures s.columns <= r.db.columns
    ensures r.db.columns != s.columns ==> !dryRun && PageVisits in s.tables && s.rows != []
    ensures r.Thrown? ==> !dryRun && PageVisits in s.tables && s.rows != []
    ensures r.Outcome? && !r.ok <==> PageVisits !in s.tables || !succeeds(QueryPageVisits) || s.rows == []
    ensures PageVisits !in s.tables || !succeeds(QueryPageVisits) || s.rows == [] ==> r == Outcome(false, s)
  {
    if PageVisits !in s.tables || !succeeds(QueryPageVisits) then Outcome(false, s)
    else if s.rows == [] then Outcome(false, s)
    else
      var missing := MissingLangs(site.multilang, site.languages, s.columns);
      if missing == [] || dryRun then Outcome(true, s)
      else
        var a := AddColumns(s.columns, missing, succeeds);
        AddColumnsResult(s.columns, missing, succeeds);
        if a.ok then Outcome(true, s.(columns := a.columns)) else Thrown(s.(columns := a.columns))
  }

  /** On a multi-language site with readable, non-empty `pagevisits`, a real run
      adds the columns of the missing languages before the first refused
      statement, and no other. It returns exactly when no statement was refused
      (the missing codes are distinct and every statement succeeded), and then
      reports success with a column for every active language; otherwise it
      raises. */
  lemma ReconcileMultilang(s: DbState, site: Site, succeeds: Call -> bool)
    requires site.multilang && PageVisits in s.tables && succeeds(QueryPageVisits) && s.rows != []
    ensures var r := Reconcile(s, site, false, succeeds);
            var missing := MissingLangs(true, site.languages, s.columns);
            && r.db.columns == s.columns + Declared(missing[..FirstRefused(s.columns, missing, succeeds)])
            && (r.Outcome? <==> Distinct(missing) && forall l :: l in missing ==> succeeds(AddColumn(l)))
            && (r.Outcome? ==> r.ok && forall l :: l in site.languages ==> LangColumn(l) in r.db.columns)
  {
    var missing := MissingLangs(true, site.languages, s.columns);
    var n := FirstRefused(s.columns, missing, succeeds);
    AddColumnsOk(s.columns, missing, succeeds);
    AddColumnsResult(s.columns, missing, succeeds);
    if missing == [] {
      assert missing[..n] == [];
    } else if AddColumns(s.columns, missing, succeeds).ok {
      assert missing[..n] == missing;
      forall l | l in site.languages
        ensures LangColumn(l) in Reconcile(s, site, false, succeeds).db.columns
      {
        DeclaredHas(missing, l);
      }
    }
  }

  /** On a single-language site whose `pagevisits` has `hits_en` (every
      database the bootstrap creates there), the check never succeeds and
      changes nothing: on a readable, non-empty table it tries to add the
      existing `hits_en` again, and the refused statement raises. */
  lemma SingleLanguageCheckFails(s: DbState, site: Site, succeeds: Call -> bool)
    requires !site.multilang && HitsEn in s.columns
    ensures var r := Reconcile(s, site, false, succeeds);
            && r.db == s
            && (r.Outcome? ==> !r.ok)
            && (PageVisits in s.tables && succeeds(QueryPageVisits) && s.rows != [] ==> r.Thrown?)
  {
    if PageVisits in s.tables && succeeds(QueryPageVisits) && s.rows != [] {
      var missing := MissingLangs(false, site.languages, s.columns);
      assert missing == ["en"];
      assert missing[..0] == [];
      assert AddColumns(s.columns, missing, succeeds) == AlterOnce(s.columns, "en", succeeds);
    }
  }

  // ---------------------------------------------------------------------------
  // Slugs to restore

  /** The pairs one page contributes: for each language whose slug differs from
      the default-language slug, `(translated, default)`. */
  function PageSlugs(p: Page, langs: seq<string>, defaultLang: string): (pairs: seq<(string, string)>)
    ensures forall pair :: pair in pairs <==>
              exists l :: l in langs && pair == (Slug(p, l), Slug(p, defaultLang)) && Slug(p, l) != Slug(p, defaultLang)
  {
    if langs == [] then []
    else
      var init := langs[..|langs| - 1];
      var l := langs[|langs| - 1];
      assert forall x :: x in langs <==> x in init || x == l;
      PageSlugs(p, init, defaultLang)
        + (if Slug(p, l) != Slug(p, defaultLang) then [(Slug(p, l), Slug(p, defaultLang))] else [])
  }

  /** `$slugsToRestore`: the pairs of every page, page after page. */
  function SlugsToRestore(pages: seq<Page>, langs: seq<string>, defaultLang: string): (pairs: seq<(string, string)>)
    ensures forall pair :: pair in pairs <==> exists p :: p in pages && pair in PageSlugs(p, langs, defaultLang)
  {
    if pages == [] then []
    else
      var init := pages[..|pages| - 1];
      var last := pages[|pages| - 1];
      assert forall x :: x in pages <==> x in init || x == last;
      var pairs := SlugsToRestore(init, langs, defaultLang) + PageSlugs(last, langs, defaultLang);
      assert forall pair :: pair in pairs <==> exists p :: p in pages && pair in PageSlugs(p, langs, defaultLang) by {
        forall pair ensures pair in pairs <==> exists p :: p in pages && pair in PageSlugs(p, langs, defaultLang) {
          if exists p :: p in pages && pair in PageSlugs(p, langs, defaultLang) {
            var p :| p in pages && pair in PageSlugs(p, langs, defaultLang);
            assert p in init || p == last;
          }
        }
      }
      pairs
  }

  /** Every pair renames a translated slug to a different, default-language
      slug of the same page. */
  lemma SlugsToRestoreMeaning(site: Site, pair: (string, string))
    ensures pair in SlugsToRestore(site.pages, site.languages, site.defaultLanguage) <==>
              exists p, l :: p in site.pages && l in site.languages
                && pair == (Slug(p, l), Slug(p, site.defaultLanguage)) && pair.0 != pair.1
  {
    var pairs := SlugsToRestore(site.pages, site.languages, site.defaultLanguage);
    if pair in pairs {
      var p :| p in site.pages && pair in PageSlugs(p, site.languages, site.defaultLanguage);
      var l :| l in site.languages && pair == (Slug(p, l), Slug(p, site.defaultLanguage)) && Slug(p, l) != Slug(p, site.defaultLanguage);
    }
    if exists p, l :: p in site.pages && l in site.languages
         && pair == (Slug(p, l), Slug(p, site.defaultLanguage)) && pair.0 != pair.1 {
      var p, l :| p in site.pages && l in site.languages
         && pair == (Slug(p, l), Slug(p, site.defaultLanguage)) && pair.0 != pair.1;
      assert pair in PageSlugs(p, site.languages, site.defaultLanguage);
    }
  }

  /** The two nested `foreach` loops over the site index and the languages. */
  method CollectSlugsToRestore(pages: seq<Page>, langs: seq<string>, defaultLang: string)
    returns (pairs: seq<(string, string)>)
    ensures pairs == SlugsToRestore(pages, langs, defaultLang)
  {
    pairs := [];
    var i := 0;
    while i < |pages|
      invariant 0 <= i <= |pages|
      invariant pairs == SlugsToRestore(pages[..i], langs, defaultLang)
    {
      assert pages[..i + 1][..i] == pages[..i];
      var pagePairs := CollectPageSlugs(pages[i], langs, defaultLang);
      pairs := pairs + pagePairs;
      i := i + 1;
    }
    assert pages[..i] == pages;
  }

  /** The inner loop over the languages of one page. */
  method CollectPageSlugs(p: Page, langs: seq<string>, defaultLang: string) returns (pairs: seq<(string, string)>)
    ensures pairs == PageSlugs(p, langs, defaultLang)
  {
    pairs := [];
    var j := 0;
    while j < |langs|
      invariant 0 <= j <= |langs|
      invariant pairs == PageSlugs(p, langs[..j], defaultLang)
    {
      assert langs[..j + 1][..j] == langs[..j];
      var from := Slug(p, langs[j]);
      var to := Slug(p, defaultLang);
      if from != to {
        pairs := pairs + [(from, to)];
      }
      j := j + 1;
    }
    assert langs[..j] == langs;
  }

  /** The loop that writes one `UPDATE ... SET uid` per pair into `$renameQuery`. */
  method BuildRenameBatch(pairs: seq<(string, string)>) returns (batch: seq<Statement>)
    ensures batch == RenameBatch(pairs)
  {
    batch := [];
    var i := 0;
    while i < |pairs|
      invariant 0 <= i <= |pairs|
      invariant batch == RenameBatch(pairs[..i])
    {
      batch := batch + [RenameUid(pairs[i].0, pairs[i].1)];
      i := i + 1;
    }
    assert pairs[..i] == pairs;
  }

  // ---------------------------------------------------------------------------
  // The v2 to v3 migration

  function SiteSlugs(site: Site): seq<(string, string)> {
    SlugsToRestore(site.pages, site.languages, site.defaultLanguage)
  }

  /** `pagevisits` after the rename batch, which changes nothing when it fails. */
  function AfterRename(rows: seq<Row>, site: Site, succeeds: Call -> bool): seq<Row> {
    if succeeds(RenameSlugs) then ExecBatch(rows, RenameBatch(SiteSlugs(site))) else rows
  }

  /** The duplicate query sums `hits_fr` and `hits_en`, so it fails on a table
      without either column. */
  predicate ScanRuns(s: DbState, succeeds: Call -> bool) {
    succeeds(QueryDuplicates) && HitsFr in s.columns && HitsEn in s.columns
  }

  /** The merge step on the renamed rows: nothing to do without duplicates; the
      delete batch only after the update batch succeeded. */
  function MergeStep(rows: seq<Row>, succeeds: Call -> bool): (r: (bool, seq<Row>))
    ensures r.0 ==> r.1 == Merged(rows)
  {
    var dups := SelectDuplicates(rows);
    if dups == [] then
      assert UpdateBatch(dups) == [] && DeleteBatch(dups) == [];
      (true, rows)
    else if !succeeds(MergeUpdate) then (false, rows)
    else if !succeeds(MergeDelete) then (false, ExecBatch(rows, UpdateBatch(dups)))
    else (true, Merged(rows))
  }

  /** The v2 to v3 content migration. A failed rename clears `ok` but does not
      stop the merge or the stamp; version 3 is stamped only after a merge that
      succeeded (or had nothing to merge). */
  function MigrateV2ToV3(s: DbState, site: Site, date: int, succeeds: Call -> bool): (r: Outcome)
    ensures r.Outcome?
    ensures r.db.tables == s.tables && r.db.columns == s.columns
    ensures r.db.meta == s.meta || r.db.meta == s.meta + [MetaRecord(EngineDbVersion, date)]
    ensures r.db.meta != s.meta ==> r.db.rows == Merged(AfterRename(s.rows, site, succeeds))
    ensures r.ok ==> r.db.meta == s.meta + [MetaRecord(EngineDbVersion, date)]
    ensures r.ok <==> succeeds(RenameSlugs) && r.db.meta != s.meta
    ensures r.db.meta != s.meta <==>
              ScanRuns(s, succeeds) && MergeStep(AfterRename(s.rows, site, succeeds), succeeds).0 && succeeds(StampV3)
    ensures var rows := AfterRename(s.rows, site, succeeds);
            r.db.rows == rows || r.db.rows == MergeStep(rows, succeeds).1
  {
    var renameOk := succeeds(RenameSlugs);
    var rows := AfterRename(s.rows, site, succeeds);
    if !ScanRuns(s, succeeds) then Outcome(false, s.(rows := rows))
    else
      var merged := MergeStep(rows, succeeds);
      if !merged.0 then Outcome(false, s.(rows := merged.1))
      else if !succeeds(StampV3) then Outcome(false, s.(rows := merged.1))
      else Outcome(renameOk, s.(rows := merged.1, meta := s.meta + [MetaRecord(EngineDbVersion, date)]))
  }

  /** The delete batch never runs unless the update batch succeeded: after a
      failed update the duplicates are all still there, unmerged. */
  lemma NoDeleteWithoutUpdate(s: DbState, site: Site, date: int, succeeds: Call -> bool)
    requires !succeeds(MergeUpdate)
    requires SelectDuplicates(AfterRename(s.rows, site, succeeds)) != []
    ensures var r := MigrateV2ToV3(s, site, date, succeeds);
            !r.ok && r.db == s.(rows := AfterRename(s.rows, site, succeeds))
  {
  }

  /** A failed rename batch only clears the flag: the merge still runs on the
      unrenamed rows and version 3 is still stamped. */
  lemma FailedRenameStillStamps(s: DbState, site: Site, date: int, succeeds: Call -> bool)
    requires !succeeds(RenameSlugs) && ScanRuns(s, succeeds) && succeeds(StampV3)
    requires MergeStep(AfterRename(s.rows, site, succeeds), succeeds).0
    ensures var r := MigrateV2ToV3(s, site, date, succeeds);
            && !r.ok
            && r.db.meta == s.meta + [MetaRecord(EngineDbVersion, date)]
            && r.db.rows == Merged(s.rows)
  {
  }

  /** When the update batch succeeds and the delete batch fails the kept rows
      already carry the group sums while the other rows of each group remain. */
  lemma UpdateWithoutDelete(s: DbState, site: Site, date: int, succeeds: Call -> bool)
    requires ScanRuns(s, succeeds) && succeeds(MergeUpdate) && !succeeds(MergeDelete)
    requires SelectDuplicates(AfterRename(s.rows, site, succeeds)) != []
    ensures var rows := AfterRename(s.rows, site, succeeds);
            var r := MigrateV2ToV3(s, site, date, succeeds);
            && !r.ok && r.db.meta == s.meta
            && r.db.rows == ExecBatch(rows, UpdateBatch(SelectDuplicates(rows)))
            && |r.db.rows| == |rows|
  {
    var rows := AfterRename(s.rows, site, succeeds);
    var u := UpdateBatch(SelectDuplicates(rows));
    forall i | 0 <= i < |rows| ensures RowThrough(rows[i], u).Some? {
      UpdatesKeepRows(rows[i], u);
    }
    ExecBatchIsSurvivors(rows, u);
    SurvivorsPointwise(rows, u);
  }

  // ---------------------------------------------------------------------------
  // The whole check

  /** What the version query returns: an error, or the largest stamped version
      (none when the table is empty). */
  datatype VersionAnswer = Unreadable | Versions(top: Option<int>)

  function ReadVersion(s: DbState, succeeds: Call -> bool): (q: VersionAnswer)
    ensures MetaTable !in s.tables ==> q.Unreadable?
    ensures q.Versions? ==> q.top == MaxVersion(s.meta)
  {
    if MetaTable in s.tables && succeeds(QueryVersions) then Versions(MaxVersion(s.meta)) else Unreadable
  }

  /** Everything after the version is known: the language check, then (unless
      it raised) the version comparison and, below version 3, the migration. */
  function AfterVersion(s: DbState, q: VersionAnswer, site: Site, date: int, dryRun: bool, succeeds: Call -> bool): Outcome {
    if q.Unreadable? then Outcome(false, s)
    else
      var r := Reconcile(s, site, dryRun, succeeds);
      if r.Thrown? then r
      else match q.top
      case None => Outcome(false, r.db)
      case Some(v) =>
        if v != EngineDbVersion && !dryRun && v < EngineDbVersion then
          var m := MigrateV2ToV3(r.db, site, date, succeeds);
          Outcome(r.ok && m.ok, m.db)
        else Outcome(r.ok, r.db)
  }

  /** A language check that finds `pagevisits` unreadable or empty only clears
      the flag: below version 3 the migration still runs, on the unchanged
      database. */
  lemma FailedLanguageCheckStillMigrates(s: DbState, v: int, site: Site, date: int, succeeds: Call -> bool)
    requires v < EngineDbVersion
    requires PageVisits !in s.tables || !succeeds(QueryPageVisits) || s.rows == []
    ensures AfterVersion(s, Versions(Some(v)), site, date, false, succeeds)
              == Outcome(false, MigrateV2ToV3(s, site, date, succeeds).db)
  {
  }

  /** A refused `ALTER TABLE` ends the check whatever the installed version:
      the columns of the codes before it stay added, and no row, table or
      version record changes. */
  lemma RefusedAlterStops(s: DbState, q: VersionAnswer, site: Site, date: int, succeeds: Call -> bool)
    requires q.Versions? && PageVisits in s.tables && succeeds(QueryPageVisits) && s.rows != []
    requires exists l :: l in MissingLangs(site.multilang, site.languages, s.columns) && !succeeds(AddColumn(l))
    ensures var r := AfterVersion(s, q, site, date, false, succeeds);
            var missing := MissingLangs(site.multilang, site.languages, s.columns);
            && r.Thrown?
            && r.db == s.(columns := s.columns + Declared(missing[..FirstRefused(s.columns, missing, succeeds)]))
  {
    var missing := MissingLangs(site.multilang, site.languages, s.columns);
    AddColumnsOk(s.columns, missing, succeeds);
    AddColumnsResult(s.columns, missing, succeeds);
  }

  /** On a database whose version can be read, a failed statement for a missing
      language raises before the version is compared: nothing is migrated or
      stamped. */
  lemma RefusedAlterEndsCheck(s: DbState, site: Site, date: int, succeeds: Call -> bool)
    requires MetaTable in s.tables && succeeds(QueryVersions)
    requires PageVisits in s.tables && succeeds(QueryPageVisits) && s.rows != []
    requires exists l :: l in MissingLangs(site.multilang, site.languages, s.columns) && !succeeds(AddColumn(l))
    ensures var r := CheckUpgrade(s, site, date, false, succeeds);
            r.Thrown? && r.db.rows == s.rows && r.db.meta == s.meta && r.db.tables == s.tables
  {
    RefusedAlterStops(s, ReadVersion(s, succeeds), site, date, succeeds);
  }

  /** A failed migration only clears the flag: the columns the language check
      added stay added. After a refused statement the migration does not run. */
  lemma FailedMigrationKeepsColumns(s: DbState, v: int, site: Site, date: int, succeeds: Call -> bool)
    requires v < EngineDbVersion
    ensures var c := Reconcile(s, site, false, succeeds);
            var r := AfterVersion(s, Versions(Some(v)), site, date, false, succeeds);
            && r.db.columns == c.db.columns
            && (c.Thrown? ==> r == c)
            && (c.Outcome? ==> r.Outcome? && (r.ok <==> c.ok && MigrateV2ToV3(c.db, site, date, succeeds).ok))
  {
  }

  /** The language check adds no column other than those of the missing codes. */
  lemma ReconcileAddsOnlyMissing(s: DbState, site: Site, dryRun: bool, succeeds: Call -> bool)
    ensures forall c :: c in Reconcile(s, site, dryRun, succeeds).db.columns ==>
              c in s.columns || exists l :: l in MissingLangs(site.multilang, site.languages, s.columns) && c == LangColumn(l)
  {
    if PageVisits in s.tables && succeeds(QueryPageVisits) && s.rows != [] {
      var missing := MissingLangs(site.multilang, site.languages, s.columns);
      if missing != [] && !dryRun {
        var n := FirstRefused(s.columns, missing, succeeds);
        AddColumnsResult(s.columns, missing, succeeds);
        forall l | l in missing[..n] ensures l in missing { }
      }
    }
  }

  /** The duplicate query sums `hits_fr`, so a database whose `pagevisits` has
      no such column, on a site where the language check cannot add it, is never
      stamped version 3, and every run that should migrate it reports failure. */
  lemma NoFrenchColumnNeverMigrates(s: DbState, site: Site, date: int, dryRun: bool, succeeds: Call -> bool)
    requires MetaTable in s.tables && HitsFr !in s.columns
    requires site.multilang ==> "fr" !in site.languages
    ensures var r := CheckUpgrade(s, site, date, dryRun, succeeds);
            && r.db.meta == s.meta
            && (!dryRun && (MaxVersion(s.meta).None? || MaxVersion(s.meta).value < EngineDbVersion) && r.Outcome? ==> !r.ok)
  {
    var c := Reconcile(s, site, dryRun, succeeds);
    ReconcileAddsOnlyMissing(s, site, dryRun, succeeds);
    var missing := MissingLangs(site.multilang, site.languages, s.columns);
    forall l | l in missing ensures LangColumn(l) != HitsFr {
      LangColumnInjective(l, "fr");
    }
    assert HitsFr !in c.db.columns;
  }

  /** A version query that fails ends the check: nothing is changed and the
      language check does not run. */
  lemma UnreadableVersionStops(s: DbState, site: Site, date: int, dryRun: bool, succeeds: Call -> bool)
    requires MetaTable in s.tables && !succeeds(QueryVersions)
    ensures CheckUpgrade(s, site, date, dryRun, succeeds) == Outcome(false, s)
  {
  }

  /** The same after the legacy upgrade: when the version cannot be read again
      the check stops with the new table and its version 2 record. */
  lemma UnreadableRequeryStops(s: DbState, site: Site, date: int, succeeds: Call -> bool)
    requires MetaTable !in s.tables && succeeds(CreateMetaTable) && succeeds(StampV2) && !succeeds(RequeryVersion)
    ensures CheckUpgrade(s, site, date, false, succeeds) == Outcome(false, LegacyStamped(s, date))
  {
  }

  /** An empty `simplestats` gives no version: the language check runs, nothing
      is migrated, and the check reports failure. */
  lemma EmptyVersionTableFails(s: DbState, site: Site, date: int, dryRun: bool, succeeds: Call -> bool)
    requires MetaTable in s.tables && succeeds(QueryVersions) && s.meta == []
    ensures var c := Reconcile(s, site, dryRun, succeeds);
            CheckUpgrade(s, site, date, dryRun, succeeds) == if c.Thrown? then c else Outcome(false, c.db)
  {
  }

  /** The database a legacy v1 upgrade leaves before the version is read again. */
  function LegacyStamped(s: DbState, date: int): DbState {
    s.(tables := s.tables + {MetaTable}, meta := s.meta + [MetaRecord(FirstMetaVersion, date)])
  }

  /** `checkUpgradeDatabase($dryRun)` once the connection exists. */
  function CheckUpgrade(s: DbState, site: Site, date: int, dryRun: bool, succeeds: Call -> bool): Outcome {
    var q := ReadVersion(s, succeeds);
    if MetaTable !in s.tables && !dryRun then
      if !succeeds(CreateMetaTable) then Outcome(false, s)
      else if !succeeds(StampV2) then Outcome(false, s.(tables := s.tables + {MetaTable}))
      else
        var s1 := LegacyStamped(s, date);
        var q1 := if succeeds(RequeryVersion) then Versions(MaxVersion(s1.meta)) else Unreadable;
        AfterVersion(s1, q1, site, date, dryRun, succeeds)
    else AfterVersion(s, q, site, date, dryRun, succeeds)
  }

  /** A dry run never changes the database. */
  lemma DryRunChangesNothing(s: DbState, site: Site, date: int, succeeds: Call -> bool)
    ensures CheckUpgrade(s, site, date, true, succeeds).db == s
  {
  }

  /** A legacy database without `simplestats` gets the table and a version 2
      record; if either statement fails the check stops there with `false`. In a
      dry run it only reports `false`. */
  lemma LegacyDetection(s: DbState, site: Site, date: int, dryRun: bool, succeeds: Call -> bool)
    requires MetaTable !in s.tables
    ensures var r := CheckUpgrade(s, site, date, dryRun, succeeds);
            && (dryRun ==> r == Outcome(false, s))
            && (!dryRun && !succeeds(CreateMetaTable) ==> r == Outcome(false, s))
            && (!dryRun && succeeds(CreateMetaTable) && !succeeds(StampV2) ==>
                  r == Outcome(false, s.(tables := s.tables + {MetaTable})))
            && (!dryRun && succeeds(CreateMetaTable) && succeeds(StampV2) ==>
                  MetaTable in r.db.tables && |r.db.meta| > |s.meta|
                  && r.db.meta[..|s.meta| + 1] == s.meta + [MetaRecord(FirstMetaVersion, date)])
  {
    if !dryRun && succeeds(CreateMetaTable) && succeeds(StampV2) {
      var s1 := LegacyStamped(s, date);
      var q1 := if succeeds(RequeryVersion) then Versions(MaxVersion(s1.meta)) else Unreadable;
      var r := AfterVersion(s1, q1, site, date, dryRun, succeeds);
      assert r.db.meta == s1.meta || r.db.meta == s1.meta + [MetaRecord(EngineDbVersion, date)];
      assert (s1.meta + [MetaRecord(EngineDbVersion, date)])[..|s1.meta|] == s1.meta;
    }
  }

  /** Version records are only ever appended: a version 2 record stamped by the
      legacy upgrade and a version 3 record stamped by the migration, both dated
      with the run's date. */
  lemma MetaOnlyGrows(s: DbState, site: Site, date: int, dryRun: bool, succeeds: Call -> bool)
    ensures var m := CheckUpgrade(s, site, date, dryRun, succeeds).db.meta;
            && |s.meta| <= |m| <= |s.meta| + 2
            && m[..|s.meta|] == s.meta
            && forall i :: |s.meta| <= i < |m| ==>
                 m[i] == MetaRecord(FirstMetaVersion, date) || m[i] == MetaRecord(EngineDbVersion, date)
  {
    MetaCases(s, site, date, dryRun, succeeds);
    AppendedRecords(s.meta, CheckUpgrade(s, site, date, dryRun, succeeds).db.meta,
                    MetaRecord(FirstMetaVersion, date), MetaRecord(EngineDbVersion, date));
  }

  /** The four ways the version records can end: nothing stamped, version 2,
      version 3, or both in that order. */
  lemma MetaCases(s: DbState, site: Site, date: int, dryRun: bool, succeeds: Call -> bool)
    ensures var m := CheckUpgrade(s, site, date, dryRun, succeeds).db.meta;
            var v2 := MetaRecord(FirstMetaVersion, date);
            var v3 := MetaRecord(EngineDbVersion, date);
            m == s.meta || m == s.meta + [v3] || m == s.meta + [v2] || m == s.meta + [v2] + [v3]
  {
    if MetaTable !in s.tables && !dryRun && succeeds(CreateMetaTable) && succeeds(StampV2) {
      var s1 := LegacyStamped(s, date);
      var q1 := if succeeds(RequeryVersion) then Versions(MaxVersion(s1.meta)) else Unreadable;
      AfterVersionMeta(s1, q1, site, date, dryRun, succeeds);
    } else if !(MetaTable !in s.tables && !dryRun) {
      AfterVersionMeta(s, ReadVersion(s, succeeds), site, date, dryRun, succeeds);
    }
  }

  /** Records appended in one of those four ways leave the old ones as a prefix. */
  lemma AppendedRecords(before: seq<MetaRecord>, after: seq<MetaRecord>, v2: MetaRecord, v3: MetaRecord)
    requires after == before || after == before + [v3] || after == before + [v2] || after == before + [v2] + [v3]
    ensures |before| <= |after| <= |before| + 2 && after[..|before|] == before
    ensures forall i :: |before| <= i < |after| ==> after[i] == v2 || after[i] == v3
  {
    assert after == before + after[|before|..];
  }

  /** After the version is known at most the version 3 record is appended. */
  lemma AfterVersionMeta(s: DbState, q: VersionAnswer, site: Site, date: int, dryRun: bool, succeeds: Call -> bool)
    ensures var r := AfterVersion(s, q, site, date, dryRun, succeeds);
            r.db.meta == s.meta || r.db.meta == s.meta + [MetaRecord(EngineDbVersion, date)]
    ensures var r := AfterVersion(s, q, site, date, dryRun, succeeds);
            r.db.meta != s.meta ==> r.db.rows == Merged(AfterRename(s.rows, site, succeeds))
  {
  }

  /** Version 3 is stamped only after the merge: when the run adds a version 3
      record, `pagevisits` is the merge of the renamed rows (the rows are
      untouched until then, whatever else failed). */
  lemma V3StampedOnlyAfterMerge(s: DbState, site: Site, date: int, dryRun: bool, succeeds: Call -> bool)
    ensures var r := CheckUpgrade(s, site, date, dryRun, succeeds);
            MetaRecord(EngineDbVersion, date) in r.db.meta[|s.meta|..] ==>
              r.db.rows == Merged(AfterRename(s.rows, site, succeeds))
  {
    var r := CheckUpgrade(s, site, date, dryRun, succeeds);
    if MetaTable !in s.tables && !dryRun && succeeds(CreateMetaTable) && succeeds(StampV2) {
      var s1 := LegacyStamped(s, date);
      var q1 := if succeeds(RequeryVersion) then Versions(MaxVersion(s1.meta)) else Unreadable;
      AfterVersionMeta(s1, q1, site, date, dryRun, succeeds);
      assert r == AfterVersion(s1, q1, site, date, dryRun, succeeds);
      assert r.db.meta == s1.meta ==> r.db.meta[|s.meta|..] == [MetaRecord(FirstMetaVersion, date)];
    } else if !(MetaTable !in s.tables && !dryRun) {
      AfterVersionMeta(s, ReadVersion(s, succeeds), site, date, dryRun, succeeds);
    }
  }

  /** An installed version of 3 or more is left alone: no row and no version
      record changes (only language columns may be added). */
  lemma NoMigrationFromV3(s: DbState, site: Site, date: int, dryRun: bool, succeeds: Call -> bool)
    requires ReadVersion(s, succeeds) == Versions(Some(EngineDbVersion)) || (
               ReadVersion(s, succeeds).Versions? && ReadVersion(s, succeeds).top.Some?
               && ReadVersion(s, succeeds).top.value > EngineDbVersion)
    ensures var r := CheckUpgrade(s, site, date, dryRun, succeeds);
            r.db.rows == s.rows && r.db.meta == s.meta && r.db.tables == s.tables
  {
  }

  /** The installed version never goes down. */
  lemma VersionNeverDecreases(s: DbState, site: Site, date: int, dryRun: bool, succeeds: Call -> bool)
    requires MaxVersion(s.meta).Some?
    ensures var m := CheckUpgrade(s, site, date, dryRun, succeeds).db.meta;
            MaxVersion(m).Some? && MaxVersion(m).value >= MaxVersion(s.meta).value
  {
    var m := CheckUpgrade(s, site, date, dryRun, succeeds).db.meta;
    MetaOnlyGrows(s, site, date, dryRun, succeeds);
    var v := MaxVersion(s.meta).value;
    var i :| 0 <= i < |s.meta| && s.meta[i].version == v;
    assert m[i] == m[..|s.meta|][i] == s.meta[i];
  }

  /** A version 2 database whose statements all succeed ends at version 3: the
      check reports success, stamps exactly one version 3 record and leaves the
      merge of the renamed rows. */
  lemma UpgradeFromV2Succeeds(s: DbState, site: Site, date: int, succeeds: Call -> bool)
    requires MetaTable in s.tables && PageVisits in s.tables && s.rows != []
    requires MaxVersion(s.meta) == Some(FirstMetaVersion)
    requires HitsFr in s.columns && HitsEn in s.columns
    requires site.multilang && forall l :: l in site.languages ==> LangColumn(l) in s.columns
    requires succeeds(QueryVersions) && succeeds(QueryPageVisits) && succeeds(RenameSlugs)
    requires succeeds(QueryDuplicates) && succeeds(MergeUpdate) && succeeds(MergeDelete) && succeeds(StampV3)
    ensures var r := CheckUpgrade(s, site, date, false, succeeds);
            && r.Outcome? && r.ok
            && r.db.meta == s.meta + [MetaRecord(EngineDbVersion, date)]
            && MaxVersion(r.db.meta) == Some(EngineDbVersion)
            && r.db.rows == Merged(ExecBatch(s.rows, RenameBatch(SiteSlugs(site))))
  {
    NothingMissing(site.languages, s.columns);
    CompleteV2RunMigrates(s, site, date, succeeds);
    MigrateSucceeds(s, site, date, succeeds);
    MaxVersionAppend(s.meta, MetaRecord(EngineDbVersion, date));
  }

  /** At version 2 with nothing missing, a real run is the migration alone. */
  lemma CompleteV2RunMigrates(s: DbState, site: Site, date: int, succeeds: Call -> bool)
    requires MetaTable in s.tables && PageVisits in s.tables && s.rows != []
    requires MaxVersion(s.meta) == Some(FirstMetaVersion)
    requires succeeds(QueryVersions) && succeeds(QueryPageVisits)
    requires MissingLangs(site.multilang, site.languages, s.columns) == []
    ensures CheckUpgrade(s, site, date, false, succeeds) == MigrateV2ToV3(s, site, date, succeeds)
  {
    NothingToReconcile(s, site, succeeds);
    assert ReadVersion(s, succeeds) == Versions(Some(FirstMetaVersion));
  }

  /** A language check with nothing missing succeeds and changes nothing. */
  lemma NothingToReconcile(s: DbState, site: Site, succeeds: Call -> bool)
    requires PageVisits in s.tables && succeeds(QueryPageVisits) && s.rows != []
    requires MissingLangs(site.multilang, site.languages, s.columns) == []
    ensures Reconcile(s, site, false, succeeds) == Outcome(true, s)
  {
  }

  /** A migration whose statements all succeed merges the renamed rows and
      stamps version 3. */
  lemma MigrateSucceeds(s: DbState, site: Site, date: int, succeeds: Call -> bool)
    requires HitsFr in s.columns && HitsEn in s.columns
    requires succeeds(RenameSlugs) && succeeds(QueryDuplicates) && succeeds(MergeUpdate)
    requires succeeds(MergeDelete) && succeeds(StampV3)
    ensures MigrateV2ToV3(s, site, date, succeeds)
              == Outcome(true, s.(rows := Merged(ExecBatch(s.rows, RenameBatch(SiteSlugs(site)))),
                                  meta := s.meta + [MetaRecord(EngineDbVersion, date)]))
  {
  }

  /** On a single-language site whose `pagevisits` has `hits_en`, a real run of
      the check never returns `true`: it returns `false` or raises. */
  lemma SingleLanguageUpgradeFails(s: DbState, site: Site, date: int, succeeds: Call -> bool)
    requires !site.multilang && HitsEn in s.columns
    ensures var r := CheckUpgrade(s, site, date, false, succeeds);
            r.Outcome? ==> !r.ok
  {
    SingleLanguageCheckFails(s, site, succeeds);
    if MetaTable !in s.tables && succeeds(CreateMetaTable) && succeeds(StampV2) {
      SingleLanguageCheckFails(LegacyStamped(s, date), site, succeeds);
    }
  }

  /** The check keeps the database well formed. */
  lemma CheckUpgradeWellFormed(s: DbState, site: Site, date: int, dryRun: bool, succeeds: Call -> bool)
    requires WellFormed(s)
    ensures WellFormed(CheckUpgrade(s, site, date, dryRun, succeeds).db)
  {
    if MetaTable !in s.tables && !dryRun && succeeds(CreateMetaTable) && succeeds(StampV2) {
      var s1 := LegacyStamped(s, date);
      assert WellFormed(s1);
      var q1 := if succeeds(RequeryVersion) then Versions(MaxVersion(s1.meta)) else Unreadable;
      AfterVersionWellFormed(s1, q1, site, date, dryRun, succeeds);
    } else {
      AfterVersionWellFormed(s, ReadVersion(s, succeeds), site, date, dryRun, succeeds);
    }
  }

  lemma AfterVersionWellFormed(s: DbState, q: VersionAnswer, site: Site, date: int, dryRun: bool, succeeds: Call -> bool)
    requires WellFormed(s) && (q.Versions? ==> MetaTable in s.tables)
    ensures WellFormed(AfterVersion(s, q, site, date, dryRun, succeeds).db)
  {
    if q.Versions? {
      var r := Reconcile(s, site, dryRun, succeeds);
      assert WellFormed(r.db);
      MigrateWellFormed(r.db, site, date, succeeds);
    }
  }

  lemma MigrateWellFormed(s: DbState, site: Site, date: int, succeeds: Call -> bool)
    requires WellFormed(s) && MetaTable in s.tables
    ensures WellFormed(MigrateV2ToV3(s, site, date, succeeds).db)
  {
    var rows := AfterRename(s.rows, site, succeeds);
    ExecBatchUniqueIds(s.rows, RenameBatch(SiteSlugs(site)));
    if s.rows == [] {
      ExecBatchOfNothing(RenameBatch(SiteSlugs(site)));
    }
    MergeStepRows(rows, succeeds);
    var r := MigrateV2ToV3(s, site, date, succeeds);
    assert UniqueIds(r.db.rows) && (s.rows == [] ==> r.db.rows == []);
  }

  /** The merge step keeps `id` a key and an empty table empty. */
  lemma MergeStepRows(rows: seq<Row>, succeeds: Call -> bool)
    requires UniqueIds(rows)
    ensures UniqueIds(MergeStep(rows, succeeds).1)
    ensures rows == [] ==> MergeStep(rows, succeeds).1 == []
  {
    var dups := SelectDuplicates(rows);
    ExecBatchUniqueIds(rows, UpdateBatch(dups));
    MergedUniqueIds(rows);
    if rows == [] {
      ExecBatchOfNothing(UpdateBatch(dups));
      ExecBatchOfNothing(DeleteBatch(dups));
    }
  }

  /** Every batch keeps `id` a key. */
  lemma ExecBatchUniqueIds(rows: seq<Row>, batch: seq<Statement>)
    requires UniqueIds(rows)
    ensures UniqueIds(ExecBatch(rows, batch))
  {
    ExecBatchIsSurvivors(rows, batch);
    SurvivorsUniqueIds(rows, batch);
  }

  lemma ExecBatchOfNothing(batch: seq<Statement>)
    ensures ExecBatch([], batch) == []
  {
    ExecBatchIsSurvivors([], batch);
  }
}
