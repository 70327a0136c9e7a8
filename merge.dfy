/** The v2 to v3 duplicate merge: the `GROUP BY uid, monthyear HAVING
    COUNT(id) > 1 LIMIT 10000` scan, the per-group UPDATE and DELETE statements
    built from it, and what the two batches do to `pagevisits`. */
module Merge {
  import opened Common
  import opened Schema
  import opened Batches

  /** The duplicate scan returns at most this many groups. */
  const DuplicateScanLimit: nat := 10000

  /** The rows with key `k`, in table order. */
  function Group(rows: seq<Row>, k: Key): (g: seq<Row>)
    ensures |g| <= |rows|
    ensures forall r :: r in g ==> r in rows && KeyOf(r) == k
    ensures forall i :: 0 <= i < |rows| && KeyOf(rows[i]) == k ==> rows[i] in g
  {
    if rows == [] then []
    else (if KeyOf(rows[0]) == k then [rows[0]] else []) + Group(rows[1..], k)
  }

  /** `SUM(column)` over some rows, an absent value counting as 0. */
  function Sum(g: seq<Row>, column: string): int {
    if g == [] then 0 else Counter(g[0], column) + Sum(g[1..], column)
  }

  /** The row holding `min(id)`. */
  function KeptRow(g: seq<Row>): (r: Row)
    requires g != []
    ensures r in g
    ensures forall x :: x in g ==> r.id <= x.id
  {
    if |g| == 1 then g[0]
    else
      var rest := KeptRow(g[1..]);
      if g[0].id <= rest.id then g[0] else rest
  }

  /** The keys present in the table, each once, in order of first appearance. */
  function Keys(rows: seq<Row>): (ks: seq<Key>)
    ensures Distinct(ks)
    ensures forall k :: k in ks <==> exists i :: 0 <= i < |rows| && KeyOf(rows[i]) == k
    decreases |rows|
  {
    if rows == [] then []
    else
      var init := rows[..|rows| - 1];
      var ks := Keys(init);
      var k := KeyOf(rows[|rows| - 1]);
      assert forall i :: 0 <= i < |init| ==> init[i] == rows[i];
      if k in ks then ks else ks + [k]
  }

  function KeepDuplicated(rows: seq<Row>, ks: seq<Key>): (out: seq<Key>)
    ensures forall k :: k in out <==> k in ks && |Group(rows, k)| > 1
    ensures Distinct(ks) ==> Distinct(out)
  {
    if ks == [] then []
    else (if |Group(rows, ks[0])| > 1 then [ks[0]] else []) + KeepDuplicated(rows, ks[1..])
  }

  /** The keys of the groups with more than one row. */
  function DuplicateKeys(rows: seq<Row>): (ks: seq<Key>)
    ensures Distinct(ks)
    ensures forall k :: k in ks <==> |Group(rows, k)| > 1
  {
    forall k | |Group(rows, k)| > 1 ensures k in Keys(rows) {
      var r := Group(rows, k)[0];
      assert r in Group(rows, k);
      var i :| 0 <= i < |rows| && rows[i] == r;
    }
    KeepDuplicated(rows, Keys(rows))
  }

  /** The groups one scan returns: the first `DuplicateScanLimit` duplicate keys
      (the query fixes no order; the model takes that of first appearance). */
  function ScannedKeys(rows: seq<Row>): (ks: seq<Key>)
    ensures Distinct(ks)
    ensures forall k :: k in ks ==> |Group(rows, k)| > 1
    ensures |ks| <= DuplicateScanLimit
    ensures |DuplicateKeys(rows)| <= DuplicateScanLimit ==> ks == DuplicateKeys(rows)
    ensures |DuplicateKeys(rows)| > DuplicateScanLimit ==> ks == DuplicateKeys(rows)[..DuplicateScanLimit]
  {
    var d := DuplicateKeys(rows);
    if |d| <= DuplicateScanLimit then d
    else
      assert forall k :: k in d[..DuplicateScanLimit] ==> k in d;
      d[..DuplicateScanLimit]
  }

  /** One row of the duplicate query: `idtokeep`, `uid`, `numentries`,
      `monthyear`, `newhits`, `newhits_fr`, `newhits_en`. */
  datatype Duplicate = Duplicate(idToKeep: int, uid: string, numEntries: nat, monthyear: int,
                                 newHits: int, newHitsFr: int, newHitsEn: int)

  function DuplicateOf(rows: seq<Row>, k: Key): Duplicate
    requires Group(rows, k) != []
  {
    var g := Group(rows, k);
    Duplicate(KeptRow(g).id, k.uid, |g|, k.monthyear, Sum(g, HitsColumn), Sum(g, HitsFr), Sum(g, HitsEn))
  }

  /** What the duplicate query returns. */
  function SelectDuplicates(rows: seq<Row>): (dups: seq<Duplicate>)
    ensures |dups| == |ScannedKeys(rows)|
  {
    var ks := ScannedKeys(rows);
    seq(|ks|, j requires 0 <= j < |ks| => DuplicateOf(rows, ks[j]))
  }

  /** The UPDATE written for a group: the kept row gets the group's sums. */
  function UpdateOf(d: Duplicate): Statement {
    SetHits(d.idToKeep, d.newHits, d.newHitsFr, d.newHitsEn)
  }

  /** The DELETE written for a group: every other row of the group goes. */
  function DeleteOf(d: Duplicate): Statement {
    DeleteOthers(d.uid, d.monthyear, d.idToKeep)
  }

  function UpdateBatch(dups: seq<Duplicate>): (batch: seq<Statement>)
    ensures |batch| == |dups| && AllSetHits(batch)
  {
    seq(|dups|, j requires 0 <= j < |dups| => UpdateOf(dups[j]))
  }

  function DeleteBatch(dups: seq<Duplicate>): (batch: seq<Statement>)
    ensures |batch| == |dups| && AllDeletes(batch)
  {
    seq(|dups|, j requires 0 <= j < |dups| => DeleteOf(dups[j]))
  }

  /** The loop over the duplicates that appends one UPDATE and one DELETE per
      group to the two query batches. */
  method BuildMergeBatches(dups: seq<Duplicate>) returns (updates: seq<Statement>, deletes: seq<Statement>)
    ensures updates == UpdateBatch(dups) && deletes == DeleteBatch(dups)
    ensures updates == [] <==> dups == []
  {
    updates, deletes := [], [];
    var i := 0;
    while i < |dups|
      invariant 0 <= i <= |dups|
      invariant updates == UpdateBatch(dups[..i]) && deletes == DeleteBatch(dups[..i])
    {
      updates := updates + [UpdateOf(dups[i])];
      deletes := deletes + [DeleteOf(dups[i])];
      i := i + 1;
    }
    assert dups[..i] == dups;
  }

  /** A group reduced to one row: its `min(id)` row carrying the group's sums of
      `hits`, `hits_fr` and `hits_en`, every other column as that row had it. */
  function Collapse(g: seq<Row>): (m: Row)
    requires g != []
    ensures m.id == KeptRow(g).id && KeyOf(m) == KeyOf(KeptRow(g))
    ensures forall x :: x in g ==> m.id <= x.id
    ensures Counter(m, HitsColumn) == Sum(g, HitsColumn)
    ensures Counter(m, HitsFr) == Sum(g, HitsFr)
    ensures Counter(m, HitsEn) == Sum(g, HitsEn)
    ensures forall c :: c != HitsColumn && c != HitsFr && c != HitsEn ==> Counter(m, c) == Counter(KeptRow(g), c)
  {
    var r := KeptRow(g);
    assert HitsColumn != HitsFr && HitsColumn != HitsEn && HitsFr != HitsEn;
    r.(counters := r.counters[HitsColumn := Sum(g, HitsColumn)][HitsFr := Sum(g, HitsFr)][HitsEn := Sum(g, HitsEn)])
  }

  /** The table after the update batch and then the delete batch. */
  function Merged(rows: seq<Row>): seq<Row> {
    var dups := SelectDuplicates(rows);
    ExecBatch(ExecBatch(rows, UpdateBatch(dups)), DeleteBatch(dups))
  }

  lemma {:induction false} GroupAppend(a: seq<Row>, b: seq<Row>, k: Key)
    ensures Group(a + b, k) == Group(a, k) + Group(b, k)
    decreases |a|
  {
    if a == [] {
      assert a + b == b;
    } else {
      assert (a + b)[0] == a[0] && (a + b)[1..] == a[1..] + b;
      GroupAppend(a[1..], b, k);
    }
  }

  lemma {:induction false} GroupUniqueIds(rows: seq<Row>, k: Key)
    requires UniqueIds(rows)
    ensures UniqueIds(Group(rows, k))
    decreases |rows|
  {
    if rows != [] {
      UniqueIdsCons(rows);
      GroupUniqueIds(rows[1..], k);
      var rest := Group(rows[1..], k);
      if KeyOf(rows[0]) == k {
        var g := [rows[0]] + rest;
        assert g[1..] == rest;
        assert IdSet(rest) <= IdSet(rows[1..]);
        UniqueIdsCons(g);
      }
    }
  }

  lemma {:induction false} GroupOfOne(r: Row, k: Key)
    ensures Group([r], k) == if KeyOf(r) == k then [r] else []
  {
    assert [r][1..] == [];
  }

  /** Batches without renames keep every row in its group, so grouping and
      running the batch commute. */
  lemma {:induction false} GroupSurvivors(rows: seq<Row>, batch: seq<Statement>, k: Key)
    requires forall j :: 0 <= j < |batch| ==> !batch[j].RenameUid?
    ensures Group(Survivors(rows, batch), k) == Survivors(Group(rows, k), batch)
    decreases |rows|
  {
    if rows != [] {
      GroupSurvivors(rows[1..], batch, k);
      var head := match RowThrough(rows[0], batch) case Some(r) => [r] case None => [];
      var rest := Survivors(rows[1..], batch);
      assert Survivors(rows, batch) == head + rest;
      GroupAppend(head, rest, k);
      if RowThrough(rows[0], batch).Some? {
        ThroughKeepsIdentity(rows[0], batch);
        GroupOfOne(RowThrough(rows[0], batch).value, k);
      } else {
        assert head == [];
      }
      assert Group(head, k) == if KeyOf(rows[0]) == k then head else [];
      if KeyOf(rows[0]) == k {
        var g := Group(rows, k);
        assert g == [rows[0]] + Group(rows[1..], k);
        assert g[0] == rows[0] && g[1..] == Group(rows[1..], k);
        assert Survivors(g, batch) == head + Survivors(Group(rows[1..], k), batch);
      } else {
        assert Group(rows, k) == Group(rows[1..], k);
      }
    }
  }

  lemma {:induction false} UpdatesKeepRows(r: Row, batch: seq<Statement>)
    requires AllSetHits(batch)
    ensures RowThrough(r, batch).Some?
    decreases |batch|
  {
    if batch != [] {
      UpdatesKeepRows(RowAfter(r, batch[0]), batch[1..]);
    }
  }

  /** The statements written for the `j`-th scanned group. */
  lemma ScannedStatements(rows: seq<Row>, j: int)
    requires 0 <= j < |ScannedKeys(rows)|
    ensures var k := ScannedKeys(rows)[j];
            var g := Group(rows, k);
            && g != [] && KeptRow(g) in rows && KeyOf(KeptRow(g)) == k
            && UpdateBatch(SelectDuplicates(rows))[j]
                 == SetHits(KeptRow(g).id, Sum(g, HitsColumn), Sum(g, HitsFr), Sum(g, HitsEn))
            && DeleteBatch(SelectDuplicates(rows))[j] == DeleteOthers(k.uid, k.monthyear, KeptRow(g).id)
  {
    var k := ScannedKeys(rows)[j];
    assert k in ScannedKeys(rows);
  }

  /** The update written for another scanned group names another row. */
  lemma OtherUpdateMisses(rows: seq<Row>, k: Key, r: Row, j: int)
    requires UniqueIds(rows) && r in Group(rows, k)
    requires 0 <= j < |ScannedKeys(rows)| && ScannedKeys(rows)[j] != k
    ensures UpdateBatch(SelectDuplicates(rows))[j].id != r.id
  {
    ScannedStatements(rows, j);
    var kept := KeptRow(Group(rows, ScannedKeys(rows)[j]));
    if kept.id == r.id {
      SameIdSameRow(rows, kept, r);
    }
  }

  lemma KeptRowUpdated(g: seq<Row>)
    requires g != []
    ensures RowAfter(KeptRow(g), SetHits(KeptRow(g).id, Sum(g, HitsColumn), Sum(g, HitsFr), Sum(g, HitsEn)))
            == Collapse(g)
  {
  }

  /** The kept row of a scanned group gets the group's sums. */
  lemma UpdatesOnKeptRow(rows: seq<Row>, k: Key, r: Row)
    requires UniqueIds(rows) && r in Group(rows, k)
    requires k in ScannedKeys(rows) && r.id == KeptRow(Group(rows, k)).id
    ensures RowThrough(r, UpdateBatch(SelectDuplicates(rows))) == Some(Collapse(Group(rows, k)))
  {
    var ks := ScannedKeys(rows);
    var u := UpdateBatch(SelectDuplicates(rows));
    assert |u| == |ks|;
    var j0 :| 0 <= j0 < |ks| && ks[j0] == k;
    forall j | 0 <= j < |u| && j != j0 ensures u[j].id != r.id {
      assert ks[j] != ks[j0];
      OtherUpdateMisses(rows, k, r, j);
    }
    ScannedStatements(rows, j0);
    var g := Group(rows, k);
    SameIdSameRow(rows, KeptRow(g), r);
    ThroughOneUpdate(r, u, j0);
    KeptRowUpdated(g);
  }

  /** Every other row of group `k` passes the update batch unchanged. */
  lemma UpdatesMissOtherRows(rows: seq<Row>, k: Key, r: Row)
    requires UniqueIds(rows) && r in Group(rows, k)
    requires !(k in ScannedKeys(rows) && r.id == KeptRow(Group(rows, k)).id)
    ensures RowThrough(r, UpdateBatch(SelectDuplicates(rows))) == Some(r)
  {
    var ks := ScannedKeys(rows);
    var u := UpdateBatch(SelectDuplicates(rows));
    forall j | 0 <= j < |ks| ensures u[j].id != r.id {
      if ks[j] == k {
        ScannedStatements(rows, j);
      } else {
        OtherUpdateMisses(rows, k, r, j);
      }
    }
    ThroughUnnamedUpdates(r, u);
  }

  /** The delete batch drops a row of group `k` exactly when the group was
      scanned and the row is not its kept row. */
  lemma DeletesOnGroupRow(rows: seq<Row>, k: Key, r: Row)
    requires KeyOf(r) == k
    ensures RowThrough(r, DeleteBatch(SelectDuplicates(rows))) ==
              if k in ScannedKeys(rows) && r.id != KeptRow(Group(rows, k)).id then None else Some(r)
  {
    var ks := ScannedKeys(rows);
    var d := DeleteBatch(SelectDuplicates(rows));
    ThroughDeletes(r, d);
    forall j | 0 <= j < |ks|
      ensures Removes(d[j], r) <==> ks[j] == k && r.id != KeptRow(Group(rows, k)).id
    {
      ScannedStatements(rows, j);
    }
    if k in ks && r.id != KeptRow(Group(rows, k)).id {
      var j0 :| 0 <= j0 < |ks| && ks[j0] == k;
      assert Removes(d[j0], r);
    }
  }

  /** What the two batches do to one row of group `k`. */
  lemma RowThroughMerge(rows: seq<Row>, k: Key, r: Row)
    requires UniqueIds(rows) && r in Group(rows, k)
    ensures var dups := SelectDuplicates(rows);
            var b := UpdateBatch(dups) + DeleteBatch(dups);
            RowThrough(r, b) ==
              if k !in ScannedKeys(rows) then Some(r)
              else if r.id == KeptRow(Group(rows, k)).id then Some(Collapse(Group(rows, k)))
              else None
  {
    var dups := SelectDuplicates(rows);
    ThroughAppend(r, UpdateBatch(dups), DeleteBatch(dups));
    if k in ScannedKeys(rows) && r.id == KeptRow(Group(rows, k)).id {
      UpdatesOnKeptRow(rows, k, r);
    } else {
      UpdatesMissOtherRows(rows, k, r);
    }
    var r' := RowThrough(r, UpdateBatch(dups)).value;
    DeletesOnGroupRow(rows, k, r');
  }

  /** The merge, group by group: each scanned duplicate group collapses to its
      `min(id)` row carrying the group's `hits`, `hits_fr` and `hits_en` sums;
      every other group, and so every row outside the scanned groups, is left
      exactly as it was. */
  lemma MergeByGroup(rows: seq<Row>, k: Key)
    requires UniqueIds(rows)
    ensures Group(Merged(rows), k) ==
              if k in ScannedKeys(rows) then [Collapse(Group(rows, k))] else Group(rows, k)
  {
    var dups := SelectDuplicates(rows);
    var u, d := UpdateBatch(dups), DeleteBatch(dups);
    var b := u + d;
    ExecBatchAppend(rows, u, d);
    ExecBatchIsSurvivors(rows, b);
    assert forall j :: 0 <= j < |b| ==> !b[j].RenameUid? by {
      forall j | 0 <= j < |b| ensures !b[j].RenameUid? {
        if j < |u| { assert b[j] == u[j]; } else { assert b[j] == d[j - |u|]; }
      }
    }
    GroupSurvivors(rows, b, k);
    var g := Group(rows, k);
    GroupUniqueIds(rows, k);
    forall r | r in g
      ensures RowThrough(r, b) ==
                if k !in ScannedKeys(rows) then Some(r)
                else if r.id == KeptRow(g).id then Some(Collapse(g)) else None
    {
      RowThroughMerge(rows, k, r);
    }
    if k in ScannedKeys(rows) {
      SurvivorsSingle(g, b, KeptRow(g).id, Collapse(g));
    } else {
      SurvivorsUnchanged(g, b);
    }
  }

  /** The merge keeps ids unique. */
  lemma MergedUniqueIds(rows: seq<Row>)
    requires UniqueIds(rows)
    ensures UniqueIds(Merged(rows))
  {
    var dups := SelectDuplicates(rows);
    var u, d := UpdateBatch(dups), DeleteBatch(dups);
    ExecBatchIsSurvivors(rows, u);
    SurvivorsUniqueIds(rows, u);
    ExecBatchIsSurvivors(ExecBatch(rows, u), d);
    SurvivorsUniqueIds(ExecBatch(rows, u), d);
  }

  lemma {:induction false} SumOfOne(r: Row, column: string)
    ensures Sum([r], column) == Counter(r, column)
  {
    assert [r][1..] == [];
  }

  /** No hit is lost from `hits`, `hits_fr` or `hits_en`: every group's totals
      are the same after the merge. */
  lemma MergeKeepsTotals(rows: seq<Row>, k: Key, column: string)
    requires UniqueIds(rows)
    requires column == HitsColumn || column == HitsFr || column == HitsEn
    ensures Sum(Group(Merged(rows), k), column) == Sum(Group(rows, k), column)
  {
    MergeByGroup(rows, k);
    if k in ScannedKeys(rows) {
      SumOfOne(Collapse(Group(rows, k)), column);
    }
  }

  /** Any other language column of a merged group keeps only the kept row's
      value: the counts of the deleted rows are lost. */
  lemma MergeDropsOtherColumns(rows: seq<Row>, k: Key, column: string)
    requires UniqueIds(rows) && k in ScannedKeys(rows)
    requires column != HitsColumn && column != HitsFr && column != HitsEn
    ensures Sum(Group(Merged(rows), k), column) == Counter(KeptRow(Group(rows, k)), column)
  {
    MergeByGroup(rows, k);
    SumOfOne(Collapse(Group(rows, k)), column);
  }

  /** After one merge every `(uid, monthyear)` has at most one row exactly when
      the scan saw every duplicate group, i.e. there were at most 10000. */
  lemma MergeLeavesNoDuplicatesIff(rows: seq<Row>)
    requires UniqueIds(rows)
    ensures (forall k :: |Group(Merged(rows), k)| <= 1) <==> |DuplicateKeys(rows)| <= DuplicateScanLimit
  {
    if |DuplicateKeys(rows)| <= DuplicateScanLimit {
      forall k ensures |Group(Merged(rows), k)| <= 1 {
        MergeByGroup(rows, k);
      }
    } else {
      var dk := DuplicateKeys(rows);
      var k := dk[DuplicateScanLimit];
      assert forall j :: 0 <= j < DuplicateScanLimit ==> dk[..DuplicateScanLimit][j] != k;
      assert k !in ScannedKeys(rows);
      MergeByGroup(rows, k);
      assert |Group(Merged(rows), k)| > 1;
    }
  }

  lemma ThreeColumnsDistinct()
    ensures HitsColumn != HitsFr && HitsColumn != HitsEn && HitsFr != HitsEn
  {
    assert |HitsColumn| == 4 && |HitsFr| == 7 && |HitsEn| == 7;
    assert HitsFr[5..] == "fr" && HitsEn[5..] == "en";
    assert HitsFr[5] == HitsFr[5..][0] == 'f';
    assert HitsEn[5] == HitsEn[5..][0] == 'e';
  }

  /** The three counters of a row that holds exactly them. */
  lemma ThreeCounters(r: Row, hits: int, fr: int, en: int)
    requires r.counters == map[HitsColumn := hits, HitsFr := fr, HitsEn := en]
    ensures Counter(r, HitsColumn) == hits && Counter(r, HitsFr) == fr && Counter(r, HitsEn) == en
  {
    ThreeColumnsDistinct();
  }

  /** Setting the three counters of a row that holds exactly them replaces all three. */
  lemma OverwriteThree(hits: int, fr: int, en: int, hits': int, fr': int, en': int)
    ensures map[HitsColumn := hits, HitsFr := fr, HitsEn := en][HitsColumn := hits'][HitsFr := fr'][HitsEn := en']
            == map[HitsColumn := hits', HitsFr := fr', HitsEn := en']
  {
    ThreeColumnsDistinct();
  }

  lemma {:induction false} SumOfTwo(a: Row, b: Row, column: string)
    ensures Sum([a, b], column) == Counter(a, column) + Counter(b, column)
  {
    assert [a, b][1..] == [b] && [b][1..] == [];
    assert Sum([b], column) == Counter(b, column) + Sum([], column);
  }

  /** Two rows with the same key form one scanned duplicate group. */
  lemma PairScanned(a: Row, b: Row)
    requires KeyOf(a) == KeyOf(b)
    ensures Group([a, b], KeyOf(a)) == [a, b]
    ensures KeyOf(a) in ScannedKeys([a, b])
  {
    var rows := [a, b];
    var k := KeyOf(a);
    assert rows[..1] == [a] && [a][..0] == [];
    assert Keys([a]) == [k];
    assert Keys(rows) == [k];
    assert Group(rows, k) == [a, b] by {
      assert rows[1..] == [b] && [b][1..] == [];
    }
    assert DuplicateKeys(rows) == [k] by {
      assert [k][1..] == [];
      assert KeepDuplicated(rows, [k]) == [k] + KeepDuplicated(rows, []);
    }
  }

  /** After the merge, the group of two rows with the same key is its one collapsed row. */
  lemma PairMerged(a: Row, b: Row)
    requires KeyOf(a) == KeyOf(b) && a.id != b.id
    ensures Group(Merged([a, b]), KeyOf(a)) == [Collapse([a, b])]
  {
    PairScanned(a, b);
    assert UniqueIds([a, b]);
    MergeByGroup([a, b], KeyOf(a));
  }

  /** A group of two collapses into the one with the smaller id, carrying the
      sums of the two rows. */
  lemma PairCollapse(a: Row, b: Row)
    requires a.id <= b.id
    ensures Collapse([a, b]) == a.(counters := a.counters[HitsColumn := Counter(a, HitsColumn) + Counter(b, HitsColumn)]
                                                         [HitsFr := Counter(a, HitsFr) + Counter(b, HitsFr)]
                                                         [HitsEn := Counter(a, HitsEn) + Counter(b, HitsEn)])
  {
    var g := [a, b];
    assert g[1..] == [b];
    assert KeptRow(g) == a;
    SumOfTwo(a, b, HitsColumn);
    SumOfTwo(a, b, HitsFr);
    SumOfTwo(a, b, HitsEn);
  }

  /** The collapsed row of two rows that hold exactly the three counters. */
  lemma PairCollapseCounters(a: Row, b: Row, hits: int, fr: int, en: int, hits': int, fr': int, en': int)
    requires a.id <= b.id
    requires a.counters == map[HitsColumn := hits, HitsFr := fr, HitsEn := en]
    requires b.counters == map[HitsColumn := hits', HitsFr := fr', HitsEn := en']
    ensures Collapse([a, b]) == a.(counters := map[HitsColumn := hits + hits', HitsFr := fr + fr', HitsEn := en + en'])
  {
    PairCollapse(a, b);
    ThreeCounters(a, hits, fr, en);
    ThreeCounters(b, hits', fr', en');
    OverwriteThree(hits, fr, en, hits + hits', fr + fr', en + en');
  }

  /** Two rows of the same page and month, each holding `hits`, `hits_fr` and
      `hits_en`, merge into the row with the smaller id carrying the sums of the two. */
  lemma MergeTwoRows(a: Row, b: Row, hits: int, fr: int, en: int, hits': int, fr': int, en': int)
    requires KeyOf(a) == KeyOf(b) && a.id < b.id
    requires a.counters == map[HitsColumn := hits, HitsFr := fr, HitsEn := en]
    requires b.counters == map[HitsColumn := hits', HitsFr := fr', HitsEn := en']
    ensures Group(Merged([a, b]), KeyOf(a))
              == [a.(counters := map[HitsColumn := hits + hits', HitsFr := fr + fr', HitsEn := en + en'])]
  {
    PairMerged(a, b);
    PairCollapseCounters(a, b, hits, fr, en, hits', fr', en');
  }
}
