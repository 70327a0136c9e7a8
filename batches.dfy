/** The statements the upgrade sends to `pagevisits` in batches, and what a
    batch does to the rows.

    A batch runs its statements one after the other over the whole table
    (`ExecBatch`). Every statement acts on each row independently, so the same
    result is obtained by sending each row through the whole batch on its own
    (`Survivors`); `ExecBatchIsSurvivors` proves the two agree, and the merge
    proofs reason row by row from there. */
module Batches {
  import opened Common
  import opened Schema

  datatype Statement =
      /** UPDATE pagevisits SET uid = to WHERE uid = from */
    | RenameUid(from: string, to: string)
      /** UPDATE pagevisits SET hits, hits_fr, hits_en WHERE id = id */
    | SetHits(id: int, hits: int, hitsFr: int, hitsEn: int)
      /** DELETE FROM pagevisits WHERE uid = uid AND monthyear = monthyear AND id != keepId */
    | DeleteOthers(uid: string, monthyear: int, keepId: int)

  /** Whether a statement deletes the row. */
  predicate Removes(s: Statement, r: Row) {
    s.DeleteOthers? && r.uid == s.uid && r.monthyear == s.monthyear && r.id != s.keepId
  }

  /** What an updating statement makes of one row. */
  function RowAfter(r: Row, s: Statement): (r': Row)
    ensures r'.id == r.id && r'.monthyear == r.monthyear
    ensures !s.RenameUid? ==> r'.uid == r.uid
  {
    match s
    case RenameUid(from, to) => if r.uid == from then r.(uid := to) else r
    case SetHits(id, h, fr, en) =>
      if r.id == id then r.(counters := r.counters[HitsColumn := h][HitsFr := fr][HitsEn := en]) else r
    case DeleteOthers(_, _, _) => r
  }

  /** One statement over the whole table. */
  function Exec(rows: seq<Row>, s: Statement): seq<Row> {
    if rows == [] then []
    else (if Removes(s, rows[0]) then [] else [RowAfter(rows[0], s)]) + Exec(rows[1..], s)
  }

  /** A batch: its statements in order, each over the table the previous left. */
  function ExecBatch(rows: seq<Row>, batch: seq<Statement>): seq<Row>
    decreases |batch|
  {
    if batch == [] then rows else ExecBatch(Exec(rows, batch[0]), batch[1..])
  }

  /** One row sent through a whole batch: `None` once a statement deletes it. */
  function RowThrough(r: Row, batch: seq<Statement>): Option<Row>
    decreases |batch|
  {
    if batch == [] then Some(r)
    else if Removes(batch[0], r) then None
    else RowThrough(RowAfter(r, batch[0]), batch[1..])
  }

  /** The rows a batch leaves, computed row by row. */
  function Survivors(rows: seq<Row>, batch: seq<Statement>): (out: seq<Row>)
    ensures |out| <= |rows|
  {
    if rows == [] then []
    else
      (match RowThrough(rows[0], batch) case Some(r) => [r] case None => []) + Survivors(rows[1..], batch)
  }

  lemma {:induction false} SurvivorsAfterExec(rows: seq<Row>, s: Statement, batch: seq<Statement>)
    ensures Survivors(Exec(rows, s), batch) == Survivors(rows, [s] + batch)
    decreases |rows|
  {
    var longer := [s] + batch;
    assert longer[0] == s && longer[1..] == batch;
    if rows != [] {
      var tail := rows[1..];
      SurvivorsAfterExec(tail, s, batch);
      var e := Exec(rows, s);
      if Removes(s, rows[0]) {
        assert e == Exec(tail, s);
        assert RowThrough(rows[0], longer) == None;
        assert Survivors(rows, longer) == Survivors(tail, longer);
      } else {
        var h := RowAfter(rows[0], s);
        assert e == [h] + Exec(tail, s);
        assert RowThrough(rows[0], longer) == RowThrough(h, batch);
        assert e[0] == h && e[1..] == Exec(tail, s);
      }
    }
  }

  /** Running a batch statement by statement and sending each row through it
      on its own give the same table. */
  lemma {:induction false} ExecBatchIsSurvivors(rows: seq<Row>, batch: seq<Statement>)
    ensures ExecBatch(rows, batch) == Survivors(rows, batch)
    decreases |batch|
  {
    if batch == [] {
      SurvivorsEmptyBatch(rows);
    } else {
      ExecBatchIsSurvivors(Exec(rows, batch[0]), batch[1..]);
      SurvivorsAfterExec(rows, batch[0], batch[1..]);
      assert [batch[0]] + batch[1..] == batch;
    }
  }

  lemma {:induction false} SurvivorsEmptyBatch(rows: seq<Row>)
    ensures Survivors(rows, []) == rows
    decreases |rows|
  {
    if rows != [] {
      SurvivorsEmptyBatch(rows[1..]);
    }
  }

  lemma {:induction false} ExecBatchAppend(rows: seq<Row>, first: seq<Statement>, second: seq<Statement>)
    ensures ExecBatch(ExecBatch(rows, first), second) == ExecBatch(rows, first + second)
    decreases |first|
  {
    if first != [] {
      assert (first + second)[0] == first[0] && (first + second)[1..] == first[1..] + second;
      assert ExecBatch(rows, first) == ExecBatch(Exec(rows, first[0]), first[1..]);
      assert ExecBatch(rows, first + second) == ExecBatch(Exec(rows, first[0]), first[1..] + second);
      ExecBatchAppend(Exec(rows, first[0]), first[1..], second);
    } else {
      assert first + second == second;
    }
  }

  lemma {:induction false} ThroughAppend(r: Row, first: seq<Statement>, second: seq<Statement>)
    ensures RowThrough(r, first + second) ==
      match RowThrough(r, first)
      case None => None
      case Some(r') => RowThrough(r', second)
    decreases |first|
  {
    if first == [] {
      assert first + second == second;
    } else {
      assert (first + second)[0] == first[0] && (first + second)[1..] == first[1..] + second;
      ThroughAppend(RowAfter(r, first[0]), first[1..], second);
    }
  }

  /** No statement changes a row's id or month, and only renames change its uid. */
  lemma {:induction false} ThroughKeepsIdentity(r: Row, batch: seq<Statement>)
    requires RowThrough(r, batch).Some?
    ensures RowThrough(r, batch).value.id == r.id
    ensures RowThrough(r, batch).value.monthyear == r.monthyear
    ensures (forall j :: 0 <= j < |batch| ==> !batch[j].RenameUid?) ==> KeyOf(RowThrough(r, batch).value) == KeyOf(r)
    decreases |batch|
  {
    if batch != [] {
      ThroughKeepsIdentity(RowAfter(r, batch[0]), batch[1..]);
    }
  }

  predicate AllSetHits(batch: seq<Statement>) {
    forall j :: 0 <= j < |batch| ==> batch[j].SetHits?
  }

  predicate AllDeletes(batch: seq<Statement>) {
    forall j :: 0 <= j < |batch| ==> batch[j].DeleteOthers?
  }

  /** A row that no update names passes an update batch unchanged. */
  lemma {:induction false} ThroughUnnamedUpdates(r: Row, batch: seq<Statement>)
    requires AllSetHits(batch)
    requires forall j :: 0 <= j < |batch| ==> batch[j].id != r.id
    ensures RowThrough(r, batch) == Some(r)
    decreases |batch|
  {
    if batch != [] {
      ThroughUnnamedUpdates(r, batch[1..]);
    }
  }

  /** A row that exactly one update names gets that update's counters. */
  lemma {:induction false} ThroughOneUpdate(r: Row, batch: seq<Statement>, k: int)
    requires AllSetHits(batch) && 0 <= k < |batch| && batch[k].id == r.id
    requires forall j :: 0 <= j < |batch| && j != k ==> batch[j].id != r.id
    ensures RowThrough(r, batch) == Some(RowAfter(r, batch[k]))
    decreases |batch|
  {
    if k == 0 {
      ThroughUnnamedUpdates(RowAfter(r, batch[0]), batch[1..]);
    } else {
      ThroughOneUpdate(r, batch[1..], k - 1);
    }
  }

  /** A delete batch keeps a row unchanged or drops it, and drops it exactly
      when one of its statements matches it. */
  lemma {:induction false} ThroughDeletes(r: Row, batch: seq<Statement>)
    requires AllDeletes(batch)
    ensures RowThrough(r, batch) == if exists j :: 0 <= j < |batch| && Removes(batch[j], r) then None else Some(r)
    decreases |batch|
  {
    if batch != [] {
      ThroughDeletes(r, batch[1..]);
      if exists j :: 0 <= j < |batch[1..]| && Removes(batch[1..][j], r) {
        var j :| 0 <= j < |batch[1..]| && Removes(batch[1..][j], r);
        assert Removes(batch[j + 1], r);
      }
      if exists j :: 0 <= j < |batch| && Removes(batch[j], r) {
        var j :| 0 <= j < |batch| && Removes(batch[j], r);
        if j > 0 {
          assert Removes(batch[1..][j - 1], r);
        }
      }
    }
  }

  /** Rows a batch never deletes all survive, in order. */
  lemma {:induction false} SurvivorsPointwise(rows: seq<Row>, batch: seq<Statement>)
    requires forall i :: 0 <= i < |rows| ==> RowThrough(rows[i], batch).Some?
    ensures |Survivors(rows, batch)| == |rows|
    ensures forall i :: 0 <= i < |rows| ==> Survivors(rows, batch)[i] == RowThrough(rows[i], batch).value
    decreases |rows|
  {
    if rows != [] {
      SurvivorsPointwise(rows[1..], batch);
      assert Survivors(rows, batch) == [RowThrough(rows[0], batch).value] + Survivors(rows[1..], batch);
    }
  }

  /** A batch that leaves every row as it is leaves the table as it is. */
  lemma {:induction false} SurvivorsUnchanged(rows: seq<Row>, batch: seq<Statement>)
    requires forall r :: r in rows ==> RowThrough(r, batch) == Some(r)
    ensures Survivors(rows, batch) == rows
    decreases |rows|
  {
    if rows != [] {
      SurvivorsUnchanged(rows[1..], batch);
    }
  }

  /** A batch that deletes every row leaves nothing. */
  lemma {:induction false} SurvivorsNone(rows: seq<Row>, batch: seq<Statement>)
    requires forall r :: r in rows ==> RowThrough(r, batch).None?
    ensures Survivors(rows, batch) == []
    decreases |rows|
  {
    if rows != [] {
      SurvivorsNone(rows[1..], batch);
    }
  }

  /** When a batch keeps only the row with id `x` (present once) and turns it
      into `m`, `m` is all that is left. */
  lemma {:induction false} SurvivorsSingle(rows: seq<Row>, batch: seq<Statement>, x: int, m: Row)
    requires UniqueIds(rows) && x in IdSet(rows)
    requires forall r :: r in rows ==> RowThrough(r, batch) == if r.id == x then Some(m) else None
    ensures Survivors(rows, batch) == [m]
    decreases |rows|
  {
    UniqueIdsCons(rows);
    if rows[0].id == x {
      forall r | r in rows[1..] ensures RowThrough(r, batch).None? {
        assert r.id in IdSet(rows[1..]);
      }
      SurvivorsNone(rows[1..], batch);
    } else {
      assert x in IdSet(rows[1..]) by {
        var r :| r in rows && r.id == x;
        assert r != rows[0];
        assert r in rows[1..];
      }
      SurvivorsSingle(rows[1..], batch, x, m);
    }
  }

  /** The ids left are ids that were there. */
  lemma {:induction false} SurvivorsIds(rows: seq<Row>, batch: seq<Statement>)
    ensures IdSet(Survivors(rows, batch)) <= IdSet(rows)
    decreases |rows|
  {
    if rows != [] {
      SurvivorsIds(rows[1..], batch);
      var out := Survivors(rows, batch);
      var rest := Survivors(rows[1..], batch);
      assert IdSet(rows[1..]) <= IdSet(rows) by {
        forall x | x in IdSet(rows[1..]) ensures x in IdSet(rows) {
          var r :| r in rows[1..] && r.id == x;
          assert r in rows;
        }
      }
      if RowThrough(rows[0], batch).Some? {
        ThroughKeepsIdentity(rows[0], batch);
        var first := RowThrough(rows[0], batch).value;
        assert out == [first] + rest;
        forall x | x in IdSet(out) ensures x in IdSet(rows) {
          var r :| r in out && r.id == x;
          if r != first {
            assert r in rest;
            assert x in IdSet(rest);
          } else {
            assert rows[0] in rows;
          }
        }
      } else {
        assert out == rest;
      }
    }
  }

  /** A batch never makes two rows share an id. */
  lemma {:induction false} SurvivorsUniqueIds(rows: seq<Row>, batch: seq<Statement>)
    requires UniqueIds(rows)
    ensures UniqueIds(Survivors(rows, batch))
    decreases |rows|
  {
    if rows != [] {
      UniqueIdsCons(rows);
      SurvivorsUniqueIds(rows[1..], batch);
      SurvivorsIds(rows[1..], batch);
      var rest := Survivors(rows[1..], batch);
      if RowThrough(rows[0], batch).Some? {
        ThroughKeepsIdentity(rows[0], batch);
        var out := [RowThrough(rows[0], batch).value] + rest;
        assert out[1..] == rest;
        UniqueIdsCons(out);
      }
    }
  }

  /** The renames of a list of slug pairs, in order. */
  function RenameBatch(pairs: seq<(string, string)>): (batch: seq<Statement>)
    ensures |batch| == |pairs|
    ensures forall j :: 0 <= j < |pairs| ==> batch[j] == RenameUid(pairs[j].0, pairs[j].1)
  {
    seq(|pairs|, j requires 0 <= j < |pairs| => RenameUid(pairs[j].0, pairs[j].1))
  }

  /** The uid a row ends up with after the renames, applied in order. */
  function RenamedUid(uid: string, pairs: seq<(string, string)>): string
    decreases |pairs|
  {
    if pairs == [] then uid
    else RenamedUid(if uid == pairs[0].0 then pairs[0].1 else uid, pairs[1..])
  }

  lemma {:induction false} ThroughRenames(r: Row, pairs: seq<(string, string)>)
    ensures RowThrough(r, RenameBatch(pairs)) == Some(r.(uid := RenamedUid(r.uid, pairs)))
    decreases |pairs|
  {
    if pairs != [] {
      assert RenameBatch(pairs)[1..] == RenameBatch(pairs[1..]);
      ThroughRenames(RowAfter(r, RenameBatch(pairs)[0]), pairs[1..]);
    }
  }

  /** The rename batch keeps every row, in place, and changes only uids. */
  lemma RenamesKeepRows(rows: seq<Row>, pairs: seq<(string, string)>)
    ensures |ExecBatch(rows, RenameBatch(pairs))| == |rows|
    ensures forall i :: 0 <= i < |rows| ==>
              ExecBatch(rows, RenameBatch(pairs))[i] == rows[i].(uid := RenamedUid(rows[i].uid, pairs))
  {
    ExecBatchIsSurvivors(rows, RenameBatch(pairs));
    forall i | 0 <= i < |rows| ensures RowThrough(rows[i], RenameBatch(pairs)).Some? {
      ThroughRenames(rows[i], pairs);
    }
    SurvivorsPointwise(rows, RenameBatch(pairs));
    forall i | 0 <= i < |rows| ensures Survivors(rows, RenameBatch(pairs))[i] == rows[i].(uid := RenamedUid(rows[i].uid, pairs)) {
      ThroughRenames(rows[i], pairs);
    }
  }

  /** A uid that is no pair's source is left alone. */
  lemma {:induction false} RenamedUidUntouched(uid: string, pairs: seq<(string, string)>)
    requires forall j :: 0 <= j < |pairs| ==> pairs[j].0 != uid
    ensures RenamedUid(uid, pairs) == uid
    decreases |pairs|
  {
    if pairs != [] {
      RenamedUidUntouched(uid, pairs[1..]);
    }
  }

  /** A uid ends up as the target of the first pair naming it, when that
      target is no pair's source. */
  lemma {:induction false} RenamedUidFirstMatch(uid: string, pairs: seq<(string, string)>, j: int)
    requires 0 <= j < |pairs| && pairs[j].0 == uid
    requires forall k :: 0 <= k < j ==> pairs[k].0 != uid
    requires forall k :: 0 <= k < |pairs| ==> pairs[k].0 != pairs[j].1
    ensures RenamedUid(uid, pairs) == pairs[j].1
    decreases |pairs|
  {
    if j == 0 {
      RenamedUidUntouched(pairs[0].1, pairs[1..]);
    } else {
      RenamedUidFirstMatch(uid, pairs[1..], j - 1);
    }
  }
}
