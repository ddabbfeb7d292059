/** The append-only hardware change ledger, replayed forwards and backwards over the fixed fields. */
module Ledger {
  import opened Common
  import opened Domain

  /** The fixed values of every setup. */
  function View(setups: seq<Setup>): (v: seq<Fields>)
    ensures |v| == |setups| && forall i :: 0 <= i < |v| ==> v[i] == setups[i].fixed
  {
    seq(|setups|, i requires 0 <= i < |setups| => setups[i].fixed)
  }

  /** row records a change of a fixed field of a listed setup. */
  predicate Concerns(row: LedgerRow, view: seq<Fields>) {
    row.field.Fixed? && 0 <= row.setupId < |view|
  }

  function With(view: seq<Fields>, id: int, f: Field, value: Option<string>): seq<Fields>
    requires 0 <= id < |view|
  {
    view[id := view[id][f := value]]
  }

  /** Apply the rows in order, each writing its new value. */
  function Replay(view: seq<Fields>, rows: seq<LedgerRow>): (v: seq<Fields>)
    ensures |v| == |view|
  {
    if rows == [] then view
    else
      var last := rows[|rows| - 1];
      var earlier := Replay(view, rows[..|rows| - 1]);
      if Concerns(last, view) then With(earlier, last.setupId, last.field.field, last.newValue) else earlier
  }

  /** Undo the rows from the last to the first, each writing its old value. */
  function Revert(view: seq<Fields>, rows: seq<LedgerRow>): seq<Fields>
    decreases |rows|
  {
    if rows == [] then view
    else
      var last := rows[|rows| - 1];
      Revert(if Concerns(last, view) then With(view, last.setupId, last.field.field, last.oldValue) else view,
             rows[..|rows| - 1])
  }

  /** Every row's old value is the value just before it. */
  predicate Chained(view: seq<Fields>, rows: seq<LedgerRow>) {
    rows == [] ||
    (&& Chained(view, rows[..|rows| - 1])
     && var last := rows[|rows| - 1];
        Concerns(last, view) ==> Replay(view, rows[..|rows| - 1])[last.setupId][last.field.field] == last.oldValue)
  }

  lemma {:induction false} ReplayConcat(view: seq<Fields>, rows: seq<LedgerRow>, more: seq<LedgerRow>)
    ensures Replay(view, rows + more) == Replay(Replay(view, rows), more)
    ensures Chained(view, rows + more) <==> Chained(view, rows) && Chained(Replay(view, rows), more)
  {
    if more == [] {
      assert rows + more == rows;
    } else {
      var n := |more| - 1;
      ReplayConcat(view, rows, more[..n]);
      assert (rows + more)[..|rows + more| - 1] == rows + more[..n];
    }
  }

  /** Backward replay of a chained ledger restores the start. */
  lemma {:induction false} RevertUndoesReplay(view: seq<Fields>, rows: seq<LedgerRow>)
    requires Chained(view, rows)
    ensures Revert(Replay(view, rows), rows) == view
  {
    if rows != [] {
      var n := |rows| - 1;
      var earlier := Replay(view, rows[..n]);
      RevertUndoesReplay(view, rows[..n]);
      if Concerns(rows[n], view) {
        var id, f := rows[n].setupId, rows[n].field.field;
        assert earlier[id][f := rows[n].newValue][f := rows[n].oldValue] == earlier[id];
        assert With(With(earlier, id, f, rows[n].newValue), id, f, rows[n].oldValue) == earlier;
      }
    }
  }

  /** The rows of one request for one column. */
  function RowsFor(rows: seq<LedgerRow>, swapId: int, col: Col): nat {
    if rows == [] then 0
    else
      var last := rows[|rows| - 1];
      RowsFor(rows[..|rows| - 1], swapId, col) + if last.swapId == swapId && last.field == col then 1 else 0
  }

  lemma {:induction false} RowsForConcat(rows: seq<LedgerRow>, more: seq<LedgerRow>, swapId: int, col: Col)
    ensures RowsFor(rows + more, swapId, col) == RowsFor(rows, swapId, col) + RowsFor(more, swapId, col)
  {
    if more == [] {
      assert rows + more == rows;
    } else {
      RowsForConcat(rows, more[..|more| - 1], swapId, col);
      assert (rows + more)[..|rows + more| - 1] == rows + more[..|more| - 1];
    }
  }
}
