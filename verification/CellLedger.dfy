/**
 * The ledger cell by cell, fixed and custom columns alike: replay, revert, and exactly when custom columns are traced.
 */
module CellLedger {
  import opened Common
  import opened Domain
  import opened TemplateValues
  import opened Ledger
  import opened Swaps
  import opened FixedExchange
  import opened CustomExchange
  import opened LedgerRuns

  // --- One cell ----------------------------------------------------------

  /** What a setup holds under a column: a fixed value, or the text stored under a custom name. */
  function CellValue(s: State, x: int, col: Col): Option<string>
    requires s.HasSetup(x)
  {
    match col
    case Fixed(f) => s.setups[x].fixed[f]
    case Custom(name) => TextByName(Cells(s.values, s.customBaselines), x, s.Template(s.setups[x].productId), name)
  }

  /** The value a cell has after the rows, if it has start before them. */
  function ReplayAt(rows: seq<LedgerRow>, x: int, col: Col, start: Option<string>): Option<string> {
    if rows == [] then start
    else
      var last := rows[|rows| - 1];
      if last.setupId == x && last.field == col then last.newValue else ReplayAt(rows[..|rows| - 1], x, col, start)
  }

  /** Every row of the cell has as old value the value just before it. */
  predicate ChainedAt(rows: seq<LedgerRow>, x: int, col: Col, start: Option<string>) {
    rows == [] ||
    (&& ChainedAt(rows[..|rows| - 1], x, col, start)
     && var last := rows[|rows| - 1];
        last.setupId == x && last.field == col ==> ReplayAt(rows[..|rows| - 1], x, col, start) == last.oldValue)
  }

  /** Undo the rows of the cell from the last to the first. */
  function RevertAt(rows: seq<LedgerRow>, x: int, col: Col, value: Option<string>): Option<string>
    decreases |rows|
  {
    if rows == [] then value
    else
      var last := rows[|rows| - 1];
      RevertAt(rows[..|rows| - 1], x, col, if last.setupId == x && last.field == col then last.oldValue else value)
  }

  lemma {:induction false} ConcatAt(rows: seq<LedgerRow>, more: seq<LedgerRow>, x: int, col: Col, start: Option<string>)
    ensures ReplayAt(rows + more, x, col, start) == ReplayAt(more, x, col, ReplayAt(rows, x, col, start))
    ensures ChainedAt(rows + more, x, col, start) <==>
            ChainedAt(rows, x, col, start) && ChainedAt(more, x, col, ReplayAt(rows, x, col, start))
  {
    if more == [] {
      assert rows + more == rows;
    } else {
      var n := |more| - 1;
      assert (rows + more)[..|rows + more| - 1] == rows + more[..n];
      ConcatAt(rows, more[..n], x, col, start);
    }
  }

  lemma {:induction false} RevertAtUndoesReplayAt(rows: seq<LedgerRow>, x: int, col: Col, start: Option<string>)
    requires ChainedAt(rows, x, col, start)
    ensures RevertAt(rows, x, col, ReplayAt(rows, x, col, start)) == start
  {
    if rows != [] {
      RevertAtUndoesReplayAt(rows[..|rows| - 1], x, col, start);
    }
  }

  /** On fixed columns this is the replay of whole views. */
  lemma {:induction false} ViewReplayIsCellwise(view: seq<Fields>, rows: seq<LedgerRow>, x: int, f: Field)
    requires 0 <= x < |view|
    ensures Replay(view, rows)[x][f] == ReplayAt(rows, x, Fixed(f), view[x][f])
    ensures Chained(view, rows) ==> ChainedAt(rows, x, Fixed(f), view[x][f])
  {
    if rows != [] {
      ViewReplayIsCellwise(view, rows[..|rows| - 1], x, f);
    }
  }

  // --- The rows of one approval ------------------------------------------

  lemma PairAt(rowA: LedgerRow, rowB: LedgerRow, x: int, col: Col, start: Option<string>)
    requires rowA.setupId != rowB.setupId && rowA.field == rowB.field
    ensures ReplayAt([rowA, rowB], x, col, start) ==
            if rowA.field != col then start
            else if x == rowA.setupId then rowA.newValue
            else if x == rowB.setupId then rowB.newValue
            else start
    ensures ChainedAt([rowA, rowB], x, col, start) <==>
            (rowA.field == col ==> && (x == rowA.setupId ==> start == rowA.oldValue)
                                   && (x == rowB.setupId ==> start == rowB.oldValue))
  {
    assert [rowA, rowB][..1] == [rowA] && [rowA][..0] == [];
    assert ReplayAt([], x, col, start) == start && ChainedAt([], x, col, start);
    assert ReplayAt([rowA], x, col, start) == if rowA.setupId == x && rowA.field == col then rowA.newValue else start;
  }

  /** The recorded value an approval's rows leave in a cell. */
  function RecordedAt(a: int, b: int, cols: seq<Col>, olds: map<Col, Option<string>>, news: map<Col, Option<string>>,
                      x: int, col: Col, start: Option<string>): Option<string>
  {
    if col !in cols then start
    else if x == a then ValueOf(news, col)
    else if x == b then ValueOf(olds, col)
    else start
  }

  lemma {:induction false} RowsAt(a: int, b: int, cols: seq<Col>, olds: map<Col, Option<string>>,
                                  news: map<Col, Option<string>>,
                                  swapId: int, actorId: int, x: int, col: Col, start: Option<string>)
    requires a != b && Distinct(cols)
    ensures ReplayAt(Rows(a, b, cols, olds, news, swapId, actorId), x, col, start) ==
            RecordedAt(a, b, cols, olds, news, x, col, start)
    ensures ChainedAt(Rows(a, b, cols, olds, news, swapId, actorId), x, col, start) <==>
            (col in cols ==> && (x == a ==> start == ValueOf(olds, col))
                             && (x == b ==> start == ValueOf(news, col)))
  {
    if cols != [] {
      var init, last := cols[..|cols| - 1], cols[|cols| - 1];
      assert cols == init + [last];
      assert last !in init by {
        assert forall i :: 0 <= i < |init| ==> init[i] == cols[i];
      }
      RowsAt(a, b, init, olds, news, swapId, actorId, x, col, start);
      var rows := Rows(a, b, init, olds, news, swapId, actorId);
      var rowA, rowB := RowA(a, last, olds, news, swapId, actorId), RowB(b, last, olds, news, swapId, actorId);
      ConcatAt(rows, [rowA, rowB], x, col, start);
      PairAt(rowA, rowB, x, col, ReplayAt(rows, x, col, start));
    }
  }

  /** The loop records, for each custom column, what the two setups held before it. */
  ghost predicate RecordsTexts(p: Pair, w: Work, cols: seq<Col>) {
    forall name :: Custom(name) in cols ==>
      ValueOf(w.olds, Custom(name)) == OldText(p, name) && ValueOf(w.news, Custom(name)) == NewText(p, name)
  }

  lemma StepRecordsTexts(p: Pair, w: Work, init: seq<Col>, col: Col)
    requires Fits(p, w) && RecordsTexts(p, w, init) && Step(p, w, col).Ok?
    ensures RecordsTexts(p, Step(p, w, col).value, init + [col])
  {
    assert forall c :: c in init + [col] <==> c in init || c == col;
  }

  lemma {:induction false} LoopRecordsTexts(p: Pair, w: Work, cols: seq<Col>)
    requires Fits(p, w) && Exchange(p, w, cols).Ok?
    ensures RecordsTexts(p, Exchange(p, w, cols).value, cols)
  {
    if cols != [] {
      var init, col := cols[..|cols| - 1], cols[|cols| - 1];
      assert cols == init + [col];
      LoopRecordsTexts(p, w, init);
      StepRecordsTexts(p, Exchange(p, w, init).value, init, col);
    }
  }

  // --- Texts by name and cells by id -------------------------------------

  /** One setup's texts by name are the exchanged ones. */
  ghost predicate NamesReceive(cols: seq<Column>, id: int, start: Cells, after: Cells, names: seq<string>,
                               incoming: string -> Option<string>)
  {
    forall name :: TextByName(after, id, cols, name) ==
      if name in names then incoming(name) else TextByName(start, id, cols, name)
  }

  ghost predicate CellsReceive(cols: seq<Column>, id: int, start: Cells, after: Cells, names: seq<string>,
                               incoming: string -> Option<string>)
  {
    forall c :: c in cols ==>
      after.Text((id, c.id)) == if c.name in names then incoming(c.name) else start.Text((id, c.id))
  }

  lemma TextOfColumn(cells: Cells, id: int, cols: seq<Column>, c: Column)
    requires UniqueColumns(cols) && c in cols
    ensures TextByName(cells, id, cols, c.name) == cells.Text((id, c.id))
  {
    FoundColumn(cols, c);
  }

  lemma ReceiveByNameIff(cols: seq<Column>, id: int, start: Cells, after: Cells, names: seq<string>,
                         incoming: string -> Option<string>)
    requires UniqueColumns(cols) && forall name :: name in names ==> NameIn(cols, name)
    ensures NamesReceive(cols, id, start, after, names, incoming) <==>
            CellsReceive(cols, id, start, after, names, incoming)
  {
    if NamesReceive(cols, id, start, after, names, incoming) {
      forall c | c in cols
        ensures after.Text((id, c.id)) == if c.name in names then incoming(c.name) else start.Text((id, c.id))
      {
        TextOfColumn(start, id, cols, c);
        TextOfColumn(after, id, cols, c);
      }
    }
    if CellsReceive(cols, id, start, after, names, incoming) {
      forall name ensures TextByName(after, id, cols, name) ==
          if name in names then incoming(name) else TextByName(start, id, cols, name)
      {
        ReceivedName(cols, id, start, after, names, incoming, name);
      }
    }
  }

  lemma ReceivedName(cols: seq<Column>, id: int, start: Cells, after: Cells, names: seq<string>,
                     incoming: string -> Option<string>, name: string)
    requires UniqueColumns(cols) && (name in names ==> NameIn(cols, name))
    requires CellsReceive(cols, id, start, after, names, incoming)
    ensures TextByName(after, id, cols, name) ==
            if name in names then incoming(name) else TextByName(start, id, cols, name)
  {
    if NameIn(cols, name) {
      var c :| c in cols && c.name == name;
      TextOfColumn(start, id, cols, c);
      TextOfColumn(after, id, cols, c);
    }
  }

  // --- One approval ------------------------------------------------------

  /** Replaying rows over setup x's texts of s gives its texts of s'. */
  ghost predicate TextsTraced(s: State, s': State, rows: seq<LedgerRow>, x: int)
    requires s.HasSetup(x) && s'.HasSetup(x)
  {
    forall name :: CellValue(s', x, Custom(name)) == ReplayAt(rows, x, Custom(name), CellValue(s, x, Custom(name)))
  }

  ghost predicate AllTextsTraced(s: State, s': State, rows: seq<LedgerRow>) {
    |s'.setups| == |s.setups| && forall x :: s.HasSetup(x) ==> TextsTraced(s, s', rows, x)
  }

  /** What an approval commits, as far as cells are concerned. */
  ghost predicate CommitsWork(s: State, s': State, done: Work) {
    && s'.templates == s.templates && |s'.setups| == |s.setups|
    && (forall x :: s.HasSetup(x) ==> s'.setups[x].productId == s.setups[x].productId)
    && s'.values == done.cells.values && s'.customBaselines == done.cells.baselines
  }

  lemma NamesOfCols(cols: seq<Col>)
    requires Distinct(cols)
    ensures forall name :: name in CustomNames(cols) <==> Custom(name) in cols
  {
    CustomNamesDistinct(cols);
  }

  lemma TracedAtA(s: State, s': State, w: Swap, done: Work, id: int, actorId: int)
    requires PlainSwap(s, w) && CommitsWork(s, s', done) && RecordsTexts(PairOf(s, w), done, ColumnsOf(w))
    ensures var p, cols := PairOf(s, w), ColumnsOf(w);
            TextsTraced(s, s', Rows(p.a, p.b, cols, done.olds, done.news, id, actorId), p.a) <==>
            NamesReceive(p.ta, p.a, p.start, done.cells, CustomNames(cols), ToA(p))
  {
    var p, cols := PairOf(s, w), ColumnsOf(w);
    NamesOfCols(cols);
    forall name
      ensures ReplayAt(Rows(p.a, p.b, cols, done.olds, done.news, id, actorId), p.a, Custom(name), OldText(p, name)) ==
              if name in CustomNames(cols) then NewText(p, name) else OldText(p, name)
    {
      RowsAt(p.a, p.b, cols, done.olds, done.news, id, actorId, p.a, Custom(name), OldText(p, name));
    }
    forall name ensures CellValue(s', p.a, Custom(name)) == TextByName(done.cells, p.a, p.ta, name) {}
    forall name ensures CellValue(s, p.a, Custom(name)) == OldText(p, name) {}
  }

  lemma TracedAtB(s: State, s': State, w: Swap, done: Work, id: int, actorId: int)
    requires PlainSwap(s, w) && CommitsWork(s, s', done) && RecordsTexts(PairOf(s, w), done, ColumnsOf(w))
    ensures var p, cols := PairOf(s, w), ColumnsOf(w);
            TextsTraced(s, s', Rows(p.a, p.b, cols, done.olds, done.news, id, actorId), p.b) <==>
            NamesReceive(p.tb, p.b, p.start, done.cells, CustomNames(cols), ToB(p))
  {
    var p, cols := PairOf(s, w), ColumnsOf(w);
    NamesOfCols(cols);
    forall name
      ensures ReplayAt(Rows(p.a, p.b, cols, done.olds, done.news, id, actorId), p.b, Custom(name), NewText(p, name)) ==
              if name in CustomNames(cols) then OldText(p, name) else NewText(p, name)
    {
      RowsAt(p.a, p.b, cols, done.olds, done.news, id, actorId, p.b, Custom(name), NewText(p, name));
    }
    forall name ensures CellValue(s', p.b, Custom(name)) == TextByName(done.cells, p.b, p.tb, name) {}
    forall name ensures CellValue(s, p.b, Custom(name)) == NewText(p, name) {}
  }

  /** A setup outside the pair keeps its texts and has no rows. */
  lemma TracedElsewhere(s: State, s': State, w: Swap, done: Work, id: int, actorId: int, x: int)
    requires PlainSwap(s, w) && CommitsWork(s, s', done) && Evolved(PairOf(s, w), CustomNames(ColumnsOf(w)), done.cells)
    requires s.HasSetup(x) && x != w.currentSetupId && x != w.requestedSetupId
    ensures var p := PairOf(s, w);
            TextsTraced(s, s', Rows(p.a, p.b, ColumnsOf(w), done.olds, done.news, id, actorId), x)
  {
    var p, cols := PairOf(s, w), ColumnsOf(w);
    var tx := s.Template(s.setups[x].productId);
    forall name ensures CellValue(s', x, Custom(name)) ==
        ReplayAt(Rows(p.a, p.b, cols, done.olds, done.news, id, actorId), x, Custom(name),
                 CellValue(s, x, Custom(name)))
    {
      RowsAt(p.a, p.b, cols, done.olds, done.news, id, actorId, x, Custom(name), CellValue(s, x, Custom(name)));
      var found := FindColumn(tx, name);
      if found.Some? {
        var key := (x, tx[found.value].id);
        assert !KeyIn(p.ta, p.a, key) && !KeyIn(p.tb, p.b, key);
        assert SameCell(p.start, done.cells, key);
      }
    }
  }

  /** A finished exchange is traced in the custom columns exactly when it exchanged them. */
  lemma WorkTracedIff(s: State, s': State, w: Swap, done: Work, id: int, actorId: int)
    requires PlainSwap(s, w) && CommitsWork(s, s', done) && Ready(PairOf(s, w))
    requires RecordsTexts(PairOf(s, w), done, ColumnsOf(w))
             && Evolved(PairOf(s, w), CustomNames(ColumnsOf(w)), done.cells)
    ensures var p, cols := PairOf(s, w), ColumnsOf(w);
            AllTextsTraced(s, s', Rows(p.a, p.b, cols, done.olds, done.news, id, actorId)) <==>
            CustomExchanged(p, CustomNames(cols), done.cells)
  {
    var p, cols := PairOf(s, w), ColumnsOf(w);
    NamesOfCols(cols);
    TracedAtA(s, s', w, done, id, actorId);
    TracedAtB(s, s', w, done, id, actorId);
    ReceiveByNameIff(p.ta, p.a, p.start, done.cells, CustomNames(cols), ToA(p));
    ReceiveByNameIff(p.tb, p.b, p.start, done.cells, CustomNames(cols), ToB(p));
    SidesExchangedIff(p, CustomNames(cols), done.cells);
    forall x | s.HasSetup(x) && x != p.a && x != p.b
      ensures TextsTraced(s, s', Rows(p.a, p.b, cols, done.olds, done.news, id, actorId), x)
    {
      TracedElsewhere(s, s', w, done, id, actorId, x);
    }
  }

  lemma SidesExchangedIff(p: Pair, names: seq<string>, after: Cells)
    requires Evolved(p, names, after)
    ensures CustomExchanged(p, names, after) <==>
            && CellsReceive(p.ta, p.a, p.start, after, names, ToA(p))
            && CellsReceive(p.tb, p.b, p.start, after, names, ToB(p))
  {
    forall key | !KeyIn(p.ta, p.a, key) && !KeyIn(p.tb, p.b, key) ensures after.Text(key) == p.start.Text(key) {
      assert SameCell(p.start, after, key);
    }
  }

  lemma ApprovalCommits(s: State, actorId: int, id: int)
    requires s.HasUser(actorId) && ApproveRefusal(s, actorId, id).None? && PlainSwap(s, s.swaps[id])
    ensures var w := s.swaps[id];
            var r := Exchange(PairOf(s, w), StartOf(s), ColumnsOf(w));
            && (ApproveSwap(s, actorId, id).Ok? <==> r.Ok?)
            && (r.Ok? ==>
                  var s' := ApproveSwap(s, actorId, id).value;
                  && CommitsWork(s, s', r.value)
                  && s.ledger <= s'.ledger
                  && Added(s.ledger, s'.ledger) ==
                     Rows(w.currentSetupId, w.requestedSetupId, ColumnsOf(w), r.value.olds, r.value.news, id, actorId))
  {
    var w := s.swaps[id];
    var r := Exchange(PairOf(s, w), StartOf(s), ColumnsOf(w));
    if r.Ok? {
      var rows := Rows(w.currentSetupId, w.requestedSetupId, ColumnsOf(w), r.value.olds, r.value.news, id, actorId);
      assert (s.ledger + rows)[|s.ledger|..] == rows;
      LoopKeepsProducts(PairOf(s, w), StartOf(s), ColumnsOf(w));
    }
  }

  lemma LoopKeepsProducts(p: Pair, w: Work, cols: seq<Col>)
    requires Fits(p, w) && p.a != p.b && Exchange(p, w, cols).Ok?
    ensures var after := Exchange(p, w, cols).value.setups;
            && |after| == |w.setups|
            && forall x :: 0 <= x < |after| ==> after[x].productId == w.setups[x].productId
  {
    LoopExchanges(p, w, cols);
  }

  /**
   * An approval goes through with ledger rows that replay the texts before it into the texts after it, for every setup
   * and custom name, exactly when every column of both templates settles.
   */
  lemma ApprovalTracesCustomIff(s: State, actorId: int, id: int)
    requires s.HasUser(actorId) && ApproveRefusal(s, actorId, id).None?
    requires PlainSwap(s, s.swaps[id]) && Ready(PairOf(s, s.swaps[id]))
    ensures (&& ApproveSwap(s, actorId, id).Ok?
             && var s' := ApproveSwap(s, actorId, id).value;
                s.ledger <= s'.ledger && AllTextsTraced(s, s', Added(s.ledger, s'.ledger)))
            <==> AllSettle(PairOf(s, s.swaps[id]), CustomNames(ColumnsOf(s.swaps[id])))
  {
    var w := s.swaps[id];
    var p, cols := PairOf(s, w), ColumnsOf(w);
    CustomNamesDistinct(cols);
    ApprovalCommits(s, actorId, id);
    LoopExchangesCustomIff(p, StartOf(s), cols);
    if Exchange(p, StartOf(s), cols).Ok? {
      LoopEvolves(p, StartOf(s), cols);
      LoopRecordsTexts(p, StartOf(s), cols);
      WorkTracedIff(s, ApproveSwap(s, actorId, id).value, w, Exchange(p, StartOf(s), cols).value, id, actorId);
    }
  }

  /** Its old values are always those just before it. */
  lemma ApprovalChainsCustom(s: State, actorId: int, id: int, x: int, name: string)
    requires s.HasUser(actorId) && ApproveRefusal(s, actorId, id).None? && PlainSwap(s, s.swaps[id])
    requires ApproveSwap(s, actorId, id).Ok? && s.HasSetup(x)
    ensures var s' := ApproveSwap(s, actorId, id).value;
            && s.ledger <= s'.ledger
            && ChainedAt(Added(s.ledger, s'.ledger), x, Custom(name), CellValue(s, x, Custom(name)))
  {
    var w := s.swaps[id];
    var p, cols := PairOf(s, w), ColumnsOf(w);
    var done := Exchange(p, StartOf(s), cols).value;
    ApprovalCommits(s, actorId, id);
    LoopRecordsTexts(p, StartOf(s), cols);
    RowsAt(p.a, p.b, cols, done.olds, done.news, id, actorId, x, Custom(name), CellValue(s, x, Custom(name)));
  }
}
