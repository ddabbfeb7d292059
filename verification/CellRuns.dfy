/** The whole ledger over whole runs, custom columns included, and undoing a custom-column swap. */
module CellRuns {
  import opened Common
  import opened Domain
  import opened TemplateValues
  import opened Ledger
  import opened Swaps
  import opened CustomExchange
  import opened Runs
  import opened Effects
  import opened LedgerRuns
  import opened CellLedger

  /** Calls other than swap approvals that can write a fixed or custom value, or change a setup's template. */
  predicate WritesCells(c: Call) {
    WritesSetups(c) || (c.OnAdmin? && c.admin.StoreValuesCall?)
  }

  ghost predicate OnlySwapsWriteCells(calls: seq<Call>) {
    forall c :: c in calls ==> !WritesCells(c)
  }

  /** Templates and requests as the services keep them. */
  ghost predicate Plain(s: State) {
    PlainTemplates(s) && UniqueTemplates(s) && PlainSwaps(s)
  }

  /**
   * The rows added since s replay the cell's value of s into its value of s', each old value being the one just before.
   */
  ghost predicate CellTraced(s: State, s': State, x: int, col: Col)
    requires s.ledger <= s'.ledger && s.HasSetup(x) && s'.HasSetup(x)
  {
    var rows, start := Added(s.ledger, s'.ledger), CellValue(s, x, col);
    CellValue(s', x, col) == ReplayAt(rows, x, col, start) && ChainedAt(rows, x, col, start)
  }

  ghost predicate Traced(s: State, s': State) {
    && s.ledger <= s'.ledger && |s'.setups| == |s.setups|
    && forall x, col :: s.HasSetup(x) ==> CellTraced(s, s', x, col)
  }

  /** Tracing can be played backwards. */
  lemma TracedReverts(s: State, s': State, x: int, col: Col)
    requires Traced(s, s') && s.HasSetup(x)
    ensures RevertAt(Added(s.ledger, s'.ledger), x, col, CellValue(s', x, col)) == CellValue(s, x, col)
  {
    assert CellTraced(s, s', x, col);
    RevertAtUndoesReplayAt(Added(s.ledger, s'.ledger), x, col, CellValue(s, x, col));
  }

  lemma TracedOn(s: State, s1: State, s2: State)
    requires Traced(s, s1) && Traced(s1, s2)
    ensures Traced(s, s2)
  {
    assert Added(s.ledger, s2.ledger) == Added(s.ledger, s1.ledger) + Added(s1.ledger, s2.ledger);
    forall x, col | s.HasSetup(x) ensures CellTraced(s, s2, x, col) {
      assert CellTraced(s, s1, x, col) && CellTraced(s1, s2, x, col);
      ConcatAt(Added(s.ledger, s1.ledger), Added(s1.ledger, s2.ledger), x, col, CellValue(s, x, col));
    }
  }

  // --- One step ----------------------------------------------------------

  /** Fixed fields are always traced. */
  lemma FixedTraced(s: State, s': State, x: int, f: Field)
    requires ReplaysChained(s, s') && |s'.setups| == |s.setups| && s.HasSetup(x)
    ensures CellTraced(s, s', x, Fixed(f))
  {
    var rows := Added(s.ledger, s'.ledger);
    ViewReplayIsCellwise(View(s.setups), rows, x, f);
    assert View(s'.setups)[x] == Replay(View(s.setups), rows)[x];
  }

  /** Call c, made in state s, approves a swap with a custom column that does not settle. */
  ghost predicate ApprovesUnsettled(s: State, c: Call)
    requires PlainSwaps(s)
  {
    IsApproval(s, c) &&
    var w := s.swaps[c.swap.swapId];
    !AllSettle(PairOf(s, w), CustomNames(ColumnsOf(w)))
  }

  lemma OtherStepsKeepTexts(s: State, c: Call)
    requires !IsApproval(s, c) && !WritesCells(c)
    ensures Next(s, c).values == s.values && Next(s, c).customBaselines == s.customBaselines
            && Next(s, c).ledger == s.ledger
  {
    if Exec(s, c).Ok? {
      match c
      case OnSwap(a, call) => SwapCallEffect(s, a, call);
      case OnBorrow(a, now, call) => BorrowCallEffect(s, a, now, call);
      case OnReservation(a, now, call) => ReservationCallEffect(s, a, now, call);
      case ReservationJob(now) => SweepEffect(s, now);
      case OnAdmin(a, call) => AdminCallEffect(s, a, call);
      case BorrowJob(now) =>
    }
  }

  lemma OtherStepsTraceTexts(s: State, c: Call, x: int, name: string)
    requires PlainSwaps(s) && !IsApproval(s, c) && !WritesCells(c) && s.HasSetup(x)
    ensures s.ledger <= Next(s, c).ledger && Next(s, c).HasSetup(x) && CellTraced(s, Next(s, c), x, Custom(name))
  {
    PlainIsWellFormed(s);
    NextKeepsProducts(s, c);
    OtherStepsKeepTexts(s, c);
    assert Added(s.ledger, Next(s, c).ledger) == [];
  }

  lemma ApprovalTracesIff(s: State, c: Call)
    requires Plain(s) && IsApproval(s, c)
    ensures var s' := Next(s, c);
            && s.ledger <= s'.ledger && |s'.setups| == |s.setups|
            && ((forall x, name :: s.HasSetup(x) ==> CellTraced(s, s', x, Custom(name))) <==> !ApprovesUnsettled(s, c))
  {
    var id := c.swap.swapId;
    ApprovalStep(s, c);
    assert PlainSwap(s, s.swaps[id]);
    ApprovalCommits(s, c.actorId, id);
    ApprovalTracesCustomIff(s, c.actorId, id);
    TextsTracedIff(s, Next(s, c), c.actorId, id);
  }

  lemma TextsTracedIff(s: State, s': State, actorId: int, id: int)
    requires s.HasUser(actorId) && ApproveSwap(s, actorId, id) == Ok(s') && PlainSwap(s, s.swaps[id])
    requires s.ledger <= s'.ledger && |s'.setups| == |s.setups|
    ensures (forall x, name :: s.HasSetup(x) ==> CellTraced(s, s', x, Custom(name))) <==>
            AllTextsTraced(s, s', Added(s.ledger, s'.ledger))
  {
    var rows := Added(s.ledger, s'.ledger);
    forall x, name | s.HasSetup(x)
      ensures CellTraced(s, s', x, Custom(name)) <==>
              CellValue(s', x, Custom(name)) == ReplayAt(rows, x, Custom(name), CellValue(s, x, Custom(name)))
    {
      ApprovalChainsCustom(s, actorId, id, x, name);
    }
    if forall x, name :: s.HasSetup(x) ==> CellTraced(s, s', x, Custom(name)) {
      forall x | s.HasSetup(x) ensures TextsTraced(s, s', rows, x) {
        forall name
          ensures CellValue(s', x, Custom(name)) == ReplayAt(rows, x, Custom(name), CellValue(s, x, Custom(name)))
        {
          assert CellTraced(s, s', x, Custom(name));
        }
      }
    } else {
      var x, name :| s.HasSetup(x) && !CellTraced(s, s', x, Custom(name));
      assert !TextsTraced(s, s', rows, x);
    }
  }

  /** A step is traced in every cell exactly when it is not the approval of a swap that does not settle. */
  lemma NextTracesIff(s: State, c: Call)
    requires Plain(s) && !WritesCells(c)
    ensures Traced(s, Next(s, c)) <==> !ApprovesUnsettled(s, c)
  {
    var s' := Next(s, c);
    PlainIsWellFormed(s);
    NextKeepsProducts(s, c);
    NextChains(s, c);
    if IsApproval(s, c) {
      ApprovalTracesIff(s, c);
    } else {
      forall x, name | s.HasSetup(x) ensures CellTraced(s, s', x, Custom(name)) {
        OtherStepsTraceTexts(s, c, x, name);
      }
    }
    EveryCellTracedIff(s, s');
  }

  lemma EveryCellTracedIff(s: State, s': State)
    requires ReplaysChained(s, s') && |s'.setups| == |s.setups|
    ensures Traced(s, s') <==> forall x, name :: s.HasSetup(x) ==> CellTraced(s, s', x, Custom(name))
  {
    if forall x, name :: s.HasSetup(x) ==> CellTraced(s, s', x, Custom(name)) {
      forall x, col | s.HasSetup(x) ensures CellTraced(s, s', x, col) {
        match col
        case Fixed(f) => FixedTraced(s, s', x, f);
        case Custom(name) =>
      }
    }
  }

  // --- Whole runs --------------------------------------------------------

  lemma PlainThroughout(s: State, calls: seq<Call>, k: int)
    requires Plain(s) && OnlySwapsWriteCells(calls) && 0 <= k <= |calls|
    ensures Plain(Before(s, calls, k))
  {
    forall c | c in calls[..k] ensures !WritesSetups(c) {
      assert c in calls;
    }
    RunChains(s, calls[..k]);
    RunKeepsTemplates(s, calls[..k]);
  }

  ghost predicate TracedBetween(s: State, calls: seq<Call>, j: int, k: int)
    requires 0 <= j <= k <= |calls|
  {
    Traced(Before(s, calls, j), Before(s, calls, k))
  }

  /** Call k of the run approves a swap that does not settle. */
  ghost predicate UnsettledAt(s: State, calls: seq<Call>, k: int)
    requires Plain(s) && OnlySwapsWriteCells(calls) && 0 <= k < |calls|
  {
    PlainThroughout(s, calls, k);
    ApprovesUnsettled(Before(s, calls, k), calls[k])
  }

  lemma StepTracesIff(s: State, calls: seq<Call>, k: int)
    requires Plain(s) && OnlySwapsWriteCells(calls) && 0 <= k < |calls|
    ensures TracedBetween(s, calls, k, k + 1) <==> !UnsettledAt(s, calls, k)
  {
    PlainThroughout(s, calls, k);
    RunSteps(s, calls, k);
    NextTracesIff(Before(s, calls, k), calls[k]);
  }

  lemma TracedNow(s: State)
    ensures Traced(s, s)
  {
    assert Added(s.ledger, s.ledger) == [];
    forall x, col | s.HasSetup(x) ensures CellTraced(s, s, x, col) {}
  }

  lemma {:induction false} TracedUpTo(s: State, calls: seq<Call>, j: int, k: int)
    requires Plain(s) && OnlySwapsWriteCells(calls) && 0 <= j <= k <= |calls|
    requires forall i :: 0 <= i < |calls| ==> !UnsettledAt(s, calls, i)
    ensures TracedBetween(s, calls, j, k)
    decreases k - j
  {
    if j == k {
      TracedNow(Before(s, calls, k));
    } else {
      TracedUpTo(s, calls, j, k - 1);
      StepTracesIff(s, calls, k - 1);
      TracedOn(Before(s, calls, j), Before(s, calls, k - 1), Before(s, calls, k));
    }
  }

  /**
   * In a run whose only value writers are swap approvals the ledger traces every cell, fixed and custom, between any
   * two points exactly when every approved swap settles.
   */
  lemma RunTracesIff(s: State, calls: seq<Call>)
    requires Plain(s) && OnlySwapsWriteCells(calls)
    ensures (forall j, k :: 0 <= j <= k <= |calls| ==> TracedBetween(s, calls, j, k)) <==>
            forall k :: 0 <= k < |calls| ==> !UnsettledAt(s, calls, k)
  {
    if forall k :: 0 <= k < |calls| ==> !UnsettledAt(s, calls, k) {
      forall j, k | 0 <= j <= k <= |calls| ensures TracedBetween(s, calls, j, k) {
        TracedUpTo(s, calls, j, k);
      }
    } else {
      var k :| 0 <= k < |calls| && UnsettledAt(s, calls, k);
      StepTracesIff(s, calls, k);
    }
  }

  // --- Undoing a custom-column swap --------------------------------------

  /** q works on the same two setups and templates as p, in the same or in the opposite order. */
  predicate SamePair(p: Pair, q: Pair) {
    || (q.a == p.a && q.b == p.b && q.ta == p.ta && q.tb == p.tb)
    || (q.a == p.b && q.b == p.a && q.ta == p.tb && q.tb == p.ta)
  }

  ghost predicate SameTexts(cells: Cells, other: Cells) {
    forall key :: cells.Text(key) == other.Text(key)
  }

  /** After an exchange each setup's listed texts are the other's former ones. */
  lemma ExchangedTexts(p: Pair, names: seq<string>, after: Cells, name: string)
    requires Ready(p) && CustomExchanged(p, names, after) && name in names && NameIn(p.ta, name) && NameIn(p.tb, name)
    ensures TextByName(after, p.a, p.ta, name) == NewText(p, name)
    ensures TextByName(after, p.b, p.tb, name) == OldText(p, name)
  {
    var c :| c in p.ta && c.name == name;
    TextOfColumn(after, p.a, p.ta, c);
    var d :| d in p.tb && d.name == name;
    TextOfColumn(after, p.b, p.tb, d);
  }

  /** The second exchange delivers to each side what that side had before the first. */
  lemma DeliversBack(p: Pair, q: Pair, names: seq<string>, c: Column)
    requires Ready(p) && SamePair(p, q) && CustomExchanged(p, names, q.start)
    requires c.name in names && NameIn(p.ta, c.name) && NameIn(p.tb, c.name)
    ensures c in p.ta ==> (if q.a == p.a then NewText(q, c.name) else OldText(q, c.name)) == p.start.Text((p.a, c.id))
    ensures c in p.tb ==> (if q.a == p.a then OldText(q, c.name) else NewText(q, c.name)) == p.start.Text((p.b, c.id))
  {
    ExchangedTexts(p, names, q.start, c.name);
    if c in p.ta {
      TextOfColumn(p.start, p.a, p.ta, c);
    }
    if c in p.tb {
      TextOfColumn(p.start, p.b, p.tb, c);
    }
  }

  /** Exchanging back is restoring. */
  lemma ExchangedBackIff(p: Pair, q: Pair, names: seq<string>, after: Cells)
    requires Ready(p) && SamePair(p, q) && CustomExchanged(p, names, q.start)
    requires forall name :: name in names ==> NameIn(p.ta, name) && NameIn(p.tb, name)
    requires forall key :: !KeyIn(q.ta, q.a, key) && !KeyIn(q.tb, q.b, key) ==> after.Text(key) == q.start.Text(key)
    ensures CustomExchanged(q, names, after) <==> SameTexts(after, p.start)
  {
    forall c | c in p.ta || c in p.tb
      ensures c in p.ta && c.name in names ==>
                (if q.a == p.a then NewText(q, c.name) else OldText(q, c.name)) == p.start.Text((p.a, c.id))
      ensures c in p.tb && c.name in names ==>
                (if q.a == p.a then OldText(q, c.name) else NewText(q, c.name)) == p.start.Text((p.b, c.id))
    {
      if c.name in names {
        DeliversBack(p, q, names, c);
      }
    }
    BackOnTemplates(p, q, names, after);
  }

  lemma BackOnTemplates(p: Pair, q: Pair, names: seq<string>, after: Cells)
    requires Ready(p) && SamePair(p, q) && CustomExchanged(p, names, q.start)
    requires forall c :: c in p.ta && c.name in names ==>
               (if q.a == p.a then NewText(q, c.name) else OldText(q, c.name)) == p.start.Text((p.a, c.id))
    requires forall c :: c in p.tb && c.name in names ==>
               (if q.a == p.a then OldText(q, c.name) else NewText(q, c.name)) == p.start.Text((p.b, c.id))
    requires forall key :: !KeyIn(q.ta, q.a, key) && !KeyIn(q.tb, q.b, key) ==> after.Text(key) == q.start.Text(key)
    ensures CustomExchanged(q, names, after) <==> SameTexts(after, p.start)
  {
    if CustomExchanged(q, names, after) {
      forall key ensures after.Text(key) == p.start.Text(key) {
        if KeyIn(p.ta, p.a, key) {
          var c :| c in p.ta && c.id == key.1;
          assert key == (p.a, c.id);
        } else if KeyIn(p.tb, p.b, key) {
          var c :| c in p.tb && c.id == key.1;
          assert key == (p.b, c.id);
        }
      }
    }
    if SameTexts(after, p.start) {
      forall c | c in p.ta ensures after.Text((p.a, c.id)) == p.start.Text((p.a, c.id)) {}
      forall c | c in p.tb ensures after.Text((p.b, c.id)) == p.start.Text((p.b, c.id)) {}
    }
  }

  /**
   * Exchanging the same custom columns of the pair again restores every stored text exactly when that exchange settles
   * too.
   */
  lemma SecondExchangeRestoresIff(p: Pair, q: Pair, w: Work, cols: seq<Col>)
    requires Ready(p) && SamePair(p, q) && Fits(q, w) && w.cells == q.start && Distinct(CustomNames(cols))
    requires forall name :: name in CustomNames(cols) ==> NameIn(p.ta, name) && NameIn(p.tb, name)
    requires CustomExchanged(p, CustomNames(cols), q.start)
    ensures (Exchange(q, w, cols).Ok? && SameTexts(Exchange(q, w, cols).value.cells, p.start)) <==>
            AllSettle(q, CustomNames(cols))
  {
    LoopExchangesCustomIff(q, w, cols);
    LoopEvolves(q, w, cols);
    if Exchange(q, w, cols).Ok? {
      var after := Exchange(q, w, cols).value.cells;
      forall key | !KeyIn(q.ta, q.a, key) && !KeyIn(q.tb, q.b, key) ensures after.Text(key) == q.start.Text(key) {
        assert SameCell(q.start, after, key);
      }
      ExchangedBackIff(p, q, CustomNames(cols), after);
    }
  }

  /** Baselines do not matter to stored texts. */
  lemma SameValuesSameTexts(p: Pair, names: seq<string>, cells: Cells, other: Cells)
    requires CustomExchanged(p, names, cells) && other.values == cells.values
    ensures CustomExchanged(p, names, other)
  {
  }

  /**
   * After an approval that settled, approving a second request for the same pair and columns restores every stored text
   * exactly when it settles as well, as long as the cells stood still in between.
   */
  lemma CustomSwapUndoneIff(s: State, actorId: int, id: int, s2: State, actorId2: int, id2: int)
    requires s.HasUser(actorId) && ApproveSwap(s, actorId, id).Ok? && PlainSwap(s, s.swaps[id])
             && Ready(PairOf(s, s.swaps[id]))
    requires AllSettle(PairOf(s, s.swaps[id]), CustomNames(ColumnsOf(s.swaps[id])))
    requires s2.values == ApproveSwap(s, actorId, id).value.values
    requires s2.HasUser(actorId2) && ApproveRefusal(s2, actorId2, id2).None?
    requires s2.swaps[id2].columnName == s.swaps[id].columnName
    requires SamePair(PairOf(s, s.swaps[id]), PairOf(s2, s2.swaps[id2]))
    ensures (&& ApproveSwap(s2, actorId2, id2).Ok?
             && SameTexts(Cells(ApproveSwap(s2, actorId2, id2).value.values, map[]), Cells(s.values, map[])))
            <==> AllSettle(PairOf(s2, s2.swaps[id2]), CustomNames(ColumnsOf(s2.swaps[id2])))
  {
    var w, w2 := s.swaps[id], s2.swaps[id2];
    var p, q, cols := PairOf(s, w), PairOf(s2, w2), ColumnsOf(w);
    CustomNamesDistinct(cols);
    ApprovalExchangesCustomIff(s, actorId, id);
    var s1 := ApproveSwap(s, actorId, id).value;
    SameValuesSameTexts(p, CustomNames(cols), Cells(s1.values, s1.customBaselines), q.start);
    SecondExchangeRestoresIff(p, q, StartOf(s2), cols);
    if ApproveSwap(s2, actorId2, id2).Ok? {
      SameTextsByValues(Exchange(q, StartOf(s2), cols).value.cells, p.start);
    }
  }

  lemma SameTextsByValues(cells: Cells, other: Cells)
    ensures SameTexts(Cells(cells.values, map[]), Cells(other.values, map[])) <==> SameTexts(cells, other)
  {
    forall key ensures Cells(cells.values, map[]).Text(key) == cells.Text(key)
                    && Cells(other.values, map[]).Text(key) == other.Text(key) {}
    if SameTexts(Cells(cells.values, map[]), Cells(other.values, map[])) {
      forall key ensures cells.Text(key) == other.Text(key) {
        assert Cells(cells.values, map[]).Text(key) == Cells(other.values, map[]).Text(key);
      }
    }
  }

  /**
   * Without the first settling this fails: an empty stored text against no row settles in neither direction, yet no
   * pass changes anything, so two exchanges leave every text as it was.
   */
  lemma UnsettledYetRestored(c: Column)
    requires c.dataType == StringColumn && c.default.None? && !c.required
    ensures var p := Pair(0, 1, [c], [c], Cells(map[(0, c.id) := Some("")], map[]));
            && Ready(p) && !AllSettle(p, [c.name])
            && ExchangeCustom(p, p.start, c.name).Ok?
            && SameTexts(ExchangeCustom(p, p.start, c.name).value, p.start)
  {
    var p := Pair(0, 1, [c], [c], Cells(map[(0, c.id) := Some("")], map[]));
    FoundColumn([c], c);
    assert OldText(p, c.name) == Some("") && NewText(p, c.name).None?;
    assert c in p.ta && c in p.tb && c.name in [c.name];
    assert !Settles(c, [c.name], ToA(p), p.start.Text((0, c.id)));
    LastCell(c, c.name, None);
    LastCell(c, c.name, Some(""));
    assert PassAccepted(p, c.name);
    PassMeaning(p, p.start, c.name);
    var r := ExchangeCustom(p, p.start, c.name).value;
    assert CellPass(p.start, r, (0, c.id), true, OldText(p, c.name), CellIn(c, c.name, None));
    assert CellPass(p.start, r, (1, c.id), true, NewText(p, c.name), CellIn(c, c.name, Some("")));
    forall key ensures r.Text(key) == p.start.Text(key) {
      if key != (0, c.id) && key != (1, c.id) {
        assert !KeyIn([c], 0, key) && !KeyIn([c], 1, key);
        assert SameCell(p.start, r, key);
      }
    }
  }
}
