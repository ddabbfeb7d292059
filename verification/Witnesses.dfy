/**
 * Approvals of custom columns after which the ledger misstates a cell, or a recorded original is not the value before.
 */
module Witnesses {
  import opened Common
  import opened Domain
  import opened ColumnNames
  import opened TemplateValues
  import opened Swaps
  import opened CustomExchange
  import opened Runs
  import opened LedgerRuns
  import opened CellLedger
  import opened CellRuns
  import opened FullSwaps

  /** A custom column of the template whose name survives the stored form. */
  predicate CustomOf(cols: seq<Column>, name: string) {
    Clean(name) && Resolve(name) == Custom(name) && NameIn(cols, name)
  }

  /** Different custom columns of the template, with names that survive the stored form. */
  ghost predicate CustomList(cols: seq<Column>, names: seq<string>) {
    && (forall name :: name in names ==> CustomOf(cols, name))
    && Distinct(names)
  }

  /** The only request, pending and approvable by the actor, swaps the custom columns names between a and b. */
  ghost predicate PendingSwapOf(s: State, actorId: int, a: int, b: int, cols: seq<Column>, names: seq<string>) {
    && ActingOwner(s, actorId) && TwoInService(s, a, b, cols) && UniqueColumns(cols)
    && CustomList(cols, names)
    && |s.swaps| == 1 && s.swaps[0].status == SwapPending
    && s.swaps[0].currentSetupId == a && s.swaps[0].requestedSetupId == b && s.swaps[0].columnName == Encode(names)
  }

  lemma PendingColumns(s: State, actorId: int, a: int, b: int, cols: seq<Column>, names: seq<string>)
    requires PendingSwapOf(s, actorId, a, b, cols, names)
    ensures var w := s.swaps[0];
            && ColumnsOf(w) == ResolveAll(names) && CustomNames(ColumnsOf(w)) == names && PlainSwap(s, w)
            && Ready(PairOf(s, w)) && PairOf(s, w) == Pair(a, b, cols, cols, Cells(s.values, s.customBaselines))
  {
    ColumnListRoundTrip(names);
    ResolveAllDistinct(names);
    forall i | 0 <= i < |names| ensures ResolveAll(names)[i] == Custom(names[i]) {
      assert names[i] in names;
    }
    AllCustom(names, ResolveAll(names));
  }

  lemma OneMoreCustom(cols: seq<Col>, name: string)
    ensures CustomNames(cols + [Custom(name)]) == CustomNames(cols) + [name]
  {
    assert (cols + [Custom(name)])[..|cols|] == cols;
  }

  lemma {:induction false} AllCustom(names: seq<string>, cols: seq<Col>)
    requires |cols| == |names| && forall i :: 0 <= i < |names| ==> cols[i] == Custom(names[i])
    ensures CustomNames(cols) == names
    ensures forall name :: Custom(name) in cols ==> name in names
  {
    if names != [] {
      var n := |names| - 1;
      assert names == names[..n] + [names[n]] && cols == cols[..n] + [Custom(names[n])];
      AllCustom(names[..n], cols[..n]);
      OneMoreCustom(cols[..n], names[n]);
    }
  }

  lemma ResolvedOne(name: string)
    requires Resolve(name) == Custom(name)
    ensures ResolveAll([name]) == [Custom(name)] && CustomNames([Custom(name)]) == [name]
  {
    assert [Custom(name)][..0] == [];
  }

  // --- The ledger misstates a cell ---------------------------------------

  /** A text column without a default that may stay empty; of its two cells only the first setup's has a text. */
  predicate OneSided(p: Pair, c: Column, text: string) {
    && p.ta == [c] && p.tb == [c] && c.dataType == StringColumn && c.default.None? && !c.required
    && text != "" && p.start.values == map[(p.a, c.id) := Some(text)]
  }

  lemma OneSidedExchange(p: Pair, w: Work, c: Column, text: string)
    requires p.a != p.b && Fits(p, w) && w.cells == p.start && OneSided(p, c, text)
    ensures OldText(p, c.name) == Some(text) && NewText(p, c.name) == None && !AllSettle(p, [c.name])
    ensures var r := Exchange(p, w, [Custom(c.name)]); r.Ok? && r.value.cells.Text((p.a, c.id)) == Some(text)
  {
    BlankSideKeepsItsText(p, c, text);
    assert [Custom(c.name)][..0] == [];
    assert Exchange(p, w, []) == Ok(w);
  }

  /** The approval of the first request, if it goes through but does not settle, is not traced. */
  lemma UnsettledIsUntraced(s: State, actorId: int)
    requires ActingOwner(s, actorId) && Plain(s) && HasSwap(s, 0) && s.swaps[0].status == SwapPending
    requires s.HasSetup(s.swaps[0].currentSetupId) && s.HasSetup(s.swaps[0].requestedSetupId)
    requires !s.setups[s.swaps[0].currentSetupId].OutOfService()
             && !s.setups[s.swaps[0].requestedSetupId].OutOfService()
    requires Exchange(PairOf(s, s.swaps[0]), StartOf(s), ColumnsOf(s.swaps[0])).Ok?
    requires !AllSettle(PairOf(s, s.swaps[0]), CustomNames(ColumnsOf(s.swaps[0])))
    ensures var approve := OnSwap(actorId, ApproveSwapCall(0));
            && ApproveRefusal(s, actorId, 0).None? && ApproveSwap(s, actorId, 0) == Ok(Next(s, approve))
            && Exec(s, approve).Ok? && !Traced(s, Next(s, approve))
  {
    OwnerApproves(s, actorId, 0);
    NextTracesIff(s, OnSwap(actorId, ApproveSwapCall(0)));
  }

  /**
   * One text column, one stored text: the approval records that it moved to the other setup, while both now have it. So
   * the ledger no longer leads from the texts before to those after.
   */
  lemma OneSidedSwapIsUntraced(s: State, actorId: int, a: int, b: int, c: Column, text: string)
    requires Plain(s) && PendingSwapOf(s, actorId, a, b, [c], [c.name]) && OneSided(PairOf(s, s.swaps[0]), c, text)
    ensures var approve, col := OnSwap(actorId, ApproveSwapCall(0)), Custom(c.name);
            && Exec(s, approve).Ok? && !Traced(s, Next(s, approve))
            && s.ledger <= Next(s, approve).ledger && Next(s, approve).HasSetup(a)
            && CellValue(s, a, col) == CellValue(Next(s, approve), a, col) == Some(text)
            && ReplayAt(Added(s.ledger, Next(s, approve).ledger), a, col, CellValue(s, a, col)) == None
  {
    var w := s.swaps[0];
    PendingColumns(s, actorId, a, b, [c], [c.name]);
    ResolvedOne(c.name);
    OneSidedExchange(PairOf(s, w), StartOf(s), c, text);
    UnsettledIsUntraced(s, actorId);
    MisstatedCell(s, actorId, c, text);
  }

  lemma MisstatedCell(s: State, actorId: int, c: Column, text: string)
    requires s.HasUser(actorId) && HasSwap(s, 0) && ApproveRefusal(s, actorId, 0).None? && PlainSwap(s, s.swaps[0])
    requires ColumnsOf(s.swaps[0]) == [Custom(c.name)] && OneSided(PairOf(s, s.swaps[0]), c, text)
    ensures ApproveSwap(s, actorId, 0).Ok?
    ensures var s', a, col := ApproveSwap(s, actorId, 0).value, s.swaps[0].currentSetupId, Custom(c.name);
            && s.ledger <= s'.ledger && s'.HasSetup(a)
            && CellValue(s, a, col) == CellValue(s', a, col) == Some(text)
            && ReplayAt(Added(s.ledger, s'.ledger), a, col, CellValue(s, a, col)) == None
  {
    var p, cols := PairOf(s, s.swaps[0]), [Custom(c.name)];
    OneSidedExchange(p, StartOf(s), c, text);
    ApprovalCommits(s, actorId, 0);
    var done := Exchange(p, StartOf(s), cols).value;
    LoopRecordsTexts(p, StartOf(s), cols);
    RowsAt(p.a, p.b, cols, done.olds, done.news, 0, actorId, p.a, Custom(c.name), OldText(p, c.name));
    assert cols[0] == Custom(c.name);
    TextOfColumn(done.cells, p.a, [c], c);
  }

  // --- Such a store ------------------------------------------------------

  /** One Owner, two setups of one product whose only column is c, one text stored, and a pending swap of c. */
  function OneTextStore(fixed: Fields, c: Column, text: string): State {
    var owner := User(Some(1), {}, Some(Owner), Approved, true, {SwapRequestPermission, SwapApprovePermission});
    var first := Setup(0, Some(1), "10.0.0.1", "alpha", fixed, None, "lab", None, Available);
    var second := Setup(0, Some(1), "10.0.0.2", "beta", fixed, None, "lab", None, Available);
    State([owner], {1}, map[0 := [c]], [first, second], map[(0, c.id) := Some(text)], map[], map[], [], [],
          [Swap(0, 0, 1, Encode([c.name]), SwapPending, None)], [], [], [], true, 0)
  }

  lemma FourLettersIsCustom(name: string)
    requires |name| == 4
    ensures Resolve(name) == Custom(name)
  {
    if Resolve(name).Fixed? {
      ResolvedName(name);
      NoFieldHasFour(Resolve(name).field);
    }
  }

  lemma NoFieldHasFour(f: Field)
    ensures |FieldName(f)| != 4
  {
  }

  lemma NoteIsPlain()
    ensures Clean("note") && Resolve("note") == Custom("note")
  {
    NoteIsClean();
    FourLettersIsCustom("note");
  }

  lemma NoteIsClean()
    ensures Clean("note") && |"note"| == 4
  {
  }

  lemma OneInList(c: Column)
    requires Clean(c.name) && Resolve(c.name) == Custom(c.name)
    ensures CustomList([c], [c.name])
  {
    assert c in [c];
    assert CustomOf([c], c.name);
  }

  lemma OneTextStorePending(fixed: Fields, c: Column, text: string)
    requires Clean(c.name) && Resolve(c.name) == Custom(c.name)
    ensures PendingSwapOf(OneTextStore(fixed, c, text), 0, 0, 1, [c], [c.name])
  {
    OneInList(c);
  }

  lemma OneTextStorePlain(fixed: Fields, c: Column, text: string)
    requires Clean(c.name) && Resolve(c.name) == Custom(c.name)
    ensures Plain(OneTextStore(fixed, c, text))
  {
    var s := OneTextStore(fixed, c, text);
    OneTextStorePending(fixed, c, text);
    PendingColumns(s, 0, 0, 1, [c], [c.name]);
    OneTemplatePlain(s, c);
  }

  lemma OneTemplatePlain(s: State, c: Column)
    requires s.templates == map[0 := [c]] && Clean(c.name) && Resolve(c.name) == Custom(c.name)
    ensures PlainTemplates(s) && UniqueTemplates(s)
  {
    assert forall d :: d in [c] ==> d == c;
  }

  /** A text column called "note" and the text "spare": the store meets every assumption of `OneSidedSwapIsUntraced`. */
  lemma NoteStoreIsUntraced(fixed: Fields)
    ensures var c := Column(0, "note", StringColumn, false, None, []);
            var s := OneTextStore(fixed, c, "spare");
            && Plain(s) && Exec(s, OnSwap(0, ApproveSwapCall(0))).Ok?
            && !Traced(s, Next(s, OnSwap(0, ApproveSwapCall(0))))
  {
    var c := Column(0, "note", StringColumn, false, None, []);
    NoteIsPlain();
    OneTextStorePlain(fixed, c, "spare");
    OneTextStorePending(fixed, c, "spare");
    OneSidedSwapIsUntraced(OneTextStore(fixed, c, "spare"), 0, 0, 1, c, "spare");
  }

  // --- A captured original that was never the value ----------------------

  /** A column that is not required, or has a default, rejects no pass that brings it nothing. */
  lemma {:induction false} BlankPassesEvolve(c: Column, names: seq<string>, incoming: string -> Option<string>,
                                             own: Option<string>)
    requires forall name :: incoming(name).None?
    requires c.default.Some? || !c.required
    ensures Evolve(c, names, incoming, own).Ok?
  {
    if names != [] {
      BlankPassesEvolve(c, names[..|names| - 1], incoming, own);
      LastCell(c, names[|names| - 1], None);
    }
  }

  lemma BlankLoopable(p: Pair, names: seq<string>)
    requires p.start.values == map[] && forall name :: name in names ==> NameIn(p.ta, name) && NameIn(p.tb, name)
    requires forall c :: c in p.ta || c in p.tb ==> c.default.Some? || !c.required
    ensures Loopable(p, names)
  {
    forall c | c in p.ta || c in p.tb
      ensures Evolve(c, names, ToA(p), None).Ok? && Evolve(c, names, ToB(p), None).Ok?
    {
      BlankPassesEvolve(c, names, ToA(p), None);
      BlankPassesEvolve(c, names, ToB(p), None);
    }
  }

  /** Nothing is stored; the second column has a default, the first none. */
  predicate NothingStored(p: Pair, x: Column, c: Column) {
    p.ta == [x, c] && p.tb == [x, c] && p.start == Cells(map[], map[]) && x.default.None? && !x.required
      && c.default.Some?
  }

  lemma TwoColumnsGoThrough(p: Pair, w: Work, cols: seq<Col>, x: Column, c: Column)
    requires Ready(p) && Fits(p, w) && w.cells == p.start && NothingStored(p, x, c)
             && CustomNames(cols) == [x.name, c.name]
    ensures Exchange(p, w, cols).Ok?
  {
    LoopEvolves(p, w, cols);
    BlankLoopable(p, [x.name, c.name]);
  }

  /**
   * Two columns, the second with a default, and nothing stored: the first pass stores the second column's default, and
   * its insert hook records that default as the original, although the setup had no value there.
   */
  lemma DefaultBecomesOriginal(s: State, actorId: int, a: int, b: int, x: Column, c: Column)
    requires PendingSwapOf(s, actorId, a, b, [x, c], [x.name, c.name]) && NothingStored(PairOf(s, s.swaps[0]), x, c)
    ensures var approve := OnSwap(actorId, ApproveSwapCall(0));
            && Exec(s, approve).Ok? && (a, c.id) in Next(s, approve).customBaselines
            && Next(s, approve).customBaselines[(a, c.id)] == c.default != CellValue(s, a, Custom(c.name))
  {
    PendingColumns(s, actorId, a, b, [x, c], [x.name, c.name]);
    TwoColumnsGoThrough(PairOf(s, s.swaps[0]), StartOf(s), ColumnsOf(s.swaps[0]), x, c);
    OwnerApproves(s, actorId, 0);
    DefaultKept(PairOf(s, s.swaps[0]), StartOf(s), ColumnsOf(s.swaps[0]), x, c);
    DefaultCommitted(s, actorId, x, c);
  }

  lemma DefaultCommitted(s: State, actorId: int, x: Column, c: Column)
    requires s.HasUser(actorId) && HasSwap(s, 0) && ApproveSwap(s, actorId, 0).Ok?
    requires NothingStored(PairOf(s, s.swaps[0]), x, c)
    ensures var w := s.swaps[0];
            var done := Exchange(PairOf(s, w), StartOf(s), ColumnsOf(w));
            && done.Ok? && ApproveSwap(s, actorId, 0).value.customBaselines == done.value.cells.baselines
            && CellValue(s, w.currentSetupId, Custom(c.name)).None?
  {
  }

  lemma DefaultKept(p: Pair, w: Work, cols: seq<Col>, x: Column, c: Column)
    requires Ready(p) && Fits(p, w) && w.cells == p.start == Cells(map[], map[]) && Exchange(p, w, cols).Ok?
    requires p.ta == [x, c] && CustomNames(cols) == [x.name, c.name] && c.default.Some?
    ensures var after := Exchange(p, w, cols).value.cells;
            (p.a, c.id) in after.baselines && after.baselines[(p.a, c.id)] == c.default
  {
    LoopKeepsOriginals(p, w, cols);
    assert c in p.ta && p.ta[0].name != p.ta[1].name && c.name in CustomNames(cols);
    assert OriginalKept(p.start, Exchange(p, w, cols).value.cells, (p.a, c.id), c, CustomNames(cols));
  }
}
