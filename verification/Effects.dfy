/** Which tables each kind of call can change. */
module Effects {
  import opened Common
  import opened Domain
  import opened TemplateValues
  import opened Swaps
  import opened Reservations
  import opened Imports
  import opened HardwareState
  import opened SetupEdits
  import opened Runs
  import FixedExchange

  ghost predicate SwapEffect(s: State, s': State) {
    s' == s.(setups := s'.setups, values := s'.values, baselines := s'.baselines, customBaselines := s'.customBaselines,
             swaps := s'.swaps, ledger := s'.ledger)
  }

  lemma SwapCallEffect(s: State, actorId: int, c: SwapCall)
    requires s.HasUser(actorId) && ExecSwap(s, actorId, c).Ok?
    ensures SwapEffect(s, ExecSwap(s, actorId, c).value)
    ensures !c.ApproveSwapCall? ==> ExecSwap(s, actorId, c).value == s.(swaps := ExecSwap(s, actorId, c).value.swaps)
    ensures c.ApproveSwapCall? ==> ExecSwap(s, actorId, c) == ApproveSwap(s, actorId, c.swapId)
  {
  }

  ghost predicate BorrowEffect(s: State, s': State) {
    && s' == s.(borrows := s'.borrows, grants := s'.grants, baselines := s'.baselines)
    && Extends(s.baselines, s'.baselines)
  }

  lemma BorrowCallEffect(s: State, actorId: int, now: int, c: BorrowCall)
    requires s.HasUser(actorId) && ExecBorrow(s, actorId, now, c).Ok?
    ensures BorrowEffect(s, ExecBorrow(s, actorId, now, c).value)
  {
  }

  ghost predicate ReservationEffect(s: State, s': State) {
    && s' == s.(reservations := s'.reservations, setups := s'.setups)
    && SameButStatus(s.setups, s'.setups)
  }

  lemma ReservationCallEffect(s: State, actorId: int, now: int, c: ReservationCall)
    requires s.HasUser(actorId) && ExecReservation(s, actorId, now, c).Ok?
    ensures ReservationEffect(s, ExecReservation(s, actorId, now, c).value)
  {
  }

  lemma SweepEffect(s: State, now: int)
    ensures ReservationEffect(s, Sweep(s, now))
  {
  }

  /** An admin call touches neither requests nor grants, reservations or the ledger, and keeps every setup row. */
  ghost predicate AdminEffect(s: State, s': State) {
    && s' ==
       s.(setups := s'.setups, values := s'.values, baselines := s'.baselines, customBaselines := s'.customBaselines,
                edges := s'.edges)
    && |s.setups| <= |s'.setups|
  }

  lemma AdminCallEffect(s: State, actorId: int, c: AdminCall)
    requires s.HasUser(actorId) && ExecAdmin(s, actorId, c).Ok?
    ensures AdminEffect(s, ExecAdmin(s, actorId, c).value)
    ensures !c.EditSetupCall? && !c.ImportCall? ==> ExecAdmin(s, actorId, c).value.setups == s.setups
    ensures !c.EditSetupCall? && !c.ImportCall? ==> ExecAdmin(s, actorId, c).value.baselines == s.baselines
  {
    if c.ImportCall? && BatchErrors(c.directory, c.rows) == 0 {
      UpsertGrows(c.directory, StartImport(s), c.rows);
    }
  }

  /** Existing rows keep their status and originals stay; new setups start AVAILABLE. */
  ghost predicate Grows(p: Progress, q: Progress) {
    && |p.setups| <= |q.setups|
    && (forall x :: 0 <= x < |p.setups| ==> q.setups[x].status == p.setups[x].status)
    && (forall x :: |p.setups| <= x < |q.setups| ==> q.setups[x].status == Available)
    && Extends(p.baselines, q.baselines)
  }

  lemma UpsertOneGrows(d: Directory, p: Progress, row: ImportRow)
    requires RowErrors(d, row) == 0 && Upserted(d, p, row).Ok?
    ensures Grows(p, Upserted(d, p, row).value)
  {
  }

  lemma GrowsOn(p: Progress, q: Progress, r: Progress)
    requires Grows(p, q) && Grows(q, r)
    ensures Grows(p, r)
  {
  }

  /** An import keeps existing rows, their status and every recorded baseline; new setups start AVAILABLE. */
  lemma {:induction false} UpsertGrows(d: Directory, p: Progress, rows: seq<ImportRow>)
    requires BatchErrors(d, rows) == 0 && AllUpserted(d, p, rows).Ok?
    ensures Grows(p, AllUpserted(d, p, rows).value)
  {
    if rows != [] {
      var mid := AllUpserted(d, p, rows[..|rows| - 1]).value;
      UpsertGrows(d, p, rows[..|rows| - 1]);
      UpsertOneGrows(d, mid, rows[|rows| - 1]);
      GrowsOn(p, mid, AllUpserted(d, p, rows).value);
    }
  }

  /** The first state is extended by the second wherever originals are recorded. */
  ghost predicate OriginalsKept(s: State, s': State) {
    Extends(s.baselines, s'.baselines) && Extends(s.customBaselines, s'.customBaselines)
  }

  lemma StoreValuesKeepsOriginals(s: State, id: int, raw: map<string, Raw>)
    requires StoreValues(s, id, raw).Ok?
    ensures OriginalsKept(s, StoreValues(s, id, raw).value)
  {
    var cols := s.Template(s.setups[id].productId);
    var m := Validate(cols, raw).value;
    WriteAllExtends(CellsOf(s), id, cols, m);
  }

  lemma {:induction false} WriteAllExtends(cells: Cells, setupId: int, cols: seq<Column>, m: map<string, string>)
    ensures Extends(cells.baselines, WriteAll(cells, setupId, cols, m).baselines)
  {
    if cols != [] {
      WriteAllExtends(cells, setupId, cols[..|cols| - 1], m);
    }
  }

  lemma {:induction false} ExchangeExtends(p: Pair, w: Work, cols: seq<Col>)
    requires Fits(p, w) && Exchange(p, w, cols).Ok?
    ensures Extends(w.cells.baselines, Exchange(p, w, cols).value.cells.baselines)
  {
    if cols != [] {
      var init, col := cols[..|cols| - 1], cols[|cols| - 1];
      ExchangeExtends(p, w, init);
      if col.Custom? {
        CustomPassExtends(p, Exchange(p, w, init).value.cells, col.name);
      }
    }
  }

  lemma CustomPassExtends(p: Pair, cells: Cells, name: string)
    requires ExchangeCustom(p, cells, name).Ok?
    ensures Extends(cells.baselines, ExchangeCustom(p, cells, name).value.baselines)
  {
    var captured := Captured(p, cells, name);
    var rawA, rawB := map[name := RawOf(NewText(p, name))], map[name := RawOf(OldText(p, name))];
    assert Extends(cells.baselines, captured.baselines);
    WriteAllExtends(captured, p.a, p.ta, Serialized(p.ta, rawA));
    WriteAllExtends(SetValues(captured, p.a, p.ta, rawA).value, p.b, p.tb, Serialized(p.tb, rawB));
  }

  /** w's setups have a recorded original in s', and one that was missing holds the values from before. */
  ghost predicate OriginalsOf(s: State, s': State, x: int)
    requires s.HasSetup(x)
  {
    x in s'.baselines && (x !in s.baselines ==> s'.baselines[x] == s.setups[x].fixed)
  }

  lemma CaptureExtends(baselines: map<int, Fields>, setups: seq<Setup>, a: int, b: int)
    requires 0 <= a < |setups| && 0 <= b < |setups|
    ensures var after := CapturedBaselines(baselines, setups, a, b);
            && Extends(baselines, after)
            && a in after && (a !in baselines ==> after[a] == setups[a].fixed)
            && b in after && (b !in baselines ==> after[b] == setups[b].fixed)
  {
  }

  /** Approving a swap never changes a recorded original, and leaves one for both setups if a fixed field is listed. */
  lemma ApproveKeepsOriginals(s: State, actorId: int, id: int)
    requires s.HasUser(actorId) && ApproveSwap(s, actorId, id).Ok?
    ensures var s', w := ApproveSwap(s, actorId, id).value, s.swaps[id];
            && OriginalsKept(s, s')
            && (AnyFixed(ColumnsOf(w)) ==>
               OriginalsOf(s, s', w.currentSetupId) && OriginalsOf(s, s', w.requestedSetupId))
  {
    var w := s.swaps[id];
    var cols := ColumnsOf(w);
    var done := Exchange(PairOf(s, w), StartOf(s), cols).value;
    assert ApproveSwap(s, actorId, id) == Ok(Swaps.Completed(s, id, actorId, cols, done));
    ExchangeExtends(PairOf(s, w), StartOf(s), cols);
    CaptureExtends(s.baselines, s.setups, w.currentSetupId, w.requestedSetupId);
    CompletedKeepsOriginals(s, id, actorId, cols, done);
  }

  lemma CompletedKeepsOriginals(s: State, id: int, actorId: int, cols: seq<Col>, done: Work)
    requires HasSwap(s, id) && s.HasSetup(s.swaps[id].currentSetupId) && s.HasSetup(s.swaps[id].requestedSetupId)
    requires Extends(s.customBaselines, done.cells.baselines)
    ensures var s', w := Swaps.Completed(s, id, actorId, cols, done), s.swaps[id];
            && OriginalsKept(s, s')
            && (AnyFixed(cols) ==> OriginalsOf(s, s', w.currentSetupId) && OriginalsOf(s, s', w.requestedSetupId))
  {
    CaptureExtends(s.baselines, s.setups, s.swaps[id].currentSetupId, s.swaps[id].requestedSetupId);
  }

  // --- Well-formed requests ----------------------------------------------

  /** A swap request names two different existing setups. */
  ghost predicate SwapsWellFormed(s: State) {
    forall k :: 0 <= k < |s.swaps| ==>
      s.HasSetup(s.swaps[k].currentSetupId) && s.HasSetup(s.swaps[k].requestedSetupId)
      && s.swaps[k].currentSetupId != s.swaps[k].requestedSetupId
  }

  /** An approval changes nothing of a setup but its fixed values. */
  lemma ApproveKeepsRest(s: State, actorId: int, id: int)
    requires s.HasUser(actorId) && ApproveSwap(s, actorId, id).Ok? && SwapsWellFormed(s)
    ensures SameButFixed(s.setups, ApproveSwap(s, actorId, id).value.setups)
  {
    var w := s.swaps[id];
    FixedExchange.ApprovalIsExchange(s, actorId, id);
    ExchangeKeepsRest(s.setups, w.currentSetupId, w.requestedSetupId, ColumnsOf(w));
  }

  lemma ExchangeKeepsRest(setups: seq<Setup>, a: int, b: int, cols: seq<Col>)
    requires 0 <= a < |setups| && 0 <= b < |setups|
    ensures SameButFixed(setups, FixedExchange.Exchanged(setups, a, b, cols))
  {
  }

  lemma SwapCallKeepsWellFormed(s: State, actorId: int, c: SwapCall)
    requires s.HasUser(actorId) && ExecSwap(s, actorId, c).Ok? && SwapsWellFormed(s)
    ensures SwapsWellFormed(ExecSwap(s, actorId, c).value)
    ensures SameButFixed(s.setups, ExecSwap(s, actorId, c).value.setups)
  {
    SwapCallEffect(s, actorId, c);
    match c
    case RaiseSwap(p) =>
    case ApproveSwapCall(id) => ApproveKeepsRest(s, actorId, id);
    case RejectSwapCall(id) =>
    case CancelSwapCall(id) =>
  }

  lemma NextKeepsWellFormed(s: State, c: Call)
    requires SwapsWellFormed(s)
    ensures SwapsWellFormed(Next(s, c))
  {
    if Exec(s, c).Ok? {
      match c
      case OnSwap(a, call) => SwapCallKeepsWellFormed(s, a, call);
      case OnBorrow(a, now, call) => BorrowCallEffect(s, a, now, call);
      case OnReservation(a, now, call) => ReservationCallEffect(s, a, now, call);
      case OnAdmin(a, call) => AdminCallEffect(s, a, call);
      case BorrowJob(now) =>
      case ReservationJob(now) => SweepEffect(s, now);
    }
  }
}
