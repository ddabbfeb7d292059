/** Swap requests: who may raise and approve one, which columns it names, and the exchange an approval performs. */
module Swaps {
  import opened Common
  import opened Domain
  import opened Ordering
  import opened ColumnNames
  import opened ApprovalRouting
  import opened Holder
  import opened TemplateValues

  datatype SwapPayload = SwapPayload(currentSetupId: int, requestedSetupId: int,
                                     columnName: Option<string>, columnNames: Option<seq<string>>)

  // --- Who may act -------------------------------------------------------

  /** `_assert_has_setup_access`: an Owner, a member of a holding group, or anyone when nobody holds the setup. */
  predicate HasAccess(s: State, setupId: int, actorId: int)
    requires s.HasUser(actorId) && s.HasSetup(setupId)
  {
    || s.users[actorId].IsOwner()
    || HoldingGroups(s, setupId) == {}
    || HoldingGroups(s, setupId) * s.users[actorId].AllGroups() != {}
  }

  /**
   * `_assert_can_approve`: an Owner, a routed approver of the setup's owning group, or anyone when nobody is routed.
   */
  ghost predicate MayApprove(s: State, setupId: int, actorId: int)
    requires s.HasUser(actorId) && s.HasSetup(setupId)
  {
    var routed := SwapApprovers(s.users, s.edges, s.setups[setupId].groupId);
    s.users[actorId].IsOwner() || routed == {} || actorId in routed
  }

  // --- Which columns -----------------------------------------------------

  function FieldNames(): seq<string> {
    seq(|FIELDS|, i requires 0 <= i < |FIELDS| => FieldName(FIELDS[i]))
  }

  /** The custom column names common to both templates. */
  function CommonNames(ta: seq<Column>, tb: seq<Column>): set<string> {
    set c | c in ta && NameIn(tb, c.name) :: c.name
  }

  /** `_common_swappable_columns`: the fixed fields, then the common custom columns in name order. */
  function AllowedColumns(ta: seq<Column>, tb: seq<Column>): seq<string> {
    StringOrderTotal();
    FieldNames() + Sorted(CommonNames(ta, tb), StringLe)
  }

  function ChosenColumns(p: SwapPayload, allowed: seq<string>): Result<seq<string>> {
    match ResolvedColumnNames(p.columnName, p.columnNames)
    case None => if allowed == [] then Err(Invalid) else Ok(allowed)
    case Some(names) => if exists n :: n in names && n !in allowed then Err(Invalid) else Ok(names)
  }

  // --- Raising a request -------------------------------------------------

  /** The checks of `create` before the columns are looked at, in order. */
  function RaiseRefusal(s: State, actorId: int, p: SwapPayload): Option<Error>
    requires s.HasUser(actorId)
  {
    var a, b := p.currentSetupId, p.requestedSetupId;
    if a == b then Some(Conflict)
    else if !s.HasSetup(a) || !s.HasSetup(b) then Some(NotFound)
    else if s.setups[a].OutOfService() || s.setups[b].OutOfService() then Some(Conflict)
    else if s.requireSameProduct && s.setups[a].productId != s.setups[b].productId then Some(Invalid)
    else if !HasAccess(s, a, actorId) || !HasAccess(s, b, actorId) then Some(Forbidden)
    else None
  }

  /** Validate the column list, then `create`. */
  function CreateSwap(s: State, actorId: int, p: SwapPayload): Result<State>
    requires s.HasUser(actorId)
  {
    match ValidColumnNames(p.columnNames)
    case Err(e) => Err(e)
    case Ok(names) =>
      match RaiseRefusal(s, actorId, p)
      case Some(e) => Err(e)
      case None =>
        var ta := s.Template(s.setups[p.currentSetupId].productId);
        var tb := s.Template(s.setups[p.requestedSetupId].productId);
        match ChosenColumns(p.(columnNames := names), AllowedColumns(ta, tb))
        case Err(e) => Err(e)
        case Ok(chosen) =>
          var w := Swap(actorId, p.currentSetupId, p.requestedSetupId, Encode(chosen), SwapPending, None);
          Ok(s.(swaps := s.swaps + [w]))
  }

  predicate HasSwap(s: State, id: int) { 0 <= id < |s.swaps| }

  ghost function RejectSwap(s: State, actorId: int, id: int): Result<State>
    requires s.HasUser(actorId)
  {
    if !HasSwap(s, id) then Err(NotFound)
    else
      var w := s.swaps[id];
      if w.status != SwapPending then Err(Conflict)
      else if s.HasSetup(w.currentSetupId) && !MayApprove(s, w.currentSetupId, actorId) then Err(Forbidden)
      else Ok(s.(swaps := s.swaps[id := w.(status := SwapRejected, approvedById := Some(actorId))]))
  }

  function CancelSwap(s: State, actorId: int, id: int): Result<State> {
    if !HasSwap(s, id) then Err(NotFound)
    else
      var w := s.swaps[id];
      if w.requesterId != actorId then Err(Forbidden)
      else if w.status != SwapPending then Err(Conflict)
      else Ok(s.(swaps := s.swaps[id := w.(status := SwapCancelled)]))
  }

  // --- The exchange loop -------------------------------------------------

  /** What one approval exchanges between: setups a and b, their templates, and the custom cells before the loop. */
  datatype Pair = Pair(a: int, b: int, ta: seq<Column>, tb: seq<Column>, start: Cells)

  /** The loop's variables: the setups, the custom cells, and the recorded old and new value of each column. */
  datatype Work = Work(setups: seq<Setup>, cells: Cells, olds: map<Col, Option<string>>, news: map<Col, Option<string>>)

  predicate Fits(p: Pair, w: Work) {
    0 <= p.a < |w.setups| && 0 <= p.b < |w.setups|
  }

  /** Two attribute writes in a row, each on the current table. */
  function ExchangeField(setups: seq<Setup>, a: int, b: int, f: Field): (r: seq<Setup>)
    requires 0 <= a < |setups| && 0 <= b < |setups|
    ensures |r| == |setups|
  {
    var mine, theirs := setups[a].fixed[f], setups[b].fixed[f];
    SetField(SetField(setups, a, f, theirs), b, f, mine)
  }

  function SetField(setups: seq<Setup>, x: int, f: Field, value: Option<string>): (r: seq<Setup>)
    requires 0 <= x < |setups|
    ensures |r| == |setups|
  {
    setups[x := setups[x].(fixed := setups[x].fixed[f := value])]
  }

  function RawOf(text: Option<string>): Raw {
    match text case None => RawNone case Some(t) => RawText(t)
  }

  /** Capture the side's original custom value before it is overwritten, if its template has the column. */
  function CaptureOriginal(cells: Cells, setupId: int, cols: seq<Column>, name: string, original: Option<string>): Cells
  {
    match FindColumn(cols, name)
    case None => cells
    case Some(i) => EnsureCustomBaseline(cells, (setupId, cols[i].id), original)
  }

  function OldText(p: Pair, name: string): Option<string> { TextByName(p.start, p.a, p.ta, name) }

  function NewText(p: Pair, name: string): Option<string> { TextByName(p.start, p.b, p.tb, name) }

  /** The cells once both originals of a column are captured. */
  function Captured(p: Pair, cells: Cells, name: string): Cells {
    CaptureOriginal(CaptureOriginal(cells, p.a, p.ta, name, OldText(p, name)), p.b, p.tb, name, NewText(p, name))
  }

  /** One custom column: both captures, then each side receives what the other held before the loop. */
  function ExchangeCustom(p: Pair, cells: Cells, name: string): Result<Cells> {
    match SetValues(Captured(p, cells, name), p.a, p.ta, map[name := RawOf(NewText(p, name))])
    case Err(e) => Err(e)
    case Ok(half) => SetValues(half, p.b, p.tb, map[name := RawOf(OldText(p, name))])
  }

  function Step(p: Pair, w: Work, col: Col): (r: Result<Work>)
    requires Fits(p, w)
    ensures r.Ok? ==> Fits(p, r.value)
  {
    match col
    case Fixed(f) =>
      Ok(Work(ExchangeField(w.setups, p.a, p.b, f), w.cells,
              w.olds[col := w.setups[p.a].fixed[f]], w.news[col := w.setups[p.b].fixed[f]]))
    case Custom(name) =>
      match ExchangeCustom(p, w.cells, name)
      case Err(e) => Err(e)
      case Ok(cells) => Ok(Work(w.setups, cells, w.olds[col := OldText(p, name)], w.news[col := NewText(p, name)]))
  }

  function Exchange(p: Pair, w: Work, cols: seq<Col>): (r: Result<Work>)
    requires Fits(p, w)
    ensures r.Ok? ==> Fits(p, r.value)
  {
    if cols == [] then Ok(w)
    else match Exchange(p, w, cols[..|cols| - 1])
      case Err(e) => Err(e)
      case Ok(earlier) => Step(p, earlier, cols[|cols| - 1])
  }

  // --- Approving ---------------------------------------------------------

  function ValueOf(m: map<Col, Option<string>>, col: Col): Option<string> {
    if col in m then m[col] else None
  }

  /** The change of one column on the current setup, and on the requested setup. */
  function RowA(a: int, col: Col, olds: map<Col, Option<string>>, news: map<Col, Option<string>>, swapId: int,
                actorId: int):
    LedgerRow
  {
    LedgerRow(a, col, ValueOf(olds, col), ValueOf(news, col), swapId, actorId)
  }

  function RowB(b: int, col: Col, olds: map<Col, Option<string>>, news: map<Col, Option<string>>, swapId: int,
                actorId: int):
    LedgerRow
  {
    LedgerRow(b, col, ValueOf(news, col), ValueOf(olds, col), swapId, actorId)
  }

  /** The ledger rows of an approval: for each column, the current setup's change and then the requested setup's. */
  function Rows(a: int, b: int, cols: seq<Col>, olds: map<Col, Option<string>>, news: map<Col, Option<string>>,
                swapId: int, actorId: int): seq<LedgerRow>
  {
    if cols == [] then []
    else
      var col := cols[|cols| - 1];
      Rows(a, b, cols[..|cols| - 1], olds, news, swapId, actorId)
      + [RowA(a, col, olds, news, swapId, actorId), RowB(b, col, olds, news, swapId, actorId)]
  }

  predicate AnyFixed(cols: seq<Col>) {
    exists c :: c in cols && c.Fixed?
  }

  /** A missing baseline of either setup is captured from its values before the exchange. */
  function CapturedBaselines(baselines: map<int, Fields>, setups: seq<Setup>, a: int, b: int): map<int, Fields>
    requires 0 <= a < |setups| && 0 <= b < |setups|
  {
    var first := if a in baselines then baselines else baselines[a := setups[a].fixed];
    if b in first then first else first[b := setups[b].fixed]
  }

  /** The pair an exchange between setups a and b works on, as they stand in s. */
  function PairIn(s: State, a: int, b: int): Pair
    requires s.HasSetup(a) && s.HasSetup(b)
  {
    Pair(a, b, s.Template(s.setups[a].productId), s.Template(s.setups[b].productId), Cells(s.values, s.customBaselines))
  }

  function PairOf(s: State, w: Swap): Pair
    requires s.HasSetup(w.currentSetupId) && s.HasSetup(w.requestedSetupId)
  {
    PairIn(s, w.currentSetupId, w.requestedSetupId)
  }

  function StartOf(s: State): Work {
    Work(s.setups, Cells(s.values, s.customBaselines), map[], map[])
  }

  function ColumnsOf(w: Swap): seq<Col> {
    ResolveAll(Decode(w.columnName))
  }

  /** The store once the exchange w of request id is done. */
  function Completed(s: State, id: int, actorId: int, cols: seq<Col>, done: Work): State
    requires HasSwap(s, id) && s.HasSetup(s.swaps[id].currentSetupId) && s.HasSetup(s.swaps[id].requestedSetupId)
  {
    var w := s.swaps[id];
    s.(setups := done.setups,
       values := done.cells.values,
       customBaselines := done.cells.baselines,
       baselines := if AnyFixed(cols) then
                      CapturedBaselines(s.baselines, s.setups, w.currentSetupId, w.requestedSetupId)
                    else s.baselines,
       swaps := s.swaps[id := w.(status := SwapCompleted, approvedById := Some(actorId))],
       ledger := s.ledger + Rows(w.currentSetupId, w.requestedSetupId, cols, done.olds, done.news, id, actorId))
  }

  /** The checks of `approve`, in order. */
  ghost function ApproveRefusal(s: State, actorId: int, id: int): Option<Error>
    requires s.HasUser(actorId)
  {
    if !HasSwap(s, id) then Some(NotFound)
    else
      var w := s.swaps[id];
      if w.status != SwapPending then Some(Conflict)
      else if !s.HasSetup(w.currentSetupId) || !s.HasSetup(w.requestedSetupId) then Some(NotFound)
      else if s.setups[w.currentSetupId].OutOfService() || s.setups[w.requestedSetupId].OutOfService() then
        Some(Conflict)
      else if !MayApprove(s, w.currentSetupId, actorId) then Some(Forbidden)
      else None
  }

  ghost function ApproveSwap(s: State, actorId: int, id: int): Result<State>
    requires s.HasUser(actorId)
  {
    match ApproveRefusal(s, actorId, id)
    case Some(e) => Err(e)
    case None =>
      var cols := ColumnsOf(s.swaps[id]);
      match Exchange(PairOf(s, s.swaps[id]), StartOf(s), cols)
      case Err(e) => Err(e)
      case Ok(done) => Ok(Completed(s, id, actorId, cols, done))
  }
}
