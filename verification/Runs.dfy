/** API calls as atomic steps, and what every run of them keeps. */
module Runs {
  import opened Common
  import opened Domain
  import opened ApprovalRouting
  import opened Borrows
  import opened Reservations
  import opened Swaps
  import opened TemplateValues
  import opened SetupEdits
  import opened Imports

  datatype SwapCall =
    | RaiseSwap(swapPayload: SwapPayload)
    | ApproveSwapCall(swapId: int)
    | RejectSwapCall(swapId: int)
    | CancelSwapCall(swapId: int)

  datatype BorrowCall =
    | RequestBorrow(borrowPayload: BorrowPayload)
    | ApproveBorrowCall(borrowId: int)
    | RejectBorrowCall(borrowId: int)
    | CancelBorrowCall(borrowId: int)
    | ReturnBorrowCall(borrowId: int)

  datatype ReservationCall =
    | ReserveCall(setupId: int, from: int, until: int)
    | CancelReservationCall(reservationId: int)

  datatype AdminCall =
    | AddEdge(edge: Edge)
    | RemoveEdge(edge: Edge)
    | EditSetupCall(editedId: int, edit: SetupEdit)
    | StoreValuesCall(valuesId: int, raw: map<string, Raw>)
    | ImportCall(directory: Directory, rows: seq<ImportRow>)

  /** A call by a user, or a scheduled job; now is the clock when it runs. */
  datatype Call =
    | OnSwap(actorId: int, swap: SwapCall)
    | OnBorrow(actorId: int, now: int, borrow: BorrowCall)
    | OnReservation(actorId: int, now: int, reservation: ReservationCall)
    | OnAdmin(actorId: int, admin: AdminCall)
    | BorrowJob(now: int)
    | ReservationJob(now: int)

  // --- One call ----------------------------------------------------------

  /** `get_current_user`: the account exists and is active. */
  predicate Authenticated(s: State, actorId: int) {
    s.HasUser(actorId) && s.users[actorId].isActive
  }

  /** `require_permission`, before anything else is looked at. */
  ghost predicate Permitted(s: State, actorId: int, p: Permission)
    requires s.HasUser(actorId)
  {
    p in s.users[actorId].permissions
  }

  ghost function ExecSwap(s: State, actorId: int, c: SwapCall): Result<State>
    requires s.HasUser(actorId)
  {
    match c
    case RaiseSwap(p) =>
      if Permitted(s, actorId, SwapRequestPermission) then CreateSwap(s, actorId, p) else Err(Forbidden)
    case ApproveSwapCall(id) =>
      if Permitted(s, actorId, SwapApprovePermission) then ApproveSwap(s, actorId, id) else Err(Forbidden)
    case RejectSwapCall(id) =>
      if Permitted(s, actorId, SwapApprovePermission) then RejectSwap(s, actorId, id) else Err(Forbidden)
    case CancelSwapCall(id) => CancelSwap(s, actorId, id)
  }

  ghost function ExecBorrow(s: State, actorId: int, now: int, c: BorrowCall): Result<State>
    requires s.HasUser(actorId)
  {
    match c
    case RequestBorrow(p) =>
      if Permitted(s, actorId, BorrowRequestPermission) then CreateBorrow(s, actorId, now, p) else Err(Forbidden)
    case ApproveBorrowCall(id) =>
      if Permitted(s, actorId, BorrowApprovePermission) then ApproveBorrow(s, actorId, now, id) else Err(Forbidden)
    case RejectBorrowCall(id) =>
      if Permitted(s, actorId, BorrowApprovePermission) then RejectBorrow(s, actorId, now, id) else Err(Forbidden)
    case CancelBorrowCall(id) => CancelBorrow(s, actorId, id)
    case ReturnBorrowCall(id) =>
      if Permitted(s, actorId, BorrowReturnPermission) then ReturnBorrow(s, actorId, id) else Err(Forbidden)
  }

  ghost function ExecReservation(s: State, actorId: int, now: int, c: ReservationCall): Result<State>
    requires s.HasUser(actorId)
  {
    match c
    case ReserveCall(x, from, until) =>
      if Permitted(s, actorId, ReservationCreatePermission) then Reserve(s, actorId, now, x, from, until)
      else Err(Forbidden)
    case CancelReservationCall(id) => CancelReservation(s, actorId, id)
  }

  ghost function ExecAdmin(s: State, actorId: int, c: AdminCall): Result<State>
    requires s.HasUser(actorId)
  {
    if c.AddEdge? || c.RemoveEdge? then
      if !Permitted(s, actorId, GroupManagePermission) then Err(Forbidden) else EditEdges(s, c)
    else if c.ImportCall? then
      if !Permitted(s, actorId, ImportRunPermission) then Err(Forbidden)
      else match ImportSetups(s, c.directory, c.rows)
        case Err(e) => Err(e)
        case Ok(done) => Ok(done.0)
    else if !Permitted(s, actorId, ProductManagePermission) then Err(Forbidden)
    else if c.EditSetupCall? then EditSetup(s, c.editedId, c.edit)
    else StoreValues(s, c.valuesId, c.raw)
  }

  function EditEdges(s: State, c: AdminCall): Result<State>
    requires c.AddEdge? || c.RemoveEdge?
  {
    match if c.AddEdge? then CreateEdge(s.groups, s.edges, c.edge) else DeleteEdge(s.edges, c.edge)
    case Err(e) => Err(e)
    case Ok(edges) => Ok(s.(edges := edges))
  }

  ghost function Exec(s: State, c: Call): Result<State> {
    match c
    case BorrowJob(now) => Ok(ExpireBorrows(s, now))
    case ReservationJob(now) => Ok(Sweep(s, now))
    case OnSwap(a, call) => if Authenticated(s, a) then ExecSwap(s, a, call) else Err(Forbidden)
    case OnBorrow(a, now, call) => if Authenticated(s, a) then ExecBorrow(s, a, now, call) else Err(Forbidden)
    case OnReservation(a, now, call) => if Authenticated(s, a) then ExecReservation(s, a, now, call) else Err(Forbidden)
    case OnAdmin(a, call) => if Authenticated(s, a) then ExecAdmin(s, a, call) else Err(Forbidden)
  }

  /** A call commits, or rolls back and leaves the store as it was. */
  ghost function Next(s: State, c: Call): State {
    match Exec(s, c) case Ok(s') => s' case Err(_) => s
  }

  ghost function Run(s: State, calls: seq<Call>): State {
    if calls == [] then s else Next(Run(s, calls[..|calls| - 1]), calls[|calls| - 1])
  }

  /** The state before call k of a run. */
  ghost function Before(s: State, calls: seq<Call>, k: int): State
    requires 0 <= k <= |calls|
  {
    Run(s, calls[..k])
  }

  lemma RunSteps(s: State, calls: seq<Call>, k: int)
    requires 0 <= k < |calls|
    ensures Before(s, calls, k + 1) == Next(Before(s, calls, k), calls[k])
  {
    assert calls[..k + 1][..k] == calls[..k];
  }

  lemma RunEnds(s: State, calls: seq<Call>)
    ensures Before(s, calls, 0) == s && Before(s, calls, |calls|) == Run(s, calls)
  {
    assert calls[..|calls|] == calls;
  }

  // --- What each kind of call leaves alone -------------------------------

  /** Only the fixed values of setups may differ. */
  ghost predicate SameButFixed(setups: seq<Setup>, setups': seq<Setup>) {
    && |setups'| == |setups|
    && forall x :: 0 <= x < |setups| ==> setups'[x] == setups[x].(fixed := setups'[x].fixed)
  }

  /** Only the status of setups may differ. */
  ghost predicate SameButStatus(setups: seq<Setup>, setups': seq<Setup>) {
    && |setups'| == |setups|
    && forall x :: 0 <= x < |setups| ==> setups'[x] == setups[x].(status := setups'[x].status)
  }
}
