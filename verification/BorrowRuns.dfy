/** Borrow requests and grants over whole runs: coupling, one holder per setup, the lifecycle, and who decided what. */
module BorrowRuns {
  import opened Common
  import opened Domain
  import opened ApprovalRouting
  import opened Holder
  import opened Borrows
  import opened Swaps
  import opened Runs
  import opened Effects
  import Rules
  import RoutingRules

  // --- Coupling ----------------------------------------------------------

  lemma BorrowCallKeepsCoupled(s: State, actorId: int, now: int, c: BorrowCall)
    requires s.HasUser(actorId) && Coupled(s.borrows, s.grants) && ExecBorrow(s, actorId, now, c).Ok?
    ensures var s' := ExecBorrow(s, actorId, now, c).value; Coupled(s'.borrows, s'.grants)
  {
    match c
    case RequestBorrow(p) => CreateKeepsCoupled(s, actorId, now, p);
    case ApproveBorrowCall(id) => ApproveKeepsCoupled(s, actorId, now, id);
    case RejectBorrowCall(id) =>
      var e := ExpireBorrows(s, now);
      ExpireKeepsCoupled(s.borrows, s.grants, now);
      CloseBorrow(e.borrows, e.grants, id, e.borrows[id].(status := BorrowRejected, approvedById := Some(actorId)));
    case CancelBorrowCall(id) => CloseBorrow(s.borrows, s.grants, id, s.borrows[id].(status := BorrowCancelled));
    case ReturnBorrowCall(id) => ReturnKeepsCoupled(s, actorId, id);
  }

  /** Calls outside the borrow service leave its two tables alone. */
  lemma OtherCallsKeepBorrows(s: State, c: Call)
    requires !c.OnBorrow? && !c.BorrowJob?
    ensures Next(s, c).borrows == s.borrows && Next(s, c).grants == s.grants && Next(s, c).users == s.users
  {
    if Exec(s, c).Ok? {
      match c
      case OnSwap(a, call) => SwapCallEffect(s, a, call);
      case OnReservation(a, now, call) => ReservationCallEffect(s, a, now, call);
      case OnAdmin(a, call) => AdminCallEffect(s, a, call);
      case ReservationJob(now) => SweepEffect(s, now);
    }
  }

  lemma NextKeepsCoupled(s: State, c: Call)
    requires Coupled(s.borrows, s.grants)
    ensures Coupled(Next(s, c).borrows, Next(s, c).grants)
  {
    if c.BorrowJob? {
      ExpireKeepsCoupled(s.borrows, s.grants, c.now);
    } else if !c.OnBorrow? {
      OtherCallsKeepBorrows(s, c);
    } else if Exec(s, c).Ok? {
      BorrowCallKeepsCoupled(s, c.actorId, c.now, c.borrow);
    }
  }

  /** Every reading of who holds a setup agrees, for every setup. */
  ghost predicate OneHolder(s: State) {
    forall x :: s.HasSetup(x) ==>
      && (forall g :: ListedUnder(s, x, g) <==> HolderOf(s, x) == Some(g))
      && (forall g :: g in HoldingGroups(s, x) <==> HolderOf(s, x) == Some(g))
      && HolderOf(s, x) ==
         if x in ActiveGrantsMap(s.grants) then Some(ActiveGrantsMap(s.grants)[x].grantedToGroupId)
         else s.setups[x].groupId
  }

  /** Grants match borrow statuses after every run, and with them all readings of the effective holder agree. */
  lemma {:induction false} RunKeepsCoupled(s: State, calls: seq<Call>)
    requires Coupled(s.borrows, s.grants)
    ensures Coupled(Run(s, calls).borrows, Run(s, calls).grants)
    ensures OneHolder(Run(s, calls))
  {
    var end := Run(s, calls);
    if calls != [] {
      RunKeepsCoupled(s, calls[..|calls| - 1]);
      NextKeepsCoupled(Run(s, calls[..|calls| - 1]), calls[|calls| - 1]);
    }
    CoupledOneActiveGrant(end.borrows, end.grants);
    forall x | end.HasSetup(x)
      ensures forall g :: ListedUnder(end, x, g) <==> HolderOf(end, x) == Some(g)
      ensures forall g :: g in HoldingGroups(end, x) <==> HolderOf(end, x) == Some(g)
      ensures HolderOf(end, x) ==
         if x in ActiveGrantsMap(end.grants) then Some(ActiveGrantsMap(end.grants)[x].grantedToGroupId)
         else end.setups[x].groupId
    {
      ReadingsAgree(end, x);
    }
  }

  /**
   * In every reachable state the swap-access rule is: an Owner, a member of the effective holder, or no holder at all.
   */
  lemma AccessFollowsHolder(s: State, calls: seq<Call>, x: int, actorId: int)
    requires Coupled(s.borrows, s.grants) && s.HasUser(actorId) && Run(s, calls).HasSetup(x)
    ensures var end := Run(s, calls);
            && end.HasUser(actorId)
            && (HasAccess(end, x, actorId) <==>
                || end.users[actorId].IsOwner()
                || HolderOf(end, x).None?
                || HolderOf(end, x).value in end.users[actorId].AllGroups())
  {
    var end := Run(s, calls);
    RunKeepsUsers(s, calls);
    RunKeepsCoupled(s, calls);
    var holding := HoldingGroups(end, x);
    assert forall g :: g in holding <==> HolderOf(end, x) == Some(g);
    match HolderOf(end, x)
    case None => assert holding == {};
    case Some(g) =>
      assert holding == {g};
      assert holding * end.users[actorId].AllGroups() != {} <==> g in end.users[actorId].AllGroups() by {
        if g in end.users[actorId].AllGroups() {
          assert g in holding * end.users[actorId].AllGroups();
        }
      }
  }

  /**
   * In every reachable state an approval is refused only for the reasons a user can see: the two guards on the grant
   * table never fire.
   */
  lemma ApproveSucceedsIff(s: State, calls: seq<Call>, actorId: int, now: int, id: int)
    requires Coupled(s.borrows, s.grants) && s.HasUser(actorId)
    ensures var end := Run(s, calls);
            && end.HasUser(actorId)
            && (ApproveBorrow(end, actorId, now, id).Ok? <==>
                && HasBorrow(end, id)
                && var b := end.borrows[id];
                   && b.status == BorrowPending && !IsStale(b, now)
                   && end.HasSetup(b.setupId) && !end.setups[b.setupId].OutOfService()
                   && end.setups[b.setupId].groupId == Some(b.sourceGroupId)
                   && Rules.DecidesBorrow(end, b, actorId))
  {
    var end := Run(s, calls);
    RunKeepsUsers(s, calls);
    RunKeepsCoupled(s, calls);
    if HasBorrow(end, id) {
      RoutingRules.DecidesAfterExpiry(end, now, end.borrows[id], actorId);
    }
    if HasBorrow(end, id) && end.borrows[id].status == BorrowPending {
      ApproveGuardNeverFires(end.borrows, end.grants, id);
    }
  }

  lemma ReturnSucceedsIff(s: State, calls: seq<Call>, actorId: int, id: int)
    requires Coupled(s.borrows, s.grants) && s.HasUser(actorId)
    ensures var end := Run(s, calls);
            && end.HasUser(actorId)
            && (ReturnBorrow(end, actorId, id).Ok? <==>
                HasBorrow(end, id) && end.borrows[id].status == BorrowCompleted
                  && Rules.ReturnsBorrow(end, end.borrows[id], actorId))
  {
    var end := Run(s, calls);
    if HasBorrow(end, id) {
      RunKeepsUsers(s, calls);
      RoutingRules.MayReturnIff(end, end.borrows[id], actorId);
    }
    RunKeepsUsers(s, calls);
    RunKeepsCoupled(s, calls);
    if HasBorrow(end, id) && end.borrows[id].status == BorrowCompleted {
      ReturnGuardNeverFires(end.borrows, end.grants, id);
    }
  }

  // --- The lifecycle of one request --------------------------------------

  predicate IsDecided(b: Borrow) {
    b.status == BorrowCompleted || b.status == BorrowReturned || b.status == BorrowRejected
  }

  /** The six-state lifecycle: PENDING branches four ways, COMPLETED can only be returned, the rest is final. */
  predicate MayBecome(from: BorrowStatus, to: BorrowStatus) {
    || to == from
    || (from == BorrowPending && to != BorrowReturned)
    || (from == BorrowCompleted && to == BorrowReturned)
  }

  /** What a step may do to one request: move along the lifecycle, and record who decided. */
  ghost predicate Moves(b: Borrow, b': Borrow) {
    && b' == b.(status := b'.status, approvedById := b'.approvedById, returnedById := b'.returnedById)
    && MayBecome(b.status, b'.status)
    && (b.status != BorrowPending ==> b'.approvedById == b.approvedById)
    && (b.status != BorrowPending && b.status != BorrowCompleted ==> b' == b)
  }

  /** Call c, made in state s, decides the pending request b in favour of status to. */
  ghost predicate Decides(s: State, c: Call, id: int, b: Borrow, to: BorrowStatus) {
    && c.OnBorrow? && Authenticated(s, c.actorId)
    && BorrowApprovePermission in s.users[c.actorId].permissions
    && c.borrow == (if to == BorrowRejected then RejectBorrowCall(id) else ApproveBorrowCall(id))
    && c.actorId != b.requesterId
    && MayDecide(s, b, c.actorId)
    && (b.endTime.Some? ==> c.now <= b.endTime.value)
  }

  /**
   * Call c, made in state s, requests the loan b: the payload's setup, of another group, for the caller's own group.
   */
  ghost predicate Requests(s: State, c: Call, b: Borrow) {
    && c.OnBorrow? && c.borrow.RequestBorrow? && Authenticated(s, c.actorId)
    && BorrowRequestPermission in s.users[c.actorId].permissions
    && Rules.IsRole(s, c.actorId, {Lead, Manager, Owner})
    && var p := c.borrow.borrowPayload;
       && b.requesterId == c.actorId && b.setupId == p.setupId && b.fieldName == p.fieldName && b.endTime == p.endTime
       && Rules.InUse(s, p.setupId) && s.setups[p.setupId].groupId == Some(b.sourceGroupId)
       && s.users[c.actorId].groupId == Some(b.targetGroupId) && b.sourceGroupId != b.targetGroupId
       && s.HasUser(p.sourceLeadId) && Rules.BelongsTo(s.users[p.sourceLeadId], b.sourceGroupId)
  }

  /** Call c, made in state s, ends the undecided or running loan b with status to. */
  ghost predicate Ends(s: State, c: Call, id: int, b: Borrow, to: BorrowStatus) {
    match to
    case BorrowReturned =>
      && c.OnBorrow? && c.borrow == ReturnBorrowCall(id) && Authenticated(s, c.actorId)
      && BorrowReturnPermission in s.users[c.actorId].permissions && Rules.ReturnsBorrow(s, b, c.actorId)
    case BorrowCancelled =>
      c.OnBorrow? && c.borrow == CancelBorrowCall(id) && Authenticated(s, c.actorId) && c.actorId == b.requesterId
    case BorrowExpired => (c.OnBorrow? || c.BorrowJob?) && b.endTime.Some? && b.endTime.value < c.now
    case _ => false
  }

  /** A row that is returned, cancelled or expired by the step was ended by it, and a return names its caller. */
  ghost predicate EndedBy(s: State, c: Call, id: int, b: Borrow, b': Borrow) {
    && (b'.status != b.status && !IsOpen(b') && b'.status != BorrowRejected ==> Ends(s, c, id, b, b'.status))
    && b'.returnedById ==
       if b'.status == BorrowReturned && b.status != BorrowReturned && c.OnBorrow? then Some(c.actorId)
       else b.returnedById
  }

  /** Rows stay, move along the lifecycle, and are only decided or ended by a call that may; new rows are requested. */
  ghost predicate BorrowsMove(s: State, c: Call, s': State) {
    && |s.borrows| <= |s'.borrows|
    && (forall i :: 0 <= i < |s.borrows| ==>
          && Moves(s.borrows[i], s'.borrows[i]) && DecidedBy(s, c, i, s.borrows[i], s'.borrows[i])
          && EndedBy(s, c, i, s.borrows[i], s'.borrows[i]))
    && forall i :: |s.borrows| <= i < |s'.borrows| ==>
         && s'.borrows[i].status == BorrowPending && s'.borrows[i].approvedById == None
         && s'.borrows[i].returnedById == None && Requests(s, c, s'.borrows[i])
  }

  ghost predicate DecidedBy(s: State, c: Call, id: int, b: Borrow, b': Borrow) {
    b.status == BorrowPending && IsDecided(b') ==>
      && c.OnBorrow? && b'.approvedById == Some(c.actorId)
      && b'.status != BorrowReturned
      && Decides(s, c, id, b, b'.status)
  }

  lemma BorrowCallMoves(s: State, actorId: int, now: int, call: BorrowCall)
    requires Authenticated(s, actorId) && ExecBorrow(s, actorId, now, call).Ok?
    ensures BorrowsMove(s, OnBorrow(actorId, now, call), ExecBorrow(s, actorId, now, call).value)
  {
    match call
    case RequestBorrow(p) => RequestMoves(s, actorId, now, p);
    case ApproveBorrowCall(id) => ApproveMoves(s, actorId, now, id);
    case RejectBorrowCall(id) => RejectMoves(s, actorId, now, id);
    case CancelBorrowCall(id) =>
    case ReturnBorrowCall(id) => ReturnMoves(s, actorId, now, id);
  }

  lemma RequestMoves(s: State, actorId: int, now: int, p: BorrowPayload)
    requires Authenticated(s, actorId) && BorrowRequestPermission in s.users[actorId].permissions
    requires CreateBorrow(s, actorId, now, p).Ok?
    ensures BorrowsMove(s, OnBorrow(actorId, now, RequestBorrow(p)), CreateBorrow(s, actorId, now, p).value)
  {
    var s' := CreateBorrow(s, actorId, now, p).value;
    assert CreateRefusal(s, actorId, now, p).None?;
    assert Requests(s, OnBorrow(actorId, now, RequestBorrow(p)), s'.borrows[|s.borrows|]);
  }

  lemma ReturnMoves(s: State, actorId: int, now: int, id: int)
    requires Authenticated(s, actorId) && BorrowReturnPermission in s.users[actorId].permissions
    requires ReturnBorrow(s, actorId, id).Ok?
    ensures BorrowsMove(s, OnBorrow(actorId, now, ReturnBorrowCall(id)), ReturnBorrow(s, actorId, id).value)
  {
    RoutingRules.MayReturnIff(s, s.borrows[id], actorId);
  }

  lemma ApproveMoves(s: State, actorId: int, now: int, id: int)
    requires Authenticated(s, actorId) && BorrowApprovePermission in s.users[actorId].permissions
    requires ApproveBorrow(s, actorId, now, id).Ok?
    ensures BorrowsMove(s, OnBorrow(actorId, now, ApproveBorrowCall(id)), ApproveBorrow(s, actorId, now, id).value)
  {
    var e := ExpireBorrows(s, now);
    assert MayDecide(e, e.borrows[id], actorId) && e.borrows[id] == s.borrows[id];
  }

  lemma RejectMoves(s: State, actorId: int, now: int, id: int)
    requires Authenticated(s, actorId) && BorrowApprovePermission in s.users[actorId].permissions
    requires RejectBorrow(s, actorId, now, id).Ok?
    ensures BorrowsMove(s, OnBorrow(actorId, now, RejectBorrowCall(id)), RejectBorrow(s, actorId, now, id).value)
  {
    var e := ExpireBorrows(s, now);
    assert MayDecide(e, e.borrows[id], actorId) && e.borrows[id] == s.borrows[id];
  }

  lemma NextMoves(s: State, c: Call)
    ensures BorrowsMove(s, c, Next(s, c))
  {
    if c.BorrowJob? {
      ExpiryMoves(s, c);
    } else if c.OnBorrow? && Exec(s, c).Ok? {
      BorrowCallMoves(s, c.actorId, c.now, c.borrow);
    } else {
      if !c.OnBorrow? {
        OtherCallsKeepBorrows(s, c);
      }
      StillnessMoves(s, c, Next(s, c));
    }
  }

  lemma NextKeepsUsers(s: State, c: Call)
    ensures Next(s, c).users == s.users
  {
    if !c.OnBorrow? && !c.BorrowJob? {
      OtherCallsKeepBorrows(s, c);
    } else if c.OnBorrow? && Exec(s, c).Ok? {
      BorrowCallEffect(s, c.actorId, c.now, c.borrow);
    }
  }

  lemma ExpiryMoves(s: State, c: Call)
    requires c.BorrowJob?
    ensures BorrowsMove(s, c, ExpireBorrows(s, c.now))
  {
  }

  lemma StillnessMoves(s: State, c: Call, s': State)
    requires s'.borrows == s.borrows
    ensures BorrowsMove(s, c, s')
  {
  }

  lemma {:induction false} RunKeepsUsers(s: State, calls: seq<Call>)
    ensures Run(s, calls).users == s.users
    ensures |s.borrows| <= |Run(s, calls).borrows|
  {
    if calls != [] {
      RunKeepsUsers(s, calls[..|calls| - 1]);
      NextMoves(Run(s, calls[..|calls| - 1]), calls[|calls| - 1]);
      NextKeepsUsers(Run(s, calls[..|calls| - 1]), calls[|calls| - 1]);
    }
  }

  /** A REJECTED, CANCELLED, RETURNED or EXPIRED request never changes again, whatever is called. */
  lemma {:induction false} FinalStaysFinal(s: State, calls: seq<Call>, id: int)
    requires HasBorrow(s, id) && !IsOpen(s.borrows[id])
    ensures HasBorrow(Run(s, calls), id) && Run(s, calls).borrows[id] == s.borrows[id]
  {
    if calls != [] {
      var before := Run(s, calls[..|calls| - 1]);
      FinalStaysFinal(s, calls[..|calls| - 1], id);
      NextMoves(before, calls[|calls| - 1]);
      assert Moves(before.borrows[id], Run(s, calls).borrows[id]);
    }
  }

  // --- Who decided -------------------------------------------------------

  /**
   * Request id, now b, was decided by call k of the run, made by the recorded decider while the request was undecided.
   */
  ghost predicate DecidedInRun(s: State, calls: seq<Call>, id: int, b: Borrow, k: int) {
    && 0 <= k < |calls| && calls[k].OnBorrow?
    && HasBorrow(Run(s, calls[..k]), id) && Run(s, calls[..k]).borrows[id].status == BorrowPending
    && b.approvedById == Some(calls[k].actorId)
    && Decides(Run(s, calls[..k]), calls[k], id, b, b.status)
  }

  ghost predicate WasDecided(s: State, calls: seq<Call>, id: int, b: Borrow) {
    exists k :: DecidedInRun(s, calls, id, b, k)
  }

  /** Decides looks only at the parties and the end time of a request, and at whether it was rejected. */
  lemma SameDecision(s: State, c: Call, id: int, b: Borrow, b': Borrow, to: BorrowStatus, to': BorrowStatus)
    requires Decides(s, c, id, b, to)
    requires b'.requesterId == b.requesterId && b'.sourceGroupId == b.sourceGroupId && b'.endTime == b.endTime
    requires (to == BorrowRejected) == (to' == BorrowRejected)
    ensures Decides(s, c, id, b', to')
  {
  }

  /**
   * Every COMPLETED, RETURNED or REJECTED request of a run was decided by a call of its recorded decider: someone other
   * than the requester, with the permission, who was then an Owner or routed or had no other routed approver - and not
   * after the request's end time.
   */
  lemma {:induction false} DecisionsAreAuthorised(s: State, calls: seq<Call>, id: int)
    requires s.borrows == []
    requires HasBorrow(Run(s, calls), id) && IsDecided(Run(s, calls).borrows[id])
    ensures WasDecided(s, calls, id, Run(s, calls).borrows[id])
  {
    var n := |calls| - 1;
    var before, end := Run(s, calls[..n]), Run(s, calls);
    NextMoves(before, calls[n]);
    assert id < |before.borrows|;
    var b, b' := before.borrows[id], end.borrows[id];
    assert Moves(b, b') && DecidedBy(before, calls[n], id, b, b');
    if b.status == BorrowPending {
      SameDecision(before, calls[n], id, b, b', b'.status, b'.status);
      assert DecidedInRun(s, calls, id, b', n);
    } else {
      DecisionsAreAuthorised(s, calls[..n], id);
      var k :| DecidedInRun(s, calls[..n], id, b, k);
      assert calls[..n][..k] == calls[..k];
      SameDecision(Run(s, calls[..k]), calls[k], id, b, b', b.status, b'.status);
      assert DecidedInRun(s, calls, id, b', k);
    }
  }

  /** Request b was made by call k of the run. */
  ghost predicate RequestedInRun(s: State, calls: seq<Call>, b: Borrow, k: int) {
    0 <= k < |calls| && Requests(Run(s, calls[..k]), calls[k], b)
  }

  /** Request id, now b and then still open, was ended as it now stands by call k of the run. */
  ghost predicate EndedInRun(s: State, calls: seq<Call>, id: int, b: Borrow, k: int) {
    && 0 <= k < |calls| && Ends(Run(s, calls[..k]), calls[k], id, b, b.status)
    && HasBorrow(Run(s, calls[..k]), id)
    && Run(s, calls[..k]).borrows[id].status == (if b.status == BorrowReturned then BorrowCompleted else BorrowPending)
    && b.returnedById == if b.status == BorrowReturned then Some(calls[k].actorId) else None
  }

  ghost predicate HasEnded(b: Borrow) {
    b.status == BorrowReturned || b.status == BorrowCancelled || b.status == BorrowExpired
  }

  ghost predicate Accounted(s: State, calls: seq<Call>, id: int, b: Borrow) {
    && (exists k :: RequestedInRun(s, calls, b, k))
    && if HasEnded(b) then exists k :: EndedInRun(s, calls, id, b, k) else b.returnedById == None
  }

  lemma SameEnding(s: State, c: Call, id: int, b: Borrow, b': Borrow)
    requires b' == b.(status := b'.status, approvedById := b'.approvedById, returnedById := b'.returnedById)
    ensures Requests(s, c, b) ==> Requests(s, c, b')
    ensures forall to :: Ends(s, c, id, b, to) ==> Ends(s, c, id, b', to)
  {
    assert c.OnBorrow? ==> (Rules.ReturnsBorrow(s, b, c.actorId) <==> Rules.ReturnsBorrow(s, b', c.actorId));
  }

  lemma RequestedGrows(s: State, calls: seq<Call>, b: Borrow, k: int)
    requires calls != [] && RequestedInRun(s, calls[..|calls| - 1], b, k)
    ensures RequestedInRun(s, calls, b, k)
  {
    assert calls[..|calls| - 1][..k] == calls[..k];
  }

  lemma EndedGrows(s: State, calls: seq<Call>, id: int, b: Borrow, k: int)
    requires calls != [] && EndedInRun(s, calls[..|calls| - 1], id, b, k)
    ensures EndedInRun(s, calls, id, b, k)
  {
    assert calls[..|calls| - 1][..k] == calls[..k];
  }

  lemma AccountGrows(s: State, calls: seq<Call>, id: int, b: Borrow)
    requires calls != [] && Accounted(s, calls[..|calls| - 1], id, b)
    ensures Accounted(s, calls, id, b)
  {
    var k :| RequestedInRun(s, calls[..|calls| - 1], b, k);
    RequestedGrows(s, calls, b, k);
    if HasEnded(b) {
      var j :| EndedInRun(s, calls[..|calls| - 1], id, b, j);
      EndedGrows(s, calls, id, b, j);
    }
  }

  lemma EndedNow(s: State, calls: seq<Call>, id: int, b: Borrow, b': Borrow)
    requires calls != [] && HasEnded(b') && b'.status != b.status && b.returnedById == None
    requires var before := Run(s, calls[..|calls| - 1]);
             && HasBorrow(before, id) && before.borrows[id] == b && Moves(b, b')
             && EndedBy(before, calls[|calls| - 1], id, b, b')
    ensures EndedInRun(s, calls, id, b', |calls| - 1)
  {
    SameEnding(Run(s, calls[..|calls| - 1]), calls[|calls| - 1], id, b, b');
  }

  lemma AccountMoves(s: State, calls: seq<Call>, id: int, b: Borrow, b': Borrow)
    requires calls != [] && Accounted(s, calls, id, b)
    requires var before := Run(s, calls[..|calls| - 1]);
             && HasBorrow(before, id) && before.borrows[id] == b && Moves(b, b')
             && EndedBy(before, calls[|calls| - 1], id, b, b')
    ensures Accounted(s, calls, id, b')
  {
    var k :| RequestedInRun(s, calls, b, k);
    SameEnding(Run(s, calls[..k]), calls[k], id, b, b');
    assert RequestedInRun(s, calls, b', k);
    if HasEnded(b) {
      assert b' == b;
    } else if HasEnded(b') {
      EndedNow(s, calls, id, b, b');
    }
  }

  /**
   * Every request of a run was made by its requester, permitted, for a setup in service that another group owned, into
   * his own group; a returned one was ended, while completed, by its recorded user, permitted and its requester, an
   * Owner, or a Lead or Manager of the borrower or routed for the lender; a cancelled one, while pending, by its
   * requester; an expired one, while pending, after its end time.
   */
  lemma {:induction false} LoansAreAccounted(s: State, calls: seq<Call>, id: int)
    requires s.borrows == [] && HasBorrow(Run(s, calls), id)
    ensures Accounted(s, calls, id, Run(s, calls).borrows[id])
  {
    var n := |calls| - 1;
    var before, end := Run(s, calls[..n]), Run(s, calls);
    NextMoves(before, calls[n]);
    if id >= |before.borrows| {
      assert RequestedInRun(s, calls, end.borrows[id], n);
    } else {
      LoansAreAccounted(s, calls[..n], id);
      AccountGrows(s, calls, id, before.borrows[id]);
      AccountMoves(s, calls, id, before.borrows[id], end.borrows[id]);
    }
  }

  /**
   * The routing rule by itself, activity and permission apart, admits someone unless the requester is the only user.
   */
  lemma AlwaysDecidable(s: State, b: Borrow)
    ensures (exists u :: s.HasUser(u) && MayDecide(s, b, u)) <==> exists u :: s.HasUser(u) && u != b.requesterId
  {
    var routed := BorrowApprovers(s.users, s.edges, b.sourceGroupId) - {b.requesterId};
    if u :| s.HasUser(u) && u != b.requesterId {
      if routed == {} {
        assert MayDecide(s, b, u);
      } else {
        var v :| v in routed;
        assert s.HasUser(v) && MayDecide(s, b, v);
      }
    }
  }
}
