/**
 * What each borrow call answers and writes, by the rules on the rows, and whom an approved request lends the setup to.
 */
module BorrowRules {
  import opened Common
  import opened Domain
  import opened Holder
  import opened Borrows
  import opened Runs
  import opened Rules
  import opened RoutingRules
  import BorrowRuns
  import SwapRules

  // --- Requesting --------------------------------------------------------

  /** A pending or completed request for x. */
  predicate Spoken(s: State, x: int) {
    exists b :: b in s.borrows && b.setupId == x && (b.status == BorrowPending || b.status == BorrowCompleted)
  }

  /** The checks of a request on its window and its two parties, in order. */
  ghost function PartiesAgree(s: State, a: int, now: int, p: BorrowPayload): Outcome {
    var mayCall := SignedIn(s, a) && Granted(s, a, BorrowRequestPermission);
    :- Need(mayCall, Forbidden);
    :- Need(p.startTime.Some? && p.endTime.Some? ==> p.startTime.value < p.endTime.value, Invalid);
    :- Need(IsRole(s, a, {Lead, Manager, Owner}), Forbidden);
    :- Need(s.users[a].groupId.Some?, Invalid);
    :- Need(p.endTime.Some? ==> now < p.endTime.value, Invalid);
    :- Need(0 <= p.sourceLeadId < |s.users|, NotFound);
    var lead := s.users[p.sourceLeadId];
    Need(lead.status == Approved && lead.isActive && IsRole(s, p.sourceLeadId, {Lead, Manager}), Invalid)
  }

  /** Those on the setup. */
  ghost function SetupFree(s: State, a: int, p: BorrowPayload): Outcome
    requires 0 <= a < |s.users| && 0 <= p.sourceLeadId < |s.users|
  {
    var x := p.setupId;
    :- Need(Exists(s, x), NotFound);
    :- Need(InUse(s, x), Conflict);
    :- Need(s.setups[x].groupId.Some? && BelongsTo(s.users[p.sourceLeadId], s.setups[x].groupId.value), Invalid);
    :- Need(s.setups[x].groupId != s.users[a].groupId, Conflict);
    :- Need(!Lent(s, x), Conflict);
    Need(!Spoken(s, x), Conflict)
  }

  ghost function MayRequestLoan(s: State, a: int, now: int, p: BorrowPayload): Outcome {
    var parties := PartiesAgree(s, a, now, p);
    :- parties;
    :- SetupFree(s, a, p);
    Need(p.fieldName.Some? ==> IsFieldName(p.fieldName.value) || HasColumn(s, p.setupId, p.fieldName.value), Invalid)
  }

  lemma LentIff(s: State, x: int)
    ensures FindActiveGrant(s.grants, x).Some? <==> Lent(s, x)
  {
    if g :| g in s.grants && g.setupId == x && g.isActive {
      var j :| 0 <= j < |s.grants| && s.grants[j] == g;
    }
  }

  lemma SpokenIff(s: State, x: int)
    ensures FindOpen(s.borrows, x).Some? <==> Spoken(s, x)
  {
    if b :| b in s.borrows && b.setupId == x && (b.status == BorrowPending || b.status == BorrowCompleted) {
      var j :| 0 <= j < |s.borrows| && s.borrows[j] == b;
    }
  }

  lemma FieldIff(s: State, x: int, name: string)
    requires s.HasSetup(x)
    ensures IsBorrowableField(s, s.setups[x], name) <==> IsFieldName(name) || HasColumn(s, x, name)
  {
    SwapRules.ListedAsField(name);
  }

  lemma PartyRefusalIs(s: State, a: int, now: int, p: BorrowPayload)
    requires SignedIn(s, a) && Granted(s, a, BorrowRequestPermission)
    ensures match PartyRefusal(s, a, now, p)
            case Some(e) =>
              if PartiesAgree(s, a, now, p).Fail? then PartiesAgree(s, a, now, p) == Fail(e)
              else SetupFree(s, a, p) == Fail(e)
            case None => PartiesAgree(s, a, now, p).Pass? && SetupFree(s, a, p).Pass?
  {
    LentIff(s, p.setupId);
    SpokenIff(s, p.setupId);
  }

  lemma RefusalIs(s: State, a: int, now: int, p: BorrowPayload)
    requires SignedIn(s, a) && Granted(s, a, BorrowRequestPermission)
    ensures MayRequestLoan(s, a, now, p) == match CreateRefusal(s, a, now, p) case Some(e) => Fail(e) case None => Pass
  {
    PartyRefusalIs(s, a, now, p);
    if s.HasSetup(p.setupId) && p.fieldName.Some? {
      FieldIff(s, p.setupId, p.fieldName.value);
    }
  }

  /**
   * A request answers the first rule it breaks; otherwise it appends one pending row of the caller: the payload's
   * setup, field and end, lent by the group that owns the setup to the caller's primary group. Nothing else is written.
   */
  lemma RequestAnswer(s: State, a: int, now: int, p: BorrowPayload)
    ensures Exec(s, OnBorrow(a, now, RequestBorrow(p))) ==
            match MayRequestLoan(s, a, now, p)
            case Fail(e) => Err(e)
            case Pass =>
              Ok(s.(borrows := s.borrows + [Borrow(a, s.setups[p.setupId].groupId.value, s.users[a].groupId.value,
                                                   p.setupId, p.fieldName, p.endTime, BorrowPending, None, None)]))
  {
    if SignedIn(s, a) && Granted(s, a, BorrowRequestPermission) {
      RefusalIs(s, a, now, p);
    }
  }

  // --- What is offered ---------------------------------------------------

  /** Other approved, active Leads and Managers are offered when they belong to some group the requester does not. */
  lemma SourceLeadsAre(s: State, a: int, u: int)
    requires s.HasUser(a)
    ensures u in SourceLeads(s, a) <==>
            && u != a && IsRole(s, u, {Lead, Manager}) && s.users[u].status == Approved && s.users[u].isActive
            && exists g :: BelongsTo(s.users[u], g) && !BelongsTo(s.users[a], g)
  {
    if s.HasUser(u) {
      forall g ensures g in s.users[u].AllGroups() - s.users[a].AllGroups() <==>
                       BelongsTo(s.users[u], g) && !BelongsTo(s.users[a], g) {}
      NonemptyIff(s.users[u].AllGroups() - s.users[a].AllGroups());
    }
  }

  /**
   * In every reachable state the setups offered of a lead are those in service that no open request speaks for and that
   * a group of the lead, but none of the requester, owns.
   */
  lemma BorrowableSetupsAre(s: State, lead: int, a: int, x: int)
    requires Coupled(s.borrows, s.grants) && s.HasUser(lead) && s.HasUser(a)
    ensures x in BorrowableSetups(s, lead, a) <==>
            && InUse(s, x) && !Spoken(s, x) && s.setups[x].groupId.Some?
            && BelongsTo(s.users[lead], s.setups[x].groupId.value) && !BelongsTo(s.users[a], s.setups[x].groupId.value)
  {
    SpokenIff(s, x);
    if s.HasSetup(x) && s.setups[x].groupId.Some? {
      FreeSetupIsListed(s, x);
    }
  }

  // --- Deciding ----------------------------------------------------------

  predicate Known(s: State, id: int) {
    0 <= id < |s.borrows|
  }

  /** The end of the window has passed without a decision. */
  predicate TooLate(b: Borrow, now: int) {
    b.status == BorrowPending && b.endTime.Some? && b.endTime.value < now
  }

  /** The rows with every such request EXPIRED. */
  function Refreshed(rows: seq<Borrow>, now: int): seq<Borrow> {
    seq(|rows|, i requires 0 <= i < |rows| =>
      if TooLate(rows[i], now) then rows[i].(status := BorrowExpired) else rows[i])
  }

  lemma ExpiryIs(s: State, now: int)
    ensures Exec(s, BorrowJob(now)) == Ok(s.(borrows := Refreshed(s.borrows, now)))
  {
    assert ExpireStale(s.borrows, now) == Refreshed(s.borrows, now);
  }

  ghost function MayLend(s: State, a: int, now: int, id: int): Outcome {
    var mayCall := SignedIn(s, a) && Granted(s, a, BorrowApprovePermission);
    :- Need(mayCall, Forbidden);
    :- Need(Known(s, id), NotFound);
    var b := s.borrows[id];
    :- Need(b.status == BorrowPending && !TooLate(b, now), Conflict);
    :- Need(Exists(s, b.setupId), NotFound);
    :- Need(InUse(s, b.setupId) && !Lent(s, b.setupId)
            && s.setups[b.setupId].groupId == Some(b.sourceGroupId), Conflict);
    Need(DecidesBorrow(s, b, a), Forbidden)
  }

  lemma RefreshedIs(s: State, now: int)
    ensures ExpireBorrows(s, now) == s.(borrows := Refreshed(s.borrows, now))
  {
    assert ExpireStale(s.borrows, now) == Refreshed(s.borrows, now);
  }

  /**
   * An approval answers the first rule it breaks; otherwise the request is COMPLETED by the caller, the setup is
   * granted to the borrowing group, a missing baseline is captured from the current values, and stale requests are
   * EXPIRED.
   */
  lemma ApproveAnswer(s: State, a: int, now: int, id: int)
    ensures Exec(s, OnBorrow(a, now, ApproveBorrowCall(id))) ==
            match MayLend(s, a, now, id)
            case Fail(e) => Err(e)
            case Pass =>
              var b := s.borrows[id];
              Ok(s.(borrows := Refreshed(s.borrows, now)[id := b.(status := BorrowCompleted, approvedById := Some(a))],
                    grants := s.grants + [Grant(b.setupId, id, b.sourceGroupId, b.targetGroupId, true)],
                    baselines := if b.setupId in s.baselines then s.baselines
                                 else s.baselines[b.setupId := s.setups[b.setupId].fixed]))
  {
    RefreshedIs(s, now);
    if SignedIn(s, a) && HasBorrow(s, id) {
      DecidesAfterExpiry(s, now, s.borrows[id], a);
      LentIff(s, s.borrows[id].setupId);
    }
  }

  ghost function MayReject(s: State, a: int, now: int, id: int): Outcome {
    var mayCall := SignedIn(s, a) && Granted(s, a, BorrowApprovePermission);
    :- Need(mayCall, Forbidden);
    :- Need(Known(s, id), NotFound);
    :- Need(s.borrows[id].status == BorrowPending && !TooLate(s.borrows[id], now), Conflict);
    Need(DecidesBorrow(s, s.borrows[id], a), Forbidden)
  }

  /**
   * A rejection answers the first rule it breaks; otherwise the request is REJECTED by the caller, stale ones EXPIRED.
   */
  lemma RejectAnswer(s: State, a: int, now: int, id: int)
    ensures Exec(s, OnBorrow(a, now, RejectBorrowCall(id))) ==
            match MayReject(s, a, now, id)
            case Fail(e) => Err(e)
            case Pass =>
              Ok(s.(borrows := Refreshed(s.borrows, now)[id := s.borrows[id].(status := BorrowRejected,
                                                                              approvedById := Some(a))]))
  {
    RefreshedIs(s, now);
    if SignedIn(s, a) && HasBorrow(s, id) {
      DecidesAfterExpiry(s, now, s.borrows[id], a);
    }
  }

  ghost function MayCancel(s: State, a: int, id: int): Outcome {
    var mayCall := SignedIn(s, a);
    :- Need(mayCall, Forbidden);
    :- Need(Known(s, id), NotFound);
    :- Need(s.borrows[id].requesterId == a, Forbidden);
    Need(s.borrows[id].status == BorrowPending, Conflict)
  }

  /** Cancelling is for the requester, while the request is pending. */
  lemma CancelAnswer(s: State, a: int, now: int, id: int)
    ensures Exec(s, OnBorrow(a, now, CancelBorrowCall(id))) ==
            match MayCancel(s, a, id)
            case Fail(e) => Err(e)
            case Pass => Ok(s.(borrows := s.borrows[id := s.borrows[id].(status := BorrowCancelled)]))
  {
  }

  ghost function MayReturnLoan(s: State, a: int, id: int): Outcome {
    var mayCall := SignedIn(s, a) && Granted(s, a, BorrowReturnPermission);
    :- Need(mayCall, Forbidden);
    :- Need(Known(s, id), NotFound);
    :- Need(s.borrows[id].status == BorrowCompleted, Conflict);
    Need(ReturnsBorrow(s, s.borrows[id], a), Forbidden)
  }

  /** The grants with those of request id closed. */
  function Closed(grants: seq<Grant>, id: int): seq<Grant> {
    seq(|grants|, j requires 0 <= j < |grants| =>
      if grants[j].borrowId == id then grants[j].(isActive := false) else grants[j])
  }

  /**
   * In every reachable state a return answers the first rule it breaks; otherwise it ends the loan in the caller's
   * name.
   */
  lemma ReturnAnswer(s: State, a: int, now: int, id: int)
    requires Coupled(s.borrows, s.grants)
    ensures Exec(s, OnBorrow(a, now, ReturnBorrowCall(id))) ==
            match MayReturnLoan(s, a, id)
            case Fail(e) => Err(e)
            case Pass =>
              Ok(s.(borrows := s.borrows[id := s.borrows[id].(status := BorrowReturned, returnedById := Some(a))],
                    grants := Closed(s.grants, id)))
  {
    if SignedIn(s, a) && HasBorrow(s, id) {
      MayReturnIff(s, s.borrows[id], a);
      if s.borrows[id].status == BorrowCompleted {
        ReturnGuardNeverFires(s.borrows, s.grants, id);
        OneClosed(s, id);
      }
    }
  }

  lemma OneClosed(s: State, id: int)
    requires Coupled(s.borrows, s.grants) && FindGrant(s.grants, id).Some?
    ensures var j := FindGrant(s.grants, id).value;
            s.grants[j := s.grants[j].(isActive := false)] == Closed(s.grants, id)
  {
    var j := FindGrant(s.grants, id).value;
    forall k | 0 <= k < |s.grants| && k != j ensures s.grants[k].borrowId != id {
      assert s.grants[j].borrowId == id;
    }
  }

  // --- From the payload to the holder ------------------------------------

  /** A request keeps its parties, setup and window in every run. */
  predicate SameLoan(b: Borrow, b': Borrow) {
    b' == b.(status := b'.status, approvedById := b'.approvedById, returnedById := b'.returnedById)
  }

  lemma {:induction false} LoanStays(s: State, calls: seq<Call>, id: int)
    requires HasBorrow(s, id)
    ensures HasBorrow(Run(s, calls), id) && SameLoan(s.borrows[id], Run(s, calls).borrows[id])
  {
    if calls != [] {
      var before, c := Run(s, calls[..|calls| - 1]), calls[|calls| - 1];
      LoanStays(s, calls[..|calls| - 1], id);
      BorrowRuns.NextMoves(before, c);
      assert BorrowRuns.Moves(before.borrows[id], Run(s, calls).borrows[id]);
    }
  }

  /** An accepted request can be lent at once: the setup is there, in service, and owned by the source group. */
  lemma RequestIsLendable(s: State, a: int, now: int, p: BorrowPayload)
    requires Exec(s, OnBorrow(a, now, RequestBorrow(p))).Ok?
    ensures var s' := Next(s, OnBorrow(a, now, RequestBorrow(p)));
            && |s'.borrows| == |s.borrows| + 1 && Exists(s', p.setupId) && InUse(s', p.setupId)
            && var b := s'.borrows[|s.borrows|];
               && b.setupId == p.setupId && b.requesterId == a && b.status == BorrowPending && !TooLate(b, now)
               && s'.setups[p.setupId].groupId == Some(b.sourceGroupId)
               && s.users[a].groupId == Some(b.targetGroupId) && b.sourceGroupId != b.targetGroupId
  {
    RequestAnswer(s, a, now, p);
  }

  /**
   * An accepted request, approved after any further calls, moves the setup from the group that owned it when it was
   * requested to the requester's primary group, and moves no other setup.
   */
  lemma RequestedThenApproved(s: State, a: int, now: int, p: BorrowPayload, calls: seq<Call>, decider: int, later: int)
    requires Coupled(s.borrows, s.grants) && Exec(s, OnBorrow(a, now, RequestBorrow(p))).Ok?
    requires var mid := Run(Next(s, OnBorrow(a, now, RequestBorrow(p))), calls);
             Exec(mid, OnBorrow(decider, later, ApproveBorrowCall(|s.borrows|))).Ok?
    ensures var mid := Run(Next(s, OnBorrow(a, now, RequestBorrow(p))), calls);
            var end := Next(mid, OnBorrow(decider, later, ApproveBorrowCall(|s.borrows|)));
            && mid.HasSetup(p.setupId) && end.setups == mid.setups && s.HasUser(a) && s.HasSetup(p.setupId)
            && HolderOf(mid, p.setupId) == s.setups[p.setupId].groupId
            && HolderOf(end, p.setupId) == s.users[a].groupId
            && forall x :: mid.HasSetup(x) && x != p.setupId ==> HolderOf(end, x) == HolderOf(mid, x)
  {
    RequestedRowStays(s, a, now, p, calls);
    ApprovalLends(Run(Next(s, OnBorrow(a, now, RequestBorrow(p))), calls), decider, later, |s.borrows|);
  }

  lemma RequestedRowStays(s: State, a: int, now: int, p: BorrowPayload, calls: seq<Call>)
    requires Coupled(s.borrows, s.grants) && Exec(s, OnBorrow(a, now, RequestBorrow(p))).Ok?
    ensures var mid := Run(Next(s, OnBorrow(a, now, RequestBorrow(p))), calls);
            && Coupled(mid.borrows, mid.grants) && HasBorrow(mid, |s.borrows|) && s.HasUser(a) && s.HasSetup(p.setupId)
            && var b := mid.borrows[|s.borrows|];
               && b.setupId == p.setupId && b.requesterId == a
               && s.setups[p.setupId].groupId == Some(b.sourceGroupId) && s.users[a].groupId == Some(b.targetGroupId)
  {
    var s' := Next(s, OnBorrow(a, now, RequestBorrow(p)));
    RequestAnswer(s, a, now, p);
    BorrowRuns.NextKeepsCoupled(s, OnBorrow(a, now, RequestBorrow(p)));
    BorrowRuns.RunKeepsCoupled(s', calls);
    LoanStays(s', calls, |s.borrows|);
  }

  lemma ApprovalLends(s: State, decider: int, later: int, id: int)
    requires Coupled(s.borrows, s.grants) && Exec(s, OnBorrow(decider, later, ApproveBorrowCall(id))).Ok?
    ensures var end := Next(s, OnBorrow(decider, later, ApproveBorrowCall(id)));
            && HasBorrow(s, id) && s.HasSetup(s.borrows[id].setupId) && end.setups == s.setups
            && HolderOf(s, s.borrows[id].setupId) == Some(s.borrows[id].sourceGroupId)
            && HolderOf(end, s.borrows[id].setupId) == Some(s.borrows[id].targetGroupId)
            && forall x :: s.HasSetup(x) && x != s.borrows[id].setupId ==> HolderOf(end, x) == HolderOf(s, x)
  {
    ApproveMovesHolder(s, decider, later, id);
  }
}
