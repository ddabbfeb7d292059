/** Borrow requests and the access grants they create and close: steps, the coupling invariant, decisions, offers. */
module Borrows {
  import opened Common
  import opened Domain
  import opened ApprovalRouting
  import opened Holder

  /** Times are points on one clock; a request may leave its window open on either side. */
  datatype BorrowPayload = BorrowPayload(sourceLeadId: int, setupId: int, fieldName: Option<string>,
                                         startTime: Option<int>, endTime: Option<int>)

  // --- Queries -----------------------------------------------------------

  predicate IsOpen(b: Borrow) {
    b.status == BorrowPending || b.status == BorrowCompleted
  }

  /** `get_open_for_setup`. */
  function FindOpen(borrows: seq<Borrow>, setupId: int): Option<nat> {
    FindFirst(borrows, (b: Borrow) => b.setupId == setupId && IsOpen(b))
  }

  /** `get_grant_for_borrow`. */
  function FindGrant(grants: seq<Grant>, borrowId: int): Option<nat> {
    FindFirst(grants, (g: Grant) => g.borrowId == borrowId)
  }

  predicate IsStale(b: Borrow, now: int) {
    b.status == BorrowPending && b.endTime.Some? && b.endTime.value < now
  }

  /** Every stale pending request becomes EXPIRED; nothing else changes. */
  function ExpireStale(borrows: seq<Borrow>, now: int): seq<Borrow> {
    seq(|borrows|, i requires 0 <= i < |borrows| =>
      if IsStale(borrows[i], now) then borrows[i].(status := BorrowExpired) else borrows[i])
  }

  /** `borrowable_fields`: a fixed hardware column or a custom column of the setup's product. */
  predicate IsBorrowableField(s: State, setup: Setup, name: string) {
    || Resolve(name).Fixed?
    || exists c :: c in s.Template(setup.productId) && c.name == name
  }

  // --- Who may act -------------------------------------------------------

  /** `_assert_can_decide`: never the requester; an Owner, a routed approver, or anyone when nobody else is routed. */
  ghost predicate MayDecide(s: State, b: Borrow, actorId: int)
    requires s.HasUser(actorId)
  {
    && actorId != b.requesterId
    && var routed := BorrowApprovers(s.users, s.edges, b.sourceGroupId) - {b.requesterId};
       s.users[actorId].IsOwner() || routed == {} || actorId in routed
  }

  /** `_assert_can_return`. */
  ghost predicate MayReturn(s: State, b: Borrow, actorId: int)
    requires s.HasUser(actorId)
  {
    || actorId == b.requesterId
    || s.users[actorId].IsOwner()
    || (&& s.users[actorId].IsLeadOrManager()
        && (|| b.targetGroupId in s.users[actorId].AllGroups()
            || actorId in BorrowApprovers(s.users, s.edges, b.sourceGroupId)))
  }

  predicate MayRequest(u: User) {
    u.IsLeadOrManager() || u.IsOwner()
  }

  predicate IsSourceLead(u: User) {
    u.status == Approved && u.isActive && u.IsLeadOrManager()
  }

  // --- Steps -------------------------------------------------------------

  /** The checks of `create` on the parties, the setup and the window, in order. */
  function PartyRefusal(s: State, actorId: int, now: int, p: BorrowPayload): Option<Error>
    requires s.HasUser(actorId)
  {
    var actor := s.users[actorId];
    if p.startTime.Some? && p.endTime.Some? && p.endTime.value <= p.startTime.value then Some(Invalid)
    else if !MayRequest(actor) then Some(Forbidden)
    else if actor.groupId.None? then Some(Invalid)
    else if p.endTime.Some? && p.endTime.value <= now then Some(Invalid)
    else if !s.HasUser(p.sourceLeadId) then Some(NotFound)
    else if !IsSourceLead(s.users[p.sourceLeadId]) then Some(Invalid)
    else if !s.HasSetup(p.setupId) then Some(NotFound)
    else if s.setups[p.setupId].OutOfService() then Some(Conflict)
    else if s.setups[p.setupId].groupId.None?
         || s.setups[p.setupId].groupId.value !in s.users[p.sourceLeadId].AllGroups() then Some(Invalid)
    else if s.setups[p.setupId].groupId == actor.groupId then Some(Conflict)
    else if FindActiveGrant(s.grants, p.setupId).Some? then Some(Conflict)
    else if FindOpen(s.borrows, p.setupId).Some? then Some(Conflict)
    else None
  }

  /** A named field must be borrowable on the setup. */
  predicate FieldAccepted(s: State, p: BorrowPayload) {
    p.fieldName.Some? && s.HasSetup(p.setupId) ==> IsBorrowableField(s, s.setups[p.setupId], p.fieldName.value)
  }

  function CreateRefusal(s: State, actorId: int, now: int, p: BorrowPayload): Option<Error>
    requires s.HasUser(actorId)
  {
    if PartyRefusal(s, actorId, now, p).Some? then PartyRefusal(s, actorId, now, p)
    else if !FieldAccepted(s, p) then Some(Invalid)
    else None
  }

  function CreateBorrow(s: State, actorId: int, now: int, p: BorrowPayload): Result<State>
    requires s.HasUser(actorId)
  {
    match CreateRefusal(s, actorId, now, p)
    case Some(e) => Err(e)
    case None =>
      var b :=
        Borrow(actorId, s.setups[p.setupId].groupId.value, s.users[actorId].groupId.value, p.setupId, p.fieldName,
                      p.endTime, BorrowPending, None, None);
      Ok(s.(borrows := s.borrows + [b]))
  }

  function ExpireBorrows(s: State, now: int): State {
    s.(borrows := ExpireStale(s.borrows, now))
  }

  predicate HasBorrow(s: State, id: int) { 0 <= id < |s.borrows| }

  ghost function ApproveBorrow(s: State, actorId: int, now: int, id: int): Result<State>
    requires s.HasUser(actorId)
  {
    var e := ExpireBorrows(s, now);
    if !HasBorrow(e, id) then Err(NotFound)
    else
      var b := e.borrows[id];
      if b.status != BorrowPending then Err(Conflict)
      else if !e.HasSetup(b.setupId) then Err(NotFound)
      else if e.setups[b.setupId].OutOfService() then Err(Conflict)
      else if FindActiveGrant(e.grants, b.setupId).Some? then Err(Conflict)
      else if e.setups[b.setupId].groupId != Some(b.sourceGroupId) then Err(Conflict)
      else if !MayDecide(e, b, actorId) then Err(Forbidden)
      else Ok(e.(
        baselines := EnsureBaseline(e, b.setupId),
        grants := e.grants + [Grant(b.setupId, id, b.sourceGroupId, b.targetGroupId, true)],
        borrows := e.borrows[id := b.(status := BorrowCompleted, approvedById := Some(actorId))]))
  }

  /** `ensure_fixed_baseline`: a setup without a baseline gets one from its current values. */
  function EnsureBaseline(s: State, setupId: int): map<int, Fields>
    requires s.HasSetup(setupId)
  {
    if setupId in s.baselines then s.baselines else s.baselines[setupId := s.setups[setupId].fixed]
  }

  ghost function RejectBorrow(s: State, actorId: int, now: int, id: int): Result<State>
    requires s.HasUser(actorId)
  {
    var e := ExpireBorrows(s, now);
    if !HasBorrow(e, id) then Err(NotFound)
    else if e.borrows[id].status != BorrowPending then Err(Conflict)
    else if !MayDecide(e, e.borrows[id], actorId) then Err(Forbidden)
    else Ok(e.(borrows := e.borrows[id := e.borrows[id].(status := BorrowRejected, approvedById := Some(actorId))]))
  }

  function CancelBorrow(s: State, actorId: int, id: int): Result<State> {
    if !HasBorrow(s, id) then Err(NotFound)
    else if s.borrows[id].requesterId != actorId then Err(Forbidden)
    else if s.borrows[id].status != BorrowPending then Err(Conflict)
    else Ok(s.(borrows := s.borrows[id := s.borrows[id].(status := BorrowCancelled)]))
  }

  ghost function ReturnBorrow(s: State, actorId: int, id: int): Result<State>
    requires s.HasUser(actorId)
  {
    if !HasBorrow(s, id) then Err(NotFound)
    else if s.borrows[id].status != BorrowCompleted then Err(Conflict)
    else if !MayReturn(s, s.borrows[id], actorId) then Err(Forbidden)
    else match FindGrant(s.grants, id)
      case None => Err(Conflict)
      case Some(j) =>
        if !s.grants[j].isActive then Err(Conflict)
        else Ok(s.(
          grants := s.grants[j := s.grants[j].(isActive := false)],
          borrows := s.borrows[id := s.borrows[id].(status := BorrowReturned, returnedById := Some(actorId))]))
  }

  // --- The coupling invariant --------------------------------------------

  /** At most one PENDING-or-COMPLETED borrow per setup. */
  ghost predicate OneOpen(borrows: seq<Borrow>) {
    forall i, j :: 0 <= i < j < |borrows| && IsOpen(borrows[i]) && IsOpen(borrows[j]) ==>
      borrows[i].setupId != borrows[j].setupId
  }

  /** g is the grant of its borrow: same setup and groups, active while COMPLETED, closed once RETURNED. */
  ghost predicate Matches(g: Grant, borrows: seq<Borrow>) {
    && 0 <= g.borrowId < |borrows|
    && var b := borrows[g.borrowId];
       && g.setupId == b.setupId && g.sourceGroupId == b.sourceGroupId && g.grantedToGroupId == b.targetGroupId
       && b.status == (if g.isActive then BorrowCompleted else BorrowReturned)
  }

  ghost predicate GrantsMatch(borrows: seq<Borrow>, grants: seq<Grant>) {
    forall j :: 0 <= j < |grants| ==> Matches(grants[j], borrows)
  }

  /** No borrow owns two grants. */
  ghost predicate OneGrantEach(grants: seq<Grant>) {
    forall i, j :: 0 <= i < j < |grants| ==> grants[i].borrowId != grants[j].borrowId
  }

  ghost predicate OwnsGrant(grants: seq<Grant>, id: int) {
    exists j :: 0 <= j < |grants| && grants[j].borrowId == id
  }

  /** Exactly the COMPLETED and RETURNED borrows own a grant. */
  ghost predicate GrantedOwn(borrows: seq<Borrow>, grants: seq<Grant>) {
    forall i :: 0 <= i < |borrows| && (borrows[i].status == BorrowCompleted || borrows[i].status == BorrowReturned) ==>
      OwnsGrant(grants, i)
  }

  ghost predicate Coupled(borrows: seq<Borrow>, grants: seq<Grant>) {
    OneOpen(borrows) && GrantsMatch(borrows, grants) && OneGrantEach(grants) && GrantedOwn(borrows, grants)
  }

  /** Changing one borrow's status, away from open, leaves the others coupled. */
  lemma CloseBorrow(borrows: seq<Borrow>, grants: seq<Grant>, id: int, b: Borrow)
    requires Coupled(borrows, grants) && 0 <= id < |borrows| && borrows[id].status == BorrowPending
    requires b.setupId == borrows[id].setupId
    requires b.status == BorrowRejected || b.status == BorrowCancelled || b.status == BorrowExpired
    ensures Coupled(borrows[id := b], grants)
  {
    forall j | 0 <= j < |grants| ensures Matches(grants[j], borrows[id := b]) {
      assert Matches(grants[j], borrows);
    }
  }

  lemma ExpireKeepsCoupled(borrows: seq<Borrow>, grants: seq<Grant>, now: int)
    requires Coupled(borrows, grants)
    ensures Coupled(ExpireStale(borrows, now), grants)
  {
    var expired := ExpireStale(borrows, now);
    forall j | 0 <= j < |grants| ensures Matches(grants[j], expired) {
      assert Matches(grants[j], borrows);
    }
  }

  lemma CreateKeepsCoupled(s: State, actorId: int, now: int, p: BorrowPayload)
    requires s.HasUser(actorId) && Coupled(s.borrows, s.grants)
    ensures var r := CreateBorrow(s, actorId, now, p); r.Ok? ==> Coupled(r.value.borrows, r.value.grants)
  {
    if CreateRefusal(s, actorId, now, p).None? {
      var borrows := CreateBorrow(s, actorId, now, p).value.borrows;
      forall j | 0 <= j < |s.grants| ensures Matches(s.grants[j], borrows) {
        assert Matches(s.grants[j], s.borrows);
      }
    }
  }

  /** Under coupling, an approvable borrow's setup has no active grant: the "already borrowed" guard never fires. */
  lemma ApproveGuardNeverFires(borrows: seq<Borrow>, grants: seq<Grant>, id: int)
    requires Coupled(borrows, grants) && 0 <= id < |borrows| && borrows[id].status == BorrowPending
    ensures FindActiveGrant(grants, borrows[id].setupId).None?
  {
    var found := FindActiveGrant(grants, borrows[id].setupId);
    if found.Some? {
      var g := grants[found.value];
      assert Matches(g, borrows) && IsOpen(borrows[g.borrowId]) && IsOpen(borrows[id]);
    }
  }

  /** Under coupling, a COMPLETED borrow owns an active grant: the "no active grant" guard never fires. */
  lemma ReturnGuardNeverFires(borrows: seq<Borrow>, grants: seq<Grant>, id: int)
    requires Coupled(borrows, grants) && 0 <= id < |borrows| && borrows[id].status == BorrowCompleted
    ensures FindGrant(grants, id).Some? && grants[FindGrant(grants, id).value].isActive
  {
    assert OwnsGrant(grants, id);
    var found := FindGrant(grants, id);
    assert found.Some?;
    assert Matches(grants[found.value], borrows);
  }

  lemma ApproveKeepsCoupled(s: State, actorId: int, now: int, id: int)
    requires s.HasUser(actorId) && Coupled(s.borrows, s.grants)
    ensures var r := ApproveBorrow(s, actorId, now, id); r.Ok? ==> Coupled(r.value.borrows, r.value.grants)
  {
    var e := ExpireBorrows(s, now);
    ExpireKeepsCoupled(s.borrows, s.grants, now);
    if ApproveBorrow(s, actorId, now, id).Ok? {
      CompleteKeepsCoupled(e.borrows, e.grants, id, actorId);
    }
  }

  lemma CompleteKeepsCoupled(borrows: seq<Borrow>, grants: seq<Grant>, id: int, actorId: int)
    requires Coupled(borrows, grants) && 0 <= id < |borrows| && borrows[id].status == BorrowPending
    ensures var b := borrows[id];
            Coupled(borrows[id := b.(status := BorrowCompleted, approvedById := Some(actorId))],
                    grants + [Grant(b.setupId, id, b.sourceGroupId, b.targetGroupId, true)])
  {
    var b := borrows[id];
    var borrows' := borrows[id := b.(status := BorrowCompleted, approvedById := Some(actorId))];
    var grants' := grants + [Grant(b.setupId, id, b.sourceGroupId, b.targetGroupId, true)];
    forall j | 0 <= j < |grants'| ensures Matches(grants'[j], borrows') {
      if j < |grants| {
        assert Matches(grants[j], borrows);
      }
    }
    forall j | 0 <= j < |grants| ensures grants[j].borrowId != id {
      assert Matches(grants[j], borrows);
    }
    forall i | 0 <= i < |borrows'| && (borrows'[i].status == BorrowCompleted || borrows'[i].status == BorrowReturned)
      ensures OwnsGrant(grants', i)
    {
      if i == id {
        assert grants'[|grants|].borrowId == id;
      } else {
        assert OwnsGrant(grants, i);
        var j :| 0 <= j < |grants| && grants[j].borrowId == i;
        assert grants'[j].borrowId == i;
      }
    }
  }

  lemma ReturnKeepsCoupled(s: State, actorId: int, id: int)
    requires s.HasUser(actorId) && Coupled(s.borrows, s.grants)
    ensures var r := ReturnBorrow(s, actorId, id); r.Ok? ==> Coupled(r.value.borrows, r.value.grants)
  {
    if ReturnBorrow(s, actorId, id).Ok? {
      CloseGrantKeepsCoupled(s.borrows, s.grants, id, FindGrant(s.grants, id).value, actorId);
    }
  }

  lemma CloseGrantKeepsCoupled(borrows: seq<Borrow>, grants: seq<Grant>, id: int, j: nat, actorId: int)
    requires Coupled(borrows, grants) && 0 <= id < |borrows| && borrows[id].status == BorrowCompleted
    requires j < |grants| && grants[j].borrowId == id
    ensures Coupled(borrows[id := borrows[id].(status := BorrowReturned, returnedById := Some(actorId))],
                    grants[j := grants[j].(isActive := false)])
  {
    var borrows' := borrows[id := borrows[id].(status := BorrowReturned, returnedById := Some(actorId))];
    var grants' := grants[j := grants[j].(isActive := false)];
    forall k | 0 <= k < |grants'| ensures Matches(grants'[k], borrows') {
      assert Matches(grants[k], borrows);
      if k != j {
        assert grants[k].borrowId != id;
      }
    }
    forall i | 0 <= i < |borrows'| && (borrows'[i].status == BorrowCompleted || borrows'[i].status == BorrowReturned)
      ensures OwnsGrant(grants', i)
    {
      assert OwnsGrant(grants, i);
      var k :| 0 <= k < |grants| && grants[k].borrowId == i;
      assert grants'[k].borrowId == i;
    }
  }

  /** Coupling gives each setup at most one active grant. */
  lemma CoupledOneActiveGrant(borrows: seq<Borrow>, grants: seq<Grant>)
    requires Coupled(borrows, grants)
    ensures OneActiveGrant(grants)
  {
    forall i, j | 0 <= i < j < |grants| && grants[i].isActive && grants[j].isActive
      ensures grants[i].setupId != grants[j].setupId
    {
      assert Matches(grants[i], borrows) && Matches(grants[j], borrows);
      assert IsOpen(borrows[grants[i].borrowId]) && IsOpen(borrows[grants[j].borrowId]);
    }
  }

  // --- Holder transfers --------------------------------------------------

  /** Approval moves the setup, and only it, to the target group; ownership is untouched. */
  lemma ApproveMovesHolder(s: State, actorId: int, now: int, id: int)
    requires s.HasUser(actorId) && Coupled(s.borrows, s.grants)
    requires ApproveBorrow(s, actorId, now, id).Ok?
    ensures var s' := ApproveBorrow(s, actorId, now, id).value;
            && s'.setups == s.setups
            && HolderOf(s, s.borrows[id].setupId) == Some(s.borrows[id].sourceGroupId)
            && HolderOf(s', s.borrows[id].setupId) == Some(s.borrows[id].targetGroupId)
            && forall x :: s.HasSetup(x) && x != s.borrows[id].setupId ==> HolderOf(s', x) == HolderOf(s, x)
  {
    var s' := ApproveBorrow(s, actorId, now, id).value;
    ApproveKeepsCoupled(s, actorId, now, id);
    CoupledOneActiveGrant(s'.borrows, s'.grants);
    var n := |s.grants|;
    forall x | s.HasSetup(x)
      ensures HolderOf(s', x) ==
              if x == s.borrows[id].setupId then Some(s.borrows[id].targetGroupId) else HolderOf(s, x)
    {
      AppendedGrant(s.grants, s'.grants[n], x);
    }
  }

  lemma AppendedGrant(grants: seq<Grant>, g: Grant, x: int)
    ensures FindActiveGrant(grants + [g], x) ==
            if FindActiveGrant(grants, x).Some? then FindActiveGrant(grants, x)
            else if ActiveFor(g, x) then Some(|grants|) else None
  {
    var all := grants + [g];
    var found := FindActiveGrant(all, x);
    assert all[|grants|] == g;
    assert forall j :: 0 <= j < |grants| ==> all[j] == grants[j];
  }

  /** Return gives the setup back to its owning group, and moves no other setup. */
  lemma ReturnMovesHolderBack(s: State, actorId: int, id: int)
    requires s.HasUser(actorId) && Coupled(s.borrows, s.grants)
    requires ReturnBorrow(s, actorId, id).Ok? && s.HasSetup(s.borrows[id].setupId)
    ensures var s' := ReturnBorrow(s, actorId, id).value;
            && s'.setups == s.setups
            && HolderOf(s, s.borrows[id].setupId) == Some(s.borrows[id].targetGroupId)
            && HolderOf(s', s.borrows[id].setupId) == s.setups[s.borrows[id].setupId].groupId
            && forall x :: s.HasSetup(x) && x != s.borrows[id].setupId ==> HolderOf(s', x) == HolderOf(s, x)
  {
    var s' := ReturnBorrow(s, actorId, id).value;
    CoupledOneActiveGrant(s.borrows, s.grants);
    var j := FindGrant(s.grants, id).value;
    assert Matches(s.grants[j], s.borrows);
    forall x | s.HasSetup(x)
      ensures HolderOf(s', x) == if x == s.borrows[id].setupId then s.setups[x].groupId else HolderOf(s, x)
    {
      ClosedGrant(s.grants, j, x);
    }
    ClosedGrant(s.grants, j, s.borrows[id].setupId);
  }

  lemma ClosedGrant(grants: seq<Grant>, j: nat, x: int)
    requires j < |grants| && grants[j].isActive && OneActiveGrant(grants)
    ensures FindActiveGrant(grants[j := grants[j].(isActive := false)], x) ==
            if x == grants[j].setupId then None else FindActiveGrant(grants, x)
    ensures x == grants[j].setupId ==> FindActiveGrant(grants, x) == Some(j)
  {
    var closed := grants[j := grants[j].(isActive := false)];
    var before, after := FindActiveGrant(grants, x), FindActiveGrant(closed, x);
    assert forall i :: 0 <= i < |grants| && i != j ==> closed[i] == grants[i];
    if x == grants[j].setupId {
      assert before.Some? && before.value == j;
    }
  }

  // --- Offers ------------------------------------------------------------

  /** `list_source_leads`: active leads and managers of some group the requester is not in. */
  function SourceLeads(s: State, actorId: int): set<int>
    requires s.HasUser(actorId)
  {
    set u | 0 <= u < |s.users| && IsSourceLead(s.users[u]) && u != actorId
            && s.users[u].AllGroups() - s.users[actorId].AllGroups() != {}
  }

  /**
   * `list_borrowable_setups`: what the group filter lists for the lead's other groups, owned there, in service, not
   * open.
   */
  function BorrowableSetups(s: State, leadId: int, actorId: int): set<int>
    requires s.HasUser(leadId) && s.HasUser(actorId)
  {
    var lent := s.users[leadId].AllGroups() - s.users[actorId].AllGroups();
    set x | 0 <= x < |s.setups| && (exists g :: g in lent && ListedUnder(s, x, g))
            && s.setups[x].groupId.Some? && s.setups[x].groupId.value in lent
            && !s.setups[x].OutOfService() && FindOpen(s.borrows, x).None?
  }

  /**
   * Every offered pair is accepted. What is accepted but never offered is exactly naming oneself as the source lead,
   * or a setup owned by a secondary group of the requester.
   */
  lemma OfferedExactlyWhenAccepted(s: State, actorId: int, now: int, p: BorrowPayload)
    requires Coupled(s.borrows, s.grants)
    requires s.HasUser(actorId) && MayRequest(s.users[actorId]) && s.users[actorId].groupId.Some?
    requires p.endTime.Some? ==> p.endTime.value > now && (p.startTime.Some? ==> p.endTime.value > p.startTime.value)
    requires FieldAccepted(s, p)
    ensures (p.sourceLeadId in SourceLeads(s, actorId)
             && p.setupId in BorrowableSetups(s, p.sourceLeadId, actorId)) <==>
            && CreateRefusal(s, actorId, now, p).None?
            && p.sourceLeadId != actorId
            && s.setups[p.setupId].groupId.value !in s.users[actorId].AllGroups()
  {
    PartiesOffered(s, actorId, now, p);
  }

  lemma PartiesOffered(s: State, actorId: int, now: int, p: BorrowPayload)
    requires Coupled(s.borrows, s.grants)
    requires s.HasUser(actorId) && MayRequest(s.users[actorId]) && s.users[actorId].groupId.Some?
    requires p.endTime.Some? ==> p.endTime.value > now && (p.startTime.Some? ==> p.endTime.value > p.startTime.value)
    ensures (p.sourceLeadId in SourceLeads(s, actorId)
             && p.setupId in BorrowableSetups(s, p.sourceLeadId, actorId)) <==>
            && PartyRefusal(s, actorId, now, p).None?
            && p.sourceLeadId != actorId
            && s.setups[p.setupId].groupId.value !in s.users[actorId].AllGroups()
  {
    if s.HasUser(p.sourceLeadId) && s.HasSetup(p.setupId) && s.setups[p.setupId].groupId.Some? {
      var owner := s.setups[p.setupId].groupId.value;
      var lent := s.users[p.sourceLeadId].AllGroups() - s.users[actorId].AllGroups();
      FreeSetupIsListed(s, p.setupId);
      assert owner in lent ==> lent != {};
      assert owner in lent ==> owner in s.users[p.sourceLeadId].AllGroups();
    }
  }

  /** A setup without an open borrow is not lent out, so the group filter lists it under its owner. */
  lemma FreeSetupIsListed(s: State, setupId: int)
    requires Coupled(s.borrows, s.grants) && s.HasSetup(setupId) && s.setups[setupId].groupId.Some?
    ensures FindOpen(s.borrows, setupId).None? ==>
            FindActiveGrant(s.grants, setupId).None? && ListedUnder(s, setupId, s.setups[setupId].groupId.value)
  {
    if FindOpen(s.borrows, setupId).None? {
      NotOpenNotGranted(s.borrows, s.grants, setupId);
      CoupledOneActiveGrant(s.borrows, s.grants);
      ReadingsAgree(s, setupId);
    }
  }

  lemma NotOpenNotGranted(borrows: seq<Borrow>, grants: seq<Grant>, setupId: int)
    requires Coupled(borrows, grants) && FindOpen(borrows, setupId).None?
    ensures FindActiveGrant(grants, setupId).None?
  {
    var found := FindActiveGrant(grants, setupId);
    if found.Some? {
      assert Matches(grants[found.value], borrows);
      assert IsOpen(borrows[grants[found.value].borrowId]);
    }
  }
}
