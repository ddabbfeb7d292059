/** The borrow service over the database, proved against its specification functions. */
module BorrowServices {
  import opened Common
  import opened Domain
  import opened ApprovalRouting
  import opened Holder
  import opened Borrows
  import opened Store
  import Rules
  import RoutingRules

  class BorrowService {
    const db: Database

    constructor (db: Database)
      ensures this.db == db
    {
      this.db := db;
    }

    /** `expire_stale_pending`: every stale request becomes EXPIRED; how many there were. */
    method ExpireStalePending(now: int) returns (count: nat)
      modifies db`borrows
      ensures db.Snapshot() == ExpireBorrows(old(db.Snapshot()), now)
      ensures count == |set i | 0 <= i < |old(db.borrows)| && IsStale(old(db.borrows)[i], now)|
    {
      var stale := Where(db.borrows, (b: Borrow) => IsStale(b, now));
      ghost var before := db.borrows;
      for k := 0 to |stale|
        invariant |db.borrows| == |before|
        invariant forall i :: 0 <= i < |before| ==>
            db.borrows[i] == if i in stale[..k] then before[i].(status := BorrowExpired) else before[i]
      {
        var id := stale[k];
        assert id in stale;
        assert stale[..k + 1] == stale[..k] + [id];
        db.borrows := db.borrows[id := db.borrows[id].(status := BorrowExpired)];
      }
      assert stale[..|stale|] == stale;
      assert db.borrows == ExpireStale(before, now);
      DistinctCount(stale, set i | 0 <= i < |before| && IsStale(before[i], now));
      count := |stale|;
    }

    /** `_assert_can_decide`. */
    method CanDecide(b: Borrow, actorId: int) returns (ok: bool)
      requires db.Snapshot().HasUser(actorId)
      ensures ok == MayDecide(db.Snapshot(), b, actorId)
      ensures ok <==> Rules.DecidesBorrow(db.Snapshot(), b, actorId)
    {
      RoutingRules.MayDecideIff(db.Snapshot(), b, actorId);
      if actorId == b.requesterId {
        return false;
      }
      if db.users[actorId].IsOwner() {
        return true;
      }
      var approvers := ResolveBorrowApprovers(db.users, db.edges, b.sourceGroupId);
      approvers := approvers - {b.requesterId};
      ok := approvers == {} || actorId in approvers;
    }

    /** `_assert_can_return`. */
    method CanReturn(b: Borrow, actorId: int) returns (ok: bool)
      requires db.Snapshot().HasUser(actorId)
      ensures ok == MayReturn(db.Snapshot(), b, actorId)
      ensures ok <==> Rules.ReturnsBorrow(db.Snapshot(), b, actorId)
    {
      RoutingRules.MayReturnIff(db.Snapshot(), b, actorId);
      var actor := db.users[actorId];
      if actorId == b.requesterId || actor.IsOwner() {
        return true;
      }
      if !actor.IsLeadOrManager() {
        return false;
      }
      if b.targetGroupId in actor.AllGroups() {
        return true;
      }
      var approvers := ResolveBorrowApprovers(db.users, db.edges, b.sourceGroupId);
      ok := actorId in approvers;
    }

    /** The checks of `create` on the parties, the setup and the window. */
    method CheckParties(actorId: int, now: int, p: BorrowPayload) returns (refusal: Option<Error>)
      requires db.Snapshot().HasUser(actorId)
      ensures refusal == PartyRefusal(db.Snapshot(), actorId, now, p)
    {
      var actor := db.users[actorId];
      if p.startTime.Some? && p.endTime.Some? && p.endTime.value <= p.startTime.value {
        return Some(Invalid);
      }
      if !MayRequest(actor) {
        return Some(Forbidden);
      }
      if actor.groupId.None? || (p.endTime.Some? && p.endTime.value <= now) {
        return Some(Invalid);
      }
      if !(0 <= p.sourceLeadId < |db.users|) {
        return Some(NotFound);
      }
      var lead := db.users[p.sourceLeadId];
      if !IsSourceLead(lead) {
        return Some(Invalid);
      }
      if !(0 <= p.setupId < |db.setups|) {
        return Some(NotFound);
      }
      var setup := db.setups[p.setupId];
      if setup.OutOfService() {
        return Some(Conflict);
      }
      if setup.groupId.None? || setup.groupId.value !in lead.AllGroups() {
        return Some(Invalid);
      }
      if setup.groupId == actor.groupId {
        return Some(Conflict);
      }
      var granted := FindActiveGrant(db.grants, p.setupId);
      var open := FindOpen(db.borrows, p.setupId);
      refusal := if granted.Some? || open.Some? then Some(Conflict) else None;
    }

    /** `create`; the new request's id. */
    method Create(actorId: int, now: int, p: BorrowPayload) returns (r: Result<int>)
      requires db.Snapshot().HasUser(actorId)
      modifies db`borrows
      ensures Outcome(CreateBorrow(old(db.Snapshot()), actorId, now, p), r, db.Snapshot())
      ensures r.Ok? ==>
                && r.value == |old(db.borrows)| && |db.borrows| == r.value + 1
                && 0 <= p.setupId < |db.setups|
                && var b := db.borrows[r.value];
                   && b.requesterId == actorId && b.setupId == p.setupId
                   && b.fieldName == p.fieldName && b.endTime == p.endTime && b.status == BorrowPending
                   && db.setups[p.setupId].groupId == Some(b.sourceGroupId)
                   && db.users[actorId].groupId == Some(b.targetGroupId)
    {
      var refusal := CheckParties(actorId, now, p);
      if refusal.Some? {
        return Err(refusal.value);
      }
      var setup := db.setups[p.setupId];
      if p.fieldName.Some? && !IsBorrowableField(db.Snapshot(), setup, p.fieldName.value) {
        return Err(Invalid);
      }
      r := Ok(|db.borrows|);
      db.borrows :=
        db.borrows + [Borrow(actorId, setup.groupId.value, db.users[actorId].groupId.value, p.setupId, p.fieldName,
                                         p.endTime, BorrowPending, None, None)];
    }

    /** `approve`. */
    method Approve(actorId: int, now: int, id: int) returns (r: Result<()>)
      requires db.Snapshot().HasUser(actorId)
      modifies db`borrows, db`grants, db`baselines
      ensures Outcome(ApproveBorrow(old(db.Snapshot()), actorId, now, id), r, db.Snapshot())
    {
      var _ := ExpireStalePending(now);
      if !(0 <= id < |db.borrows|) {
        return Err(NotFound);
      }
      var borrow := db.borrows[id];
      if borrow.status != BorrowPending {
        return Err(Conflict);
      }
      if !(0 <= borrow.setupId < |db.setups|) {
        return Err(NotFound);
      }
      var setup := db.setups[borrow.setupId];
      if setup.OutOfService() || FindActiveGrant(db.grants, borrow.setupId).Some?
         || setup.groupId != Some(borrow.sourceGroupId) {
        return Err(Conflict);
      }
      var allowed := CanDecide(borrow, actorId);
      if !allowed {
        return Err(Forbidden);
      }
      db.EnsureFixedBaseline(borrow.setupId);
      db.grants := db.grants + [Grant(borrow.setupId, id, borrow.sourceGroupId, borrow.targetGroupId, true)];
      db.borrows := db.borrows[id := borrow.(status := BorrowCompleted, approvedById := Some(actorId))];
      r := Ok(());
    }

    /** `reject`. */
    method Reject(actorId: int, now: int, id: int) returns (r: Result<()>)
      requires db.Snapshot().HasUser(actorId)
      modifies db`borrows
      ensures Outcome(RejectBorrow(old(db.Snapshot()), actorId, now, id), r, db.Snapshot())
    {
      var _ := ExpireStalePending(now);
      if !(0 <= id < |db.borrows|) {
        return Err(NotFound);
      }
      var borrow := db.borrows[id];
      if borrow.status != BorrowPending {
        return Err(Conflict);
      }
      var allowed := CanDecide(borrow, actorId);
      if !allowed {
        return Err(Forbidden);
      }
      db.borrows := db.borrows[id := borrow.(status := BorrowRejected, approvedById := Some(actorId))];
      r := Ok(());
    }

    /** `cancel`. */
    method Cancel(actorId: int, id: int) returns (r: Result<()>)
      modifies db`borrows
      ensures Outcome(CancelBorrow(old(db.Snapshot()), actorId, id), r, db.Snapshot())
    {
      if !(0 <= id < |db.borrows|) {
        return Err(NotFound);
      }
      var borrow := db.borrows[id];
      if borrow.requesterId != actorId {
        return Err(Forbidden);
      }
      if borrow.status != BorrowPending {
        return Err(Conflict);
      }
      db.borrows := db.borrows[id := borrow.(status := BorrowCancelled)];
      r := Ok(());
    }

    /** `return_borrow`. */
    method Return(actorId: int, id: int) returns (r: Result<()>)
      requires db.Snapshot().HasUser(actorId)
      modifies db`borrows, db`grants
      ensures Outcome(ReturnBorrow(old(db.Snapshot()), actorId, id), r, db.Snapshot())
    {
      if !(0 <= id < |db.borrows|) {
        return Err(NotFound);
      }
      var borrow := db.borrows[id];
      if borrow.status != BorrowCompleted {
        return Err(Conflict);
      }
      var allowed := CanReturn(borrow, actorId);
      if !allowed {
        return Err(Forbidden);
      }
      var found := FindGrant(db.grants, id);
      if found.None? || !db.grants[found.value].isActive {
        return Err(Conflict);
      }
      var j := found.value;
      db.grants := db.grants[j := db.grants[j].(isActive := false)];
      db.borrows := db.borrows[id := borrow.(status := BorrowReturned, returnedById := Some(actorId))];
      r := Ok(());
    }
  }
}
