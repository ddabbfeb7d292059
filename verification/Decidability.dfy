/**
 * Whether a pending request can still be decided by anyone: the promise of the routing fallback, and exactly when it
 * fails.
 */
module Decidability {
  import opened Common
  import opened Domain
  import opened ApprovalRouting
  import opened Borrows
  import opened Swaps
  import opened Runs
  import BorrowRuns
  import RoutingRules

  // --- Borrow requests ---------------------------------------------------

  /** The routed approvers of a borrow request other than its requester. */
  ghost function RoutedFor(s: State, b: Borrow): set<int> {
    BorrowApprovers(s.users, s.edges, b.sourceGroupId) - {b.requesterId}
  }

  /** An active account with the permission. */
  ghost predicate Holds(s: State, u: int, p: Permission) {
    Authenticated(s, u) && p in s.users[u].permissions
  }

  /** u passes every check on who decides the request. */
  ghost predicate Decider(s: State, b: Borrow, u: int) {
    && Holds(s, u, BorrowApprovePermission) && u != b.requesterId
    && (s.users[u].IsOwner() || RoutedFor(s, b) == {} || u in RoutedFor(s, b))
  }

  ghost predicate Undecided(s: State, id: int, now: int) {
    HasBorrow(s, id) && s.borrows[id].status == BorrowPending && !IsStale(s.borrows[id], now)
  }

  /** A rejection of a pending request succeeds exactly for a decider. */
  lemma RejectionSucceedsIff(s: State, id: int, now: int, a: int)
    requires Undecided(s, id, now)
    ensures Exec(s, OnBorrow(a, now, RejectBorrowCall(id))).Ok? <==> Decider(s, s.borrows[id], a)
  {
  }

  /** The setup of a request can still be lent: there, in service, owned by the source group. */
  predicate Lendable(s: State, b: Borrow) {
    s.HasSetup(b.setupId) && !s.setups[b.setupId].OutOfService() && s.setups[b.setupId].groupId == Some(b.sourceGroupId)
  }

  lemma ApprovalSucceedsIff(s: State, id: int, now: int, a: int)
    requires Undecided(s, id, now) && Coupled(s.borrows, s.grants)
    ensures Exec(s, OnBorrow(a, now, ApproveBorrowCall(id))).Ok? <==>
            Lendable(s, s.borrows[id]) && Decider(s, s.borrows[id], a)
  {
    if Authenticated(s, a) {
      assert Run(s, []) == s;
      BorrowRuns.ApproveSucceedsIff(s, [], a, now, id);
      RoutingRules.MayDecideIff(s, s.borrows[id], a);
    }
  }

  /**
   * A pending request can be rejected by someone, and approved while its setup is lendable, exactly when it has a
   * decider.
   */
  lemma DecidableIff(s: State, id: int, now: int)
    requires Undecided(s, id, now) && Coupled(s.borrows, s.grants)
    ensures (exists a :: Exec(s, OnBorrow(a, now, RejectBorrowCall(id))).Ok?) <==>
            exists u :: Decider(s, s.borrows[id], u)
    ensures (exists a :: Exec(s, OnBorrow(a, now, ApproveBorrowCall(id))).Ok?) <==>
            Lendable(s, s.borrows[id]) && exists u :: Decider(s, s.borrows[id], u)
  {
    forall a ensures Exec(s, OnBorrow(a, now, RejectBorrowCall(id))).Ok? <==> Decider(s, s.borrows[id], a) {
      RejectionSucceedsIff(s, id, now, a);
    }
    forall a
      ensures Exec(s, OnBorrow(a, now, ApproveBorrowCall(id))).Ok? <==>
              Lendable(s, s.borrows[id]) && Decider(s, s.borrows[id], a)
    {
      ApprovalSucceedsIff(s, id, now, a);
    }
  }

  /**
   * A request has a decider exactly when an Owner other than its requester holds the permission, or a routed approver
   * does, or nobody is routed and somebody else holds it.
   */
  lemma FallbackSufficesIff(s: State, b: Borrow)
    ensures (exists u :: Decider(s, b, u)) <==>
            || (exists u :: Holds(s, u, BorrowApprovePermission) && u != b.requesterId && s.users[u].IsOwner())
            || (exists u :: u in RoutedFor(s, b) && Holds(s, u, BorrowApprovePermission))
            || (RoutedFor(s, b) == {} && exists u :: Holds(s, u, BorrowApprovePermission) && u != b.requesterId)
  {
    if RoutedFor(s, b) == {} {
      forall u | Holds(s, u, BorrowApprovePermission) && u != b.requesterId ensures Decider(s, b, u) {}
    }
    forall u | u in RoutedFor(s, b) && Holds(s, u, BorrowApprovePermission) ensures Decider(s, b, u) {}
    forall u | Holds(s, u, BorrowApprovePermission) && u != b.requesterId && s.users[u].IsOwner()
      ensures Decider(s, b, u) {}
  }

  /** The role data as seeded: every Lead, Manager and Owner holds both approval permissions. */
  predicate Seeded(s: State) {
    forall u :: 0 <= u < |s.users| && (s.users[u].IsLeadOrManager() || s.users[u].IsOwner()) ==>
      BorrowApprovePermission in s.users[u].permissions && SwapApprovePermission in s.users[u].permissions
  }

  /** Under the seeded role data routing takes nothing away: somebody decides exactly when somebody else may at all. */
  lemma SeededDeciderIff(s: State, b: Borrow)
    requires Seeded(s)
    ensures (exists u :: Decider(s, b, u)) <==> exists u :: Holds(s, u, BorrowApprovePermission) && u != b.requesterId
  {
    if RoutedFor(s, b) != {} {
      var u :| u in RoutedFor(s, b);
      assert Decider(s, b, u);
    }
    FallbackSufficesIff(s, b);
  }

  lemma SeededDecidableIff(s: State, id: int, now: int)
    requires Undecided(s, id, now) && Coupled(s.borrows, s.grants) && Seeded(s)
    ensures (exists a :: Exec(s, OnBorrow(a, now, RejectBorrowCall(id))).Ok?) <==>
            exists u :: Holds(s, u, BorrowApprovePermission) && u != s.borrows[id].requesterId
    ensures (exists a :: Exec(s, OnBorrow(a, now, ApproveBorrowCall(id))).Ok?) <==>
            && Lendable(s, s.borrows[id])
            && exists u :: Holds(s, u, BorrowApprovePermission) && u != s.borrows[id].requesterId
  {
    DecidableIff(s, id, now);
    SeededDeciderIff(s, s.borrows[id]);
  }

  // --- Over runs ---------------------------------------------------------

  lemma {:induction false} RequesterStays(s: State, calls: seq<Call>, id: int)
    requires HasBorrow(s, id)
    ensures HasBorrow(Run(s, calls), id) && Run(s, calls).borrows[id].requesterId == s.borrows[id].requesterId
    ensures Run(s, calls).users == s.users
  {
    BorrowRuns.RunKeepsUsers(s, calls);
    if calls != [] {
      var before, c := Run(s, calls[..|calls| - 1]), calls[|calls| - 1];
      RequesterStays(s, calls[..|calls| - 1], id);
      BorrowRuns.NextMoves(before, c);
      assert BorrowRuns.Moves(before.borrows[id], Run(s, calls).borrows[id]);
    }
  }

  lemma RequestCommits(s: State, actorId: int, now: int, p: BorrowPayload)
    requires Authenticated(s, actorId) && Exec(s, OnBorrow(actorId, now, RequestBorrow(p))).Ok?
    ensures var s' := Next(s, OnBorrow(actorId, now, RequestBorrow(p)));
            && CreateBorrow(s, actorId, now, p) == Ok(s')
            && s'.users == s.users && s'.grants == s.grants && |s'.borrows| == |s.borrows| + 1
            && s'.borrows[|s.borrows|].requesterId == actorId
            && s'.borrows[|s.borrows|].status == BorrowPending
            && s.HasUser(p.sourceLeadId) && IsSourceLead(s.users[p.sourceLeadId])
  {
    assert CreateRefusal(s, actorId, now, p).None?;
  }

  /**
   * A request that was accepted can, after any run, be rejected by somebody for as long as it is undecided exactly when
   * somebody other than its requester held the permission; a request naming another user as source lead always can.
   */
  lemma AcceptedStaysRejectableIff(s: State, actorId: int, now: int, p: BorrowPayload, calls: seq<Call>, later: int)
    requires Seeded(s) && Coupled(s.borrows, s.grants) && Authenticated(s, actorId)
    requires Exec(s, OnBorrow(actorId, now, RequestBorrow(p))).Ok?
    requires Undecided(Run(Next(s, OnBorrow(actorId, now, RequestBorrow(p))), calls), |s.borrows|, later)
    ensures var end := Run(Next(s, OnBorrow(actorId, now, RequestBorrow(p))), calls);
            && ((exists a :: Exec(end, OnBorrow(a, later, RejectBorrowCall(|s.borrows|))).Ok?) <==>
                exists u :: Holds(s, u, BorrowApprovePermission) && u != actorId)
            && (p.sourceLeadId != actorId ==>
               exists a :: Exec(end, OnBorrow(a, later, RejectBorrowCall(|s.borrows|))).Ok?)
  {
    var s' := Next(s, OnBorrow(actorId, now, RequestBorrow(p)));
    var end := Run(s', calls);
    RequestCommits(s, actorId, now, p);
    BorrowRuns.NextKeepsCoupled(s, OnBorrow(actorId, now, RequestBorrow(p)));
    BorrowRuns.RunKeepsCoupled(s', calls);
    RequesterStays(s', calls, |s.borrows|);
    SeededDecidableIff(end, |s.borrows|, later);
    assert forall u :: Holds(end, u, BorrowApprovePermission) <==> Holds(s, u, BorrowApprovePermission);
    if p.sourceLeadId != actorId {
      assert Holds(s, p.sourceLeadId, BorrowApprovePermission);
    }
  }

  // --- A request stuck on its own requester ------------------------------

  /** The only user: a lead of group 1 who is also a member of group 2, with the permissions of the seeded role. */
  function SoleLead(): User {
    User(Some(1), {2}, Some(Lead), Approved, true,
         {SwapRequestPermission, SwapApprovePermission, BorrowRequestPermission, BorrowApprovePermission,
          BorrowReturnPermission, ReservationCreatePermission, ReservationCancelOwnPermission,
          ReservationCancelAnyPermission, GroupManagePermission, ImportRunPermission})
  }

  const SELF_NAMED := BorrowPayload(0, 0, None, None, None)

  lemma SelfNamedIsAccepted(s: State, now: int)
    requires s.users == [SoleLead()] && s.borrows == [] && s.grants == []
    requires s.HasSetup(0) && s.setups[0].groupId == Some(2) && !s.setups[0].OutOfService()
    ensures Seeded(s) && Authenticated(s, 0)
    ensures Exec(s, OnBorrow(0, now, RequestBorrow(SELF_NAMED))).Ok?
  {
    assert s.users[0] == SoleLead();
    assert PartyRefusal(s, 0, now, SELF_NAMED).None?;
  }

  /** A stranger to the request, or its requester, cannot decide it. */
  lemma OnlyRequesterLeft(s: State, id: int, now: int, a: int)
    requires HasBorrow(s, id) && (Authenticated(s, a) ==> a == s.borrows[id].requesterId)
    ensures Exec(s, OnBorrow(a, now, RejectBorrowCall(id))).Err?
    ensures Exec(s, OnBorrow(a, now, ApproveBorrowCall(id))).Err?
  {
    if Authenticated(s, a) {
      var e := ExpireBorrows(s, now);
      assert e.borrows[id].requesterId == a;
      assert !MayDecide(e, e.borrows[id], a);
    }
  }

  /**
   * Under the seeded role data a request can still be stuck: a lead, the only holder of the permission, names himself
   * as source lead of a setup of his second group. The request is accepted, and after any run, at any time, nobody can
   * reject or approve it.
   */
  lemma SelfNamedRequestIsStuck(s: State, now: int, calls: seq<Call>, a: int, later: int)
    requires s.users == [SoleLead()] && s.borrows == [] && s.grants == []
    requires s.HasSetup(0) && s.setups[0].groupId == Some(2) && !s.setups[0].OutOfService()
    ensures var s' := Next(s, OnBorrow(0, now, RequestBorrow(SELF_NAMED)));
            && Seeded(s) && |s'.borrows| == 1 && s'.borrows[0].status == BorrowPending
            && Exec(Run(s', calls), OnBorrow(a, later, RejectBorrowCall(0))).Err?
            && Exec(Run(s', calls), OnBorrow(a, later, ApproveBorrowCall(0))).Err?
  {
    var s' := Next(s, OnBorrow(0, now, RequestBorrow(SELF_NAMED)));
    SelfNamedIsAccepted(s, now);
    RequestCommits(s, 0, now, SELF_NAMED);
    RequesterStays(s', calls, 0);
    OnlyRequesterLeft(Run(s', calls), 0, later, a);
  }

  // --- Swap requests -----------------------------------------------------

  ghost predicate SwapDecider(s: State, w: Swap, u: int)
    requires s.HasSetup(w.currentSetupId)
  {
    var routed := SwapApprovers(s.users, s.edges, s.setups[w.currentSetupId].groupId);
    Holds(s, u, SwapApprovePermission) && (s.users[u].IsOwner() || routed == {} || u in routed)
  }

  ghost predicate UndecidedSwap(s: State, id: int) {
    HasSwap(s, id) && s.swaps[id].status == SwapPending
    && s.HasSetup(s.swaps[id].currentSetupId) && s.HasSetup(s.swaps[id].requestedSetupId)
  }

  /** Both setups are in service and the exchange itself goes through. */
  ghost predicate Exchangeable(s: State, id: int)
    requires UndecidedSwap(s, id)
  {
    var w := s.swaps[id];
    && !s.setups[w.currentSetupId].OutOfService() && !s.setups[w.requestedSetupId].OutOfService()
    && Exchange(PairOf(s, w), StartOf(s), ColumnsOf(w)).Ok?
  }

  lemma SwapRejectionSucceedsIff(s: State, id: int, a: int)
    requires UndecidedSwap(s, id)
    ensures Exec(s, OnSwap(a, RejectSwapCall(id))).Ok? <==> SwapDecider(s, s.swaps[id], a)
  {
  }

  lemma SwapApprovalSucceedsIff(s: State, id: int, a: int)
    requires UndecidedSwap(s, id)
    ensures Exec(s, OnSwap(a, ApproveSwapCall(id))).Ok? <==> Exchangeable(s, id) && SwapDecider(s, s.swaps[id], a)
  {
  }

  /** A pending swap can be rejected by someone, and approved when it is exchangeable, exactly when it has a decider. */
  lemma SwapDecidableIff(s: State, id: int)
    requires UndecidedSwap(s, id)
    ensures (exists a :: Exec(s, OnSwap(a, RejectSwapCall(id))).Ok?) <==> exists u :: SwapDecider(s, s.swaps[id], u)
    ensures (exists a :: Exec(s, OnSwap(a, ApproveSwapCall(id))).Ok?) <==>
            Exchangeable(s, id) && exists u :: SwapDecider(s, s.swaps[id], u)
  {
    forall a ensures Exec(s, OnSwap(a, RejectSwapCall(id))).Ok? <==> SwapDecider(s, s.swaps[id], a) {
      SwapRejectionSucceedsIff(s, id, a);
    }
    forall a
      ensures Exec(s, OnSwap(a, ApproveSwapCall(id))).Ok? <==> Exchangeable(s, id) && SwapDecider(s, s.swaps[id], a)
    {
      SwapApprovalSucceedsIff(s, id, a);
    }
  }

  /**
   * A swap has a decider exactly when an Owner or a routed approver holds the permission, or nobody is routed and
   * someone does.
   */
  lemma SwapFallbackSufficesIff(s: State, w: Swap)
    requires s.HasSetup(w.currentSetupId)
    ensures var routed := SwapApprovers(s.users, s.edges, s.setups[w.currentSetupId].groupId);
            (exists u :: SwapDecider(s, w, u)) <==>
            || (exists u :: Holds(s, u, SwapApprovePermission) && s.users[u].IsOwner())
            || (exists u :: u in routed && Holds(s, u, SwapApprovePermission))
            || (routed == {} && exists u :: Holds(s, u, SwapApprovePermission))
  {
    var routed := SwapApprovers(s.users, s.edges, s.setups[w.currentSetupId].groupId);
    if routed == {} {
      forall u | Holds(s, u, SwapApprovePermission) ensures SwapDecider(s, w, u) {}
    }
    forall u | u in routed && Holds(s, u, SwapApprovePermission) ensures SwapDecider(s, w, u) {}
    forall u | Holds(s, u, SwapApprovePermission) && s.users[u].IsOwner() ensures SwapDecider(s, w, u) {}
  }

  /** Under the seeded role data a pending swap can be decided exactly when anybody active holds the permission. */
  lemma SeededSwapDecidableIff(s: State, id: int)
    requires UndecidedSwap(s, id) && Seeded(s)
    ensures (exists a :: Exec(s, OnSwap(a, RejectSwapCall(id))).Ok?) <==> exists u :: Holds(s, u, SwapApprovePermission)
    ensures (exists a :: Exec(s, OnSwap(a, ApproveSwapCall(id))).Ok?) <==>
            Exchangeable(s, id) && exists u :: Holds(s, u, SwapApprovePermission)
  {
    var w := s.swaps[id];
    var routed := SwapApprovers(s.users, s.edges, s.setups[w.currentSetupId].groupId);
    SwapDecidableIff(s, id);
    SwapFallbackSufficesIff(s, w);
    if routed != {} {
      var u :| u in routed;
      assert Holds(s, u, SwapApprovePermission);
    }
  }

  // --- A request stuck on a routed lead ----------------------------------

  /**
   * Not the seeded role data: two leads who may only request, in groups 1 and 2, and a manager of group 3 with both
   * approval permissions.
   */
  function ThreeUsers(): seq<User> {
    var request, approve :=
      {BorrowRequestPermission, SwapRequestPermission}, {BorrowApprovePermission, SwapApprovePermission};
    [User(Some(1), {}, Some(Lead), Approved, true, request), User(Some(2), {}, Some(Lead), Approved, true, request),
     User(Some(3), {}, Some(Manager), Approved, true, approve)]
  }

  lemma OnlyTheLeadIsRouted(users: seq<User>)
    requires users == ThreeUsers()
    ensures BorrowApprovers(users, [], 2) == {1} && SwapApprovers(users, [], Some(2)) == {1}
  {
    forall x ensures x in BorrowGroups([], 2) <==> x == 2 {}
    forall x ensures x in Ancestors([], SwapScope, 2) <==> x == 2 {
      if Reaches([], SwapScope, 2, x) {
        var path :| PathBetween([], SwapScope, path, 2, x);
        assert |path| > 1 ==> IsParent([], SwapScope, path[0], path[1]);
      } else {
        assert PathBetween([], SwapScope, [2], 2, 2);
      }
    }
  }

  /**
   * With role data that takes the permissions from a lead, one such routed lead and no Owner leave nobody who
   * could reject or approve a request on group 2's setup, although a manager holds both permissions.
   */
  lemma LoneLeadWithoutPermissionBlocks(s: State, id: int, now: int, swapId: int)
    requires s.users == ThreeUsers() && s.edges == [] && Coupled(s.borrows, s.grants)
    requires Undecided(s, id, now) && s.borrows[id].requesterId == 0 && s.borrows[id].sourceGroupId == 2
    requires UndecidedSwap(s, swapId) && s.setups[s.swaps[swapId].currentSetupId].groupId == Some(2)
    ensures Holds(s, 2, BorrowApprovePermission) && Holds(s, 2, SwapApprovePermission)
    ensures forall a ::
              Exec(s, OnBorrow(a, now, RejectBorrowCall(id))).Err?
                && Exec(s, OnBorrow(a, now, ApproveBorrowCall(id))).Err?
    ensures forall a :: Exec(s, OnSwap(a, RejectSwapCall(swapId))).Err?
              && Exec(s, OnSwap(a, ApproveSwapCall(swapId))).Err?
  {
    OnlyTheLeadIsRouted(s.users);
    assert RoutedFor(s, s.borrows[id]) == {1};
    forall u ensures !Decider(s, s.borrows[id], u) && !SwapDecider(s, s.swaps[swapId], u) {
      if Authenticated(s, u) {
        assert u == 0 || u == 1 || u == 2;
      }
    }
    forall a
      ensures Exec(s, OnBorrow(a, now, RejectBorrowCall(id))).Err?
              && Exec(s, OnBorrow(a, now, ApproveBorrowCall(id))).Err?
    {
      RejectionSucceedsIff(s, id, now, a);
      ApprovalSucceedsIff(s, id, now, a);
    }
    forall a
      ensures Exec(s, OnSwap(a, RejectSwapCall(swapId))).Err? && Exec(s, OnSwap(a, ApproveSwapCall(swapId))).Err?
    {
      SwapRejectionSucceedsIff(s, swapId, a);
      SwapApprovalSucceedsIff(s, swapId, a);
    }
  }
}
