/** Swap requests over whole runs: their lifecycle, and who raised, decided and cancelled each of them. */
module SwapRuns {
  import opened Common
  import opened Domain
  import opened Swaps
  import opened Runs
  import LedgerRuns

  /** Call c, made in state s, may raise request w. */
  ghost predicate Raises(s: State, c: Call, w: Swap) {
    && c.OnSwap? && c.swap.RaiseSwap? && Authenticated(s, c.actorId) && w.requesterId == c.actorId
    && SwapRequestPermission in s.users[c.actorId].permissions
    && s.HasSetup(w.currentSetupId) && s.HasSetup(w.requestedSetupId) && w.currentSetupId != w.requestedSetupId
    && InService(s, w)
    && (s.requireSameProduct ==> s.setups[w.currentSetupId].productId == s.setups[w.requestedSetupId].productId)
    && HasAccess(s, w.currentSetupId, c.actorId) && HasAccess(s, w.requestedSetupId, c.actorId)
  }

  ghost predicate InService(s: State, w: Swap)
    requires s.HasSetup(w.currentSetupId) && s.HasSetup(w.requestedSetupId)
  {
    !s.setups[w.currentSetupId].OutOfService() && !s.setups[w.requestedSetupId].OutOfService()
  }

  /** Call c, made in state s, may take the pending request w to status to. */
  ghost predicate Settles(s: State, c: Call, id: int, w: Swap, to: SwapStatus) {
    && c.OnSwap? && Authenticated(s, c.actorId)
    && match to
       case SwapPending => false
       case SwapCancelled => c.swap == CancelSwapCall(id) && c.actorId == w.requesterId
       case SwapCompleted =>
         && c.swap == ApproveSwapCall(id) && SwapApprovePermission in s.users[c.actorId].permissions
         && s.HasSetup(w.currentSetupId) && s.HasSetup(w.requestedSetupId) && InService(s, w)
         && MayApprove(s, w.currentSetupId, c.actorId)
       case SwapRejected =>
         && c.swap == RejectSwapCall(id) && SwapApprovePermission in s.users[c.actorId].permissions
         && (s.HasSetup(w.currentSetupId) ==> MayApprove(s, w.currentSetupId, c.actorId))
  }

  /** What a step may do to one request: nothing, or settle it while it is pending, recording the decider. */
  ghost predicate Moves(s: State, c: Call, id: int, w: Swap, w': Swap) {
    && LedgerRuns.SameRequest(w, w')
    && (w' == w ||
        (&& w.status == SwapPending && Settles(s, c, id, w, w'.status)
         && w'.approvedById == if w'.status == SwapCancelled then w.approvedById else Some(c.actorId)))
  }

  ghost predicate SwapsMove(s: State, c: Call, s': State) {
    && |s.swaps| <= |s'.swaps|
    && (forall k :: 0 <= k < |s.swaps| ==> Moves(s, c, k, s.swaps[k], s'.swaps[k]))
    && forall k :: |s.swaps| <= k < |s'.swaps| ==>
         s'.swaps[k].status == SwapPending && s'.swaps[k].approvedById == None && Raises(s, c, s'.swaps[k])
  }

  lemma SwapCallMoves(s: State, actorId: int, call: SwapCall)
    requires Authenticated(s, actorId) && ExecSwap(s, actorId, call).Ok?
    ensures SwapsMove(s, OnSwap(actorId, call), ExecSwap(s, actorId, call).value)
  {
    match call
    case RaiseSwap(p) => RaiseMoves(s, actorId, p);
    case ApproveSwapCall(id) => ApproveMoves(s, actorId, id);
    case RejectSwapCall(id) =>
    case CancelSwapCall(id) =>
  }

  lemma RaiseMoves(s: State, actorId: int, p: SwapPayload)
    requires Authenticated(s, actorId) && SwapRequestPermission in s.users[actorId].permissions
    requires CreateSwap(s, actorId, p).Ok?
    ensures SwapsMove(s, OnSwap(actorId, RaiseSwap(p)), CreateSwap(s, actorId, p).value)
  {
    assert RaiseRefusal(s, actorId, p).None?;
  }

  lemma ApproveMoves(s: State, actorId: int, id: int)
    requires Authenticated(s, actorId) && SwapApprovePermission in s.users[actorId].permissions
    requires ApproveSwap(s, actorId, id).Ok?
    ensures SwapsMove(s, OnSwap(actorId, ApproveSwapCall(id)), ApproveSwap(s, actorId, id).value)
  {
    var s' := ApproveSwap(s, actorId, id).value;
    assert ApproveRefusal(s, actorId, id).None?;
    assert s'.swaps == s.swaps[id := s.swaps[id].(status := SwapCompleted, approvedById := Some(actorId))];
  }

  lemma NextMoves(s: State, c: Call)
    ensures SwapsMove(s, c, Next(s, c))
  {
    if !c.OnSwap? {
      LedgerRuns.OtherCallsKeepSwaps(s, c);
    } else if Exec(s, c).Ok? {
      SwapCallMoves(s, c.actorId, c.swap);
    }
  }

  // --- Whole runs --------------------------------------------------------

  /** Request w was raised by call k of the run. */
  ghost predicate RaisedAt(s: State, calls: seq<Call>, w: Swap, k: int) {
    0 <= k < |calls| && Raises(Run(s, calls[..k]), calls[k], w)
  }

  /** Request w, then pending, was settled as it now stands by call k of the run, which also names its decider. */
  ghost predicate SettledAt(s: State, calls: seq<Call>, id: int, w: Swap, k: int) {
    && 0 <= k < |calls| && calls[k].OnSwap?
    && Settles(Run(s, calls[..k]), calls[k], id, w, w.status)
    && HasSwap(Run(s, calls[..k]), id) && Run(s, calls[..k]).swaps[id].status == SwapPending
    && w.approvedById == if w.status == SwapCancelled then None else Some(calls[k].actorId)
  }

  ghost predicate History(s: State, calls: seq<Call>, id: int, w: Swap) {
    && (exists k :: RaisedAt(s, calls, w, k))
    && if w.status == SwapPending then w.approvedById == None else exists k :: SettledAt(s, calls, id, w, k)
  }

  /** The raising and settling conditions look only at the parts of a request that never change. */
  lemma SameHistory(s: State, c: Call, id: int, w: Swap, w': Swap, to: SwapStatus)
    requires LedgerRuns.SameRequest(w, w')
    ensures Raises(s, c, w) ==> Raises(s, c, w')
    ensures Settles(s, c, id, w, to) ==> Settles(s, c, id, w', to)
  {
  }

  lemma RaisedGrows(s: State, calls: seq<Call>, w: Swap, k: int)
    requires calls != [] && RaisedAt(s, calls[..|calls| - 1], w, k)
    ensures RaisedAt(s, calls, w, k)
  {
    assert calls[..|calls| - 1][..k] == calls[..k];
  }

  lemma SettledGrows(s: State, calls: seq<Call>, id: int, w: Swap, k: int)
    requires calls != [] && SettledAt(s, calls[..|calls| - 1], id, w, k)
    ensures SettledAt(s, calls, id, w, k)
  {
    assert calls[..|calls| - 1][..k] == calls[..k];
  }

  lemma HistoryGrows(s: State, calls: seq<Call>, id: int, w: Swap)
    requires calls != [] && History(s, calls[..|calls| - 1], id, w)
    ensures History(s, calls, id, w)
  {
    var k :| RaisedAt(s, calls[..|calls| - 1], w, k);
    RaisedGrows(s, calls, w, k);
    if w.status != SwapPending {
      var j :| SettledAt(s, calls[..|calls| - 1], id, w, j);
      SettledGrows(s, calls, id, w, j);
    }
  }

  /**
   * Every request of a run was raised by its requester, with the permission and with access to both of its setups, two
   * different ones in service; a completed or rejected one was decided, while pending, by its recorded decider,
   * permitted and Owner, routed or with nobody routed; a cancelled one was cancelled by its requester.
   */
  lemma {:induction false} SwapsAreAuthorised(s: State, calls: seq<Call>, id: int)
    requires s.swaps == [] && HasSwap(Run(s, calls), id)
    ensures History(s, calls, id, Run(s, calls).swaps[id])
  {
    var n := |calls| - 1;
    var before, end := Run(s, calls[..n]), Run(s, calls);
    NextMoves(before, calls[n]);
    var w' := end.swaps[id];
    if id >= |before.swaps| {
      assert RaisedAt(s, calls, w', n);
    } else {
      var w := before.swaps[id];
      SwapsAreAuthorised(s, calls[..n], id);
      HistoryGrows(s, calls, id, w);
      assert Moves(before, calls[n], id, w, w');
      if w' != w {
        SettlingExtends(s, calls, id, w, w');
      }
    }
  }

  lemma SettlingExtends(s: State, calls: seq<Call>, id: int, w: Swap, w': Swap)
    requires calls != [] && History(s, calls, id, w) && w' != w
    requires var before, c := Run(s, calls[..|calls| - 1]), calls[|calls| - 1];
             HasSwap(before, id) && before.swaps[id] == w && Moves(before, c, id, w, w')
    ensures History(s, calls, id, w')
  {
    var n := |calls| - 1;
    var k :| RaisedAt(s, calls, w, k);
    SameHistory(Run(s, calls[..k]), calls[k], id, w, w', w'.status);
    assert RaisedAt(s, calls, w', k);
    SameHistory(Run(s, calls[..n]), calls[n], id, w, w', w'.status);
    assert SettledAt(s, calls, id, w', n);
  }

  /** A settled request never changes again, whatever is called. */
  lemma {:induction false} SettledStaysSettled(s: State, calls: seq<Call>, id: int)
    requires HasSwap(s, id) && s.swaps[id].status != SwapPending
    ensures HasSwap(Run(s, calls), id) && Run(s, calls).swaps[id] == s.swaps[id]
  {
    if calls != [] {
      var before := Run(s, calls[..|calls| - 1]);
      SettledStaysSettled(s, calls[..|calls| - 1], id);
      NextMoves(before, calls[|calls| - 1]);
      assert Moves(before, calls[|calls| - 1], id, before.swaps[id], Run(s, calls).swaps[id]);
    }
  }
}
