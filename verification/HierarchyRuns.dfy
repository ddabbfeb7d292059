/** The approval hierarchy over whole runs: exactly which calls keep it acyclic. */
module HierarchyRuns {
  import opened Domain
  import opened ApprovalRouting
  import opened Runs
  import opened Effects

  /** Call c, made in state s, is accepted and adds an edge that closes a cycle. */
  ghost predicate CallClosesCycle(s: State, c: Call, scope: Scope) {
    && c.OnAdmin? && c.admin.AddEdge? && Exec(s, c).Ok?
    && ClosesCycle(s.edges, c.admin.edge, scope)
  }

  lemma OtherCallsKeepEdges(s: State, c: Call)
    requires !(c.OnAdmin? && (c.admin.AddEdge? || c.admin.RemoveEdge?))
    ensures Next(s, c).edges == s.edges
  {
    if Exec(s, c).Ok? {
      match c
      case OnSwap(a, call) => SwapCallEffect(s, a, call);
      case OnBorrow(a, now, call) => BorrowCallEffect(s, a, now, call);
      case OnReservation(a, now, call) => ReservationCallEffect(s, a, now, call);
      case ReservationJob(now) => SweepEffect(s, now);
      case OnAdmin(a, call) =>
      case BorrowJob(now) =>
    }
  }

  /** An accepted edge call commits the edited table, a refused one changes nothing. */
  lemma EdgeCall(s: State, c: Call)
    requires c.OnAdmin? && (c.admin.AddEdge? || c.admin.RemoveEdge?)
    ensures var r :=
              if c.admin.AddEdge? then CreateEdge(s.groups, s.edges, c.admin.edge)
              else DeleteEdge(s.edges, c.admin.edge);
            if Exec(s, c).Ok? then r.Ok? && Next(s, c).edges == r.value else Next(s, c).edges == s.edges
  {
  }

  /** A step leaves an acyclic hierarchy acyclic exactly when it does not close a cycle. */
  lemma NextKeepsAcyclicIff(s: State, c: Call, scope: Scope)
    requires Acyclic(s.edges, scope)
    ensures Acyclic(Next(s, c).edges, scope) <==> !CallClosesCycle(s, c, scope)
  {
    if c.OnAdmin? && (c.admin.AddEdge? || c.admin.RemoveEdge?) {
      EdgeCall(s, c);
      EditsKeepAcyclicIff(s.groups, s.edges, c.admin.edge, scope);
    } else {
      OtherCallsKeepEdges(s, c);
    }
  }

  ghost predicate AcyclicAt(s: State, calls: seq<Call>, scope: Scope, k: int)
    requires 0 <= k <= |calls|
  {
    Acyclic(Before(s, calls, k).edges, scope)
  }

  ghost predicate ClosesAt(s: State, calls: seq<Call>, scope: Scope, k: int)
    requires 0 <= k < |calls|
  {
    CallClosesCycle(Before(s, calls, k), calls[k], scope)
  }

  lemma StepKeepsAcyclicIff(s: State, calls: seq<Call>, scope: Scope, k: int)
    requires 0 <= k < |calls| && AcyclicAt(s, calls, scope, k)
    ensures AcyclicAt(s, calls, scope, k + 1) <==> !ClosesAt(s, calls, scope, k)
  {
    RunSteps(s, calls, k);
    NextKeepsAcyclicIff(Before(s, calls, k), calls[k], scope);
  }

  lemma {:induction false} AcyclicUpTo(s: State, calls: seq<Call>, scope: Scope, n: nat)
    requires n <= |calls| && Acyclic(s.edges, scope)
    requires forall k :: 0 <= k < n ==> !ClosesAt(s, calls, scope, k)
    ensures AcyclicAt(s, calls, scope, n)
  {
    RunEnds(s, calls);
    if n > 0 {
      AcyclicUpTo(s, calls, scope, n - 1);
      StepKeepsAcyclicIff(s, calls, scope, n - 1);
    }
  }

  /** The hierarchy is acyclic at every point of a run exactly when no call of it closes a cycle. */
  lemma RunKeepsAcyclicIff(s: State, calls: seq<Call>, scope: Scope)
    requires Acyclic(s.edges, scope)
    ensures (forall k :: 0 <= k <= |calls| ==> AcyclicAt(s, calls, scope, k)) <==>
            forall k :: 0 <= k < |calls| ==> !ClosesAt(s, calls, scope, k)
  {
    if forall k :: 0 <= k < |calls| ==> !ClosesAt(s, calls, scope, k) {
      forall k | 0 <= k <= |calls| ensures AcyclicAt(s, calls, scope, k) {
        AcyclicUpTo(s, calls, scope, k);
      }
    } else {
      var k :| 0 <= k < |calls| && ClosesAt(s, calls, scope, k);
      if AcyclicAt(s, calls, scope, k) {
        StepKeepsAcyclicIff(s, calls, scope, k);
      }
    }
  }

  /** Two accepted calls make a group its own strict ancestor. */
  lemma TwoCallsCloseCycle(s: State, actorId: int, g: int, h: int)
    requires Authenticated(s, actorId) && GroupManagePermission in s.users[actorId].permissions
    requires g in s.groups && h in s.groups && g != h && s.edges == []
    ensures var calls :=
            [OnAdmin(actorId, AddEdge(Edge(g, h, BothScopes))), OnAdmin(actorId, AddEdge(Edge(h, g, BothScopes)))];
            && PathBetween(Run(s, calls).edges, SwapScope, [g, h, g], g, g)
            && !Acyclic(Run(s, calls).edges, SwapScope)
  {
    var first, second :=
      OnAdmin(actorId, AddEdge(Edge(g, h, BothScopes))), OnAdmin(actorId, AddEdge(Edge(h, g, BothScopes)));
    assert [first, second][..1] == [first] && [first][..0] == [];
    assert Run(s, []) == s;
    assert Run(s, [first]) == s.(edges := [Edge(g, h, BothScopes)]);
    CycleIsAccepted(g, h);
    assert Run(s, [first, second]).edges == [Edge(g, h, BothScopes)] + [Edge(h, g, BothScopes)];
  }
}
