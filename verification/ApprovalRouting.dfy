/** Who may approve: the level-by-level walk over hierarchy edges (swap) and the parent-and-sibling rule (borrow). */
module ApprovalRouting {
  import opened Common
  import opened Domain

  // --- Edge table --------------------------------------------------------

  /** An edge counts for a domain when tagged with it or with both. */
  predicate Applies(edge: Edge, scope: Scope) {
    edge.scope == scope || edge.scope == BothScopes
  }

  predicate IsParent(edges: seq<Edge>, scope: Scope, child: int, parent: int) {
    exists e :: e in edges && e.child == child && e.parent == parent && Applies(e, scope)
  }

  /** `get_parent_group_ids`, in table order. */
  function ParentIds(edges: seq<Edge>, scope: Scope, child: int): seq<int> {
    if edges == [] then []
    else (if edges[0].child == child && Applies(edges[0], scope) then [edges[0].parent] else [])
         + ParentIds(edges[1..], scope, child)
  }

  /** `get_child_group_ids`, in table order. */
  function ChildIds(edges: seq<Edge>, scope: Scope, parent: int): seq<int> {
    if edges == [] then []
    else (if edges[0].parent == parent && Applies(edges[0], scope) then [edges[0].child] else [])
         + ChildIds(edges[1..], scope, parent)
  }

  lemma {:induction false} ParentIdsMeaning(edges: seq<Edge>, scope: Scope, child: int)
    ensures forall p :: p in ParentIds(edges, scope, child) <==> IsParent(edges, scope, child, p)
  {
    if edges != [] {
      ParentIdsMeaning(edges[1..], scope, child);
      assert edges == [edges[0]] + edges[1..];
    }
  }

  lemma {:induction false} ChildIdsMeaning(edges: seq<Edge>, scope: Scope, parent: int)
    ensures forall c :: c in ChildIds(edges, scope, parent) <==> IsParent(edges, scope, c, parent)
  {
    if edges != [] {
      ChildIdsMeaning(edges[1..], scope, parent);
      assert edges == [edges[0]] + edges[1..];
    }
  }

  // --- Reachability ------------------------------------------------------

  /** path climbs parent edges one at a time. */
  ghost predicate IsPath(edges: seq<Edge>, scope: Scope, path: seq<int>) {
    path != [] && forall i :: 0 <= i < |path| - 1 ==> IsParent(edges, scope, path[i], path[i + 1])
  }

  ghost predicate PathBetween(edges: seq<Edge>, scope: Scope, path: seq<int>, from: int, to: int) {
    IsPath(edges, scope, path) && path[0] == from && path[|path| - 1] == to
  }

  /** to is from itself or one of its ancestors. */
  ghost predicate Reaches(edges: seq<Edge>, scope: Scope, from: int, to: int) {
    exists path :: PathBetween(edges, scope, path, from, to)
  }

  /** to is reached in k parent steps and in no fewer. */
  ghost predicate AtDistance(edges: seq<Edge>, scope: Scope, from: int, to: int, k: nat) {
    && (exists path :: PathBetween(edges, scope, path, from, to) && |path| == k + 1)
    && forall path :: PathBetween(edges, scope, path, from, to) ==> |path| >= k + 1
  }

  /** Every group an edge table can lead to. */
  function AllParents(edges: seq<Edge>): set<int> {
    set e | e in edges :: e.parent
  }

  function ParentsOf(edges: seq<Edge>, scope: Scope, groups: set<int>): set<int> {
    set e | e in edges && e.child in groups && Applies(e, scope) :: e.parent
  }

  /** The groups reached in at most k parent steps. */
  ghost function Ball(edges: seq<Edge>, scope: Scope, from: int, k: nat): set<int> {
    if k == 0 then {from}
    else Ball(edges, scope, from, k - 1) + ParentsOf(edges, scope, Ball(edges, scope, from, k - 1))
  }

  lemma {:induction false} BallIsShortPaths(edges: seq<Edge>, scope: Scope, from: int, to: int, k: nat)
    ensures to in Ball(edges, scope, from, k) <==>
            exists path :: PathBetween(edges, scope, path, from, to) && |path| <= k + 1
  {
    if to in Ball(edges, scope, from, k) {
      var path := PathInBall(edges, scope, from, to, k);
    }
    forall path | PathBetween(edges, scope, path, from, to) && |path| <= k + 1
      ensures to in Ball(edges, scope, from, k)
    {
      PathStaysInBall(edges, scope, from, path, k);
    }
  }

  lemma {:induction false} PathInBall(edges: seq<Edge>, scope: Scope, from: int, to: int, k: nat)
      returns (path: seq<int>)
    requires to in Ball(edges, scope, from, k)
    ensures PathBetween(edges, scope, path, from, to) && |path| <= k + 1
    decreases k
  {
    if k == 0 {
      path := [from];
    } else if to in Ball(edges, scope, from, k - 1) {
      path := PathInBall(edges, scope, from, to, k - 1);
    } else {
      var e :| e in edges && e.parent == to && e.child in Ball(edges, scope, from, k - 1) && Applies(e, scope);
      var init := PathInBall(edges, scope, from, e.child, k - 1);
      path := init + [to];
      assert IsParent(edges, scope, e.child, to);
    }
  }

  lemma {:induction false} PathStaysInBall(edges: seq<Edge>, scope: Scope, from: int, path: seq<int>, k: nat)
    requires IsPath(edges, scope, path) && path[0] == from && |path| <= k + 1
    ensures path[|path| - 1] in Ball(edges, scope, from, k)
  {
    if k > 0 {
      var n := |path| - 1;
      if n == 0 {
        PathStaysInBall(edges, scope, from, path, k - 1);
      } else {
        PathStaysInBall(edges, scope, from, path[..n], k - 1);
        assert IsParent(edges, scope, path[n - 1], path[n]);
      }
    }
  }

  lemma DistanceInBalls(edges: seq<Edge>, scope: Scope, from: int, to: int, k: nat)
    ensures AtDistance(edges, scope, from, to, k) <==>
            to in Ball(edges, scope, from, k) && (k > 0 ==> to !in Ball(edges, scope, from, k - 1))
  {
    BallIsShortPaths(edges, scope, from, to, k);
    if k > 0 {
      BallIsShortPaths(edges, scope, from, to, k - 1);
    } else {
      forall path | PathBetween(edges, scope, path, from, to) ensures |path| >= 1 {}
    }
  }

  lemma {:induction false} BallFixed(edges: seq<Edge>, scope: Scope, from: int, k: nat, n: nat)
    requires ParentsOf(edges, scope, Ball(edges, scope, from, k)) <= Ball(edges, scope, from, k)
    ensures Ball(edges, scope, from, n) <= Ball(edges, scope, from, k)
  {
    if n == 0 {
      FromInBall(edges, scope, from, k);
    } else {
      BallFixed(edges, scope, from, k, n - 1);
    }
  }

  lemma {:induction false} FromInBall(edges: seq<Edge>, scope: Scope, from: int, k: nat)
    ensures from in Ball(edges, scope, from, k)
  {
    if k > 0 {
      FromInBall(edges, scope, from, k - 1);
    }
  }

  /** A ball closed under parents holds every ancestor. */
  lemma ClosedBallIsReach(edges: seq<Edge>, scope: Scope, from: int, k: nat)
    requires ParentsOf(edges, scope, Ball(edges, scope, from, k)) <= Ball(edges, scope, from, k)
    ensures forall to :: to in Ball(edges, scope, from, k) <==> Reaches(edges, scope, from, to)
  {
    forall to ensures to in Ball(edges, scope, from, k) <==> Reaches(edges, scope, from, to) {
      BallIsShortPaths(edges, scope, from, to, k);
      forall path | PathBetween(edges, scope, path, from, to) ensures to in Ball(edges, scope, from, k) {
        PathStaysInBall(edges, scope, from, path, |path|);
        BallFixed(edges, scope, from, k, |path|);
      }
    }
  }

  // --- The walk ----------------------------------------------------------

  /**
   * `ancestor_group_ids`: breadth-first over parent edges with a visited set. The edge table may be cyclic.
   * rounds[k] holds the frontier of round k.
   */
  method AncestorGroupIds(edges: seq<Edge>, groupId: int, scope: Scope)
      returns (visited: set<int>, ghost rounds: seq<set<int>>)
    ensures forall x :: x in visited <==> Reaches(edges, scope, groupId, x)
    ensures forall k, x :: 0 <= k < |rounds| ==> (x in rounds[k] <==> AtDistance(edges, scope, groupId, x, k))
    ensures forall x :: x in visited ==> exists k :: 0 <= k < |rounds| && x in rounds[k]
  {
    visited := {groupId};
    var frontier := [groupId];
    ghost var all := {groupId} + AllParents(edges);
    rounds := [];
    while frontier != []
      invariant visited == Ball(edges, scope, groupId, |rounds|) <= all
      invariant Elements(frontier) == Level(edges, scope, groupId, |rounds|)
      invariant AreLevels(edges, scope, groupId, rounds)
      decreases all - visited, |frontier|
    {
      OneMoreLevel(edges, scope, groupId, rounds, Elements(frontier));
      visited, frontier := NextRound(edges, groupId, scope, visited, frontier, |rounds|);
      rounds := rounds + [Level(edges, scope, groupId, |rounds|)];
    }
    WalkIsComplete(edges, scope, groupId, visited, rounds);
  }

  /** One pass of the walk's outer loop, over the frontier of round k. */
  method NextRound(edges: seq<Edge>, ghost from: int, scope: Scope, seen: set<int>, frontier: seq<int>, ghost k: nat)
      returns (visited: set<int>, nextFrontier: seq<int>)
    requires seen == Ball(edges, scope, from, k) && Elements(frontier) == Level(edges, scope, from, k)
    ensures visited == Ball(edges, scope, from, k + 1) && Elements(nextFrontier) == Level(edges, scope, from, k + 1)
    ensures visited <= seen + AllParents(edges)
    ensures if nextFrontier == [] then visited == seen else seen < visited
  {
    visited, nextFrontier := seen, [];
    for i := 0 to |frontier|
      invariant visited == seen + ParentsOf(edges, scope, Elements(frontier[..i]))
      invariant Elements(nextFrontier) == visited - seen
    {
      var parents := ParentIds(edges, scope, frontier[i]);
      ghost var before := visited;
      for j := 0 to |parents|
        invariant visited == before + Elements(parents[..j])
        invariant Elements(nextFrontier) == visited - seen
        invariant seen <= visited
      {
        ElementsUpTo(parents, j);
        if parents[j] !in visited {
          ElementsAppend(nextFrontier, parents[j]);
          visited := visited + {parents[j]};
          nextFrontier := nextFrontier + [parents[j]];
        }
      }
      assert parents[..|parents|] == parents;
      ParentsOfOneMore(edges, scope, frontier, i);
    }
    assert frontier[..|frontier|] == frontier;
    BallGrows(edges, scope, from, k, frontier);
    NothingNew(nextFrontier, seen, visited);
  }

  lemma NothingNew(next: seq<int>, seen: set<int>, visited: set<int>)
    requires Elements(next) == visited - seen && seen <= visited
    ensures if next == [] then visited == seen else seen < visited
  {
    if next == [] {
      forall x ensures x in visited <==> x in seen {
        assert x in visited - seen <==> x in Elements(next);
      }
    } else {
      assert next[0] in Elements(next);
    }
  }

  lemma ParentsOfOneMore(edges: seq<Edge>, scope: Scope, frontier: seq<int>, i: nat)
    requires i < |frontier|
    ensures ParentsOf(edges, scope, Elements(frontier[..i + 1])) ==
            ParentsOf(edges, scope, Elements(frontier[..i])) + Elements(ParentIds(edges, scope, frontier[i]))
  {
    ParentIdsMeaning(edges, scope, frontier[i]);
    ElementsUpTo(frontier, i);
    var before, after := Elements(frontier[..i]), Elements(frontier[..i + 1]);
    var parents := Elements(ParentIds(edges, scope, frontier[i]));
    forall p ensures p in ParentsOf(edges, scope, after) <==> p in ParentsOf(edges, scope, before) + parents {
      if p in parents {
        assert IsParent(edges, scope, frontier[i], p);
      }
    }
  }

  /** The groups first reached in round k. */
  ghost function Level(edges: seq<Edge>, scope: Scope, from: int, k: nat): set<int> {
    if k == 0 then {from} else Ball(edges, scope, from, k) - Ball(edges, scope, from, k - 1)
  }

  ghost predicate AreLevels(edges: seq<Edge>, scope: Scope, from: int, rounds: seq<set<int>>) {
    forall j :: 0 <= j < |rounds| ==> rounds[j] == Level(edges, scope, from, j)
  }

  lemma OneMoreLevel(edges: seq<Edge>, scope: Scope, from: int, rounds: seq<set<int>>, next: set<int>)
    requires AreLevels(edges, scope, from, rounds) && next == Level(edges, scope, from, |rounds|)
    ensures AreLevels(edges, scope, from, rounds + [next])
  {
  }

  lemma LevelsAreDistances(edges: seq<Edge>, scope: Scope, from: int, rounds: seq<set<int>>)
    requires AreLevels(edges, scope, from, rounds) && Level(edges, scope, from, |rounds|) == {}
    ensures forall k, x :: 0 <= k < |rounds| ==> (x in rounds[k] <==> AtDistance(edges, scope, from, x, k))
    ensures forall x :: x in Ball(edges, scope, from, |rounds|) ==> exists k :: 0 <= k < |rounds| && x in rounds[k]
  {
    forall k, x | 0 <= k < |rounds| ensures x in rounds[k] <==> AtDistance(edges, scope, from, x, k) {
      DistanceInBalls(edges, scope, from, x, k);
    }
    forall x | x in Ball(edges, scope, from, |rounds|) ensures exists k :: 0 <= k < |rounds| && x in rounds[k] {
      var k := LevelOf(edges, scope, from, |rounds|, x);
      assert x in rounds[k];
    }
  }

  lemma WalkIsComplete(edges: seq<Edge>, scope: Scope, from: int, visited: set<int>, rounds: seq<set<int>>)
    requires visited == Ball(edges, scope, from, |rounds|)
    requires AreLevels(edges, scope, from, rounds) && Level(edges, scope, from, |rounds|) == {}
    ensures forall x :: x in visited <==> Reaches(edges, scope, from, x)
    ensures forall k, x :: 0 <= k < |rounds| ==> (x in rounds[k] <==> AtDistance(edges, scope, from, x, k))
    ensures forall x :: x in visited ==> exists k :: 0 <= k < |rounds| && x in rounds[k]
  {
    EmptyLevelCloses(edges, scope, from, |rounds|);
    LevelsAreDistances(edges, scope, from, rounds);
  }

  /** Only the newest level can lead out of a ball. */
  lemma BallGrows(edges: seq<Edge>, scope: Scope, from: int, k: nat, frontier: seq<int>)
    requires Elements(frontier) == Level(edges, scope, from, k)
    ensures Ball(edges, scope, from, k + 1) == Ball(edges, scope, from, k) + ParentsOf(edges, scope, Elements(frontier))
    ensures ParentsOf(edges, scope, Elements(frontier)) <= AllParents(edges)
  {
    var ball := Ball(edges, scope, from, k);
    forall p | p in ParentsOf(edges, scope, ball) && p !in ball
      ensures p in ParentsOf(edges, scope, Elements(frontier))
    {
      var e :| e in edges && e.child in ball && Applies(e, scope) && e.parent == p;
      assert k > 0 ==>
             ball == Ball(edges, scope, from, k - 1) + ParentsOf(edges, scope, Ball(edges, scope, from, k - 1));
      assert e.child in Elements(frontier);
    }
  }

  lemma EmptyLevelCloses(edges: seq<Edge>, scope: Scope, from: int, k: nat)
    requires Level(edges, scope, from, k) == {}
    ensures k > 0 && forall to :: to in Ball(edges, scope, from, k) <==> Reaches(edges, scope, from, to)
  {
    assert Elements([]) == Level(edges, scope, from, k) && from in {from};
    BallGrows(edges, scope, from, k, []);
    ClosedBallIsReach(edges, scope, from, k);
  }

  lemma {:induction false} LevelOf(edges: seq<Edge>, scope: Scope, from: int, k: nat, x: int) returns (j: nat)
    requires x in Ball(edges, scope, from, k)
    ensures j <= k && x in Level(edges, scope, from, j)
    decreases k
  {
    if k > 0 && x in Ball(edges, scope, from, k - 1) {
      j := LevelOf(edges, scope, from, k - 1, x);
    } else {
      j := k;
    }
  }

  // --- Approvers ---------------------------------------------------------

  /** Every ancestor of a group, itself included. */
  ghost function Ancestors(edges: seq<Edge>, scope: Scope, groupId: int): (r: set<int>)
    ensures forall x :: x in r <==> Reaches(edges, scope, groupId, x)
  {
    var all := {groupId} + AllParents(edges);
    ReachWithin(edges, scope, groupId);
    set x | x in all && Reaches(edges, scope, groupId, x)
  }

  lemma ReachWithin(edges: seq<Edge>, scope: Scope, from: int)
    ensures forall x :: Reaches(edges, scope, from, x) ==> x == from || x in AllParents(edges)
  {
    forall x | Reaches(edges, scope, from, x) ensures x == from || x in AllParents(edges) {
      var path :| PathBetween(edges, scope, path, from, x);
      if |path| > 1 {
        assert IsParent(edges, scope, path[|path| - 2], path[|path| - 1]);
      }
    }
  }

  /** `list_active_by_group_ids_and_roles` for leads and managers: matched on the primary group. */
  function ActiveApprovers(users: seq<User>, groups: set<int>): set<int> {
    set u | 0 <= u < |users| && users[u].groupId.Some? && users[u].groupId.value in groups
            && users[u].status == Approved && users[u].isActive && users[u].IsLeadOrManager()
  }

  ghost function SwapApprovers(users: seq<User>, edges: seq<Edge>, groupId: Option<int>): set<int> {
    if groupId.None? then {} else ActiveApprovers(users, Ancestors(edges, SwapScope, groupId.value))
  }

  /** An approved, active Lead or Manager with a primary group. */
  predicate LeadsSomeGroup(users: seq<User>, u: int) {
    && 0 <= u < |users| && users[u].status == Approved && users[u].isActive
    && (users[u].role == Some(Lead) || users[u].role == Some(Manager)) && users[u].groupId.Some?
  }

  lemma SwapApproverIff(users: seq<User>, edges: seq<Edge>, groupId: Option<int>, u: int)
    ensures u in SwapApprovers(users, edges, groupId) <==>
            && LeadsSomeGroup(users, u) && groupId.Some?
            && Reaches(edges, SwapScope, groupId.value, users[u].groupId.value)
  {
  }

  /** `resolve_swap_approvers`. */
  method ResolveSwapApprovers(users: seq<User>, edges: seq<Edge>, groupId: Option<int>) returns (approvers: set<int>)
    ensures approvers == SwapApprovers(users, edges, groupId)
    ensures forall u :: u in approvers <==>
              && LeadsSomeGroup(users, u) && groupId.Some?
              && Reaches(edges, SwapScope, groupId.value, users[u].groupId.value)
  {
    forall u ensures u in SwapApprovers(users, edges, groupId) <==>
                     && LeadsSomeGroup(users, u) && groupId.Some?
                     && Reaches(edges, SwapScope, groupId.value, users[u].groupId.value) {
      SwapApproverIff(users, edges, groupId, u);
    }
    if groupId.None? {
      return {};
    }
    var ancestors, rounds := AncestorGroupIds(edges, groupId.value, SwapScope);
    forall x ensures x in ancestors <==> x in Ancestors(edges, SwapScope, groupId.value) {}
    assert ancestors == Ancestors(edges, SwapScope, groupId.value);
    approvers := ActiveApprovers(users, ancestors);
  }

  /** x is g, a parent of g, or shares a parent with g. */
  predicate BorrowRelated(edges: seq<Edge>, g: int, x: int) {
    || x == g
    || IsParent(edges, BorrowScope, g, x)
    || exists e :: e in edges && e.child == g && Applies(e, BorrowScope) && IsParent(edges, BorrowScope, x, e.parent)
  }

  ghost function BorrowGroups(edges: seq<Edge>, g: int): (r: set<int>)
    ensures forall x :: x in r <==> BorrowRelated(edges, g, x)
  {
    set x | x in {g} + AllParents(edges) + (set e | e in edges :: e.child) && BorrowRelated(edges, g, x)
  }

  ghost function BorrowApprovers(users: seq<User>, edges: seq<Edge>, groupId: int): set<int> {
    ActiveApprovers(users, BorrowGroups(edges, groupId))
  }

  /** group is g, a parent of g, or has a parent in common with g. */
  ghost predicate ParentOrSibling(edges: seq<Edge>, g: int, group: int) {
    || group == g
    || IsParent(edges, BorrowScope, g, group)
    || exists p :: IsParent(edges, BorrowScope, g, p) && IsParent(edges, BorrowScope, group, p)
  }

  lemma BorrowApproverIff(users: seq<User>, edges: seq<Edge>, groupId: int, u: int)
    ensures u in BorrowApprovers(users, edges, groupId) <==>
            LeadsSomeGroup(users, u) && ParentOrSibling(edges, groupId, users[u].groupId.value)
  {
  }

  /** `resolve_borrow_approvers`: the selected group, its direct parents, and every child of those parents. */
  method ResolveBorrowApprovers(users: seq<User>, edges: seq<Edge>, groupId: int) returns (approvers: set<int>)
    ensures approvers == BorrowApprovers(users, edges, groupId)
    ensures forall u :: u in approvers <==>
              LeadsSomeGroup(users, u) && ParentOrSibling(edges, groupId, users[u].groupId.value)
  {
    forall u ensures u in BorrowApprovers(users, edges, groupId) <==>
                     LeadsSomeGroup(users, u) && ParentOrSibling(edges, groupId, users[u].groupId.value) {
      BorrowApproverIff(users, edges, groupId, u);
    }
    var parents := ParentIds(edges, BorrowScope, groupId);
    ParentIdsMeaning(edges, BorrowScope, groupId);
    var targets := {groupId} + set p | p in parents;
    for i := 0 to |parents|
      invariant forall x :: x in targets <==>
          x == groupId || x in parents || exists j :: 0 <= j < i && IsParent(edges, BorrowScope, x, parents[j])
    {
      ChildIdsMeaning(edges, BorrowScope, parents[i]);
      targets := targets + set c | c in ChildIds(edges, BorrowScope, parents[i]);
    }
    forall x ensures x in targets <==> BorrowRelated(edges, groupId, x) {
      if x in targets && x != groupId && x !in parents {
        var j :| 0 <= j < |parents| && IsParent(edges, BorrowScope, x, parents[j]);
        assert IsParent(edges, BorrowScope, groupId, parents[j]);
      }
      if e :| e in edges && e.child == groupId && Applies(e, BorrowScope) && IsParent(edges, BorrowScope, x, e.parent) {
        assert IsParent(edges, BorrowScope, groupId, e.parent);
        assert e.parent in parents;
      }
    }
    assert targets == BorrowGroups(edges, groupId);
    approvers := ActiveApprovers(users, targets);
  }

  /** The documented rule for one parent p of g: g itself, p, and every child of p. */
  predicate ThroughParent(edges: seq<Edge>, g: int, p: int, x: int) {
    x == g || x == p || IsParent(edges, BorrowScope, x, p)
  }

  /**
   * The walk follows every parent, not the one the documentation speaks of. It gives the documented set for parent p
   * exactly when no other parent of g, and no child of one, lies outside that set.
   */
  lemma DocumentedRoutingIff(edges: seq<Edge>, g: int, p: int)
    requires IsParent(edges, BorrowScope, g, p)
    ensures (forall x :: x in BorrowGroups(edges, g) <==> ThroughParent(edges, g, p, x)) <==>
            forall q :: IsParent(edges, BorrowScope, g, q) && q != p ==>
              && ThroughParent(edges, g, p, q)
              && forall c :: IsParent(edges, BorrowScope, c, q) ==> ThroughParent(edges, g, p, c)
  {
    forall c, q | IsParent(edges, BorrowScope, g, q) && IsParent(edges, BorrowScope, c, q)
      ensures BorrowRelated(edges, g, c)
    {
      var e :| e in edges && e.child == g && e.parent == q && Applies(e, BorrowScope);
    }
    forall x | BorrowRelated(edges, g, x) && x != g && !IsParent(edges, BorrowScope, g, x)
      ensures exists q :: IsParent(edges, BorrowScope, g, q) && IsParent(edges, BorrowScope, x, q)
    {
      var e :| e in edges && e.child == g && Applies(e, BorrowScope) && IsParent(edges, BorrowScope, x, e.parent);
      assert IsParent(edges, BorrowScope, g, e.parent);
    }
    if forall q :: IsParent(edges, BorrowScope, g, q) && q != p ==>
         && ThroughParent(edges, g, p, q)
         && forall c :: IsParent(edges, BorrowScope, c, q) ==> ThroughParent(edges, g, p, c) {
      forall x ensures x in BorrowGroups(edges, g) <==> ThroughParent(edges, g, p, x) {}
    } else {
      var q :| IsParent(edges, BorrowScope, g, q) && q != p
               && !(&& ThroughParent(edges, g, p, q)
                    && forall c :: IsParent(edges, BorrowScope, c, q) ==> ThroughParent(edges, g, p, c));
      assert q in BorrowGroups(edges, g);
      if ThroughParent(edges, g, p, q) {
        var c :| IsParent(edges, BorrowScope, c, q) && !ThroughParent(edges, g, p, c);
        assert c in BorrowGroups(edges, g);
      }
    }
  }

  /** The documented example - b over d, f and g for borrowing, a over d for swaps only - is routed as documented. */
  lemma DocumentedExampleHolds(a: int, b: int, d: int, f: int, g: int)
    requires Distinct([a, b, d, f, g])
    ensures var edges :=
            [Edge(a, d, SwapScope), Edge(b, d, BorrowScope), Edge(b, f, BorrowScope), Edge(b, g, BorrowScope)];
            BorrowGroups(edges, d) == {b, d, f, g}
  {
    var edges := [Edge(a, d, SwapScope), Edge(b, d, BorrowScope), Edge(b, f, BorrowScope), Edge(b, g, BorrowScope)];
    var groups := [a, b, d, f, g];
    assert groups[0] == a && groups[1] == b && groups[2] == d && groups[3] == f && groups[4] == g;
    assert edges[1] in edges && edges[2] in edges && edges[3] in edges;
    assert IsParent(edges, BorrowScope, d, b) && IsParent(edges, BorrowScope, f, b)
           && IsParent(edges, BorrowScope, g, b);
    DocumentedRoutingIff(edges, d, b);
    forall q | IsParent(edges, BorrowScope, d, q) ensures q == b {}
    forall x | IsParent(edges, BorrowScope, x, b) ensures x == d || x == f || x == g {}
  }

  /** With the edge from a tagged for borrowing too, and a over e, a borrow from d is also routed to a and to e. */
  lemma AllBorrowExampleIsWider(a: int, b: int, d: int, e: int, f: int, g: int)
    requires Distinct([a, b, d, e, f, g])
    ensures var edges := [Edge(a, d, BorrowScope), Edge(a, e, BorrowScope),
                          Edge(b, d, BorrowScope), Edge(b, f, BorrowScope), Edge(b, g, BorrowScope)];
            && IsParent(edges, BorrowScope, d, b)
            && a in BorrowGroups(edges, d) && !ThroughParent(edges, d, b, a)
            && e in BorrowGroups(edges, d) && !ThroughParent(edges, d, b, e)
  {
    var edges := [Edge(a, d, BorrowScope), Edge(a, e, BorrowScope),
                  Edge(b, d, BorrowScope), Edge(b, f, BorrowScope), Edge(b, g, BorrowScope)];
    var groups := [a, b, d, e, f, g];
    assert groups[0] == a && groups[1] == b && groups[2] == d && groups[3] == e && groups[4] == f && groups[5] == g;
    assert edges[0] in edges && edges[1] in edges && edges[2] in edges;
    assert IsParent(edges, BorrowScope, d, a) && IsParent(edges, BorrowScope, e, a)
           && IsParent(edges, BorrowScope, d, b);
    assert BorrowRelated(edges, d, e);
  }

  // --- Independence of the two domains -----------------------------------

  /** The two tables hold the same edges for a domain. */
  ghost predicate SameFor(edges: seq<Edge>, other: seq<Edge>, scope: Scope) {
    forall c, p :: IsParent(edges, scope, c, p) <==> IsParent(other, scope, c, p)
  }

  /** Adding or removing edges tagged for the other domain alone changes no routing. */
  lemma RoutingIgnoresOtherDomain(users: seq<User>, before: seq<Edge>, after: seq<Edge>, e: Edge, g: int)
    ensures e.scope == BorrowScope ==>
            SwapApprovers(users, before + [e] + after, Some(g)) == SwapApprovers(users, before + after, Some(g))
    ensures e.scope == SwapScope ==>
            BorrowApprovers(users, before + [e] + after, g) == BorrowApprovers(users, before + after, g)
  {
    var edges, other := before + [e] + after, before + after;
    assert forall x :: x in edges <==> x in other || x == e;
    if e.scope == BorrowScope {
      assert SameFor(edges, other, SwapScope);
      assert Ancestors(edges, SwapScope, g) == Ancestors(other, SwapScope, g) by {
        SameReach(edges, other, SwapScope, g);
        SameReach(other, edges, SwapScope, g);
      }
    } else if e.scope == SwapScope {
      assert SameFor(edges, other, BorrowScope);
      assert BorrowGroups(edges, g) == BorrowGroups(other, g) by {
        SameRelated(edges, other, g);
        SameRelated(other, edges, g);
      }
    }
  }

  lemma SameReach(edges: seq<Edge>, other: seq<Edge>, scope: Scope, g: int)
    requires SameFor(edges, other, scope)
    ensures forall x :: Reaches(edges, scope, g, x) ==> Reaches(other, scope, g, x)
  {
    forall x | Reaches(edges, scope, g, x) ensures Reaches(other, scope, g, x) {
      var path :| PathBetween(edges, scope, path, g, x);
      assert PathBetween(other, scope, path, g, x);
    }
  }

  lemma SameRelated(edges: seq<Edge>, other: seq<Edge>, g: int)
    requires SameFor(edges, other, BorrowScope)
    ensures forall x :: BorrowRelated(edges, g, x) ==> BorrowRelated(other, g, x)
  {
    forall x | BorrowRelated(edges, g, x) ensures BorrowRelated(other, g, x) {
      if x != g && !IsParent(edges, BorrowScope, g, x) {
        var e :| e in edges && e.child == g && Applies(e, BorrowScope) && IsParent(edges, BorrowScope, x, e.parent);
        assert IsParent(edges, BorrowScope, g, e.parent);
        assert IsParent(other, BorrowScope, g, e.parent);
      }
    }
  }

  // --- Editing the table -------------------------------------------------

  /** `create_edge`: only self-loops and exact duplicates are refused. */
  function CreateEdge(groups: set<int>, edges: seq<Edge>, edge: Edge): Result<seq<Edge>> {
    if edge.parent !in groups || edge.child !in groups then Err(NotFound)
    else if edge.parent == edge.child then Err(Invalid)
    else if edge in edges then Err(Conflict)
    else Ok(edges + [edge])
  }

  /** `delete_edge`: removes the first row equal to edge. */
  function DeleteEdge(edges: seq<Edge>, edge: Edge): Result<seq<Edge>> {
    match FindFirst(edges, (e: Edge) => e == edge)
    case None => Err(NotFound)
    case Some(i) => Ok(edges[..i] + edges[i + 1..])
  }

  // --- Acyclicity --------------------------------------------------------

  /** No group is a strict ancestor of itself. */
  ghost predicate Acyclic(edges: seq<Edge>, scope: Scope) {
    forall path :: IsPath(edges, scope, path) && |path| > 1 ==> path[0] != path[|path| - 1]
  }

  lemma PathExtends(edges: seq<Edge>, scope: Scope, from: int, mid: int, to: int)
    requires Reaches(edges, scope, from, mid) && IsParent(edges, scope, mid, to)
    ensures Reaches(edges, scope, from, to)
  {
    var path :| PathBetween(edges, scope, path, from, mid);
    assert PathBetween(edges, scope, path + [to], from, to);
  }

  lemma PathsJoin(edges: seq<Edge>, scope: Scope, from: int, mid: int, to: int)
    requires Reaches(edges, scope, from, mid) && Reaches(edges, scope, mid, to)
    ensures Reaches(edges, scope, from, to)
  {
    var head :| PathBetween(edges, scope, head, from, mid);
    var tail :| PathBetween(edges, scope, tail, mid, to);
    var path := head + tail[1..];
    forall i | 0 <= i < |path| - 1 ensures IsParent(edges, scope, path[i], path[i + 1]) {
      if i >= |head| - 1 {
        assert path[i] == tail[i - |head| + 1] && path[i + 1] == tail[i - |head| + 2];
      }
    }
    assert PathBetween(edges, scope, path, from, to);
  }

  /** A step of the grown table is a step of the old one, or the new edge. */
  lemma StepOfGrown(edges: seq<Edge>, e: Edge, scope: Scope, child: int, parent: int)
    ensures IsParent(edges + [e], scope, child, parent) <==>
            IsParent(edges, scope, child, parent) || (Applies(e, scope) && e.child == child && e.parent == parent)
  {
    assert forall x :: x in edges + [e] <==> x in edges || x == e;
  }

  lemma TrivialReach(edges: seq<Edge>, scope: Scope, g: int)
    ensures Reaches(edges, scope, g, g)
  {
    assert PathBetween(edges, scope, [g], g, g);
  }

  /** A path of the grown table avoids the new edge, or leads to its child and on from its parent in the old one. */
  lemma {:induction false} PathOfGrown(edges: seq<Edge>, e: Edge, scope: Scope, path: seq<int>)
    requires IsPath(edges + [e], scope, path)
    ensures || IsPath(edges, scope, path)
            || (&& Applies(e, scope)
                && Reaches(edges, scope, path[0], e.child) && Reaches(edges, scope, e.parent, path[|path| - 1]))
  {
    var n := |path| - 1;
    if n > 0 {
      var init := path[..n];
      PathOfGrown(edges, e, scope, init);
      assert IsParent(edges + [e], scope, path[n - 1], path[n]);
      StepOfGrown(edges, e, scope, path[n - 1], path[n]);
      if IsParent(edges, scope, path[n - 1], path[n]) {
        if !IsPath(edges, scope, init) {
          PathExtends(edges, scope, e.parent, path[n - 1], path[n]);
        }
      } else {
        TrivialReach(edges, scope, e.parent);
        if IsPath(edges, scope, init) {
          assert PathBetween(edges, scope, init, path[0], e.child);
        }
      }
    }
  }

  lemma GrownPath(edges: seq<Edge>, e: Edge, scope: Scope, path: seq<int>)
    requires IsPath(edges, scope, path)
    ensures IsPath(edges + [e], scope, path)
  {
    forall i | 0 <= i < |path| - 1 ensures IsParent(edges + [e], scope, path[i], path[i + 1]) {
      StepOfGrown(edges, e, scope, path[i], path[i + 1]);
    }
  }

  /** One more edge keeps a table acyclic exactly when its child is not already the parent or one of its ancestors. */
  lemma AcyclicGrowsIff(edges: seq<Edge>, e: Edge, scope: Scope)
    requires Acyclic(edges, scope)
    ensures Acyclic(edges + [e], scope) <==> (Applies(e, scope) ==> !Reaches(edges, scope, e.parent, e.child))
  {
    if Applies(e, scope) && Reaches(edges, scope, e.parent, e.child) {
      var up :| PathBetween(edges, scope, up, e.parent, e.child);
      GrownPath(edges, e, scope, up);
      StepOfGrown(edges, e, scope, e.child, e.parent);
      var cycle := [e.child] + up;
      forall i | 0 <= i < |cycle| - 1 ensures IsParent(edges + [e], scope, cycle[i], cycle[i + 1]) {
        if i > 0 {
          assert cycle[i] == up[i - 1] && cycle[i + 1] == up[i];
        }
      }
      assert IsPath(edges + [e], scope, cycle);
    } else {
      forall path | IsPath(edges + [e], scope, path) && |path| > 1 ensures path[0] != path[|path| - 1] {
        PathOfGrown(edges, e, scope, path);
        if path[0] == path[|path| - 1] && !IsPath(edges, scope, path) {
          PathsJoin(edges, scope, e.parent, path[0], e.child);
        }
      }
    }
  }

  lemma AcyclicShrinks(edges: seq<Edge>, fewer: seq<Edge>, scope: Scope)
    requires Acyclic(edges, scope) && forall e :: e in fewer ==> e in edges
    ensures Acyclic(fewer, scope)
  {
    forall path | IsPath(fewer, scope, path) && |path| > 1 ensures path[0] != path[|path| - 1] {
      forall i | 0 <= i < |path| - 1 ensures IsParent(edges, scope, path[i], path[i + 1]) {
        assert IsParent(fewer, scope, path[i], path[i + 1]);
      }
      assert IsPath(edges, scope, path);
    }
  }

  /**
   * The child is already the parent or an ancestor of it: what the walk from the parent tells, and `create_edge` never
   * asks.
   */
  ghost predicate ClosesCycle(edges: seq<Edge>, edge: Edge, scope: Scope) {
    Applies(edge, scope) && Reaches(edges, scope, edge.parent, edge.child)
  }

  /** An accepted edge keeps the table acyclic exactly when it does not close a cycle; a deleted edge always does. */
  lemma EditsKeepAcyclicIff(groups: set<int>, edges: seq<Edge>, edge: Edge, scope: Scope)
    requires Acyclic(edges, scope)
    ensures CreateEdge(groups, edges, edge).Ok? ==>
              (Acyclic(CreateEdge(groups, edges, edge).value, scope) <==> !ClosesCycle(edges, edge, scope))
    ensures DeleteEdge(edges, edge).Ok? ==> Acyclic(DeleteEdge(edges, edge).value, scope)
  {
    AcyclicGrowsIff(edges, edge, scope);
    if DeleteEdge(edges, edge).Ok? {
      AcyclicShrinks(edges, DeleteEdge(edges, edge).value, scope);
    }
  }

  /**
   * The table is not kept acyclic: two accepted edges close a cycle, and each group becomes its own strict ancestor.
   */
  lemma CycleIsAccepted(g: int, h: int)
    requires g != h
    ensures var first := CreateEdge({g, h}, [], Edge(g, h, BothScopes));
            && first.Ok?
            && var second := CreateEdge({g, h}, first.value, Edge(h, g, BothScopes));
            && second.Ok?
            && PathBetween(second.value, SwapScope, [g, h, g], g, g)
  {
    var edges := [Edge(g, h, BothScopes), Edge(h, g, BothScopes)];
    assert edges == [Edge(g, h, BothScopes)] + [Edge(h, g, BothScopes)];
    assert edges[0] in edges && edges[1] in edges;
    assert IsParent(edges, SwapScope, h, g) && IsParent(edges, SwapScope, g, h);
  }
}
