/** The routing, access and decision predicates of the services mean what the design says of the rows. */
module RoutingRules {
  import opened Common
  import opened Domain
  import opened ApprovalRouting
  import opened Holder
  import opened Borrows
  import opened Swaps
  import Rules

  lemma JoinedIff(edges: seq<Edge>, scope: Scope, child: int, parent: int)
    ensures IsParent(edges, scope, child, parent) <==> Rules.Joined(edges, scope, child, parent)
  {
    forall e | e in edges && e.child == child && e.parent == parent
      ensures e == Edge(parent, child, e.scope)
    {}
    assert Applies(Edge(parent, child, scope), scope) && Applies(Edge(parent, child, BothScopes), scope);
  }

  lemma ClimbsIff(edges: seq<Edge>, scope: Scope, path: seq<int>, from: int, to: int)
    ensures PathBetween(edges, scope, path, from, to) <==> Rules.Climbs(edges, scope, path, from, to)
  {
    forall i | 0 < i < |path|
      ensures IsParent(edges, scope, path[i - 1], path[i]) <==> Rules.Joined(edges, scope, path[i - 1], path[i])
    {
      JoinedIff(edges, scope, path[i - 1], path[i]);
    }
    if Rules.Climbs(edges, scope, path, from, to) {
      forall i | 0 <= i < |path| - 1 ensures IsParent(edges, scope, path[i], path[i + 1]) {
        assert Rules.Joined(edges, scope, path[i + 1 - 1], path[i + 1]);
      }
    }
    if PathBetween(edges, scope, path, from, to) {
      forall i | 0 < i < |path| ensures Rules.Joined(edges, scope, path[i - 1], path[i]) {
        assert IsParent(edges, scope, path[i - 1], path[i - 1 + 1]);
      }
    }
  }

  lemma ApproverIff(s: State, groups: set<int>, a: int)
    ensures a in ActiveApprovers(s.users, groups) <==> exists g :: g in groups && Rules.LeadsGroup(s, a, g)
  {
    if a in ActiveApprovers(s.users, groups) {
      assert Rules.LeadsGroup(s, a, s.users[a].groupId.value);
    }
  }

  lemma SwapRoutedIff(s: State, g: Option<int>, a: int)
    ensures a in SwapApprovers(s.users, s.edges, g) <==> Rules.RoutedForSwap(s, g, a)
  {
    if g.Some? {
      var ancestors := Ancestors(s.edges, SwapScope, g.value);
      ApproverIff(s, ancestors, a);
      forall path, top ensures PathBetween(s.edges, SwapScope, path, g.value, top) <==>
                               Rules.Climbs(s.edges, SwapScope, path, g.value, top) {
        ClimbsIff(s.edges, SwapScope, path, g.value, top);
      }
    }
  }

  lemma BorrowRoutedIff(s: State, g: int, a: int)
    ensures a in BorrowApprovers(s.users, s.edges, g) <==> Rules.RoutedForBorrow(s, g, a)
  {
    ApproverIff(s, BorrowGroups(s.edges, g), a);
    forall x ensures BorrowRelated(s.edges, g, x) <==>
        || x == g || Rules.Joined(s.edges, BorrowScope, g, x)
        || exists p :: Rules.Joined(s.edges, BorrowScope, g, p) && Rules.Joined(s.edges, BorrowScope, x, p)
    {
      RelatedIff(s.edges, g, x);
    }
  }

  lemma RelatedIff(edges: seq<Edge>, g: int, x: int)
    ensures BorrowRelated(edges, g, x) <==>
            || x == g || Rules.Joined(edges, BorrowScope, g, x)
            || exists p :: Rules.Joined(edges, BorrowScope, g, p) && Rules.Joined(edges, BorrowScope, x, p)
  {
    JoinedIff(edges, BorrowScope, g, x);
    forall p ensures && (IsParent(edges, BorrowScope, g, p) <==> Rules.Joined(edges, BorrowScope, g, p))
                     && (IsParent(edges, BorrowScope, x, p) <==> Rules.Joined(edges, BorrowScope, x, p)) {
      JoinedIff(edges, BorrowScope, g, p);
      JoinedIff(edges, BorrowScope, x, p);
    }
  }

  lemma MayApproveIff(s: State, x: int, a: int)
    requires s.HasUser(a) && s.HasSetup(x)
    ensures MayApprove(s, x, a) <==> Rules.DecidesSwap(s, x, a)
  {
    var g := s.setups[x].groupId;
    forall u ensures u in SwapApprovers(s.users, s.edges, g) <==> Rules.RoutedForSwap(s, g, u) {
      SwapRoutedIff(s, g, u);
    }
  }

  lemma MayDecideIff(s: State, b: Borrow, a: int)
    requires s.HasUser(a)
    ensures MayDecide(s, b, a) <==> Rules.DecidesBorrow(s, b, a)
  {
    forall u ensures u in BorrowApprovers(s.users, s.edges, b.sourceGroupId) <==>
                     Rules.RoutedForBorrow(s, b.sourceGroupId, u) {
      BorrowRoutedIff(s, b.sourceGroupId, u);
    }
    var others := BorrowApprovers(s.users, s.edges, b.sourceGroupId) - {b.requesterId};
    if u :| u != b.requesterId && Rules.RoutedForBorrow(s, b.sourceGroupId, u) {
      assert u in others;
    } else {
      assert others == {};
    }
  }

  lemma MayReturnIff(s: State, b: Borrow, a: int)
    requires s.HasUser(a)
    ensures MayReturn(s, b, a) <==> Rules.ReturnsBorrow(s, b, a)
  {
    BorrowRoutedIff(s, b.sourceGroupId, a);
  }

  lemma HoldsIff(s: State, x: int, g: int)
    requires s.HasSetup(x)
    ensures g in HoldingGroups(s, x) <==> Rules.Holds(s, x, g)
  {
    if Rules.Lent(s, x) {
      var grant :| grant in s.grants && grant.setupId == x && grant.isActive;
      assert ActiveFor(grant, x);
      var granted := set h | h in s.grants && ActiveFor(h, x) :: h.grantedToGroupId;
      assert grant.grantedToGroupId in granted;
    }
  }

  lemma HasAccessIff(s: State, x: int, a: int)
    requires s.HasUser(a) && s.HasSetup(x)
    ensures HasAccess(s, x, a) <==> Rules.Reaches(s, x, a)
  {
    var held, mine := HoldingGroups(s, x), s.users[a].AllGroups();
    forall g ensures g in held <==> Rules.Holds(s, x, g) {
      HoldsIff(s, x, g);
    }
    forall g ensures g in mine <==> Rules.BelongsTo(s.users[a], g) {}
    NonemptyIff(held * mine);
    NonemptyIff(held);
    assert forall g :: g in held * mine <==> g in held && g in mine;
  }

  lemma NonemptyIff(groups: set<int>)
    ensures groups != {} <==> exists g :: g in groups
  {
    if !exists g :: g in groups {
      assert groups == {};
    }
  }

  lemma DecidesAfterExpiry(s: State, now: int, b: Borrow, a: int)
    requires s.HasUser(a)
    ensures MayDecide(ExpireBorrows(s, now), b, a) <==> Rules.DecidesBorrow(s, b, a)
  {
    MayDecideIff(ExpireBorrows(s, now), b, a);
    SameRouting(s, now, b, a);
  }

  lemma SameRouting(s: State, now: int, b: Borrow, a: int)
    ensures Rules.DecidesBorrow(ExpireBorrows(s, now), b, a) <==> Rules.DecidesBorrow(s, b, a)
  {
    var e := ExpireBorrows(s, now);
    forall u ensures Rules.RoutedForBorrow(e, b.sourceGroupId, u) <==> Rules.RoutedForBorrow(s, b.sourceGroupId, u) {
      assert forall g :: Rules.LeadsGroup(e, u, g) <==> Rules.LeadsGroup(s, u, g);
    }
  }
}
