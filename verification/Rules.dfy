/**
 * The rules of the design, read off the rows of the tables: the reference that each call's checks and writes are
 * compared with. Nothing here uses the service specifications.
 */
module Rules {
  import opened Common
  import opened Domain

  // --- Checks ------------------------------------------------------------

  /** Whether a call passes its checks, or the error of the first one that fails. */
  datatype Outcome = Pass | Fail(error: Error) {
    predicate IsFailure() { Fail? }

    function PropagateFailure(): Outcome
      requires Fail?
    {
      this
    }
  }

  function Need(condition: bool, error: Error): Outcome {
    if condition then Pass else Fail(error)
  }

  // --- Users -------------------------------------------------------------

  predicate SignedIn(s: State, a: int) {
    0 <= a < |s.users| && s.users[a].isActive
  }

  predicate Granted(s: State, a: int, p: Permission) {
    0 <= a < |s.users| && p in s.users[a].permissions
  }

  predicate IsRole(s: State, a: int, roles: set<Role>) {
    0 <= a < |s.users| && s.users[a].role.Some? && s.users[a].role.value in roles
  }

  /** Through the primary group or a membership. */
  predicate BelongsTo(u: User, group: int) {
    u.groupId == Some(group) || group in u.groups
  }

  /** An approved, active Lead or Manager whose primary group is group. */
  predicate LeadsGroup(s: State, a: int, group: int) {
    && IsRole(s, a, {Lead, Manager})
    && s.users[a].status == Approved && s.users[a].isActive && s.users[a].groupId == Some(group)
  }

  // --- The hierarchy -----------------------------------------------------

  /** Some edge for the domain, or for both, makes parent a parent of child. */
  predicate Joined(edges: seq<Edge>, scope: Scope, child: int, parent: int) {
    Edge(parent, child, scope) in edges || Edge(parent, child, BothScopes) in edges
  }

  /** path climbs from a group to one of its ancestors, one edge at a time. */
  ghost predicate Climbs(edges: seq<Edge>, scope: Scope, path: seq<int>, from: int, to: int) {
    && path != [] && path[0] == from && path[|path| - 1] == to
    && forall i :: 0 < i < |path| ==> Joined(edges, scope, path[i - 1], path[i])
  }

  /** A swap of a setup of group g is routed to a: a leads g or an ancestor of it. */
  ghost predicate RoutedForSwap(s: State, g: Option<int>, a: int) {
    g.Some? && exists path, top :: Climbs(s.edges, SwapScope, path, g.value, top) && LeadsGroup(s, a, top)
  }

  /** A borrow from group g is routed to a: a leads g, a parent of g, or another child of a parent of g. */
  ghost predicate RoutedForBorrow(s: State, g: int, a: int) {
    || LeadsGroup(s, a, g)
    || (exists parent :: Joined(s.edges, BorrowScope, g, parent) && LeadsGroup(s, a, parent))
    || exists parent, sibling ::
         && Joined(s.edges, BorrowScope, g, parent) && Joined(s.edges, BorrowScope, sibling, parent)
         && LeadsGroup(s, a, sibling)
  }

  /** Who decides a swap: an Owner, a routed approver, or anybody when nobody is routed. */
  ghost predicate DecidesSwap(s: State, setupId: int, a: int)
    requires 0 <= setupId < |s.setups|
  {
    var g := s.setups[setupId].groupId;
    IsRole(s, a, {Owner}) || RoutedForSwap(s, g, a) || !exists u :: RoutedForSwap(s, g, u)
  }

  /** Who decides a borrow: never its requester; an Owner, a routed approver, or anybody when nobody else is routed. */
  ghost predicate DecidesBorrow(s: State, b: Borrow, a: int) {
    && a != b.requesterId
    && (|| IsRole(s, a, {Owner})
        || RoutedForBorrow(s, b.sourceGroupId, a)
        || !exists u :: u != b.requesterId && RoutedForBorrow(s, b.sourceGroupId, u))
  }

  /** Who ends a loan: its requester, an Owner, or a Lead or Manager of the borrowing group or routed for the lender. */
  ghost predicate ReturnsBorrow(s: State, b: Borrow, a: int) {
    || a == b.requesterId
    || IsRole(s, a, {Owner})
    || (IsRole(s, a, {Lead, Manager}) && BelongsTo(s.users[a], b.targetGroupId))
    || RoutedForBorrow(s, b.sourceGroupId, a)
  }

  // --- Setups ------------------------------------------------------------

  predicate Exists(s: State, x: int) {
    0 <= x < |s.setups|
  }

  /** Neither under maintenance nor retired. */
  predicate InUse(s: State, x: int) {
    Exists(s, x) && (s.setups[x].status == Available || s.setups[x].status == Reserved)
  }

  /** An active grant lends x. */
  predicate Lent(s: State, x: int) {
    exists g :: g in s.grants && g.setupId == x && g.isActive
  }

  /** The group holds x: an active grant lends it to the group, or the group owns it and it is not lent. */
  predicate Holds(s: State, x: int, group: int) {
    || (exists g :: g in s.grants && g.setupId == x && g.isActive && g.grantedToGroupId == group)
    || (Exists(s, x) && s.setups[x].groupId == Some(group) && !Lent(s, x))
  }

  /** Who may offer x for a swap: an Owner, a member of a group that holds it, or anybody when no group does. */
  ghost predicate Reaches(s: State, x: int, a: int) {
    || IsRole(s, a, {Owner})
    || (0 <= a < |s.users| && exists group :: Holds(s, x, group) && BelongsTo(s.users[a], group))
    || !exists group :: Holds(s, x, group)
  }

  /** The custom columns of a setup's product. */
  function ColumnsAt(s: State, x: int): seq<Column> {
    if Exists(s, x) && s.setups[x].productId in s.templates then s.templates[s.setups[x].productId] else []
  }

  predicate HasColumn(s: State, x: int, name: string) {
    exists c :: c in ColumnsAt(s, x) && c.name == name
  }

  predicate IsFieldName(name: string) {
    name in ["ssd", "hdd", "hardware_info", "capacity", "form_factor", "adapter", "aardvark", "quarch", "apc",
             "remote_server"]
  }

  /** The table of setups with one status written. */
  function StatusWritten(setups: seq<Setup>, x: int, status: SetupStatus): seq<Setup> {
    seq(|setups|, i requires 0 <= i < |setups| => if i == x then setups[i].(status := status) else setups[i])
  }
}
