/** Who effectively holds a setup: the group with an active borrow grant, else the owning group. Never stored. */
module Holder {
  import opened Common
  import opened Domain

  /** `get_active_grant_for_setup`. */
  function FindActiveGrant(grants: seq<Grant>, setupId: int): Option<nat> {
    FindFirst(grants, (g: Grant) => g.setupId == setupId && g.isActive)
  }

  predicate ActiveFor(g: Grant, setupId: int) {
    g.setupId == setupId && g.isActive
  }

  /** The effective holder as the design states it. */
  function HolderOf(s: State, setupId: int): Option<int>
    requires s.HasSetup(setupId)
  {
    match FindActiveGrant(s.grants, setupId)
    case Some(j) => Some(s.grants[j].grantedToGroupId)
    case None => s.setups[setupId].groupId
  }

  // --- The three independent readings ------------------------------------

  /** The group filter of the setup list: owned and not lent out, or lent to the group. */
  predicate ListedUnder(s: State, setupId: int, groupId: int)
    requires s.HasSetup(setupId)
  {
    || (s.setups[setupId].groupId == Some(groupId) && !exists g :: g in s.grants && ActiveFor(g, setupId))
    || exists g :: g in s.grants && ActiveFor(g, setupId) && g.grantedToGroupId == groupId
  }

  /** The groups whose members may raise a swap: every active grant's group, else the owning group. */
  function HoldingGroups(s: State, setupId: int): set<int>
    requires s.HasSetup(setupId)
  {
    var granted := set g | g in s.grants && ActiveFor(g, setupId) :: g.grantedToGroupId;
    if granted == {} && s.setups[setupId].groupId.Some? then {s.setups[setupId].groupId.value} else granted
  }

  /** `get_active_grants`: one active grant per setup id, later rows overwriting earlier ones. */
  function ActiveGrantsMap(grants: seq<Grant>): map<int, Grant> {
    if grants == [] then map[]
    else
      var last := grants[|grants| - 1];
      var earlier := ActiveGrantsMap(grants[..|grants| - 1]);
      if last.isActive then earlier[last.setupId := last] else earlier
  }

  // --- Their agreement ---------------------------------------------------

  /** At most one active grant per setup. */
  ghost predicate OneActiveGrant(grants: seq<Grant>) {
    forall i, j :: 0 <= i < j < |grants| && grants[i].isActive && grants[j].isActive ==>
      grants[i].setupId != grants[j].setupId
  }

  /** m maps each setup to its active grant. */
  ghost predicate MapsActive(grants: seq<Grant>, m: map<int, Grant>) {
    && (forall k :: k in m ==> m[k] in grants && ActiveFor(m[k], k))
    && forall g :: g in grants && g.isActive ==> g.setupId in m && m[g.setupId] == g
  }

  lemma {:induction false} ActiveGrantsMapMeaning(grants: seq<Grant>)
    requires OneActiveGrant(grants)
    ensures MapsActive(grants, ActiveGrantsMap(grants))
  {
    if grants != [] {
      var n := |grants| - 1;
      ActiveGrantsMapMeaning(grants[..n]);
      assert grants == grants[..n] + [grants[n]];
      forall g | g in grants[..n] && g.isActive && grants[n].isActive ensures g.setupId != grants[n].setupId {
        var i :| 0 <= i < n && grants[..n][i] == g;
        assert grants[i] == g;
      }
    }
  }

  /** All readings agree, and a setup with a holder is listed under exactly one group. */
  lemma ReadingsAgree(s: State, setupId: int)
    requires s.HasSetup(setupId) && OneActiveGrant(s.grants)
    ensures forall g :: ListedUnder(s, setupId, g) <==> HolderOf(s, setupId) == Some(g)
    ensures forall g :: g in HoldingGroups(s, setupId) <==> HolderOf(s, setupId) == Some(g)
    ensures HolderOf(s, setupId) ==
            if setupId in ActiveGrantsMap(s.grants) then Some(ActiveGrantsMap(s.grants)[setupId].grantedToGroupId)
            else s.setups[setupId].groupId
  {
    ActiveGrantsMapMeaning(s.grants);
    match FindActiveGrant(s.grants, setupId)
    case Some(j) =>
      assert s.grants[j] in s.grants && ActiveFor(s.grants[j], setupId);
      forall g | g in s.grants && ActiveFor(g, setupId) ensures g == s.grants[j] {
        var i :| 0 <= i < |s.grants| && s.grants[i] == g;
      }
      assert s.grants[j].grantedToGroupId in HoldingGroups(s, setupId);
    case None =>
      forall g | g in s.grants ensures !ActiveFor(g, setupId) {
        var i :| 0 <= i < |s.grants| && s.grants[i] == g;
      }
  }
}
