/** Setups over whole runs: addresses and host names stay unique, and when a retired setup comes back. */
module SetupRuns {
  import opened Common
  import opened Domain
  import opened Reservations
  import opened Imports
  import opened SetupEdits
  import opened Runs
  import opened Effects
  import Rules
  import ReservationRules
  import ReservationRuns

  // --- Unique keys -------------------------------------------------------

  /** Every setup keeps its address and host name. */
  predicate SameKeys(setups: seq<Setup>, setups': seq<Setup>) {
    && |setups'| == |setups|
    && forall x :: 0 <= x < |setups| ==>
         setups'[x].ipAddress == setups[x].ipAddress && setups'[x].hostname == setups[x].hostname
  }

  lemma SameKeysUnique(setups: seq<Setup>, setups': seq<Setup>)
    requires UniqueKeys(setups) && SameKeys(setups, setups')
    ensures UniqueKeys(setups')
  {
    forall i, j | 0 <= i < j < |setups'| ensures !SameKey(setups'[i], setups'[j].ipAddress, setups'[j].hostname) {
      assert !SameKey(setups[i], setups[j].ipAddress, setups[j].hostname);
    }
  }

  lemma EditKeepsKeys(s: State, x: int, edit: SetupEdit)
    requires UniqueKeys(s.setups) && EditSetup(s, x, edit).Ok?
    ensures UniqueKeys(EditSetup(s, x, edit).value.setups)
  {
    var own := s.setups[x];
    KeysIgnoreStatus(s.setups, x, EditedSetup(own, edit), Or(edit.status, own.status));
    if !edit.SetsKeys() {
      SameKeysUnique(s.setups, EditSetup(s, x, edit).value.setups);
    }
  }

  lemma AdminKeepsKeys(s: State, a: int, call: AdminCall)
    requires UniqueKeys(s.setups) && s.HasUser(a) && ExecAdmin(s, a, call).Ok?
    ensures UniqueKeys(ExecAdmin(s, a, call).value.setups)
  {
    AdminCallEffect(s, a, call);
    if call.EditSetupCall? {
      EditKeepsKeys(s, call.editedId, call.edit);
    } else if call.ImportCall? && BatchErrors(call.directory, call.rows) == 0 {
      BatchHolds(call.directory, StartImport(s), call.rows);
    }
  }

  lemma NextKeepsKeys(s: State, c: Call)
    requires SwapsWellFormed(s) && UniqueKeys(s.setups)
    ensures UniqueKeys(Next(s, c).setups)
  {
    if Exec(s, c).Ok? {
      match c
      case OnAdmin(a, call) => AdminKeepsKeys(s, a, call);
      case OnSwap(a, call) =>
        SwapCallKeepsWellFormed(s, a, call);
        SameKeysUnique(s.setups, Next(s, c).setups);
      case OnBorrow(a, now, call) => BorrowCallEffect(s, a, now, call);
      case OnReservation(a, now, call) =>
        ReservationCallEffect(s, a, now, call);
        SameKeysUnique(s.setups, Next(s, c).setups);
      case ReservationJob(now) =>
        SweepEffect(s, now);
        SameKeysUnique(s.setups, Next(s, c).setups);
      case BorrowJob(now) =>
    }
  }

  /** In every run no two setups share an address or a host name. */
  lemma {:induction false} RunKeepsKeys(s: State, calls: seq<Call>)
    requires SwapsWellFormed(s) && UniqueKeys(s.setups)
    ensures SwapsWellFormed(Run(s, calls)) && UniqueKeys(Run(s, calls).setups)
  {
    if calls != [] {
      var before, c := Run(s, calls[..|calls| - 1]), calls[|calls| - 1];
      RunKeepsKeys(s, calls[..|calls| - 1]);
      NextKeepsWellFormed(before, c);
      NextKeepsKeys(before, c);
    }
  }

  // --- Retired setups ----------------------------------------------------

  predicate IsRetired(s: State, x: int) {
    s.HasSetup(x) && s.setups[x].status == Retired
  }

  /** Call c, made in state s, cancels an ACTIVE reservation of x, or is a sweep that finds one of it over. */
  ghost predicate Revives(s: State, c: Call, x: int) {
    || (&& c.OnReservation? && c.reservation.CancelReservationCall? && Exec(s, c).Ok?
        && s.reservations[c.reservation.reservationId].setupId == x)
    || (c.ReservationJob? && ReservationRules.FreedBy(s, x, c.now))
  }

  lemma ReservationReviveIff(s: State, a: int, now: int, call: ReservationCall, x: int)
    requires NoDoubleBooking(s.reservations) && IsRetired(s, x)
    ensures var c := OnReservation(a, now, call); IsRetired(Next(s, c), x) <==> !Revives(s, c, x)
  {
    match call
    case ReserveCall(y, from, until) => ReservationRules.ReserveAnswer(s, a, now, y, from, until);
    case CancelReservationCall(id) => ReservationRules.CancelAnswer(s, a, now, id);
  }

  lemma EditKeepsRetired(s: State, y: int, edit: SetupEdit, x: int)
    requires IsRetired(s, x) && EditSetup(s, y, edit).Ok?
    ensures IsRetired(EditSetup(s, y, edit).value, x)
  {
  }

  /** A retired setup stays retired across a step exactly when the step frees no reservation of it. */
  lemma NextKeepsRetiredIff(s: State, c: Call, x: int)
    requires SwapsWellFormed(s) && NoDoubleBooking(s.reservations) && IsRetired(s, x)
    ensures IsRetired(Next(s, c), x) <==> !Revives(s, c, x)
  {
    match c
    case OnReservation(a, now, call) => ReservationReviveIff(s, a, now, call, x);
    case ReservationJob(now) => ReservationRules.SweepAnswer(s, now);
    case BorrowJob(now) =>
    case _ => OtherCallsKeepRetired(s, c, x);
  }

  lemma OtherCallsKeepRetired(s: State, c: Call, x: int)
    requires SwapsWellFormed(s) && IsRetired(s, x) && (c.OnSwap? || c.OnBorrow? || c.OnAdmin?)
    ensures IsRetired(Next(s, c), x)
  {
    if Exec(s, c).Ok? {
      match c
      case OnSwap(a, call) => SwapCallKeepsWellFormed(s, a, call);
      case OnBorrow(a, now, call) => BorrowCallEffect(s, a, now, call);
      case OnAdmin(a, call) =>
        if call.EditSetupCall? {
          EditKeepsRetired(s, call.editedId, call.edit, x);
        } else {
          ReservationRuns.AdminKeepsStatuses(s, a, call);
        }
    }
  }

  /** Call k of the run frees a reservation of x. */
  ghost predicate RevivesAt(s: State, calls: seq<Call>, k: int, x: int)
    requires 0 <= k < |calls|
  {
    Revives(Before(s, calls, k), calls[k], x)
  }

  ghost predicate RetiredAt(s: State, calls: seq<Call>, k: int, x: int)
    requires 0 <= k <= |calls|
  {
    IsRetired(Before(s, calls, k), x)
  }

  lemma StepKeepsRetiredIff(s: State, calls: seq<Call>, k: int, x: int)
    requires SwapsWellFormed(s) && NoDoubleBooking(s.reservations) && UniqueKeys(s.setups)
    requires 0 <= k < |calls| && RetiredAt(s, calls, k, x)
    ensures RetiredAt(s, calls, k + 1, x) <==> !RevivesAt(s, calls, k, x)
  {
    RunKeepsKeys(s, calls[..k]);
    ReservationRuns.NeverDoubleBooked(s, calls[..k]);
    RunSteps(s, calls, k);
    NextKeepsRetiredIff(Before(s, calls, k), calls[k], x);
  }

  lemma {:induction false} RetiredUpTo(s: State, calls: seq<Call>, k: int, x: int)
    requires SwapsWellFormed(s) && NoDoubleBooking(s.reservations) && UniqueKeys(s.setups)
    requires 0 <= k <= |calls| && IsRetired(s, x)
    requires forall i :: 0 <= i < |calls| ==> !RevivesAt(s, calls, i, x)
    ensures RetiredAt(s, calls, k, x)
  {
    if k == 0 {
      RunEnds(s, calls);
    } else {
      RetiredUpTo(s, calls, k - 1, x);
      StepKeepsRetiredIff(s, calls, k - 1, x);
    }
  }

  /** A retired setup stays retired throughout a run exactly when no call of the run frees a reservation of it. */
  lemma RetiredStaysIff(s: State, calls: seq<Call>, x: int)
    requires SwapsWellFormed(s) && NoDoubleBooking(s.reservations) && UniqueKeys(s.setups) && IsRetired(s, x)
    ensures (forall k :: 0 <= k <= |calls| ==> RetiredAt(s, calls, k, x)) <==>
            forall k :: 0 <= k < |calls| ==> !RevivesAt(s, calls, k, x)
  {
    if forall k :: 0 <= k < |calls| ==> !RevivesAt(s, calls, k, x) {
      forall k | 0 <= k <= |calls| ensures RetiredAt(s, calls, k, x) {
        RetiredUpTo(s, calls, k, x);
      }
    } else {
      var k :| 0 <= k < |calls| && RevivesAt(s, calls, k, x);
      if RetiredAt(s, calls, k, x) {
        StepKeepsRetiredIff(s, calls, k, x);
      }
    }
  }

  // --- A setup that comes back -------------------------------------------

  /** An edit of the status and nothing else. */
  function StatusEdit(status: SetupStatus): SetupEdit {
    SetupEdit(map[], None, None, None, None, None, None, None, Some(status))
  }

  lemma StatusEditCommits(s: State, a: int, x: int, status: SetupStatus)
    requires Rules.SignedIn(s, a) && Rules.Granted(s, a, ProductManagePermission) && s.HasSetup(x)
    requires AllowedTransition(s.setups[x].status, status)
    ensures var s' := Next(s, OnAdmin(a, EditSetupCall(x, StatusEdit(status))));
            s'.users == s.users && s'.reservations == s.reservations && s'.HasSetup(x) && s'.setups[x].status == status
  {
  }

  /**
   * The transition table lets nothing leave RETIRED, but a setup can be retired by way of MAINTENANCE while a
   * reservation of it is still ACTIVE: cancelling that one makes it AVAILABLE again.
   */
  lemma CancellingRevives(s: State, a: int, now: int, x: int, id: int)
    requires Rules.SignedIn(s, a) && Rules.Granted(s, a, ProductManagePermission)
    requires s.HasSetup(x) && s.setups[x].status == Reserved
    requires 0 <= id < |s.reservations| && s.reservations[id].status == Active
    requires s.reservations[id].setupId == x && s.reservations[id].userId == a
    ensures var s1 := Next(s, OnAdmin(a, EditSetupCall(x, StatusEdit(Maintenance))));
            var s2 := Next(s1, OnAdmin(a, EditSetupCall(x, StatusEdit(Retired))));
            var s3 := Next(s2, OnReservation(a, now, CancelReservationCall(id)));
            IsRetired(s2, x) && s3.HasSetup(x) && s3.setups[x].status == Available
  {
    var s1 := Next(s, OnAdmin(a, EditSetupCall(x, StatusEdit(Maintenance))));
    StatusEditCommits(s, a, x, Maintenance);
    StatusEditCommits(s1, a, x, Retired);
    ReservationRules.CancelAnswer(Next(s1, OnAdmin(a, EditSetupCall(x, StatusEdit(Retired)))), a, now, id);
  }
}
