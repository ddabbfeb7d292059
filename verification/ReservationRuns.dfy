/** Reservation windows over whole runs: no double booking ever, and what the cached status still tells. */
module ReservationRuns {
  import opened Common
  import opened Domain
  import opened Reservations
  import opened Imports
  import opened Runs
  import opened Effects
  import SetupEdits

  /** Calls outside the reservation service leave its table alone. */
  lemma OtherCallsKeepReservations(s: State, c: Call)
    requires !c.OnReservation? && !c.ReservationJob?
    ensures Next(s, c).reservations == s.reservations
  {
    if Exec(s, c).Ok? {
      match c
      case OnSwap(a, call) => SwapCallEffect(s, a, call);
      case OnBorrow(a, now, call) => BorrowCallEffect(s, a, now, call);
      case OnAdmin(a, call) => AdminCallEffect(s, a, call);
      case BorrowJob(now) =>
    }
  }

  lemma NextKeepsDisjoint(s: State, c: Call)
    requires NoDoubleBooking(s.reservations)
    ensures NoDoubleBooking(Next(s, c).reservations)
  {
    if c.ReservationJob? {
      SweepMeaning(s, c.now);
    } else if !c.OnReservation? {
      OtherCallsKeepReservations(s, c);
    } else if Exec(s, c).Ok? {
      match c.reservation
      case ReserveCall(x, from, until) => ReserveKeepsDisjoint(s, c.actorId, c.now, x, from, until);
      case CancelReservationCall(id) => CancelKeepsDisjoint(s, c.actorId, id);
    }
  }

  /** The ACTIVE reservations of a setup that cover an instant. */
  ghost function Holding(rows: seq<Reservation>, setupId: int, t: int): set<int> {
    set i | 0 <= i < |rows| && rows[i].setupId == setupId && rows[i].status == Active && Covers(rows[i], t)
  }

  /** After every run, whatever else is called, no setup is held twice at any instant. */
  lemma {:induction false} NeverDoubleBooked(s: State, calls: seq<Call>)
    requires NoDoubleBooking(s.reservations)
    ensures NoDoubleBooking(Run(s, calls).reservations)
    ensures forall x, t :: |Holding(Run(s, calls).reservations, x, t)| <= 1
  {
    if calls != [] {
      NeverDoubleBooked(s, calls[..|calls| - 1]);
      NextKeepsDisjoint(Run(s, calls[..|calls| - 1]), calls[|calls| - 1]);
    }
    forall x, t ensures |Holding(Run(s, calls).reservations, x, t)| <= 1 {
      HeldOnce(Run(s, calls).reservations, x, t);
    }
  }

  lemma HeldOnce(rows: seq<Reservation>, x: int, t: int)
    requires NoDoubleBooking(rows)
    ensures |Holding(rows, x, t)| <= 1
  {
    var held := Holding(rows, x, t);
    if held != {} {
      var i :| i in held;
      forall j | j in held ensures j == i {
        assert SameActiveSetup(rows[i], rows[j]) && SameActiveSetup(rows[j], rows[i]);
        assert Covers(rows[i], t) && Covers(rows[j], t);
      }
      assert held == {i};
    }
  }

  // --- RESERVED setups ---------------------------------------------------

  /** No admin edit writes a status in the run. */
  ghost predicate NoStatusEdits(calls: seq<Call>) {
    forall c :: c in calls ==> !(c.OnAdmin? && c.admin.EditSetupCall?)
  }

  /** Only the status column and the reservation rows matter. */
  lemma SameStatusesBacked(setups: seq<Setup>, setups': seq<Setup>, rows: seq<Reservation>)
    requires ReservedBacked(setups, rows) && |setups| <= |setups'|
    requires forall x :: 0 <= x < |setups'| ==>
               if x < |setups| then setups'[x].status == setups[x].status else setups'[x].status == Available
    ensures ReservedBacked(setups', rows)
  {
  }

  lemma NextKeepsBacked(s: State, c: Call)
    requires SwapsWellFormed(s) && ReservedBacked(s.setups, s.reservations)
    requires !(c.OnAdmin? && c.admin.EditSetupCall?)
    ensures ReservedBacked(Next(s, c).setups, Next(s, c).reservations)
  {
    if Exec(s, c).Ok? {
      match c
      case OnReservation(a, now, call) =>
        if call.ReserveCall? {
          ReserveKeepsBacked(s, a, now, call.setupId, call.from, call.until);
        } else {
          CancelKeepsBacked(s, a, call.reservationId);
        }
      case ReservationJob(now) => SweepKeepsBacked(s, now);
      case BorrowJob(now) =>
      case OnBorrow(a, now, call) => BorrowCallEffect(s, a, now, call);
      case OnSwap(a, call) =>
        SwapCallEffect(s, a, call);
        SwapCallKeepsWellFormed(s, a, call);
        SameStatusesBacked(s.setups, Next(s, c).setups, s.reservations);
      case OnAdmin(a, call) =>
        AdminCallEffect(s, a, call);
        AdminKeepsStatuses(s, a, call);
        SameStatusesBacked(s.setups, Next(s, c).setups, s.reservations);
    }
  }

  lemma AdminKeepsStatuses(s: State, actorId: int, call: AdminCall)
    requires s.HasUser(actorId) && ExecAdmin(s, actorId, call).Ok? && !call.EditSetupCall?
    ensures var setups := ExecAdmin(s, actorId, call).value.setups;
            && |s.setups| <= |setups|
            && forall x :: 0 <= x < |setups| ==>
                 if x < |s.setups| then setups[x].status == s.setups[x].status else setups[x].status == Available
  {
    AdminCallEffect(s, actorId, call);
    if call.ImportCall? && BatchErrors(call.directory, call.rows) == 0 {
      UpsertGrows(call.directory, StartImport(s), call.rows);
    }
  }

  /** In every run without admin status edits a RESERVED setup has an ACTIVE reservation. */
  lemma {:induction false} ReservedStaysBacked(s: State, calls: seq<Call>)
    requires SwapsWellFormed(s) && ReservedBacked(s.setups, s.reservations) && NoStatusEdits(calls)
    ensures SwapsWellFormed(Run(s, calls))
    ensures ReservedBacked(Run(s, calls).setups, Run(s, calls).reservations)
  {
    if calls != [] {
      var n := |calls| - 1;
      assert calls == calls[..n] + [calls[n]];
      ReservedStaysBacked(s, calls[..n]);
      NextKeepsBacked(Run(s, calls[..n]), calls[n]);
      NextKeepsWellFormed(Run(s, calls[..n]), calls[n]);
    }
  }

  /** One status edit breaks it: a setup marked RESERVED by hand has no reservation behind it. */
  lemma HandMadeReservedIsUnbacked(s: State, actorId: int, id: int, edit: SetupEdits.SetupEdit)
    requires Authenticated(s, actorId) && ProductManagePermission in s.users[actorId].permissions
    requires s.HasSetup(id) && s.setups[id].status == Available && edit.status == Some(Reserved) && !edit.SetsKeys()
    requires !HasActive(s.reservations, id)
    ensures var s' := Next(s, OnAdmin(actorId, EditSetupCall(id, edit)));
            s'.setups[id].status == Reserved && !ReservedBacked(s'.setups, s'.reservations)
  {
    var s' := Next(s, OnAdmin(actorId, EditSetupCall(id, edit)));
    assert s'.HasSetup(id) && s'.setups[id].status == Reserved;
  }

  // --- RESERVED exactly when reserved ------------------------------------

  ghost predicate Exact(s: State) {
    SwapsWellFormed(s) && OnSetups(s.setups, s.reservations) && StatusExact(s.setups, s.reservations)
  }

  /**
   * Call c, made in state s, writes a status that does not tell whether the setup is held: a cancellation or a sweep
   * frees a setup with another ACTIVE reservation, or an admin edit moves a setup into or out of RESERVED.
   */
  ghost predicate Misstates(s: State, c: Call) {
    match c
    case OnReservation(a, now, call) =>
      call.CancelReservationCall? && Exec(s, c).Ok? && HeldOtherwise(s.reservations, call.reservationId)
    case ReservationJob(asOf) => exists x :: FreedTooEarly(s.reservations, asOf, x)
    case OnAdmin(a, call) => call.EditSetupCall? && Exec(s, c).Ok? && MovesReserved(s, call.editedId, call.edit)
    case OnSwap(_, _) => false
    case OnBorrow(_, _, _) => false
    case BorrowJob(_) => false
  }

  /** The edit writes RESERVED over another status, or another status over RESERVED. */
  predicate MovesReserved(s: State, id: int, edit: SetupEdits.SetupEdit)
    requires s.HasSetup(id)
  {
    edit.status.Some? && (edit.status.value == Reserved) != (s.setups[id].status == Reserved)
  }

  lemma SameStatusesExact(setups: seq<Setup>, setups': seq<Setup>, rows: seq<Reservation>)
    requires OnSetups(setups, rows) && StatusExact(setups, rows) && |setups| <= |setups'|
    requires forall x :: 0 <= x < |setups'| ==>
               if x < |setups| then setups'[x].status == setups[x].status else setups'[x].status == Available
    ensures OnSetups(setups', rows) && StatusExact(setups', rows)
  {
  }

  lemma EditKeepsExactIff(s: State, id: int, edit: SetupEdits.SetupEdit)
    requires StatusExact(s.setups, s.reservations) && SetupEdits.EditSetup(s, id, edit).Ok?
    ensures var s' := SetupEdits.EditSetup(s, id, edit).value;
            && s'.reservations == s.reservations && |s'.setups| == |s.setups|
            && (StatusExact(s'.setups, s.reservations) <==> !MovesReserved(s, id, edit))
  {
    var s' := SetupEdits.EditSetup(s, id, edit).value;
    assert s'.setups == s.setups[id := s'.setups[id]];
    assert s'.setups[id].status == SetupEdits.Or(edit.status, s.setups[id].status);
  }

  lemma AdminKeepsExactIff(s: State, actorId: int, call: AdminCall)
    requires Exact(s) && Authenticated(s, actorId) && ExecAdmin(s, actorId, call).Ok?
    ensures var s' := ExecAdmin(s, actorId, call).value;
            && s'.reservations == s.reservations && OnSetups(s'.setups, s.reservations)
            && (StatusExact(s'.setups, s.reservations) <==>
               !(call.EditSetupCall? && MovesReserved(s, call.editedId, call.edit)))
  {
    AdminCallEffect(s, actorId, call);
    if call.EditSetupCall? {
      EditKeepsExactIff(s, call.editedId, call.edit);
    } else {
      AdminKeepsStatuses(s, actorId, call);
      SameStatusesExact(s.setups, ExecAdmin(s, actorId, call).value.setups, s.reservations);
    }
  }

  lemma SwapKeepsExact(s: State, actorId: int, call: SwapCall)
    requires Exact(s) && s.HasUser(actorId) && ExecSwap(s, actorId, call).Ok?
    ensures Exact(ExecSwap(s, actorId, call).value)
  {
    SwapCallEffect(s, actorId, call);
    SwapCallKeepsWellFormed(s, actorId, call);
    SameStatusesExact(s.setups, ExecSwap(s, actorId, call).value.setups, s.reservations);
  }

  lemma ReservationKeepsExactIff(s: State, actorId: int, now: int, call: ReservationCall)
    requires Exact(s) && s.HasUser(actorId) && ExecReservation(s, actorId, now, call).Ok?
    ensures var s' := ExecReservation(s, actorId, now, call).value;
            && OnSetups(s'.setups, s'.reservations)
            && (StatusExact(s'.setups, s'.reservations) <==>
                !(call.CancelReservationCall? && HeldOtherwise(s.reservations, call.reservationId)))
  {
    if call.ReserveCall? {
      ReserveKeepsExact(s, actorId, now, call.setupId, call.from, call.until);
    } else {
      CancelKeepsExactIff(s, actorId, call.reservationId);
    }
  }

  /** A step keeps "RESERVED exactly when there is an ACTIVE reservation" exactly when it does not misstate a status. */
  lemma NextKeepsExactIff(s: State, c: Call)
    requires Exact(s)
    ensures Exact(Next(s, c)) <==> !Misstates(s, c)
  {
    NextKeepsWellFormed(s, c);
    if Exec(s, c).Ok? {
      match c
      case OnReservation(a, now, call) => ReservationKeepsExactIff(s, a, now, call);
      case ReservationJob(asOf) => SweepKeepsExactIff(s, asOf);
      case OnAdmin(a, call) => AdminKeepsExactIff(s, a, call);
      case OnSwap(a, call) => SwapKeepsExact(s, a, call);
      case OnBorrow(a, now, call) => BorrowCallEffect(s, a, now, call);
      case BorrowJob(now) =>
    }
  }

  ghost predicate ExactAt(s: State, calls: seq<Call>, k: int)
    requires 0 <= k <= |calls|
  {
    Exact(Before(s, calls, k))
  }

  ghost predicate MisstatesAt(s: State, calls: seq<Call>, k: int)
    requires 0 <= k < |calls|
  {
    Misstates(Before(s, calls, k), calls[k])
  }

  lemma StepKeepsExactIff(s: State, calls: seq<Call>, k: int)
    requires 0 <= k < |calls| && ExactAt(s, calls, k)
    ensures ExactAt(s, calls, k + 1) <==> !MisstatesAt(s, calls, k)
  {
    RunSteps(s, calls, k);
    NextKeepsExactIff(Before(s, calls, k), calls[k]);
  }

  lemma {:induction false} ExactUpTo(s: State, calls: seq<Call>, n: nat)
    requires n <= |calls| && Exact(s)
    requires forall k :: 0 <= k < n ==> !MisstatesAt(s, calls, k)
    ensures ExactAt(s, calls, n)
  {
    RunEnds(s, calls);
    if n > 0 {
      ExactUpTo(s, calls, n - 1);
      StepKeepsExactIff(s, calls, n - 1);
    }
  }

  /** The status is exact at every point of a run exactly when no call of the run misstates one. */
  lemma StatusStaysExactIff(s: State, calls: seq<Call>)
    requires Exact(s)
    ensures (forall k :: 0 <= k <= |calls| ==> ExactAt(s, calls, k)) <==>
            forall k :: 0 <= k < |calls| ==> !MisstatesAt(s, calls, k)
  {
    if forall k :: 0 <= k < |calls| ==> !MisstatesAt(s, calls, k) {
      forall k | 0 <= k <= |calls| ensures ExactAt(s, calls, k) {
        ExactUpTo(s, calls, k);
      }
    } else {
      var k :| 0 <= k < |calls| && MisstatesAt(s, calls, k);
      if ExactAt(s, calls, k) {
        StepKeepsExactIff(s, calls, k);
      }
    }
  }

  // --- A failing run -----------------------------------------------------

  lemma ReserveCommits(s: State, actorId: int, now: int, x: int, from: int, until: int)
    requires Authenticated(s, actorId) && ReservationCreatePermission in s.users[actorId].permissions
    requires Reserve(s, actorId, now, x, from, until).Ok?
    ensures Next(s, OnReservation(actorId, now, ReserveCall(x, from, until))) ==
            Reserve(s, actorId, now, x, from, until).value
  {
  }

  lemma CancelCommits(s: State, actorId: int, now: int, id: int)
    requires Authenticated(s, actorId) && CancelReservation(s, actorId, id).Ok?
    ensures Next(s, OnReservation(actorId, now, CancelReservationCall(id))) == CancelReservation(s, actorId, id).value
  {
  }

  lemma RunThree(s: State, a: Call, b: Call, c: Call)
    ensures Run(s, [a, b, c]) == Next(Next(Next(s, a), b), c)
  {
    assert [a, b, c][..2] == [a, b] && [a, b][..1] == [a] && [a][..0] == [];
    assert Run(s, []) == s && Run(s, [a]) == Next(s, a) && Run(s, [a, b]) == Next(Run(s, [a]), b);
  }

  /** s with the given rows, and status on setup x. */
  function Standing(s: State, x: int, status: SetupStatus, rows: seq<Reservation>): State {
    s.(reservations := rows, setups := WithStatus(s.setups, x, status))
  }

  lemma FirstReserved(s: State, actorId: int, now: int, x: int, from: int, mid: int)
    requires s.HasSetup(x) && s.setups[x].status == Available && s.minLeadTime == 0 && s.reservations == []
             && from < mid
    ensures Reserve(s, actorId, now, x, from, mid) ==
            Ok(Standing(s, x, Reserved, [Reservation(x, actorId, from, mid, Active)]))
  {
    assert [] + [Reservation(x, actorId, from, mid, Active)] == [Reservation(x, actorId, from, mid, Active)];
  }

  lemma LastStatusStands(setups: seq<Setup>, x: int, first: SetupStatus, second: SetupStatus)
    requires 0 <= x < |setups|
    ensures WithStatus(WithStatus(setups, x, first), x, second) == WithStatus(setups, x, second)
  {
  }

  lemma SecondReserved(s: State, actorId: int, now: int, x: int, from: int, mid: int, until: int)
    requires s.HasSetup(x) && s.minLeadTime == 0 && mid < until
    ensures var first, second :=
            Reservation(x, actorId, from, mid, Active), Reservation(x, actorId, mid, until, Active);
            Reserve(Standing(s, x, Reserved, [first]), actorId, now, x, mid, until) ==
            Ok(Standing(s, x, Reserved, [first, second]))
  {
    var first, second := Reservation(x, actorId, from, mid, Active), Reservation(x, actorId, mid, until, Active);
    LastStatusStands(s.setups, x, Reserved, Reserved);
    assert FindOverlap([first], x, mid, until).None?;
    assert [first] + [second] == [first, second];
  }

  lemma FirstCancelled(s: State, actorId: int, x: int, first: Reservation, second: Reservation)
    requires s.HasUser(actorId) && s.HasSetup(x) && first.setupId == x && first.status == Active
             && first.userId == actorId
    ensures CancelReservation(Standing(s, x, Reserved, [first, second]), actorId, 0) ==
            Ok(Standing(s, x, Available, [first.(status := Cancelled), second]))
  {
    LastStatusStands(s.setups, x, Reserved, Available);
    assert [first, second][0 := first.(status := Cancelled)] == [first.(status := Cancelled), second];
  }

  /** Two accepted reservations of a free setup, the first then cancelled: AVAILABLE, and held by the second. */
  lemma CancelledOneOfTwo(s: State, actorId: int, now: int, x: int, from: int, mid: int, until: int)
    requires Authenticated(s, actorId) && ReservationCreatePermission in s.users[actorId].permissions
    requires s.HasSetup(x) && s.setups[x].status == Available && s.minLeadTime == 0 && s.reservations == []
    requires from < mid < until
    ensures var end := Run(s, [OnReservation(actorId, now, ReserveCall(x, from, mid)),
                               OnReservation(actorId, now, ReserveCall(x, mid, until)),
                               OnReservation(actorId, now, CancelReservationCall(0))]);
            && end.HasSetup(x) && end.setups[x].status == Available
            && end.reservations ==
               [Reservation(x, actorId, from, mid, Cancelled), Reservation(x, actorId, mid, until, Active)]
            && !StatusExact(end.setups, end.reservations)
  {
    var first, second := Reservation(x, actorId, from, mid, Active), Reservation(x, actorId, mid, until, Active);
    RunThree(s, OnReservation(actorId, now, ReserveCall(x, from, mid)),
             OnReservation(actorId, now, ReserveCall(x, mid, until)),
             OnReservation(actorId, now, CancelReservationCall(0)));
    FirstReserved(s, actorId, now, x, from, mid);
    ReserveCommits(s, actorId, now, x, from, mid);
    SecondReserved(s, actorId, now, x, from, mid, until);
    ReserveCommits(Standing(s, x, Reserved, [first]), actorId, now, x, mid, until);
    FirstCancelled(s, actorId, x, first, second);
    CancelCommits(Standing(s, x, Reserved, [first, second]), actorId, now, 0);
    HeldBySecond(Standing(s, x, Available, [first.(status := Cancelled), second]), x, second);
  }

  lemma HeldBySecond(s: State, x: int, second: Reservation)
    requires s.HasSetup(x) && s.setups[x].status == Available
    requires |s.reservations| == 2 && s.reservations[1] == second && second.setupId == x && second.status == Active
    ensures !StatusExact(s.setups, s.reservations)
  {
    assert HasActive(s.reservations, x);
  }
}
