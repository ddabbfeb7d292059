/**
 * What each reservation call and the sweep answer and write, by the rules on the rows, and who made and ended each row.
 */
module ReservationRules {
  import opened Common
  import opened Domain
  import opened Reservations
  import opened Runs
  import opened Rules
  import ReservationRuns

  // --- Reserving ---------------------------------------------------------

  /** An ACTIVE reservation of x whose half-open window contains instant t. */
  predicate Occupies(r: Reservation, x: int, t: int) {
    r.setupId == x && r.status == Active && r.from <= t < r.until
  }

  /** x is occupied at some instant of [from, until). */
  ghost predicate Taken(s: State, x: int, from: int, until: int) {
    exists r, t :: r in s.reservations && from <= t < until && Occupies(r, x, t)
  }

  ghost function MayReserve(s: State, a: int, now: int, x: int, from: int, until: int): Outcome {
    var mayCall := SignedIn(s, a) && Granted(s, a, ReservationCreatePermission);
    :- Need(mayCall, Forbidden);
    :- Need(from < until, Invalid);
    :- Need(Exists(s, x), NotFound);
    :- Need(InUse(s, x), Conflict);
    :- Need(s.minLeadTime > 0 ==> now + s.minLeadTime <= from, Invalid);
    Need(!Taken(s, x, from, until), Conflict)
  }

  lemma OverlappingIff(r: Reservation, x: int, from: int, until: int)
    requires r.from < r.until && from < until
    ensures Overlapping(r, x, from, until) <==> exists t :: from <= t < until && Occupies(r, x, t)
  {
    OverlapMeansSharedInstant(r, from, until);
    if Overlapping(r, x, from, until) {
      var t :| Covers(r, t) && from <= t < until;
      assert Occupies(r, x, t);
    }
  }

  lemma TakenIff(s: State, x: int, from: int, until: int)
    requires NoDoubleBooking(s.reservations) && from < until
    ensures FindOverlap(s.reservations, x, from, until).Some? <==> Taken(s, x, from, until)
  {
    forall i | 0 <= i < |s.reservations|
      ensures Overlapping(s.reservations[i], x, from, until) <==>
              exists t :: from <= t < until && Occupies(s.reservations[i], x, t)
    {
      OverlappingIff(s.reservations[i], x, from, until);
    }
    if r, t :| r in s.reservations && from <= t < until && Occupies(r, x, t) {
      var i :| 0 <= i < |s.reservations| && s.reservations[i] == r;
      assert Overlapping(s.reservations[i], x, from, until);
    }
  }

  lemma StatusIs(setups: seq<Setup>, x: int, status: SetupStatus)
    ensures WithStatus(setups, x, status) == StatusWritten(setups, x, status)
  {
  }

  /**
   * In every reachable state a reservation answers the first rule it breaks; otherwise it appends the caller's ACTIVE
   * row for that setup and window and marks the setup RESERVED. Nothing else is written.
   */
  lemma ReserveAnswer(s: State, a: int, now: int, x: int, from: int, until: int)
    requires NoDoubleBooking(s.reservations)
    ensures Exec(s, OnReservation(a, now, ReserveCall(x, from, until))) ==
            match MayReserve(s, a, now, x, from, until)
            case Fail(e) => Err(e)
            case Pass => Ok(s.(reservations := s.reservations + [Reservation(x, a, from, until, Active)],
                               setups := StatusWritten(s.setups, x, Reserved)))
  {
    StatusIs(s.setups, x, Reserved);
    if from < until {
      TakenIff(s, x, from, until);
    }
  }

  // --- Cancelling --------------------------------------------------------

  predicate Known(s: State, id: int) {
    0 <= id < |s.reservations|
  }

  /** Its user may cancel a reservation, and so may anybody with the permission to cancel any. */
  predicate Cancels(s: State, r: Reservation, a: int) {
    r.userId == a || Granted(s, a, ReservationCancelAnyPermission)
  }

  ghost function MayCancel(s: State, a: int, id: int): Outcome {
    var mayCall := SignedIn(s, a);
    :- Need(mayCall, Forbidden);
    :- Need(Known(s, id), NotFound);
    :- Need(s.reservations[id].status == Active, Conflict);
    Need(Cancels(s, s.reservations[id], a), Forbidden)
  }

  /** A cancellation answers the first rule it breaks; otherwise the row is CANCELLED and its setup marked AVAILABLE. */
  lemma CancelAnswer(s: State, a: int, now: int, id: int)
    ensures Exec(s, OnReservation(a, now, CancelReservationCall(id))) ==
            match MayCancel(s, a, id)
            case Fail(e) => Err(e)
            case Pass => Ok(s.(reservations := s.reservations[id := s.reservations[id].(status := Cancelled)],
                               setups := StatusWritten(s.setups, s.reservations[id].setupId, Available)))
  {
    if Known(s, id) {
      StatusIs(s.setups, s.reservations[id].setupId, Available);
    }
  }

  // --- Sweeping ----------------------------------------------------------

  predicate Over(r: Reservation, now: int) {
    r.status == Active && r.until <= now
  }

  predicate FreedBy(s: State, x: int, now: int) {
    exists r :: r in s.reservations && Over(r, now) && r.setupId == x
  }

  /** The sweep completes exactly the ACTIVE rows whose window is over, and marks exactly their setups AVAILABLE. */
  lemma SweepAnswer(s: State, now: int)
    ensures var r := Exec(s, ReservationJob(now));
            && r.Ok? && r.value == s.(reservations := r.value.reservations, setups := r.value.setups)
            && |r.value.reservations| == |s.reservations| && |r.value.setups| == |s.setups|
            && (forall i :: 0 <= i < |s.reservations| ==>
                  r.value.reservations[i] ==
                  if Over(s.reservations[i], now) then s.reservations[i].(status := Completed) else s.reservations[i])
            && forall x :: 0 <= x < |s.setups| ==>
                 r.value.setups[x] == if FreedBy(s, x, now) then s.setups[x].(status := Available) else s.setups[x]
  {
    forall x ensures FreedBy(s, x, now) <==> exists r :: r in s.reservations && Expired(r, now) && r.setupId == x {
      if r :| r in s.reservations && Expired(r, now) && r.setupId == x {
        assert Over(r, now);
      }
    }
  }

  // --- Whole runs --------------------------------------------------------

  /** Call c, made in state s, makes reservation r. */
  ghost predicate Makes(s: State, c: Call, r: Reservation) {
    && c.OnReservation? && c.reservation == ReserveCall(r.setupId, r.from, r.until) && c.actorId == r.userId
    && SignedIn(s, c.actorId) && Granted(s, c.actorId, ReservationCreatePermission) && InUse(s, r.setupId)
    && (s.minLeadTime > 0 ==> c.now + s.minLeadTime <= r.from)
  }

  /** Call c, made in state s, takes the ACTIVE reservation id, r, to status to. */
  ghost predicate Ends(s: State, c: Call, id: int, r: Reservation, to: ReservationStatus) {
    match to
    case Active => false
    case Cancelled =>
      c.OnReservation? && c.reservation == CancelReservationCall(id) && SignedIn(s, c.actorId)
        && Cancels(s, r, c.actorId)
    case Completed => c.ReservationJob? && r.until <= c.now
  }

  /** What a step may do to one row: nothing, or end it while it is ACTIVE. */
  ghost predicate Moves(s: State, c: Call, id: int, r: Reservation, r': Reservation) {
    || r' == r
    || (r.status == Active && r' == r.(status := r'.status) && Ends(s, c, id, r, r'.status))
  }

  ghost predicate RowsMove(s: State, c: Call, s': State) {
    && |s.reservations| <= |s'.reservations|
    && (forall i :: 0 <= i < |s.reservations| ==> Moves(s, c, i, s.reservations[i], s'.reservations[i]))
    && forall i :: |s.reservations| <= i < |s'.reservations| ==>
         s'.reservations[i].status == Active && Makes(s, c, s'.reservations[i])
  }

  lemma ReserveMoves(s: State, a: int, now: int, x: int, from: int, until: int)
    requires NoDoubleBooking(s.reservations)
    ensures var c := OnReservation(a, now, ReserveCall(x, from, until)); RowsMove(s, c, Next(s, c))
  {
    ReserveAnswer(s, a, now, x, from, until);
  }

  lemma CancelMoves(s: State, a: int, now: int, id: int)
    ensures var c := OnReservation(a, now, CancelReservationCall(id)); RowsMove(s, c, Next(s, c))
  {
    CancelAnswer(s, a, now, id);
  }

  lemma NextMoves(s: State, c: Call)
    requires NoDoubleBooking(s.reservations)
    ensures RowsMove(s, c, Next(s, c))
  {
    if c.ReservationJob? {
      SweepAnswer(s, c.now);
    } else if !c.OnReservation? {
      ReservationRuns.OtherCallsKeepReservations(s, c);
    } else {
      match c.reservation
      case ReserveCall(x, from, until) => ReserveMoves(s, c.actorId, c.now, x, from, until);
      case CancelReservationCall(id) => CancelMoves(s, c.actorId, c.now, id);
    }
  }

  ghost predicate MadeAt(s: State, calls: seq<Call>, r: Reservation, k: int) {
    0 <= k < |calls| && Makes(Run(s, calls[..k]), calls[k], r)
  }

  /** Reservation id, now r and then ACTIVE, was ended as it now stands by call k of the run. */
  ghost predicate EndedAt(s: State, calls: seq<Call>, id: int, r: Reservation, k: int) {
    && 0 <= k < |calls| && Known(Run(s, calls[..k]), id) && Run(s, calls[..k]).reservations[id].status == Active
    && Ends(Run(s, calls[..k]), calls[k], id, r, r.status)
  }

  ghost predicate Accounted(s: State, calls: seq<Call>, id: int, r: Reservation) {
    && (exists k :: MadeAt(s, calls, r, k))
    && (r.status != Active ==> exists k :: EndedAt(s, calls, id, r, k))
  }

  lemma MadeGrows(s: State, calls: seq<Call>, r: Reservation, k: int)
    requires calls != [] && MadeAt(s, calls[..|calls| - 1], r, k)
    ensures MadeAt(s, calls, r, k)
  {
    assert calls[..|calls| - 1][..k] == calls[..k];
  }

  lemma EndedGrows(s: State, calls: seq<Call>, id: int, r: Reservation, k: int)
    requires calls != [] && EndedAt(s, calls[..|calls| - 1], id, r, k)
    ensures EndedAt(s, calls, id, r, k)
  {
    assert calls[..|calls| - 1][..k] == calls[..k];
  }

  lemma AccountMoves(s: State, calls: seq<Call>, id: int, r: Reservation, r': Reservation)
    requires calls != [] && Accounted(s, calls[..|calls| - 1], id, r)
    requires var before := Run(s, calls[..|calls| - 1]);
             Known(before, id) && before.reservations[id] == r && Moves(before, calls[|calls| - 1], id, r, r')
    ensures Accounted(s, calls, id, r')
  {
    var k :| MadeAt(s, calls[..|calls| - 1], r, k);
    MadeGrows(s, calls, r, k);
    assert MadeAt(s, calls, r', k);
    if r' != r {
      assert EndedAt(s, calls, id, r', |calls| - 1);
    } else if r.status != Active {
      var j :| EndedAt(s, calls[..|calls| - 1], id, r, j);
      EndedGrows(s, calls, id, r, j);
    }
  }

  /**
   * Every reservation of a run was made by its user, permitted, for a setup in service and early enough; a CANCELLED
   * one was cancelled, while ACTIVE, by its user or with the permission to cancel any; a COMPLETED one was swept, while
   * ACTIVE, after its window was over.
   */
  lemma {:induction false} ReservationsAreAccounted(s: State, calls: seq<Call>, id: int)
    requires s.reservations == [] && Known(Run(s, calls), id)
    ensures Accounted(s, calls, id, Run(s, calls).reservations[id])
  {
    var n := |calls| - 1;
    var before, end := Run(s, calls[..n]), Run(s, calls);
    ReservationRuns.NeverDoubleBooked(s, calls[..n]);
    NextMoves(before, calls[n]);
    if id >= |before.reservations| {
      assert MadeAt(s, calls, end.reservations[id], n);
    } else {
      ReservationsAreAccounted(s, calls[..n], id);
      AccountMoves(s, calls, id, before.reservations[id], end.reservations[id]);
    }
  }
}
