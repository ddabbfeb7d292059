/** Reservation windows: creation under the overlap check, cancellation, and the expiry sweep. */
module Reservations {
  import opened Common
  import opened Domain

  /** t falls inside the half-open window of r. */
  predicate Covers(r: Reservation, t: int) {
    r.from <= t < r.until
  }

  /** The row filter of `find_overlapping`. */
  predicate Overlapping(r: Reservation, setupId: int, from: int, until: int) {
    r.setupId == setupId && r.status == Active && r.from < until && r.until > from
  }

  function FindOverlap(rows: seq<Reservation>, setupId: int, from: int, until: int): Option<nat> {
    FindFirst(rows, (r: Reservation) => Overlapping(r, setupId, from, until))
  }

  // --- Steps -------------------------------------------------------------

  function Reserve(s: State, actorId: int, now: int, setupId: int, from: int, until: int): Result<State> {
    if until <= from then Err(Invalid)
    else if !s.HasSetup(setupId) then Err(NotFound)
    else if s.setups[setupId].OutOfService() then Err(Conflict)
    else if s.minLeadTime > 0 && from < now + s.minLeadTime then Err(Invalid)
    else if FindOverlap(s.reservations, setupId, from, until).Some? then Err(Conflict)
    else Ok(s.(reservations := s.reservations + [Reservation(setupId, actorId, from, until, Active)],
               setups := WithStatus(s.setups, setupId, Reserved)))
  }

  /** `update_status`: a missing setup is ignored. */
  function WithStatus(setups: seq<Setup>, setupId: int, status: SetupStatus): seq<Setup> {
    if 0 <= setupId < |setups| then setups[setupId := setups[setupId].(status := status)] else setups
  }

  function CancelReservation(s: State, actorId: int, id: int): Result<State>
    requires s.HasUser(actorId)
  {
    if !(0 <= id < |s.reservations|) then Err(NotFound)
    else
      var r := s.reservations[id];
      if r.status != Active then Err(Conflict)
      else if r.userId != actorId && ReservationCancelAnyPermission !in s.users[actorId].permissions then Err(Forbidden)
      else Ok(s.(reservations := s.reservations[id := r.(status := Cancelled)],
                 setups := WithStatus(s.setups, r.setupId, Available)))
  }

  predicate Expired(r: Reservation, asOf: int) {
    r.status == Active && r.until <= asOf
  }

  /** The rows after a sweep: every expired active row is COMPLETED. */
  function SweptRows(rows: seq<Reservation>, asOf: int): seq<Reservation> {
    seq(|rows|, i requires 0 <= i < |rows| => if Expired(rows[i], asOf) then rows[i].(status := Completed) else rows[i])
  }

  /** The setups after a sweep: AVAILABLE wherever a row expired. */
  function SweptSetups(setups: seq<Setup>, rows: seq<Reservation>, asOf: int): seq<Setup> {
    seq(|setups|, x requires 0 <= x < |setups| =>
      if exists r :: r in rows && Expired(r, asOf) && r.setupId == x then setups[x].(status := Available)
      else setups[x])
  }

  function Sweep(s: State, asOf: int): State {
    s.(reservations := SweptRows(s.reservations, asOf), setups := SweptSetups(s.setups, s.reservations, asOf))
  }

  // --- Disjointness ------------------------------------------------------

  ghost predicate Disjoint(a: Reservation, b: Reservation) {
    forall t :: !(Covers(a, t) && Covers(b, t))
  }

  predicate SameActiveSetup(a: Reservation, b: Reservation) {
    a.status == Active && b.status == Active && a.setupId == b.setupId
  }

  /** Every window is a real one, and two ACTIVE windows on one setup share no instant. */
  ghost predicate NoDoubleBooking(rows: seq<Reservation>) {
    && (forall i :: 0 <= i < |rows| ==> rows[i].from < rows[i].until)
    && (forall i, j :: 0 <= i < j < |rows| && SameActiveSetup(rows[i], rows[j]) ==> Disjoint(rows[i], rows[j]))
  }

  /** The overlap filter means exactly "shares an instant". */
  lemma OverlapMeansSharedInstant(r: Reservation, from: int, until: int)
    requires r.from < r.until && from < until
    ensures (r.from < until && r.until > from) <==> exists t :: Covers(r, t) && from <= t < until
  {
    var start := if r.from < from then from else r.from;
    if r.from < until && r.until > from {
      assert Covers(r, start);
    }
  }

  /** setupId is held by an ACTIVE reservation at some instant of [from, until). */
  ghost predicate HeldWithin(rows: seq<Reservation>, setupId: int, from: int, until: int) {
    exists i, t :: 0 <= i < |rows| && rows[i].setupId == setupId && rows[i].status == Active
                   && Covers(rows[i], t) && from <= t < until
  }

  /** A reservation is accepted exactly when its window is real, late enough, and free at every instant. */
  lemma ReserveAcceptedIff(s: State, actorId: int, now: int, setupId: int, from: int, until: int)
    requires NoDoubleBooking(s.reservations)
    ensures Reserve(s, actorId, now, setupId, from, until).Ok? <==>
            && from < until && s.HasSetup(setupId) && !s.setups[setupId].OutOfService()
            && (s.minLeadTime > 0 ==> from >= now + s.minLeadTime)
            && !HeldWithin(s.reservations, setupId, from, until)
  {
    if from < until {
      forall i | 0 <= i < |s.reservations|
        ensures Overlapping(s.reservations[i], setupId, from, until) <==>
                && s.reservations[i].setupId == setupId && s.reservations[i].status == Active
                && exists t :: Covers(s.reservations[i], t) && from <= t < until
      {
        OverlapMeansSharedInstant(s.reservations[i], from, until);
      }
    }
  }

  lemma ReserveKeepsDisjoint(s: State, actorId: int, now: int, setupId: int, from: int, until: int)
    requires NoDoubleBooking(s.reservations)
    ensures var r := Reserve(s, actorId, now, setupId, from, until); r.Ok? ==> NoDoubleBooking(r.value.reservations)
  {
    if Reserve(s, actorId, now, setupId, from, until).Ok? {
      var added := Reservation(setupId, actorId, from, until, Active);
      forall i | 0 <= i < |s.reservations| && s.reservations[i].status == Active && s.reservations[i].setupId == setupId
        ensures Disjoint(s.reservations[i], added)
      {
        assert !Overlapping(s.reservations[i], setupId, from, until);
      }
    }
  }

  /** Deactivating rows keeps the rest disjoint. */
  lemma DeactivateKeepsDisjoint(rows: seq<Reservation>, rows': seq<Reservation>)
    requires NoDoubleBooking(rows) && |rows'| == |rows|
    requires forall i :: 0 <= i < |rows| ==>
               rows'[i] == rows[i] || (rows'[i] == rows[i].(status := rows'[i].status) && rows'[i].status != Active)
    ensures NoDoubleBooking(rows')
  {
    forall i, j | 0 <= i < j < |rows'| && SameActiveSetup(rows'[i], rows'[j]) ensures Disjoint(rows'[i], rows'[j]) {
      assert rows'[i] == rows[i] && rows'[j] == rows[j];
    }
  }

  lemma CancelKeepsDisjoint(s: State, actorId: int, id: int)
    requires s.HasUser(actorId) && NoDoubleBooking(s.reservations)
    ensures var r := CancelReservation(s, actorId, id); r.Ok? ==> NoDoubleBooking(r.value.reservations)
  {
    if CancelReservation(s, actorId, id).Ok? {
      DeactivateKeepsDisjoint(s.reservations, CancelReservation(s, actorId, id).value.reservations);
    }
  }

  /**
   * After a sweep no ACTIVE window has ended, everything that was not expired is untouched, and disjointness is kept.
   */
  lemma SweepMeaning(s: State, asOf: int)
    requires NoDoubleBooking(s.reservations)
    ensures var rows := Sweep(s, asOf).reservations;
            && NoDoubleBooking(rows)
            && |rows| == |s.reservations|
            && (forall i :: 0 <= i < |rows| && rows[i].status == Active ==> rows[i].until > asOf)
            && forall i :: 0 <= i < |rows| && !Expired(s.reservations[i], asOf) ==> rows[i] == s.reservations[i]
  {
    DeactivateKeepsDisjoint(s.reservations, Sweep(s, asOf).reservations);
  }

  // --- The cached status -------------------------------------------------

  ghost predicate HasActive(rows: seq<Reservation>, setupId: int) {
    exists i :: 0 <= i < |rows| && rows[i].setupId == setupId && rows[i].status == Active
  }

  /** A RESERVED setup has an ACTIVE reservation (the converse does not hold). */
  ghost predicate ReservedBacked(setups: seq<Setup>, rows: seq<Reservation>) {
    forall x :: 0 <= x < |setups| && setups[x].status == Reserved ==> HasActive(rows, x)
  }

  lemma ReserveKeepsBacked(s: State, actorId: int, now: int, setupId: int, from: int, until: int)
    requires ReservedBacked(s.setups, s.reservations)
    ensures var r := Reserve(s, actorId, now, setupId, from, until);
            r.Ok? ==> ReservedBacked(r.value.setups, r.value.reservations)
  {
    var r := Reserve(s, actorId, now, setupId, from, until);
    if r.Ok? {
      var s' := r.value;
      forall x | 0 <= x < |s'.setups| && s'.setups[x].status == Reserved ensures HasActive(s'.reservations, x) {
        if x == setupId {
          assert s'.reservations[|s.reservations|].setupId == x;
        } else {
          assert HasActive(s.reservations, x);
          var i :| 0 <= i < |s.reservations| && s.reservations[i].setupId == x && s.reservations[i].status == Active;
          assert s'.reservations[i] == s.reservations[i];
        }
      }
    }
  }

  lemma CancelKeepsBacked(s: State, actorId: int, id: int)
    requires s.HasUser(actorId) && ReservedBacked(s.setups, s.reservations)
    ensures var r := CancelReservation(s, actorId, id); r.Ok? ==> ReservedBacked(r.value.setups, r.value.reservations)
  {
    var r := CancelReservation(s, actorId, id);
    if r.Ok? {
      var s' := r.value;
      forall x | 0 <= x < |s'.setups| && s'.setups[x].status == Reserved ensures HasActive(s'.reservations, x) {
        assert HasActive(s.reservations, x) && x != s.reservations[id].setupId;
        var i :| 0 <= i < |s.reservations| && s.reservations[i].setupId == x && s.reservations[i].status == Active;
        assert s'.reservations[i] == s.reservations[i];
      }
    }
  }

  lemma SweepKeepsBacked(s: State, asOf: int)
    requires ReservedBacked(s.setups, s.reservations)
    ensures ReservedBacked(Sweep(s, asOf).setups, Sweep(s, asOf).reservations)
  {
    var s' := Sweep(s, asOf);
    forall x | 0 <= x < |s'.setups| && s'.setups[x].status == Reserved ensures HasActive(s'.reservations, x) {
      assert HasActive(s.reservations, x);
      var i :| 0 <= i < |s.reservations| && s.reservations[i].setupId == x && s.reservations[i].status == Active;
      assert s.reservations[i] in s.reservations && !Expired(s.reservations[i], asOf);
      assert s'.reservations[i] == s.reservations[i];
    }
  }

  /**
   * The converse fails: cancelling always writes AVAILABLE, which is right exactly when the setup had no other
   * ACTIVE reservation.
   */
  lemma CancelStatusIsRightIff(s: State, actorId: int, id: int)
    requires s.HasUser(actorId) && CancelReservation(s, actorId, id).Ok? && s.HasSetup(s.reservations[id].setupId)
    ensures var s', x := CancelReservation(s, actorId, id).value, s.reservations[id].setupId;
            && s'.setups[x].status == Available
            && (!HasActive(s'.reservations, x) <==>
                forall i :: 0 <= i < |s.reservations| && i != id && s.reservations[i].setupId == x ==>
                  s.reservations[i].status != Active)
  {
    var s', x := CancelReservation(s, actorId, id).value, s.reservations[id].setupId;
    assert forall i :: 0 <= i < |s.reservations| && i != id ==> s'.reservations[i] == s.reservations[i];
    var rows := s.reservations;
    if i :| 0 <= i < |rows| && i != id && rows[i].setupId == x && rows[i].status == Active {
      assert s'.reservations[i].setupId == x;
    }
  }

  /**
   * The sweep writes AVAILABLE as unconditionally: for a setup with an expired row that is right exactly when no ACTIVE
   * row outlasts the sweep.
   */
  lemma SweepStatusIsRightIff(s: State, asOf: int, x: int)
    requires s.HasSetup(x) && exists r :: r in s.reservations && Expired(r, asOf) && r.setupId == x
    ensures var s' := Sweep(s, asOf);
            && s'.setups[x].status == Available
            && (!HasActive(s'.reservations, x) <==>
                forall i ::
                  0 <= i < |s.reservations| && s.reservations[i].setupId == x && s.reservations[i].status == Active ==>
                  s.reservations[i].until <= asOf)
  {
    SweptActive(s.reservations, asOf, x);
  }

  /** What is left ACTIVE on a setup by a sweep is what outlasts it. */
  lemma SweptActive(rows: seq<Reservation>, asOf: int, x: int)
    ensures HasActive(SweptRows(rows, asOf), x) <==>
            exists i :: 0 <= i < |rows| && rows[i].setupId == x && rows[i].status == Active && rows[i].until > asOf
  {
    var after := SweptRows(rows, asOf);
    forall i | 0 <= i < |rows| && rows[i].setupId == x && rows[i].status == Active && rows[i].until > asOf
      ensures HasActive(after, x)
    {
      assert after[i] == rows[i];
    }
  }

  // --- The status as the documentation has it ----------------------------

  /** Every reservation is of an existing setup. */
  ghost predicate OnSetups(setups: seq<Setup>, rows: seq<Reservation>) {
    forall i :: 0 <= i < |rows| ==> 0 <= rows[i].setupId < |setups|
  }

  /** A setup is RESERVED exactly when it has an ACTIVE reservation. */
  ghost predicate StatusExact(setups: seq<Setup>, rows: seq<Reservation>) {
    forall x :: 0 <= x < |setups| ==> (setups[x].status == Reserved <==> HasActive(rows, x))
  }

  /** Another ACTIVE row of the setup of row id. */
  ghost predicate HeldOtherwise(rows: seq<Reservation>, id: int)
    requires 0 <= id < |rows|
  {
    exists i :: 0 <= i < |rows| && i != id && rows[i].setupId == rows[id].setupId && rows[i].status == Active
  }

  /** The sweep frees setup x although an ACTIVE row of it outlasts the sweep. */
  ghost predicate FreedTooEarly(rows: seq<Reservation>, asOf: int, x: int) {
    && (exists r :: r in rows && Expired(r, asOf) && r.setupId == x)
    && exists i :: 0 <= i < |rows| && rows[i].setupId == x && rows[i].status == Active && rows[i].until > asOf
  }

  lemma AddedActive(rows: seq<Reservation>, r: Reservation, x: int)
    ensures HasActive(rows + [r], x) <==> HasActive(rows, x) || (r.status == Active && r.setupId == x)
  {
    var all := rows + [r];
    assert all[|rows|] == r;
    forall i | 0 <= i < |rows| && rows[i].setupId == x && rows[i].status == Active ensures HasActive(all, x) {
      assert all[i] == rows[i];
    }
  }

  lemma ReserveKeepsExact(s: State, actorId: int, now: int, setupId: int, from: int, until: int)
    requires StatusExact(s.setups, s.reservations) && Reserve(s, actorId, now, setupId, from, until).Ok?
    ensures var s' := Reserve(s, actorId, now, setupId, from, until).value; StatusExact(s'.setups, s'.reservations)
  {
    var added := Reservation(setupId, actorId, from, until, Active);
    forall x | 0 <= x < |s.setups|
      ensures HasActive(s.reservations + [added], x) <==> HasActive(s.reservations, x) || setupId == x
    {
      AddedActive(s.reservations, added, x);
    }
  }

  lemma CancelledActive(rows: seq<Reservation>, id: int, x: int)
    requires 0 <= id < |rows| && rows[id].status == Active
    ensures HasActive(rows[id := rows[id].(status := Cancelled)], x) <==>
            if x == rows[id].setupId then HeldOtherwise(rows, id) else HasActive(rows, x)
  {
    var after := rows[id := rows[id].(status := Cancelled)];
    forall i | 0 <= i < |rows| && i != id && rows[i].setupId == x && rows[i].status == Active
      ensures HasActive(after, x)
    {
      assert after[i] == rows[i];
    }
  }

  lemma CancelKeepsExactIff(s: State, actorId: int, id: int)
    requires s.HasUser(actorId) && OnSetups(s.setups, s.reservations) && StatusExact(s.setups, s.reservations)
    requires CancelReservation(s, actorId, id).Ok?
    ensures var s' := CancelReservation(s, actorId, id).value;
            StatusExact(s'.setups, s'.reservations) <==> !HeldOtherwise(s.reservations, id)
  {
    var s', y := CancelReservation(s, actorId, id).value, s.reservations[id].setupId;
    forall x ensures HasActive(s'.reservations, x) <==>
        if x == y then HeldOtherwise(s.reservations, id) else HasActive(s.reservations, x)
    {
      CancelledActive(s.reservations, id, x);
    }
    assert s'.setups == s.setups[y := s.setups[y].(status := Available)];
  }

  lemma SweepKeepsExactIff(s: State, asOf: int)
    requires OnSetups(s.setups, s.reservations) && StatusExact(s.setups, s.reservations)
    ensures StatusExact(Sweep(s, asOf).setups, Sweep(s, asOf).reservations) <==>
            forall x :: !FreedTooEarly(s.reservations, asOf, x)
  {
    var s' := Sweep(s, asOf);
    forall x | 0 <= x < |s.setups|
      ensures (s'.setups[x].status == Reserved <==> HasActive(s'.reservations, x)) <==>
              !FreedTooEarly(s.reservations, asOf, x)
    {
      SweptStatusIff(s, asOf, x);
    }
    forall x | FreedTooEarly(s.reservations, asOf, x) ensures 0 <= x < |s.setups| {
      var i :| 0 <= i < |s.reservations| && s.reservations[i].setupId == x && s.reservations[i].status == Active;
    }
  }

  lemma SweptStatusIff(s: State, asOf: int, x: int)
    requires s.HasSetup(x) && (s.setups[x].status == Reserved <==> HasActive(s.reservations, x))
    ensures var s' := Sweep(s, asOf);
            (s'.setups[x].status == Reserved <==> HasActive(s'.reservations, x)) <==>
              !FreedTooEarly(s.reservations, asOf, x)
  {
    SweptActive(s.reservations, asOf, x);
    if HasActive(s.reservations, x) && !(exists r :: r in s.reservations && Expired(r, asOf) && r.setupId == x) {
      var i :| 0 <= i < |s.reservations| && s.reservations[i].setupId == x && s.reservations[i].status == Active;
      assert s.reservations[i] in s.reservations && !Expired(s.reservations[i], asOf);
    }
  }
}
