/** The reservation service over the database, proved against its specification functions. */
module ReservationServices {
  import opened Common
  import opened Domain
  import opened Reservations
  import opened Store

  class ReservationService {
    const db: Database

    constructor (db: Database)
      ensures this.db == db
    {
      this.db := db;
    }

    /** `create`; the new reservation's id. */
    method Create(actorId: int, now: int, setupId: int, from: int, until: int) returns (r: Result<int>)
      modifies db`reservations, db`setups
      ensures Outcome(Reserve(old(db.Snapshot()), actorId, now, setupId, from, until), r, db.Snapshot())
      ensures r.Ok? ==> r.value == |old(db.reservations)|
    {
      if until <= from {
        return Err(Invalid);
      }
      if !(0 <= setupId < |db.setups|) {
        return Err(NotFound);
      }
      if db.setups[setupId].OutOfService() {
        return Err(Conflict);
      }
      if db.minLeadTime > 0 && from < now + db.minLeadTime {
        return Err(Invalid);
      }
      if FindOverlap(db.reservations, setupId, from, until).Some? {
        return Err(Conflict);
      }
      r := Ok(|db.reservations|);
      db.reservations := db.reservations + [Reservation(setupId, actorId, from, until, Active)];
      db.UpdateStatus(setupId, Reserved);
    }

    /** `cancel`. */
    method Cancel(actorId: int, id: int) returns (r: Result<()>)
      requires db.Snapshot().HasUser(actorId)
      modifies db`reservations, db`setups
      ensures Outcome(CancelReservation(old(db.Snapshot()), actorId, id), r, db.Snapshot())
      ensures r.Ok? <==>
              && 0 <= id < |old(db.reservations)| && old(db.reservations)[id].status == Active
              && (|| old(db.reservations)[id].userId == actorId
                  || ReservationCancelAnyPermission in db.users[actorId].permissions)
    {
      if !(0 <= id < |db.reservations|) {
        return Err(NotFound);
      }
      var reservation := db.reservations[id];
      if reservation.status != Active {
        return Err(Conflict);
      }
      var isOwner := reservation.userId == actorId;
      var canCancelAny := ReservationCancelAnyPermission in db.users[actorId].permissions;
      if !isOwner && !canCancelAny {
        return Err(Forbidden);
      }
      db.reservations := db.reservations[id := reservation.(status := Cancelled)];
      db.UpdateStatus(reservation.setupId, Available);
      r := Ok(());
    }

    /** `sweep_expired_reservations`: complete every expired ACTIVE row and free its setup; how many rows moved. */
    method SweepExpired(asOf: int) returns (count: nat)
      modifies db`reservations, db`setups
      ensures db.Snapshot() == Sweep(old(db.Snapshot()), asOf)
      ensures count == |set i | 0 <= i < |old(db.reservations)| && Expired(old(db.reservations)[i], asOf)|
    {
      var expired := Where(db.reservations, (r: Reservation) => Expired(r, asOf));
      ghost var rows, setups := db.reservations, db.setups;
      for k := 0 to |expired|
        invariant |db.reservations| == |rows| && |db.setups| == |setups|
        invariant forall i :: 0 <= i < |rows| ==>
            db.reservations[i] == if i in expired[..k] then rows[i].(status := Completed) else rows[i]
        invariant forall x :: 0 <= x < |setups| ==>
            db.setups[x] == if Freed(rows, expired[..k], x) then setups[x].(status := Available) else setups[x]
      {
        var id := expired[k];
        assert id in expired;
        FreedOneMore(rows, expired, k);
        db.reservations := db.reservations[id := db.reservations[id].(status := Completed)];
        db.UpdateStatus(db.reservations[id].setupId, Available);
      }
      assert expired[..|expired|] == expired;
      assert db.reservations == SweptRows(rows, asOf);
      AllFreed(rows, expired, asOf);
      assert db.setups == SweptSetups(setups, rows, asOf);
      DistinctCount(expired, set i | 0 <= i < |rows| && Expired(rows[i], asOf));
      count := |expired|;
    }
  }

  /** One of the listed rows is on setup x. */
  ghost predicate Freed(rows: seq<Reservation>, ids: seq<int>, x: int) {
    exists i :: i in ids && 0 <= i < |rows| && rows[i].setupId == x
  }

  lemma FreedOneMore(rows: seq<Reservation>, ids: seq<int>, k: int)
    requires 0 <= k < |ids| && 0 <= ids[k] < |rows|
    ensures forall i :: i in ids[..k + 1] <==> i in ids[..k] || i == ids[k]
    ensures forall x :: Freed(rows, ids[..k + 1], x) <==> Freed(rows, ids[..k], x) || rows[ids[k]].setupId == x
  {
    assert ids[..k + 1] == ids[..k] + [ids[k]];
  }

  lemma AllFreed(rows: seq<Reservation>, ids: seq<int>, asOf: int)
    requires forall i :: i in ids <==> 0 <= i < |rows| && Expired(rows[i], asOf)
    ensures forall x :: Freed(rows, ids, x) <==> exists r :: r in rows && Expired(r, asOf) && r.setupId == x
  {
    forall r | r in rows && Expired(r, asOf) ensures Freed(rows, ids, r.setupId) {
      var i :| 0 <= i < |rows| && rows[i] == r;
    }
  }
}
