/** The API over the database: authentication, permission checks, one service call, and rollback when it fails. */
module Api {
  import opened Common
  import opened Domain
  import opened Runs
  import opened Store
  import opened SwapServices
  import opened BorrowServices
  import opened ReservationServices
  import opened AdminServices
  import SetupEdits
  import TemplateValues

  class Application {
    const db: Database
    const templates: TemplateService
    const swaps: SwapService
    const borrows: BorrowService
    const reservations: ReservationService
    const setups: SetupService
    const hierarchy: GroupHierarchyService
    const imports: ImportService

    /** Every service works on the one database. */
    ghost predicate Valid() {
      && templates.db == db && swaps.db == db && swaps.templates == templates
      && borrows.db == db && reservations.db == db
      && setups.db == db && setups.hardwareState.db == db
      && hierarchy.db == db && imports.db == db
    }

    constructor (s: State)
      ensures Valid() && fresh(db) && db.Snapshot() == s
    {
      var store := new Database(s);
      var templateService := new TemplateService(store);
      var hardwareState := new HardwareStateService(store);
      db, templates := store, templateService;
      swaps := new SwapService(store, templateService);
      borrows := new BorrowService(store);
      reservations := new ReservationService(store);
      setups := new SetupService(store, hardwareState);
      hierarchy := new GroupHierarchyService(store);
      imports := new ImportService(store);
    }

    /** `require_permission`. */
    method HasPermission(actorId: int, p: Permission) returns (ok: bool)
      requires db.Snapshot().HasUser(actorId)
      ensures ok == Permitted(db.Snapshot(), actorId, p)
    {
      ok := p in db.users[actorId].permissions;
    }

    method HandleSwap(actorId: int, c: SwapCall) returns (r: Result<()>)
      requires Valid() && db.Snapshot().HasUser(actorId)
      modifies db
      ensures Outcome(ExecSwap(old(db.Snapshot()), actorId, c), r, db.Snapshot())
    {
      var mayRequest := HasPermission(actorId, SwapRequestPermission);
      var mayDecide := HasPermission(actorId, SwapApprovePermission);
      match c {
        case RaiseSwap(p) =>
          if !mayRequest {
            return Err(Forbidden);
          }
          var created := swaps.Create(actorId, p);
          r := Done(created);
        case ApproveSwapCall(id) =>
          if !mayDecide {
            return Err(Forbidden);
          }
          r := swaps.Approve(actorId, id);
        case RejectSwapCall(id) =>
          if !mayDecide {
            return Err(Forbidden);
          }
          r := swaps.Reject(actorId, id);
        case CancelSwapCall(id) =>
          r := swaps.Cancel(actorId, id);
      }
    }

    method HandleBorrow(actorId: int, now: int, c: BorrowCall) returns (r: Result<()>)
      requires Valid() && db.Snapshot().HasUser(actorId)
      modifies db
      ensures Outcome(ExecBorrow(old(db.Snapshot()), actorId, now, c), r, db.Snapshot())
    {
      var mayRequest := HasPermission(actorId, BorrowRequestPermission);
      var mayDecide := HasPermission(actorId, BorrowApprovePermission);
      var mayReturn := HasPermission(actorId, BorrowReturnPermission);
      match c {
        case RequestBorrow(p) =>
          if !mayRequest {
            return Err(Forbidden);
          }
          var created := borrows.Create(actorId, now, p);
          r := Done(created);
        case ApproveBorrowCall(id) =>
          if !mayDecide {
            return Err(Forbidden);
          }
          r := borrows.Approve(actorId, now, id);
        case RejectBorrowCall(id) =>
          if !mayDecide {
            return Err(Forbidden);
          }
          r := borrows.Reject(actorId, now, id);
        case CancelBorrowCall(id) =>
          r := borrows.Cancel(actorId, id);
        case ReturnBorrowCall(id) =>
          if !mayReturn {
            return Err(Forbidden);
          }
          r := borrows.Return(actorId, id);
      }
    }

    method HandleReservation(actorId: int, now: int, c: ReservationCall) returns (r: Result<()>)
      requires Valid() && db.Snapshot().HasUser(actorId)
      modifies db
      ensures Outcome(ExecReservation(old(db.Snapshot()), actorId, now, c), r, db.Snapshot())
    {
      match c {
        case ReserveCall(x, from, until) =>
          var mayReserve := HasPermission(actorId, ReservationCreatePermission);
          if !mayReserve {
            return Err(Forbidden);
          }
          var created := reservations.Create(actorId, now, x, from, until);
          r := Done(created);
        case CancelReservationCall(id) =>
          r := reservations.Cancel(actorId, id);
      }
    }

    method HandleAdmin(actorId: int, c: AdminCall) returns (r: Result<()>)
      requires Valid() && db.Snapshot().HasUser(actorId)
      modifies db
      ensures Outcome(ExecAdmin(old(db.Snapshot()), actorId, c), r, db.Snapshot())
    {
      var mayManageGroups := HasPermission(actorId, GroupManagePermission);
      var mayManageProducts := HasPermission(actorId, ProductManagePermission);
      var mayImport := HasPermission(actorId, ImportRunPermission);
      if c.AddEdge? || c.RemoveEdge? {
        if !mayManageGroups {
          return Err(Forbidden);
        }
        if c.AddEdge? {
          r := hierarchy.AddEdge(c.edge);
        } else {
          r := hierarchy.RemoveEdge(c.edge);
        }
      } else if c.ImportCall? {
        if !mayImport {
          return Err(Forbidden);
        }
        var report := imports.ImportRows(c.directory, c.rows);
        r := Done(report);
      } else if !mayManageProducts {
        r := Err(Forbidden);
      } else if c.EditSetupCall? {
        r := setups.Update(c.editedId, c.edit);
      } else {
        r := SetCustomFields(c.valuesId, c.raw);
      }
    }

    /** `set_setup_custom_fields`. */
    method SetCustomFields(id: int, raw: map<string, TemplateValues.Raw>) returns (r: Result<()>)
      requires Valid()
      modifies db`values, db`customBaselines
      ensures Outcome(SetupEdits.StoreValues(old(db.Snapshot()), id, raw), r, db.Snapshot())
    {
      if !(0 <= id < |db.setups|) {
        return Err(NotFound);
      }
      r := templates.SetSetupValues(id, db.setups[id].productId, raw);
    }

    /** One request or scheduled job in its own transaction: commit, or roll back on an error. */
    method Handle(c: Call) returns (r: Result<()>)
      requires Valid()
      modifies db
      ensures match Exec(old(db.Snapshot()), c) case Ok(_) => r.Ok? case Err(e) => r == Err(e)
      ensures db.Snapshot() == Next(old(db.Snapshot()), c)
    {
      var before := db.Snapshot();
      r := Dispatch(c);
      if r.Err? {
        db.Rollback(before);
      }
    }

    /** `get_current_user`, then the handler of the call. */
    method Dispatch(c: Call) returns (r: Result<()>)
      requires Valid()
      modifies db
      ensures Outcome(Exec(old(db.Snapshot()), c), r, db.Snapshot())
    {
      if c.BorrowJob? {
        var _ := borrows.ExpireStalePending(c.now);
        return Ok(());
      }
      if c.ReservationJob? {
        var _ := reservations.SweepExpired(c.now);
        return Ok(());
      }
      if !(0 <= c.actorId < |db.users|) || !db.users[c.actorId].isActive {
        return Err(Forbidden);
      }
      match c {
        case OnSwap(actorId, call) => r := HandleSwap(actorId, call);
        case OnBorrow(actorId, now, call) => r := HandleBorrow(actorId, now, call);
        case OnReservation(actorId, now, call) => r := HandleReservation(actorId, now, call);
        case OnAdmin(actorId, call) => r := HandleAdmin(actorId, call);
      }
    }

    /** A whole run: what the run theorems say of Run holds of the database. */
    method HandleAll(calls: seq<Call>)
      requires Valid()
      modifies db
      ensures db.Snapshot() == Run(old(db.Snapshot()), calls)
    {
      ghost var start := db.Snapshot();
      for i := 0 to |calls|
        invariant db.Snapshot() == Run(start, calls[..i])
      {
        assert calls[..i + 1][..i] == calls[..i];
        var _ := Handle(calls[i]);
      }
      assert calls[..|calls|] == calls;
    }
  }

  /** The response without its payload. */
  function Done<T>(r: Result<T>): Result<()> {
    match r case Ok(_) => Ok(()) case Err(e) => Err(e)
  }
}
