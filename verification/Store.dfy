/** The database behind the services: mutable tables, the single-row writes of the repositories, and rollback. */
module Store {
  import opened Common
  import opened Domain
  import opened TemplateValues
  import opened Reservations
  import Borrows
  import Swaps

  class Database {
    // What no call writes.
    const users: seq<User>
    const groups: set<int>
    const templates: map<int, seq<Column>>
    const requireSameProduct: bool
    const minLeadTime: int

    // The hardware tables.
    var setups: seq<Setup>
    var values: map<CellKey, Option<string>>
    var baselines: map<int, Fields>
    var customBaselines: map<CellKey, Option<string>>
    var ledger: seq<LedgerRow>

    // The request tables.
    var reservations: seq<Reservation>
    var swaps: seq<Swap>
    var borrows: seq<Borrow>
    var grants: seq<Grant>
    var edges: seq<Edge>

    /** The tables as one value. */
    function Snapshot(): State
      reads this
    {
      State(users, groups, templates, setups, values, baselines, customBaselines, ledger, reservations, swaps, borrows,
            grants, edges, requireSameProduct, minLeadTime)
    }

    /** The custom values and their baselines. */
    function CustomCells(): Cells
      reads this`values, this`customBaselines
    {
      Cells(values, customBaselines)
    }

    constructor (s: State)
      ensures Snapshot() == s
    {
      users, groups, templates, requireSameProduct, minLeadTime :=
        s.users, s.groups, s.templates, s.requireSameProduct, s.minLeadTime;
      setups, values, baselines, customBaselines, ledger :=
        s.setups, s.values, s.baselines, s.customBaselines, s.ledger;
      reservations, swaps, borrows, grants, edges := s.reservations, s.swaps, s.borrows, s.grants, s.edges;
    }

    /** s differs from the store at most in what calls write. */
    ghost predicate SameConstants(s: State) {
      && s.users == users && s.groups == groups && s.templates == templates
      && s.requireSameProduct == requireSameProduct && s.minLeadTime == minLeadTime
    }

    /** The transaction's undo. */
    method Rollback(s: State)
      requires SameConstants(s)
      modifies this
      ensures Snapshot() == s
    {
      RestoreHardware(s);
      RestoreRequests(s);
    }

    method RestoreHardware(s: State)
      modifies this`setups, this`values, this`baselines, this`customBaselines, this`ledger
      ensures setups == s.setups && values == s.values && baselines == s.baselines
      ensures customBaselines == s.customBaselines && ledger == s.ledger
    {
      setups, values, baselines, customBaselines, ledger :=
        s.setups, s.values, s.baselines, s.customBaselines, s.ledger;
    }

    method RestoreRequests(s: State)
      modifies this`reservations, this`swaps, this`borrows, this`grants, this`edges
      ensures reservations == s.reservations && swaps == s.swaps && borrows == s.borrows
      ensures grants == s.grants && edges == s.edges
    {
      reservations, swaps, borrows, grants, edges := s.reservations, s.swaps, s.borrows, s.grants, s.edges;
    }

    // --- Setups ----------------------------------------------------------

    /** `update_status`: a missing setup is ignored. */
    method UpdateStatus(setupId: int, status: SetupStatus)
      modifies this`setups
      ensures setups == WithStatus(old(setups), setupId, status)
    {
      if 0 <= setupId < |setups| {
        setups := setups[setupId := setups[setupId].(status := status)];
      }
    }

    /** setattr(setup, field, value). */
    method SetField(setupId: int, f: Field, value: Option<string>)
      requires 0 <= setupId < |setups|
      modifies this`setups
      ensures setups == Swaps.SetField(old(setups), setupId, f, value)
    {
      setups := setups[setupId := setups[setupId].(fixed := setups[setupId].fixed[f := value])];
    }

    // --- Baselines -------------------------------------------------------

    /** `ensure_fixed_baseline`: never overwrites. */
    method EnsureFixedBaseline(setupId: int)
      requires 0 <= setupId < |setups|
      modifies this`baselines
      ensures baselines == Borrows.EnsureBaseline(old(Snapshot()), setupId)
    {
      if setupId !in baselines {
        baselines := baselines[setupId := setups[setupId].fixed];
      }
    }

    /** `ensure_custom_baseline`: never overwrites. */
    method RecordOriginal(key: CellKey, original: Option<string>)
      modifies this`customBaselines
      ensures CustomCells() == EnsureCustomBaseline(old(CustomCells()), key, original)
    {
      if key !in customBaselines {
        customBaselines := customBaselines[key := original];
      }
    }

    // --- Custom values ---------------------------------------------------

    /** `upsert_value`; a new row fires the after-insert hook, which records a baseline unless there is one. */
    method UpsertValue(key: CellKey, text: string)
      modifies this`values, this`customBaselines
      ensures CustomCells() == Upsert(old(CustomCells()), key, text)
    {
      var isNew := key !in values;
      values := values[key := Some(text)];
      if isNew && key !in customBaselines {
        customBaselines := customBaselines[key := Some(text)];
      }
    }
  }

  /** A service call's result against what its specification says: on success the tables are the specified ones. */
  ghost predicate Outcome<T>(spec: Result<State>, r: Result<T>, now: State) {
    match spec
    case Ok(s) => r.Ok? && now == s
    case Err(e) => r == Err(e)
  }
}
