/** Recorded originals over whole runs: exactly which calls overwrite one. */
module OriginalRuns {
  import opened Common
  import opened Domain
  import opened TemplateValues
  import opened HardwareState
  import opened SetupEdits
  import opened Runs
  import opened Effects
  import Imports

  /** Call c, made in state s, is an accepted edit that overwrites a recorded original with another value. */
  ghost predicate CallOverwrites(s: State, c: Call) {
    && c.OnAdmin? && c.admin.EditSetupCall? && Exec(s, c).Ok?
    && OverwritesOriginal(s, c.admin.editedId, c.admin.edit)
  }

  lemma OtherCallsKeepOriginals(s: State, c: Call)
    requires !(c.OnAdmin? && c.admin.EditSetupCall?)
    ensures OriginalsKept(s, Next(s, c))
  {
    if Exec(s, c).Ok? {
      match c
      case OnSwap(a, call) =>
        SwapCallEffect(s, a, call);
        if call.ApproveSwapCall? {
          ApproveKeepsOriginals(s, a, call.swapId);
        }
      case OnBorrow(a, now, call) => BorrowCallEffect(s, a, now, call);
      case OnReservation(a, now, call) => ReservationCallEffect(s, a, now, call);
      case ReservationJob(now) => SweepEffect(s, now);
      case OnAdmin(a, call) => AdminKeepsOriginals(s, a, call);
      case BorrowJob(now) =>
    }
  }

  lemma AdminKeepsOriginals(s: State, actorId: int, call: AdminCall)
    requires s.HasUser(actorId) && ExecAdmin(s, actorId, call).Ok? && !call.EditSetupCall?
    ensures OriginalsKept(s, ExecAdmin(s, actorId, call).value)
  {
    AdminCallEffect(s, actorId, call);
    if call.StoreValuesCall? {
      StoreValuesKeepsOriginals(s, call.valuesId, call.raw);
    } else if call.ImportCall? && Imports.BatchErrors(call.directory, call.rows) == 0 {
      UpsertGrows(call.directory, Imports.StartImport(s), call.rows);
    }
  }

  lemma EditCall(s: State, c: Call)
    requires c.OnAdmin? && c.admin.EditSetupCall?
    ensures if Exec(s, c).Ok? then EditSetup(s, c.admin.editedId, c.admin.edit) == Ok(Next(s, c)) else Next(s, c) == s
  {
  }

  /** A step leaves every recorded original as it was exactly when it overwrites none. */
  lemma NextKeepsOriginalsIff(s: State, c: Call)
    ensures OriginalsKept(s, Next(s, c)) <==> !CallOverwrites(s, c)
  {
    if c.OnAdmin? && c.admin.EditSetupCall? {
      EditCall(s, c);
      if Exec(s, c).Ok? {
        EditKeepsOriginalsIff(s, c.admin.editedId, c.admin.edit);
      }
    } else {
      OtherCallsKeepOriginals(s, c);
    }
  }

  // --- Whole runs --------------------------------------------------------

  /** Call k of the run overwrites a recorded original. */
  ghost predicate OverwritesAt(s: State, calls: seq<Call>, k: int)
    requires 0 <= k < |calls|
  {
    CallOverwrites(Before(s, calls, k), calls[k])
  }

  ghost predicate KeptBetween(s: State, calls: seq<Call>, j: int, k: int)
    requires 0 <= j <= k <= |calls|
  {
    OriginalsKept(Before(s, calls, j), Before(s, calls, k))
  }

  lemma StepKeepsOriginalsIff(s: State, calls: seq<Call>, k: int)
    requires 0 <= k < |calls|
    ensures KeptBetween(s, calls, k, k + 1) <==> !OverwritesAt(s, calls, k)
  {
    RunSteps(s, calls, k);
    NextKeepsOriginalsIff(Before(s, calls, k), calls[k]);
  }

  lemma KeptNow(s: State, calls: seq<Call>, k: int)
    requires 0 <= k <= |calls|
    ensures KeptBetween(s, calls, k, k)
  {
  }

  lemma KeptOneMore(s: State, calls: seq<Call>, j: int, k: int)
    requires 0 <= j <= k < |calls| && KeptBetween(s, calls, j, k) && KeptBetween(s, calls, k, k + 1)
    ensures KeptBetween(s, calls, j, k + 1)
  {
  }

  lemma {:induction false} KeptUpTo(s: State, calls: seq<Call>, j: int, k: int)
    requires 0 <= j <= k <= |calls|
    requires forall i :: 0 <= i < |calls| ==> !OverwritesAt(s, calls, i)
    ensures KeptBetween(s, calls, j, k)
    decreases k - j
  {
    if j == k {
      KeptNow(s, calls, k);
    } else {
      KeptUpTo(s, calls, j, k - 1);
      StepKeepsOriginalsIff(s, calls, k - 1);
      KeptOneMore(s, calls, j, k - 1);
    }
  }

  /**
   * An original, fixed or custom, keeps its value from any point of a run at which it is recorded to any later point,
   * exactly when no call of the run is an edit that overwrites a recorded original with another value.
   */
  lemma OriginalsAreStable(s: State, calls: seq<Call>)
    ensures (forall j, k :: 0 <= j <= k <= |calls| ==> KeptBetween(s, calls, j, k)) <==>
            forall k :: 0 <= k < |calls| ==> !OverwritesAt(s, calls, k)
  {
    if forall k :: 0 <= k < |calls| ==> !OverwritesAt(s, calls, k) {
      forall j, k | 0 <= j <= k <= |calls| ensures KeptBetween(s, calls, j, k) {
        KeptUpTo(s, calls, j, k);
      }
    } else {
      var k :| 0 <= k < |calls| && OverwritesAt(s, calls, k);
      StepKeepsOriginalsIff(s, calls, k);
    }
  }

  // --- A failing edit ----------------------------------------------------

  /** An edit of one fixed field and nothing else. */
  function FieldEdit(f: Field, value: Option<string>): SetupEdit {
    SetupEdit(map[f := value], None, None, None, None, None, None, None, None)
  }

  lemma FieldEditAccepted(s: State, id: int, f: Field, value: Option<string>)
    requires s.HasSetup(id)
    ensures EditSetup(s, id, FieldEdit(f, value)).Ok?
  {
  }

  lemma FieldEditCommits(s: State, actorId: int, id: int, f: Field, value: Option<string>)
    requires Authenticated(s, actorId) && ProductManagePermission in s.users[actorId].permissions && s.HasSetup(id)
    ensures EditSetup(s, id, FieldEdit(f, value)) ==
            Ok(Next(s, OnAdmin(actorId, EditSetupCall(id, FieldEdit(f, value)))))
  {
    FieldEditAccepted(s, id, f, value);
    EditCall(s, OnAdmin(actorId, EditSetupCall(id, FieldEdit(f, value))));
  }

  /** Correcting a field of a setup that still is as recorded replaces the recorded original. */
  lemma CorrectionOverwritesOriginal(s: State, actorId: int, id: int, f: Field, value: Option<string>)
    requires Authenticated(s, actorId) && ProductManagePermission in s.users[actorId].permissions
    requires s.HasSetup(id) && id in s.baselines && s.baselines[id] == s.setups[id].fixed
    requires Normalize(value) != Normalize(s.setups[id].fixed[f])
    ensures var s' := Next(s, OnAdmin(actorId, EditSetupCall(id, FieldEdit(f, value))));
            id in s'.baselines && s'.baselines[id][f] == value != s.baselines[id][f] && !OriginalsKept(s, s')
  {
    FieldEditCommits(s, actorId, id, f, value);
    EditedBaselines(s, id, FieldEdit(f, value));
    RebaselinedValue(s.baselines, id, s.setups[id].fixed, FieldEdit(f, value), f);
  }

  // --- The web edit, which also re-baselines custom columns --------------

  /** The edit alters a custom column with a recorded original, and to something else than that original. */
  ghost predicate OverwritesCustom(baselines: map<CellKey, Option<string>>, id: int, cols: seq<Column>, was: Cells,
                                   now: Cells)
  {
    exists c :: c in cols && EditedColumn(was, now, id, c) && (id, c.id) in baselines
      && baselines[(id, c.id)] != now.Text((id, c.id))
  }

  /** The edit alters a fixed field with a recorded original, and to something else than that original. */
  ghost predicate OverwritesFixed(baselines: map<int, Fields>, id: int, own: Fields, edited: Fields) {
    id in baselines && exists f :: EditedField(own, edited, f) && edited[f] != baselines[id][f]
  }

  lemma RebaselinedFixedKeepsIff(baselines: map<int, Fields>, id: int, own: Fields, edited: Fields)
    ensures Extends(baselines, RebaselinedFixed(baselines, id, own, edited)) <==>
            !OverwritesFixed(baselines, id, own, edited)
  {
    var after := RebaselinedFixed(baselines, id, own, edited);
    if id in baselines {
      forall f ensures after[id][f] == if EditedField(own, edited, f) then edited[f] else baselines[id][f] {}
      if !OverwritesFixed(baselines, id, own, edited) {
        assert forall f :: after[id][f] == baselines[id][f];
        assert after[id] == baselines[id];
      }
    }
  }

  /**
   * An edit through the web form stores fixed and custom values and re-baselines both: it keeps every recorded original
   * exactly when no field and no column it altered had an original of another value.
   */
  lemma WebEditKeepsOriginalsIff(s: State, id: int, fixed: Fields, cols: seq<Column>, raw: map<string, Raw>)
    requires s.HasSetup(id) && SetValues(CellsOf(s), id, cols, raw).Ok?
    ensures var now := SetValues(CellsOf(s), id, cols, raw).value;
            OriginalsKept(s, Rebaselined(s, Edited(s, id, fixed, now), id, cols)) <==>
            && !OverwritesFixed(s.baselines, id, s.setups[id].fixed, fixed)
            && !OverwritesCustom(s.customBaselines, id, cols, CellsOf(s), now)
  {
    var now := SetValues(CellsOf(s), id, cols, raw).value;
    WriteAllExtends(CellsOf(s), id, cols, Validate(cols, raw).value);
    RebaselinedFixedKeepsIff(s.baselines, id, s.setups[id].fixed, fixed);
    RebaselinedCustomKeepsIff(s.customBaselines, id, cols, CellsOf(s), now);
  }

  /**
   * Re-baselining, after writes whose hook may have recorded new originals, keeps every custom original recorded before
   * exactly when no edited column with one got another value.
   */
  lemma RebaselinedCustomKeepsIff(baselines: map<CellKey, Option<string>>, id: int, cols: seq<Column>, was: Cells,
                                  now: Cells)
    requires Extends(baselines, now.baselines)
    ensures Extends(baselines, RebaselinedCustom(now.baselines, id, cols, was, now)) <==>
            !OverwritesCustom(baselines, id, cols, was, now)
  {
    var after := RebaselinedCustom(now.baselines, id, cols, was, now);
    forall key | key in baselines
      ensures key in after && (after[key] == baselines[key] || exists c ::
                c in cols && (id, c.id) == key && EditedColumn(was, now, id, c) && after[key] == now.Text(key))
    {
      RebaselinedCustomMeaning(now.baselines, id, cols, was, now, key);
    }
    forall c | c in cols && EditedColumn(was, now, id, c) && (id, c.id) in baselines
      ensures (id, c.id) in after && after[(id, c.id)] == now.Text((id, c.id))
    {
      RebaselinedCustomMeaning(now.baselines, id, cols, was, now, (id, c.id));
    }
  }
}
