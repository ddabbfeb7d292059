/**
 * The admin edit of a setup: fields, group, keys and status, with re-baselining of hardware corrections; custom values.
 */
module SetupEdits {
  import opened Common
  import opened Domain
  import opened TemplateValues
  import opened HardwareState
  import opened Imports

  /** The fields an edit sets; whatever is absent stays. */
  datatype SetupEdit = SetupEdit(fixed: map<Field, Option<string>>, productId: Option<int>, group: Option<Option<int>>,
                                 ipAddress: Option<string>, hostname: Option<string>, owner: Option<Option<int>>,
                                 location: Option<string>, remarks: Option<Option<string>>,
                                 status: Option<SetupStatus>) {
    predicate SetsKeys() { ipAddress.Some? || hostname.Some? }
  }

  /** `_ALLOWED_STATUS_TRANSITIONS`. */
  predicate AllowedTransition(from: SetupStatus, to: SetupStatus) {
    match from
    case Available => to == Reserved || to == Maintenance || to == Retired
    case Reserved => to == Available || to == Maintenance
    case Maintenance => to == Available || to == Retired
    case Retired => false
  }

  function EditedFields(own: Fields, edit: map<Field, Option<string>>): Fields {
    map f: Field | true :: if f in edit then edit[f] else own[f]
  }

  function Or<T>(edit: Option<T>, own: T): T {
    if edit.Some? then edit.value else own
  }

  /** Every field but the status, as the edit leaves it. */
  function EditedSetup(own: Setup, edit: SetupEdit): Setup {
    Setup(Or(edit.productId, own.productId), Or(edit.group, own.groupId), Or(edit.ipAddress, own.ipAddress),
          Or(edit.hostname, own.hostname), EditedFields(own.fixed, edit.fixed), Or(edit.owner, own.ownerId),
          Or(edit.location, own.location), Or(edit.remarks, own.remarks), own.status)
  }

  /** The address or the host name would be another setup's: found by the lookup, or left to the unique constraints. */
  predicate KeysTaken(setups: seq<Setup>, id: int, edited: Setup)
    requires 0 <= id < |setups|
  {
    || (var found := FindByKey(setups, edited.ipAddress, edited.hostname); found.Some? && found.value != id)
    || !UniqueKeys(setups[id := edited])
  }

  predicate ForbiddenTransition(own: Setup, edit: SetupEdit) {
    edit.status.Some? && edit.status.value != own.status && !AllowedTransition(own.status, edit.status.value)
  }

  /** `update`, then re-baselining of the fixed fields it changed. */
  function EditSetup(s: State, id: int, edit: SetupEdit): Result<State> {
    if !s.HasSetup(id) then Err(NotFound)
    else
      var own := s.setups[id];
      var edited := EditedSetup(own, edit);
      if (edit.SetsKeys() && KeysTaken(s.setups, id, edited)) || ForbiddenTransition(own, edit) then Err(Conflict)
      else Ok(s.(setups := s.setups[id := edited.(status := Or(edit.status, own.status))],
                 baselines := RebaselinedFixed(s.baselines, id, own.fixed, edited.fixed)))
  }

  /**
   * The lookup is only a shortcut: where keys are unique, an edit is refused exactly when another setup has one of its
   * keys.
   */
  lemma KeysTakenIff(setups: seq<Setup>, id: int, edited: Setup)
    requires 0 <= id < |setups| && UniqueKeys(setups)
    ensures KeysTaken(setups, id, edited) <==>
            exists x :: 0 <= x < |setups| && x != id && SameKey(setups[x], edited.ipAddress, edited.hostname)
  {
    var after := setups[id := edited];
    if x :| 0 <= x < |setups| && x != id && SameKey(setups[x], edited.ipAddress, edited.hostname) {
      assert after[x] == setups[x] && after[id] == edited;
    } else {
      forall i, j | 0 <= i < j < |after| ensures !SameKey(after[i], after[j].ipAddress, after[j].hostname) {
        if i != id && j != id {
          assert after[i] == setups[i] && after[j] == setups[j];
        }
      }
    }
  }

  /** A status is no key. */
  lemma KeysIgnoreStatus(setups: seq<Setup>, id: int, edited: Setup, status: SetupStatus)
    requires 0 <= id < |setups|
    ensures UniqueKeys(setups[id := edited.(status := status)]) <==> UniqueKeys(setups[id := edited])
  {
    var a, b := setups[id := edited.(status := status)], setups[id := edited];
    forall i, j | 0 <= i < j < |setups|
      ensures SameKey(a[i], a[j].ipAddress, a[j].hostname) <==> SameKey(b[i], b[j].ipAddress, b[j].hostname) {}
  }

  // --- What an edit does to the recorded originals -----------------------

  /** The edit gives f another value, as values are compared. */
  predicate Alters(own: Fields, edit: SetupEdit, f: Field) {
    f in edit.fixed && Normalize(edit.fixed[f]) != Normalize(own[f])
  }

  /**
   * An accepted edit clears the change mark of exactly the fixed fields whose value it altered; every other mark, on
   * this and on every other setup, is as before.
   */
  lemma EditClearsWhatItAlters(s: State, names: HardwareState.ColumnNames, id: int, edit: SetupEdit, x: int, key: Key)
    requires EditSetup(s, id, edit).Ok? && s.HasSetup(x)
    ensures var s' := EditSetup(s, id, edit).value;
            && s'.HasSetup(x)
            && (IsChanged(s', names, x, key) <==>
                IsChanged(s, names, x, key)
                  && !(x == id && key.FixedKey? && Alters(s.setups[id].fixed, edit, key.field)))
  {
    if x == id && key.FixedKey? {
      FixedLaw(s.baselines, id, s.setups[id].fixed, EditedFields(s.setups[id].fixed, edit.fixed), key.field);
    }
  }

  /** The edit alters a field of a setup with a recorded original, and to something else than that original. */
  ghost predicate OverwritesOriginal(s: State, id: int, edit: SetupEdit)
    requires s.HasSetup(id)
  {
    id in s.baselines && exists f :: Alters(s.setups[id].fixed, edit, f) && edit.fixed[f] != s.baselines[id][f]
  }

  /** The baselines an accepted edit leaves. */
  lemma EditedBaselines(s: State, id: int, edit: SetupEdit)
    requires EditSetup(s, id, edit).Ok?
    ensures var own, s' := s.setups[id].fixed, EditSetup(s, id, edit).value;
            && s'.customBaselines == s.customBaselines
            && s'.baselines == RebaselinedFixed(s.baselines, id, own, EditedFields(own, edit.fixed))
  {
  }

  /** An accepted edit leaves every recorded original as it was exactly when it overwrites none with another value. */
  lemma EditKeepsOriginalsIff(s: State, id: int, edit: SetupEdit)
    requires EditSetup(s, id, edit).Ok?
    ensures var s' := EditSetup(s, id, edit).value;
            && s'.customBaselines == s.customBaselines
            && (Extends(s.baselines, s'.baselines) <==> !OverwritesOriginal(s, id, edit))
  {
    EditedBaselines(s, id, edit);
    RebaselinedExtendsIff(s.baselines, id, s.setups[id].fixed, edit);
  }

  lemma RebaselinedExtendsIff(baselines: map<int, Fields>, id: int, own: Fields, edit: SetupEdit)
    ensures Extends(baselines, RebaselinedFixed(baselines, id, own, EditedFields(own, edit.fixed))) <==>
            (id in baselines ==> forall f :: Alters(own, edit, f) ==> edit.fixed[f] == baselines[id][f])
  {
    RebaselinedRow(baselines, id, own, edit);
  }

  lemma RebaselinedRow(baselines: map<int, Fields>, id: int, own: Fields, edit: SetupEdit)
    ensures var after := RebaselinedFixed(baselines, id, own, EditedFields(own, edit.fixed));
            && (forall x :: x in baselines && x != id ==> x in after && after[x] == baselines[x])
            && (id in baselines ==>
                  && id in after
                  && (after[id] == baselines[id] <==>
                      forall f :: Alters(own, edit, f) ==> edit.fixed[f] == baselines[id][f]))
  {
    var edited := EditedFields(own, edit.fixed);
    var after := RebaselinedFixed(baselines, id, own, edited);
    if id in baselines {
      forall f ensures after[id][f] == if Alters(own, edit, f) then edit.fixed[f] else baselines[id][f] {
        RebaselinedValue(baselines, id, own, edit, f);
      }
    }
  }

  lemma RebaselinedValue(baselines: map<int, Fields>, id: int, own: Fields, edit: SetupEdit, f: Field)
    requires id in baselines
    ensures var after := RebaselinedFixed(baselines, id, own, EditedFields(own, edit.fixed));
            id in after && after[id][f] == if Alters(own, edit, f) then edit.fixed[f] else baselines[id][f]
  {
    assert EditedField(own, EditedFields(own, edit.fixed), f) <==> Alters(own, edit, f);
  }

  // --- Custom values -----------------------------------------------------

  /** Store custom values of a setup, through its product's template. */
  function StoreValues(s: State, id: int, raw: map<string, Raw>): Result<State> {
    if !s.HasSetup(id) then Err(NotFound)
    else match SetValues(CellsOf(s), id, s.Template(s.setups[id].productId), raw)
      case Err(e) => Err(e)
      case Ok(cells) => Ok(s.(values := cells.values, customBaselines := cells.baselines))
  }
}
