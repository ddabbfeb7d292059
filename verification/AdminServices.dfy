/** Administrative services over the database: re-baselining, setup edits, hierarchy edges and the bulk import. */
module AdminServices {
  import opened Common
  import opened Domain
  import opened ApprovalRouting
  import opened TemplateValues
  import opened HardwareState
  import opened SetupEdits
  import opened Imports
  import opened Store

  // --- Re-baselining -----------------------------------------------------

  /** The fixed fields whose normalised value differs before and after, in table order. */
  method FieldsEdited(before: Fields, after: Fields) returns (changed: seq<Field>)
    ensures forall f :: f in changed <==> EditedField(before, after, f)
  {
    changed := [];
    for i := 0 to |FIELDS|
      invariant forall f :: f in changed <==> f in FIELDS[..i] && EditedField(before, after, f)
    {
      var f := FIELDS[i];
      assert FIELDS[..i + 1] == FIELDS[..i] + [f];
      if Normalize(before[f]) != Normalize(after[f]) {
        changed := changed + [f];
      }
    }
    assert FIELDS[..|FIELDS|] == FIELDS;
    forall f ensures f in FIELDS {
      EveryFieldListed(f);
    }
  }

  /** The setup's recorded originals, or its current values where there are none. */
  function OriginalRow(s: State, id: int): Fields
    requires s.HasSetup(id)
  {
    if id in s.baselines then s.baselines[id] else s.setups[id].fixed
  }

  /** row, with the current values of the named fields. */
  function Overwritten(row: Fields, current: Fields, names: seq<Field>): Fields {
    map f: Field | true :: if f in names then current[f] else row[f]
  }

  lemma OverwrittenOneMore(row: Fields, current: Fields, names: seq<Field>, i: int)
    requires 0 <= i < |names|
    ensures Overwritten(row, current, names[..i + 1]) ==
            Overwritten(row, current, names[..i])[names[i] := current[names[i]]]
  {
    assert names[..i + 1] == names[..i] + [names[i]];
  }

  /** setattr over the named fields of a baseline row. */
  method OverwriteRow(row: Fields, current: Fields, names: seq<Field>) returns (r: Fields)
    ensures r == Overwritten(row, current, names)
  {
    r := row;
    for i := 0 to |names|
      invariant r == Overwritten(row, current, names[..i])
    {
      OverwrittenOneMore(row, current, names, i);
      r := r[names[i] := current[names[i]]];
    }
    assert names[..|names|] == names;
  }

  lemma SameRow(row: Fields, before: Fields, after: Fields, edited: seq<Field>)
    requires forall f :: f in edited <==> EditedField(before, after, f)
    ensures Overwritten(row, after, edited) ==
            map f: Field | true :: if EditedField(before, after, f) then after[f] else row[f]
  {
  }

  /** Overwriting exactly the edited fields is re-baselining. */
  lemma RebaselinedIs(s: State, id: int, before: Fields, edited: seq<Field>)
    requires s.HasSetup(id)
    requires forall f :: f in edited <==> EditedField(before, s.setups[id].fixed, f)
    ensures RebaselinedFixed(s.baselines, id, before, s.setups[id].fixed) ==
            if edited == [] then s.baselines
            else s.baselines[id := Overwritten(OriginalRow(s, id), s.setups[id].fixed, edited)]
  {
    var after := s.setups[id].fixed;
    if edited == [] {
      forall f ensures !EditedField(before, after, f) {
        assert f !in edited;
      }
    } else {
      assert EditedField(before, after, edited[0]);
      SameRow(OriginalRow(s, id), before, after, edited);
    }
  }

  class HardwareStateService {
    const db: Database

    constructor (db: Database)
      ensures this.db == db
    {
      this.db := db;
    }

    /** `set_fixed_baseline_fields`: the named baselines take the current values, in a row created if missing. */
    method SetFixedBaselineFields(id: int, names: seq<Field>)
      requires db.Snapshot().HasSetup(id)
      modifies db`baselines
      ensures var row := Overwritten(OriginalRow(old(db.Snapshot()), id), db.setups[id].fixed, names);
              db.baselines == old(db.baselines)[id := row]
    {
      db.EnsureFixedBaseline(id);
      var row := OverwriteRow(db.baselines[id], db.setups[id].fixed, names);
      db.baselines := db.baselines[id := row];
    }

    /** The fixed half of `rebaseline_edited_fields`: the fields an edit changed become the new originals. */
    method RebaselineFixed(id: int, before: Fields) returns (changed: seq<Field>)
      requires db.Snapshot().HasSetup(id)
      modifies db`baselines
      ensures forall f :: f in changed <==> EditedField(before, db.setups[id].fixed, f)
      ensures db.baselines == RebaselinedFixed(old(db.baselines), id, before, db.setups[id].fixed)
    {
      changed := FieldsEdited(before, db.setups[id].fixed);
      RebaselinedIs(db.Snapshot(), id, before, changed);
      if changed != [] {
        SetFixedBaselineFields(id, changed);
      }
    }

    /** `rebaseline_edited_fields`: fixed fields, then custom columns, each only where the edit changed its value. */
    method RebaselineEditedFields(id: int, before: Fields, columns: seq<Column>,
                                  beforeCustom: map<string, Option<string>>,
                                  afterCustom: map<string, Option<string>>, ghost was: Cells)
        returns (changedFixed: seq<Field>, changedCustom: seq<string>)
      requires db.Snapshot().HasSetup(id)
      requires forall c :: c in columns ==>
                 && Lookup(beforeCustom, c.name) == was.Text((id, c.id))
                 && Lookup(afterCustom, c.name) == db.CustomCells().Text((id, c.id))
      modifies db`baselines, db`customBaselines
      ensures forall f :: f in changedFixed <==> EditedField(before, db.setups[id].fixed, f)
      ensures db.baselines == RebaselinedFixed(old(db.baselines), id, before, db.setups[id].fixed)
      ensures db.customBaselines == RebaselinedCustom(old(db.customBaselines), id, columns, was, old(db.CustomCells()))
    {
      changedFixed := RebaselineFixed(id, before);
      ghost var cells, fixed := db.CustomCells(), db.baselines;
      changedCustom := [];
      for i := 0 to |columns|
        invariant db.baselines == fixed
        invariant db.customBaselines == RebaselinedCustom(cells.baselines, id, columns[..i], was, cells)
      {
        var c := columns[i];
        assert columns[..i + 1][..i] == columns[..i];
        if Normalize(Lookup(beforeCustom, c.name)) != Normalize(Lookup(afterCustom, c.name)) {
          db.customBaselines := db.customBaselines[(id, c.id) := Lookup(afterCustom, c.name)];
          changedCustom := changedCustom + [c.name];
        }
      }
      assert columns[..|columns|] == columns;
    }
  }

  // --- Setups ------------------------------------------------------------

  class SetupService {
    const db: Database
    const hardwareState: HardwareStateService

    ghost predicate Valid() { hardwareState.db == db }

    constructor (db: Database, hardwareState: HardwareStateService)
      requires hardwareState.db == db
      ensures Valid() && this.db == db && this.hardwareState == hardwareState
    {
      this.db, this.hardwareState := db, hardwareState;
    }

    /** The edited row of an existing setup, or the conflict with another setup's keys or the status transitions. */
    method EditedRow(id: int, edit: SetupEdit) returns (r: Result<Setup>)
      requires db.Snapshot().HasSetup(id)
      ensures r == var own, edited := db.setups[id], EditedSetup(db.setups[id], edit);
                   if (edit.SetsKeys() && KeysTaken(db.setups, id, edited)) || ForbiddenTransition(own, edit) then
                     Err(Conflict)
                   else Ok(edited.(status := Or(edit.status, own.status)))
    {
      var own := db.setups[id];
      if edit.SetsKeys() {
        var taken := KeysOfAnother(id, Or(edit.ipAddress, own.ipAddress), Or(edit.hostname, own.hostname));
        if taken {
          return Err(Conflict);
        }
      }
      var setup := EditedSetup(own, edit);
      KeysIgnoreStatus(db.setups, id, setup, Or(edit.status, own.status));
      if edit.status.Some? && edit.status.value != setup.status {
        if !AllowedTransition(setup.status, edit.status.value) {
          return Err(Conflict);
        }
        setup := setup.(status := edit.status.value);
      }
      r := if edit.SetsKeys() && !UniqueKeys(db.setups[id := setup]) then Err(Conflict) else Ok(setup);
    }

    /** `update`, then re-baselining of what it changed. */
    method Update(id: int, edit: SetupEdit) returns (r: Result<()>)
      requires Valid()
      modifies db`setups, db`baselines, db`customBaselines
      ensures Outcome(EditSetup(old(db.Snapshot()), id, edit), r, db.Snapshot())
    {
      if !(0 <= id < |db.setups|) {
        return Err(NotFound);
      }
      var before := db.setups[id].fixed;
      var edited := EditedRow(id, edit);
      if edited.Err? {
        return Err(edited.error);
      }
      db.setups := db.setups[id := edited.value];
      var changedFixed, changedCustom :=
        hardwareState.RebaselineEditedFields(id, before, [], map[], map[], db.CustomCells());
      r := Ok(());
    }

    /** The lookup before the write: the first setup with one of the keys is a different one. */
    method KeysOfAnother(id: int, ipAddress: string, hostname: string) returns (taken: bool)
      ensures taken <==>
              exists x :: 0 <= x < |db.setups| && x != id && FindByKey(db.setups, ipAddress, hostname) == Some(x)
    {
      var existing := FindByKey(db.setups, ipAddress, hostname);
      taken := existing.Some? && existing.value != id;
    }
  }

  // --- Hierarchy edges ---------------------------------------------------

  class GroupHierarchyService {
    const db: Database

    constructor (db: Database)
      ensures this.db == db
    {
      this.db := db;
    }

    method AddEdge(edge: Edge) returns (r: Result<()>)
      modifies db`edges
      ensures match CreateEdge(db.groups, old(db.edges), edge)
              case Ok(edges) => r == Ok(()) && db.edges == edges
              case Err(e) => r == Err(e)
    {
      if edge.parent !in db.groups || edge.child !in db.groups {
        return Err(NotFound);
      }
      if edge.parent == edge.child {
        return Err(Invalid);
      }
      if edge in db.edges {
        return Err(Conflict);
      }
      db.edges := db.edges + [edge];
      r := Ok(());
    }

    method RemoveEdge(edge: Edge) returns (r: Result<()>)
      modifies db`edges
      ensures match DeleteEdge(old(db.edges), edge)
              case Ok(edges) => r == Ok(()) && db.edges == edges
              case Err(e) => r == Err(e)
    {
      var found := FindFirst(db.edges, (e: Edge) => e == edge);
      if found.None? {
        return Err(NotFound);
      }
      db.edges := db.edges[..found.value] + db.edges[found.value + 1..];
      r := Ok(());
    }
  }

  // --- Import ------------------------------------------------------------

  class ImportService {
    const db: Database

    constructor (db: Database)
      ensures this.db == db
    {
      this.db := db;
    }

    /** The validation pass: one entry per reported error. */
    method CountErrors(d: Directory, rows: seq<ImportRow>) returns (errors: nat)
      ensures errors == BatchErrors(d, rows)
    {
      errors := 0;
      for i := 0 to |rows|
        invariant errors == BatchErrors(d, rows[..i])
      {
        assert rows[..i + 1][..i] == rows[..i];
        if rows[i].productName !in d.products {
          errors := errors + 1;
        }
        if rows[i].groupName != "" && rows[i].groupName !in d.groups {
          errors := errors + 1;
        }
        if rows[i].ownerUsername != "" && rows[i].ownerUsername !in d.users {
          errors := errors + 1;
        }
        errors := errors + d.schemaErrors(rows[i]);
      }
      assert rows[..|rows|] == rows;
    }

    /** One row of the commit pass; tells whether it created a setup. */
    method UpsertRow(d: Directory, row: ImportRow, ghost created: nat, ghost updated: nat) returns (r: Result<bool>)
      requires RowErrors(d, row) == 0
      modifies db`setups, db`baselines
      ensures match Upserted(d, Progress(old(db.setups), old(db.baselines), created, updated), row)
              case Ok(p) =>
                && r.Ok? && db.setups == p.setups && db.baselines == p.baselines
                && (if r.value then p.created == created + 1 && p.updated == updated
                    else p.created == created && p.updated == updated + 1)
              case Err(e) => r == Err(e)
    {
      var existing := FindByKey(db.setups, row.ipAddress, row.hostname);
      if existing.Some? {
        var i := existing.value;
        db.setups := db.setups[i := PayloadOf(d, row, db.setups[i].status)];
        r := if UniqueKeys(db.setups) then Ok(false) else Err(Conflict);
      } else {
        var made := PayloadOf(d, row, Available);
        if |db.setups| !in db.baselines {
          db.baselines := db.baselines[|db.setups| := made.fixed];
        }
        db.setups := db.setups + [made];
        r := Ok(true);
      }
    }

    /** `import_setups`: validate everything, then upsert row by row. */
    method ImportRows(d: Directory, rows: seq<ImportRow>) returns (r: Result<ImportReport>)
      modifies db`setups, db`baselines
      ensures match ImportSetups(old(db.Snapshot()), d, rows)
              case Ok(done) => r == Ok(done.1) && db.Snapshot() == done.0
              case Err(e) => r == Err(e)
    {
      var errors := CountErrors(d, rows);
      if errors > 0 {
        return Ok(ImportReport(|rows|, 0, 0, errors, false));
      }
      ghost var start := StartImport(db.Snapshot());
      ErrorFreePrefixes(d, rows);
      var created, updated := 0, 0;
      for i := 0 to |rows|
        invariant BatchErrors(d, rows[..i]) == 0
        invariant AllUpserted(d, start, rows[..i]) == Ok(Progress(db.setups, db.baselines, created, updated))
      {
        UpsertedOneMore(d, start, rows, i);
        var isNew := UpsertRow(d, rows[i], created, updated);
        if isNew.Err? {
          UpsertFails(d, start, rows, i + 1);
          return Err(isNew.error);
        }
        if isNew.value {
          created := created + 1;
        } else {
          updated := updated + 1;
        }
      }
      assert rows[..|rows|] == rows;
      r := Ok(ImportReport(|rows|, created, updated, 0, true));
    }
  }

  lemma ErrorFreePrefixes(d: Directory, rows: seq<ImportRow>)
    requires BatchErrors(d, rows) == 0
    ensures forall i :: 0 <= i <= |rows| ==> BatchErrors(d, rows[..i]) == 0
    ensures forall i :: 0 <= i < |rows| ==> RowErrors(d, rows[i]) == 0
  {
    ErrorFreeBatch(d, rows);
    forall i | 0 <= i <= |rows| ensures BatchErrors(d, rows[..i]) == 0 {
      ErrorFreeBatch(d, rows[..i]);
    }
  }

  lemma UpsertedOneMore(d: Directory, p: Progress, rows: seq<ImportRow>, i: int)
    requires 0 <= i < |rows| && BatchErrors(d, rows[..i]) == 0 && RowErrors(d, rows[i]) == 0
    requires AllUpserted(d, p, rows[..i]).Ok?
    ensures BatchErrors(d, rows[..i + 1]) == 0
    ensures AllUpserted(d, p, rows[..i + 1]) == Upserted(d, AllUpserted(d, p, rows[..i]).value, rows[i])
  {
    assert rows[..i + 1][..i] == rows[..i];
  }

  /** A failed prefix fails the batch. */
  lemma {:induction false} UpsertFails(d: Directory, p: Progress, rows: seq<ImportRow>, i: int)
    requires 0 <= i <= |rows| && BatchErrors(d, rows) == 0 && BatchErrors(d, rows[..i]) == 0
    requires AllUpserted(d, p, rows[..i]).Err?
    ensures AllUpserted(d, p, rows) == AllUpserted(d, p, rows[..i])
    decreases |rows| - i
  {
    if i == |rows| {
      assert rows[..i] == rows;
    } else {
      assert rows[..i + 1][..i] == rows[..i];
      ErrorFreePrefixes(d, rows);
      UpsertFails(d, p, rows, i + 1);
    }
  }
}
