/** Original versus current hardware values: the batched diff, the single-setup comparison, and re-baselining. */
module HardwareState {
  import opened Common
  import opened Text
  import opened Domain
  import opened Ordering
  import opened TemplateValues

  /** `_normalize`: missing and blank are equal, outer whitespace is no change. */
  function Normalize(value: Option<string>): string {
    match value case None => "" case Some(t) => Strip(t)
  }

  /** What can differ from its original: a fixed field, or a custom column by id. */
  datatype Key = FixedKey(field: Field) | CustomKey(columnId: int)

  /** Every template column by id, as `get_column_names` sees them. */
  type ColumnNames = map<int, string>

  predicate ChangedFixed(s: State, id: int, f: Field)
    requires s.HasSetup(id)
  {
    id in s.baselines && Normalize(s.setups[id].fixed[f]) != Normalize(s.baselines[id][f])
  }

  function CurrentText(s: State, key: CellKey): Option<string> {
    if key in s.values then s.values[key] else None
  }

  predicate ChangedCustom(s: State, names: ColumnNames, id: int, columnId: int) {
    && (id, columnId) in s.customBaselines
    && columnId in names
    && Normalize(CurrentText(s, (id, columnId))) != Normalize(s.customBaselines[(id, columnId)])
  }

  predicate IsChanged(s: State, names: ColumnNames, id: int, key: Key)
    requires s.HasSetup(id)
  {
    match key
    case FixedKey(f) => ChangedFixed(s, id, f)
    case CustomKey(c) => ChangedCustom(s, names, id, c)
  }

  function KeyName(names: ColumnNames, key: Key): string {
    match key
    case FixedKey(f) => FieldName(f)
    case CustomKey(c) => if c in names then names[c] else ""
  }

  /** name is the name of some changed field of the setup. */
  ghost predicate IsChangedName(s: State, names: ColumnNames, id: int, name: string)
    requires s.HasSetup(id)
  {
    exists key :: IsChanged(s, names, id, key) && KeyName(names, key) == name
  }

  // --- The batched diff --------------------------------------------------

  /** The baseline column ids recorded for a setup. */
  function BaselineColumns(s: State, id: int): set<int> {
    set key | key in s.customBaselines && key.0 == id :: key.1
  }

  /**
   * `changed_fields`: column names are looked up once for the union of the column ids of all listed setups, and only
   * setups with a change get an entry. Each entry depends on its own setup alone.
   */
  method ChangedFields(s: State, names: ColumnNames, ids: seq<int>) returns (result: map<int, seq<string>>)
    requires forall i :: 0 <= i < |ids| ==> s.HasSetup(ids[i])
    ensures forall id :: id in result <==> id in ids && exists name :: IsChangedName(s, names, id, name)
    ensures forall id :: id in result ==> forall name :: name in result[id] <==> IsChangedName(s, names, id, name)
  {
    var columnIds := set key | key in s.customBaselines && key.0 in ids :: key.1;
    columnIds := columnIds + set key | key in s.values && key.0 in ids :: key.1;
    var known: ColumnNames := map c | c in names && c in columnIds :: names[c];
    result := map[];
    for i := 0 to |ids|
      invariant forall id :: id in result <==> id in ids[..i] && exists name :: IsChangedName(s, names, id, name)
      invariant forall id :: id in result ==> forall name :: name in result[id] <==> IsChangedName(s, names, id, name)
    {
      var id := ids[i];
      assert id in ids;
      assert forall c :: c in BaselineColumns(s, id) ==> c in columnIds by {
        forall c | c in BaselineColumns(s, id) ensures c in columnIds {
          assert (id, c) in s.customBaselines;
        }
      }
      var changed := ChangedFieldsOf(s, names, known, id);
      assert forall x :: x in ids[..i + 1] <==> x in ids[..i] || x == id;
      if changed != [] {
        assert changed[0] in changed;
        result := result[id := changed];
      } else {
        forall name ensures !IsChangedName(s, names, id, name) {
          assert name !in changed;
        }
      }
    }
    assert ids[..|ids|] == ids;
  }

  /** One setup's entry: the fixed fields in table order, then every recorded custom column. */
  method ChangedFieldsOf(s: State, names: ColumnNames, known: ColumnNames, id: int) returns (changed: seq<string>)
    requires s.HasSetup(id)
    requires forall c :: c in BaselineColumns(s, id) ==> (c in known <==> c in names)
    requires forall c :: c in known ==> c in names && known[c] == names[c]
    ensures forall name :: name in changed <==> IsChangedName(s, names, id, name)
  {
    changed := [];
    if id in s.baselines {
      for i := 0 to |FIELDS|
        invariant forall name :: name in changed <==>
            exists j :: 0 <= j < i && ChangedFixed(s, id, FIELDS[j]) && FieldName(FIELDS[j]) == name
      {
        var f := FIELDS[i];
        if Normalize(s.setups[id].fixed[f]) != Normalize(s.baselines[id][f]) {
          changed := changed + [FieldName(f)];
        }
      }
    }
    var customChanged := ChangedColumnsOf(s, names, known, id);
    forall name ensures name in changed + customChanged <==> IsChangedName(s, names, id, name) {
      ChangedNameCases(s, names, id, name);
    }
    changed := changed + customChanged;
  }

  method ChangedColumnsOf(s: State, names: ColumnNames, known: ColumnNames, id: int) returns (changed: seq<string>)
    requires forall c :: c in BaselineColumns(s, id) ==> (c in known <==> c in names)
    requires forall c :: c in known ==> c in names && known[c] == names[c]
    ensures forall name :: name in changed <==> FromColumns(s, names, id, BaselineColumns(s, id), name)
  {
    changed := [];
    IntOrderTotal();
    var columnIds := Sorted(BaselineColumns(s, id), IntLe);
    for i := 0 to |columnIds|
      invariant forall name :: name in changed <==> FromColumns(s, names, id, Elements(columnIds[..i]), name)
    {
      var c := columnIds[i];
      ElementsUpTo(columnIds, i);
      assert c in Elements(columnIds);
      assert (id, c) in s.customBaselines;
      if c in known && Normalize(CurrentText(s, (id, c))) != Normalize(s.customBaselines[(id, c)]) {
        changed := changed + [known[c]];
      }
    }
    assert columnIds[..|columnIds|] == columnIds;
  }

  /** name is the name of a changed column among the given ids. */
  ghost predicate FromColumns(s: State, names: ColumnNames, id: int, columnIds: set<int>, name: string) {
    exists c :: c in columnIds && ChangedCustom(s, names, id, c) && names[c] == name
  }

  lemma ChangedNameCases(s: State, names: ColumnNames, id: int, name: string)
    requires s.HasSetup(id)
    ensures IsChangedName(s, names, id, name) <==>
            || (exists j :: 0 <= j < |FIELDS| && ChangedFixed(s, id, FIELDS[j]) && FieldName(FIELDS[j]) == name)
            || FromColumns(s, names, id, BaselineColumns(s, id), name)
  {
    if IsChangedName(s, names, id, name) {
      var key :| IsChanged(s, names, id, key) && KeyName(names, key) == name;
      match key
      case FixedKey(f) => EveryFieldListed(f);
      case CustomKey(c) => assert c in BaselineColumns(s, id);
    }
    forall j | 0 <= j < |FIELDS| && ChangedFixed(s, id, FIELDS[j]) && FieldName(FIELDS[j]) == name
      ensures IsChangedName(s, names, id, name)
    {
      assert IsChanged(s, names, id, FixedKey(FIELDS[j]));
    }
    forall c | c in BaselineColumns(s, id) && ChangedCustom(s, names, id, c) && names[c] == name
      ensures IsChangedName(s, names, id, name)
    {
      assert IsChanged(s, names, id, CustomKey(c));
    }
  }

  // --- The single-setup comparison ---------------------------------------

  datatype CompareRow = CompareRow(key: Key, field: string, original: Option<string>, current: Option<string>,
                                   changed: bool)

  /** row shows what is recorded and what is current under a key, and flags it exactly when it counts as changed. */
  ghost predicate Shows(s: State, names: ColumnNames, id: int, key: Key, row: CompareRow)
    requires s.HasSetup(id)
  {
    && row.key == key && row.field == KeyName(names, key)
    && row.current == (match key case FixedKey(f) => s.setups[id].fixed[f] case CustomKey(c) => CurrentText(s, (id, c)))
    && row.original == (match key
                        case FixedKey(f) => if id in s.baselines then s.baselines[id][f] else row.current
                        case CustomKey(c) =>
                          if (id, c) in s.customBaselines then s.customBaselines[(id, c)] else row.current)
    && (row.changed <==> IsChanged(s, names, id, key))
  }

  /** `compare`: one row per fixed field and per given column, in this order. */
  method Compare(s: State, id: int, columns: seq<Column>) returns (rows: seq<CompareRow>)
    requires s.HasSetup(id)
    ensures |rows| == |FIELDS| + |columns|
    ensures forall i :: 0 <= i < |FIELDS| ==> Shows(s, map[], id, FixedKey(FIELDS[i]), rows[i])
    ensures forall i :: 0 <= i < |columns| ==>
              Shows(s, map[columns[i].id := columns[i].name], id, CustomKey(columns[i].id), rows[|FIELDS| + i])
  {
    var fixedRows := CompareFixed(s, id);
    var customRows := CompareCustom(s, id, columns);
    rows := fixedRows + customRows;
  }

  method CompareFixed(s: State, id: int) returns (rows: seq<CompareRow>)
    requires s.HasSetup(id)
    ensures |rows| == |FIELDS| && forall i :: 0 <= i < |FIELDS| ==> Shows(s, map[], id, FixedKey(FIELDS[i]), rows[i])
  {
    rows := [];
    for i := 0 to |FIELDS|
      invariant |rows| == i && forall j :: 0 <= j < i ==> Shows(s, map[], id, FixedKey(FIELDS[j]), rows[j])
    {
      var f := FIELDS[i];
      var current := s.setups[id].fixed[f];
      var original := if id in s.baselines then s.baselines[id][f] else current;
      var row := CompareRow(FixedKey(f), FieldName(f), original, current, Normalize(original) != Normalize(current));
      assert Shows(s, map[], id, FixedKey(f), row);
      rows := rows + [row];
    }
  }

  method CompareCustom(s: State, id: int, columns: seq<Column>) returns (rows: seq<CompareRow>)
    requires s.HasSetup(id)
    ensures |rows| == |columns|
    ensures forall i :: 0 <= i < |columns| ==>
              Shows(s, map[columns[i].id := columns[i].name], id, CustomKey(columns[i].id), rows[i])
  {
    rows := [];
    for i := 0 to |columns|
      invariant |rows| == i
      invariant forall j :: 0 <= j < i ==>
          Shows(s, map[columns[j].id := columns[j].name], id, CustomKey(columns[j].id), rows[j])
    {
      var c := columns[i];
      var current := CurrentText(s, (id, c.id));
      var original := if (id, c.id) in s.customBaselines then s.customBaselines[(id, c.id)] else current;
      var row := CompareRow(CustomKey(c.id), c.name, original, current, Normalize(original) != Normalize(current));
      assert Shows(s, map[c.id := c.name], id, CustomKey(c.id), row);
      rows := rows + [row];
    }
  }

  /** key is flagged by a comparison over columns. */
  ghost predicate Flagged(s: State, id: int, columns: seq<Column>, key: Key)
    requires s.HasSetup(id)
  {
    match key
    case FixedKey(f) => ChangedFixed(s, id, f)
    case CustomKey(k) => exists c :: c in columns && c.id == k && ChangedCustom(s, map[c.id := c.name], id, c.id)
  }

  /** The comparison flags exactly what the diff reports, except that it only sees the columns it is given. */
  lemma CompareAgreesWithDiff(s: State, names: ColumnNames, id: int, columns: seq<Column>)
    requires s.HasSetup(id)
    requires forall c :: c in columns ==> c.id in names && names[c.id] == c.name
    ensures forall key :: Flagged(s, id, columns, key) <==>
              IsChanged(s, names, id, key) && (key.CustomKey? ==> exists c :: c in columns && c.id == key.columnId)
    ensures (forall key :: Flagged(s, id, columns, key) <==> IsChanged(s, names, id, key)) <==>
            forall k :: ChangedCustom(s, names, id, k) ==> exists c :: c in columns && c.id == k
  {
    if forall key :: Flagged(s, id, columns, key) <==> IsChanged(s, names, id, key) {
      forall k | ChangedCustom(s, names, id, k) ensures exists c :: c in columns && c.id == k {
        assert IsChanged(s, names, id, CustomKey(k));
      }
    }
  }

  // --- Re-baselining -----------------------------------------------------

  predicate EditedField(before: Fields, after: Fields, f: Field) {
    Normalize(before[f]) != Normalize(after[f])
  }

  /** The fixed baselines after an edit: the edited fields take their new value, in a row created if missing. */
  function RebaselinedFixed(baselines: map<int, Fields>, id: int, before: Fields, after: Fields): map<int, Fields> {
    if forall f :: !EditedField(before, after, f) then baselines
    else
      var row: Fields := if id in baselines then baselines[id] else after;
      var renewed: Fields := map f: Field | true :: if EditedField(before, after, f) then after[f] else row[f];
      baselines[id := renewed]
  }

  /** The custom baselines after an edit, column by column. */
  function RebaselinedCustom(baselines: map<CellKey, Option<string>>, id: int, cols: seq<Column>, before: Cells,
                             after: Cells):
    map<CellKey, Option<string>>
  {
    if cols == [] then baselines
    else
      var last := cols[|cols| - 1];
      var earlier := RebaselinedCustom(baselines, id, cols[..|cols| - 1], before, after);
      if EditedColumn(before, after, id, last) then earlier[(id, last.id) := after.Text((id, last.id))] else earlier
  }

  predicate EditedColumn(before: Cells, after: Cells, id: int, c: Column) {
    Normalize(before.Text((id, c.id))) != Normalize(after.Text((id, c.id)))
  }

  function CellsOf(s: State): Cells { Cells(s.values, s.customBaselines) }

  /** An admin edit of one setup: new fixed values, and a custom write through the setup's own template. */
  function Edited(s: State, id: int, fixed: Fields, cells: Cells): State
    requires s.HasSetup(id)
  {
    s.(setups := s.setups[id := s.setups[id].(fixed := fixed)],
       values := cells.values,
       customBaselines := cells.baselines)
  }

  /** `rebaseline_edited_fields` after such an edit. */
  function Rebaselined(s: State, edited: State, id: int, cols: seq<Column>): State
    requires s.HasSetup(id) && edited.HasSetup(id)
  {
    edited.(baselines := RebaselinedFixed(edited.baselines, id, s.setups[id].fixed, edited.setups[id].fixed),
            customBaselines := RebaselinedCustom(edited.customBaselines, id, cols, CellsOf(s), CellsOf(edited)))
  }

  ghost predicate EditAltered(s: State, edited: State, id: int, cols: seq<Column>, key: Key)
    requires s.HasSetup(id) && edited.HasSetup(id)
  {
    match key
    case FixedKey(f) => EditedField(s.setups[id].fixed, edited.setups[id].fixed, f)
    case CustomKey(k) => exists c :: c in cols && c.id == k && EditedColumn(CellsOf(s), CellsOf(edited), id, c)
  }

  lemma {:induction false} RebaselinedCustomMeaning(baselines: map<CellKey, Option<string>>, id: int, cols: seq<Column>,
                                                    before: Cells, after: Cells, key: CellKey)
    ensures var r := RebaselinedCustom(baselines, id, cols, before, after);
            if key.0 == id && exists c :: c in cols && c.id == key.1 && EditedColumn(before, after, id, c)
            then key in r && r[key] == after.Text(key)
            else (key in r <==> key in baselines) && (key in r ==> r[key] == baselines[key])
  {
    if cols != [] {
      var init, last := cols[..|cols| - 1], cols[|cols| - 1];
      assert cols == init + [last];
      RebaselinedCustomMeaning(baselines, id, init, before, after, key);
      assert last in cols;
    }
  }

  /**
   * Re-baselining removes from the changed fields exactly those the edit altered: an untouched field keeps its mark, an
   * edited one loses it, and no field or other setup gains or loses one - with or without baseline rows.
   */
  lemma RebaseliningLaw(s: State, names: ColumnNames, id: int, fixed: Fields, cols: seq<Column>, raw: map<string, Raw>)
    requires s.HasSetup(id) && UniqueColumns(cols)
    requires SetValues(CellsOf(s), id, cols, raw).Ok?
    ensures var edited := Edited(s, id, fixed, SetValues(CellsOf(s), id, cols, raw).value);
            var s' := Rebaselined(s, edited, id, cols);
            && (forall key :: IsChanged(s', names, id, key) <==>
                  IsChanged(s, names, id, key) && !EditAltered(s, edited, id, cols, key))
            && forall x, key :: s.HasSetup(x) && x != id ==>
                 (IsChanged(s', names, x, key) <==> IsChanged(s, names, x, key))
  {
    var cells := SetValues(CellsOf(s), id, cols, raw).value;
    var edited := Edited(s, id, fixed, cells);
    var s' := Rebaselined(s, edited, id, cols);
    SetValuesMeaning(CellsOf(s), id, cols, raw);
    forall key ensures IsChanged(s', names, id, key) <==>
        IsChanged(s, names, id, key) && !EditAltered(s, edited, id, cols, key)
    {
      match key
      case FixedKey(f) => FixedLaw(s.baselines, id, s.setups[id].fixed, fixed, f);
      case CustomKey(k) => CustomLaw(s, edited, names, id, cols, raw, k);
    }
    forall x, key | s.HasSetup(x) && x != id ensures IsChanged(s', names, x, key) <==> IsChanged(s, names, x, key) {
      match key
      case FixedKey(f) =>
      case CustomKey(k) =>
        assert !KeyIn(cols, id, (x, k));
        assert SameCell(CellsOf(s), cells, (x, k));
        RebaselinedCustomMeaning(cells.baselines, id, cols, CellsOf(s), CellsOf(edited), (x, k));
    }
  }

  lemma FixedLaw(baselines: map<int, Fields>, id: int, before: Fields, after: Fields, f: Field)
    ensures var r := RebaselinedFixed(baselines, id, before, after);
            (id in r && Normalize(after[f]) != Normalize(r[id][f])) <==>
            id in baselines && Normalize(before[f]) != Normalize(baselines[id][f]) && !EditedField(before, after, f)
  {
    var r := RebaselinedFixed(baselines, id, before, after);
    if EditedField(before, after, f) {
      assert r[id][f] == after[f];
    } else if exists g :: EditedField(before, after, g) {
      assert r[id][f] == if id in baselines then baselines[id][f] else after[f];
    } else {
      assert r == baselines;
    }
  }

  lemma CustomLaw(s: State, edited: State, names: ColumnNames, id: int, cols: seq<Column>, raw: map<string, Raw>,
                  k: int)
    requires s.HasSetup(id) && edited.HasSetup(id) && UniqueColumns(cols) && SetValues(CellsOf(s), id, cols, raw).Ok?
    requires edited == Edited(s, id, edited.setups[id].fixed, SetValues(CellsOf(s), id, cols, raw).value)
    ensures ChangedCustom(Rebaselined(s, edited, id, cols), names, id, k) <==>
            ChangedCustom(s, names, id, k) && !EditAltered(s, edited, id, cols, CustomKey(k))
  {
    CellLaw(CellsOf(s), CellsOf(edited), id, cols, raw, k);
  }

  /** A cell differs from its recorded original. */
  predicate Differs(cells: Cells, originals: map<CellKey, Option<string>>, key: CellKey) {
    key in originals && Normalize(cells.Text(key)) != Normalize(originals[key])
  }

  lemma CellLaw(was: Cells, now: Cells, id: int, cols: seq<Column>, raw: map<string, Raw>, k: int)
    requires UniqueColumns(cols) && SetValues(was, id, cols, raw) == Ok(now)
    ensures Differs(now, RebaselinedCustom(now.baselines, id, cols, was, now), (id, k)) <==>
            Differs(was, was.baselines, (id, k)) && !exists c :: c in cols && c.id == k && EditedColumn(was, now, id, c)
  {
    var key: CellKey := (id, k);
    SetValuesMeaning(was, id, cols, raw);
    RebaselinedCustomMeaning(now.baselines, id, cols, was, now, key);
    if KeyIn(cols, id, key) {
      var c :| c in cols && c.id == k;
      assert WrittenCell(was, now, (id, c.id), if CellFor(c, raw).Stored? then Some(CellFor(c, raw).text) else None);
    } else {
      assert SameCell(was, now, key);
    }
  }
}
