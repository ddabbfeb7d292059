/** Typed custom values: validation against a product template, serialisation to text, and storing the result. */
module TemplateValues {
  import opened Common
  import opened Text
  import opened Domain

  /** A raw value as a request carries it. */
  datatype Raw = RawNone | RawText(text: string) | RawInt(number: int) | RawBool(flag: bool)

  /** str(value). */
  function Str(raw: Raw): string {
    match raw
    case RawNone => "None"
    case RawText(t) => t
    case RawInt(n) => PrintInt(n)
    case RawBool(b) => if b then "True" else "False"
  }

  /** Missing values and the empty string count as "no value". */
  predicate Blank(raw: Raw) {
    raw == RawNone || raw == RawText("")
  }

  function ParseBool(text: string): Option<string> {
    var t := Lower(Strip(text));
    if t == "true" || t == "1" || t == "yes" || t == "y" then Some("True")
    else if t == "false" || t == "0" || t == "no" || t == "n" then Some("False")
    else None
  }

  /** `_serialize_value`; None stands for its ValueError. */
  function Serialize(col: Column, raw: Raw): Option<string> {
    match col.dataType
    case StringColumn => Some(Str(raw))
    case IntegerColumn =>
      (match raw
       case RawInt(n) => Some(PrintInt(n))
       case RawBool(b) => Some(PrintInt(if b then 1 else 0))
       case RawText(t) => (match ParseInt(t) case Some(n) => Some(PrintInt(n)) case None => None)
       case RawNone => None)
    case BooleanColumn => if raw.RawBool? then Some(Str(raw)) else ParseBool(Str(raw))
    case DropdownColumn => if Str(raw) in col.allowed then Some(Str(raw)) else None
  }

  // --- One column --------------------------------------------------------

  /** What validation makes of one column: nothing to store, a text to store, or an error. */
  datatype Cell = Absent | Stored(text: string) | Bad

  function CellFor(col: Column, raw: map<string, Raw>): Cell {
    if col.name in raw && !Blank(raw[col.name]) then
      match Serialize(col, raw[col.name]) case Some(t) => Stored(t) case None => Bad
    else match col.default
      case None => if col.required then Bad else Absent
      case Some(d) => Stored(d)
  }

  /** Serialising a serialised text gives it back, and never the empty one. */
  lemma SerializeIdempotent(col: Column, raw: Raw)
    requires !Blank(raw) && Serialize(col, raw).Some?
    ensures var t := Serialize(col, raw).value; t != "" && Serialize(col, RawText(t)) == Some(t)
  {
    match col.dataType
    case StringColumn => StrNotEmpty(raw);
    case IntegerColumn =>
      if raw.RawText? {
        ParsePrintInt(ParseInt(raw.text).value);
      } else {
        ParsePrintInt(if raw.RawInt? then raw.number else if raw.flag then 1 else 0);
      }
    case BooleanColumn => BoolTextsParse();
    case DropdownColumn => StrNotEmpty(raw);
  }

  lemma StrNotEmpty(raw: Raw)
    requires !Blank(raw)
    ensures Str(raw) != ""
  {
  }

  lemma BoolTextsParse()
    ensures ParseBool("True") == Some("True") && ParseBool("False") == Some("False")
  {
    assert Trimmed("True") && Trimmed("False");
    assert Lower("True") == "true";
    assert Lower("False") == "false";
  }

  // --- A whole template --------------------------------------------------

  ghost predicate UniqueColumns(cols: seq<Column>) {
    forall i, j :: 0 <= i < j < |cols| ==> cols[i].name != cols[j].name && cols[i].id != cols[j].id
  }

  predicate NameIn(cols: seq<Column>, name: string) {
    exists c :: c in cols && c.name == name
  }

  predicate Accepts(cols: seq<Column>, raw: map<string, Raw>) {
    && (forall c :: c in cols ==> !CellFor(c, raw).Bad?)
    && forall name :: name in raw ==> NameIn(cols, name)
  }

  /** The serialised map, built column by column. */
  function Serialized(cols: seq<Column>, raw: map<string, Raw>): map<string, string> {
    if cols == [] then map[]
    else
      var last := cols[|cols| - 1];
      var earlier := Serialized(cols[..|cols| - 1], raw);
      if CellFor(last, raw).Stored? then earlier[last.name := CellFor(last, raw).text] else earlier
  }

  function Validate(cols: seq<Column>, raw: map<string, Raw>): Result<map<string, string>> {
    if Accepts(cols, raw) then Ok(Serialized(cols, raw)) else Err(Invalid)
  }

  /** The names of the columns with an invalid or missing value, in template order. */
  function BadNames(cols: seq<Column>, raw: map<string, Raw>): seq<string> {
    if cols == [] then []
    else
      var last := cols[|cols| - 1];
      BadNames(cols[..|cols| - 1], raw) + if CellFor(last, raw).Bad? then [last.name] else []
  }

  /** `validate_and_serialize_values`: one pass over the template, then the names it does not define. */
  method ValidateAndSerialize(cols: seq<Column>, raw: map<string, Raw>)
      returns (r: Result<map<string, string>>, badColumns: seq<string>, unknown: set<string>)
    ensures r == Validate(cols, raw)
    ensures badColumns == BadNames(cols, raw)
    ensures unknown == set name | name in raw && !NameIn(cols, name)
  {
    badColumns := [];
    var serialized: map<string, string> := map[];
    for i := 0 to |cols|
      invariant badColumns == BadNames(cols[..i], raw)
      invariant serialized == Serialized(cols[..i], raw)
    {
      var column := cols[i];
      assert cols[..i + 1][..i] == cols[..i];
      ghost var cell := CellFor(column, raw);
      if column.name in raw && !Blank(raw[column.name]) {
        var text := Serialize(column, raw[column.name]);
        if text.Some? {
          assert cell == Stored(text.value);
          serialized := serialized[column.name := text.value];
        } else {
          assert cell == Bad;
          badColumns := badColumns + [column.name];
        }
      } else if column.required && column.default.None? {
        assert cell == Bad;
        badColumns := badColumns + [column.name];
      } else if column.default.Some? {
        serialized := serialized[column.name := column.default.value];
      }
    }
    assert cols[..|cols|] == cols;
    BadNamesEmpty(cols, raw);
    unknown := set name | name in raw && !NameIn(cols, name);
    r := if badColumns != [] || unknown != {} then Err(Invalid) else Ok(serialized);
    UnknownNamesEmpty(cols, raw, unknown);
  }

  lemma UnknownNamesEmpty(cols: seq<Column>, raw: map<string, Raw>, unknown: set<string>)
    requires unknown == set name | name in raw && !NameIn(cols, name)
    ensures unknown == {} <==> forall name :: name in raw ==> NameIn(cols, name)
  {
    forall name | name in raw && !NameIn(cols, name) ensures unknown != {} {
      assert name in unknown;
    }
  }

  lemma {:induction false} BadNamesEmpty(cols: seq<Column>, raw: map<string, Raw>)
    ensures BadNames(cols, raw) == [] <==> forall c :: c in cols ==> !CellFor(c, raw).Bad?
  {
    if cols != [] {
      var init, last := cols[..|cols| - 1], cols[|cols| - 1];
      assert cols == init + [last];
      BadNamesEmpty(init, raw);
    }
  }

  lemma UniquePrefix(cols: seq<Column>)
    requires UniqueColumns(cols) && cols != []
    ensures var n := |cols| - 1;
            && UniqueColumns(cols[..n])
            && !NameIn(cols[..n], cols[n].name)
            && (forall c :: c in cols <==> c in cols[..n] || c == cols[n])
            && forall c :: c in cols[..n] ==> c.name != cols[n].name && c.id != cols[n].id
  {
    var n := |cols| - 1;
    assert cols == cols[..n] + [cols[n]];
    forall c | c in cols[..n] ensures c.name != cols[n].name && c.id != cols[n].id {
      var i :| 0 <= i < n && cols[..n][i] == c;
      assert cols[i] == c;
    }
  }

  /** m stores exactly the texts of the columns' cells. */
  ghost predicate StoresCells(cols: seq<Column>, raw: map<string, Raw>, m: map<string, string>) {
    && (forall name :: name in m ==> NameIn(cols, name))
    && forall c :: c in cols ==>
         if CellFor(c, raw).Stored? then c.name in m && m[c.name] == CellFor(c, raw).text else c.name !in m
  }

  lemma {:induction false} SerializedMeaning(cols: seq<Column>, raw: map<string, Raw>)
    requires UniqueColumns(cols)
    ensures StoresCells(cols, raw, Serialized(cols, raw))
  {
    if cols != [] {
      var n := |cols| - 1;
      UniquePrefix(cols);
      SerializedMeaning(cols[..n], raw);
      StoreOneMore(cols, raw, Serialized(cols[..n], raw), CellFor(cols[n], raw));
    }
  }

  lemma StoreOneMore(cols: seq<Column>, raw: map<string, Raw>, m: map<string, string>, cell: Cell)
    requires UniqueColumns(cols) && cols != []
    requires StoresCells(cols[..|cols| - 1], raw, m) && cell == CellFor(cols[|cols| - 1], raw)
    ensures StoresCells(cols, raw, if cell.Stored? then m[cols[|cols| - 1].name := cell.text] else m)
  {
    var init, last := cols[..|cols| - 1], cols[|cols| - 1];
    UniquePrefix(cols);
    assert last.name !in m;
    forall name ensures NameIn(cols, name) <==> NameIn(init, name) || name == last.name {
      assert last in cols;
    }
  }

  // --- Canonicalisation --------------------------------------------------

  function AsRaw(m: map<string, string>): map<string, Raw> {
    map name | name in m :: RawText(m[name])
  }

  /** A default that validation itself would leave alone. */
  predicate StableDefault(col: Column) {
    col.default.Some? && col.default.value != "" ==> Serialize(col, RawText(col.default.value)) == col.default
  }

  predicate LeftBlank(col: Column, raw: map<string, Raw>) {
    col.name !in raw || Blank(raw[col.name])
  }

  /**
   * Validating what validation returned succeeds and changes nothing, exactly when every default it had to fill in is
   * stable.
   */
  lemma RevalidationIsIdentityIff(cols: seq<Column>, raw: map<string, Raw>)
    requires UniqueColumns(cols) && Validate(cols, raw).Ok?
    ensures var m := Validate(cols, raw).value;
            Validate(cols, AsRaw(m)) == Ok(m) <==> forall c :: c in cols && LeftBlank(c, raw) ==> StableDefault(c)
  {
    var m := Validate(cols, raw).value;
    SerializedMeaning(cols, raw);
    forall c | c in cols ensures CellFor(c, AsRaw(m)) == CellFor(c, raw) <==> (LeftBlank(c, raw) ==> StableDefault(c)) {
      CellRevalidates(c, raw, m);
    }
    if forall c :: c in cols && LeftBlank(c, raw) ==> StableDefault(c) {
      SameCellsSerialize(cols, raw, AsRaw(m));
    } else {
      var c :| c in cols && LeftBlank(c, raw) && !StableDefault(c);
      if Validate(cols, AsRaw(m)).Ok? {
        SerializedMeaning(cols, AsRaw(m));
        assert CellFor(c, AsRaw(m)) != CellFor(c, raw) == Stored(c.default.value);
      }
    }
  }

  lemma CellRevalidates(c: Column, raw: map<string, Raw>, m: map<string, string>)
    requires !CellFor(c, raw).Bad?
    requires if CellFor(c, raw).Stored? then c.name in m && m[c.name] == CellFor(c, raw).text else c.name !in m
    ensures CellFor(c, AsRaw(m)) == CellFor(c, raw) <==> (LeftBlank(c, raw) ==> StableDefault(c))
  {
    if !LeftBlank(c, raw) {
      SerializeIdempotent(c, raw[c.name]);
    }
  }

  lemma {:induction false} SameCellsSerialize(cols: seq<Column>, raw: map<string, Raw>, raw': map<string, Raw>)
    requires forall c :: c in cols ==> CellFor(c, raw') == CellFor(c, raw)
    ensures Serialized(cols, raw') == Serialized(cols, raw)
  {
    if cols != [] {
      assert cols[|cols| - 1] in cols;
      assert forall c :: c in cols[..|cols| - 1] ==> c in cols;
      SameCellsSerialize(cols[..|cols| - 1], raw, raw');
    }
  }

  // --- Storing -----------------------------------------------------------

  /** Current custom values and their baselines. */
  datatype Cells = Cells(values: map<CellKey, Option<string>>, baselines: map<CellKey, Option<string>>) {
    /** The stored text; a missing row reads as None. */
    function Text(key: CellKey): Option<string> {
      if key in values then values[key] else None
    }
  }

  /** `upsert_value` with its after-insert hook: a new row also records the baseline, unless there is one. */
  function Upsert(cells: Cells, key: CellKey, text: string): Cells {
    Cells(cells.values[key := Some(text)],
          if key !in cells.values && key !in cells.baselines then cells.baselines[key := Some(text)]
          else cells.baselines)
  }

  /** `ensure_custom_baseline`. */
  function EnsureCustomBaseline(cells: Cells, key: CellKey, original: Option<string>): Cells {
    if key in cells.baselines then cells else cells.(baselines := cells.baselines[key := original])
  }

  function WriteAll(cells: Cells, setupId: int, cols: seq<Column>, m: map<string, string>): Cells {
    if cols == [] then cells
    else
      var last := cols[|cols| - 1];
      var earlier := WriteAll(cells, setupId, cols[..|cols| - 1], m);
      if last.name in m then Upsert(earlier, (setupId, last.id), m[last.name]) else earlier
  }

  /** `set_setup_values`. */
  function SetValues(cells: Cells, setupId: int, cols: seq<Column>, raw: map<string, Raw>): Result<Cells> {
    match Validate(cols, raw)
    case Err(e) => Err(e)
    case Ok(m) => Ok(WriteAll(cells, setupId, cols, m))
  }

  predicate KeyIn(cols: seq<Column>, setupId: int, key: CellKey) {
    key.0 == setupId && exists c :: c in cols && c.id == key.1
  }

  /**
   * Each named column's row holds the new text, a row without a baseline gains one only if it is new; the rest is
   * untouched.
   */
  lemma {:induction false} WriteAllMeaning(cells: Cells, setupId: int, cols: seq<Column>, m: map<string, string>)
    requires UniqueColumns(cols)
    ensures var r := WriteAll(cells, setupId, cols, m);
            && (forall key :: !KeyIn(cols, setupId, key) ==> SameCell(cells, r, key))
            && forall c :: c in cols ==>
                 WrittenCell(cells, r, (setupId, c.id), if c.name in m then Some(m[c.name]) else None)
  {
    if cols != [] {
      var n := |cols| - 1;
      var last := cols[n];
      UniquePrefix(cols);
      WriteAllMeaning(cells, setupId, cols[..n], m);
      assert !KeyIn(cols[..n], setupId, (setupId, last.id));
      var earlier, r := WriteAll(cells, setupId, cols[..n], m), WriteAll(cells, setupId, cols, m);
      assert SameCell(cells, earlier, (setupId, last.id));
      forall key ensures key != (setupId, last.id) ==> SameCell(earlier, r, key) {}
      forall key | !KeyIn(cols, setupId, key) ensures SameCell(cells, r, key) {
        assert !KeyIn(cols[..n], setupId, key);
        assert last in cols;
      }
      forall c | c in cols
        ensures WrittenCell(cells, r, (setupId, c.id), if c.name in m then Some(m[c.name]) else None)
      {
        if c in cols[..n] {
          assert WrittenCell(cells, earlier, (setupId, c.id), if c.name in m then Some(m[c.name]) else None);
          assert SameCell(earlier, r, (setupId, c.id));
        }
      }
    }
  }

  /** The row and its baseline are as before. */
  ghost predicate SameCell(before: Cells, after: Cells, key: CellKey) {
    && (key in after.values <==> key in before.values)
    && (key in before.values ==> after.values[key] == before.values[key])
    && (key in after.baselines <==> key in before.baselines)
    && (key in before.baselines ==> after.baselines[key] == before.baselines[key])
  }

  /** The row after writing text (or nothing) over it. */
  ghost predicate WrittenCell(before: Cells, after: Cells, key: CellKey, text: Option<string>) {
    match text
    case None => SameCell(before, after, key)
    case Some(t) =>
      && key in after.values && after.values[key] == Some(t)
      && (key in after.baselines <==> key in before.baselines || key !in before.values)
      && (key in before.baselines ==> after.baselines[key] == before.baselines[key])
      && (key !in before.baselines && key !in before.values ==> after.baselines[key] == Some(t))
  }

  /** What storing a raw map does to each row, in terms of the columns' cells. */
  lemma SetValuesMeaning(cells: Cells, setupId: int, cols: seq<Column>, raw: map<string, Raw>)
    requires UniqueColumns(cols)
    ensures SetValues(cells, setupId, cols, raw).Ok? <==> Accepts(cols, raw)
    ensures Accepts(cols, raw) ==>
            var r := SetValues(cells, setupId, cols, raw).value;
            && (forall key :: !KeyIn(cols, setupId, key) ==> SameCell(cells, r, key))
            && forall c :: c in cols ==>
                 WrittenCell(cells, r, (setupId, c.id),
                             if CellFor(c, raw).Stored? then Some(CellFor(c, raw).text) else None)
  {
    if Accepts(cols, raw) {
      SerializedMeaning(cols, raw);
      WriteAllMeaning(cells, setupId, cols, Serialized(cols, raw));
    }
  }

  // --- Reading by name ---------------------------------------------------

  function FindColumn(cols: seq<Column>, name: string): Option<nat> {
    FindFirst(cols, (c: Column) => c.name == name)
  }

  /** `get_values_map_for_setup(...).get(name)`: the stored text under a column name, None when there is none. */
  function TextByName(cells: Cells, setupId: int, cols: seq<Column>, name: string): Option<string> {
    match FindColumn(cols, name)
    case None => None
    case Some(i) => cells.Text((setupId, cols[i].id))
  }

  /** `get_values_map_for_setup`: the stored rows of a setup under their column names. */
  function ValuesMap(cells: Cells, setupId: int, cols: seq<Column>): map<string, Option<string>> {
    map c | c in cols && (setupId, cols[FindColumn(cols, c.name).value].id) in cells.values ::
      c.name := cells.values[(setupId, cols[FindColumn(cols, c.name).value].id)]
  }

  function Lookup<T>(m: map<string, Option<T>>, name: string): Option<T> {
    if name in m then m[name] else None
  }
}
