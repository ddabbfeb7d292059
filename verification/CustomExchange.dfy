/** What an approval does to custom columns: exactly when it is an exchange, and which originals it captures. */
module CustomExchange {
  import opened Common
  import opened Domain
  import opened TemplateValues
  import opened Swaps

  // --- One pass of the loop, cell by cell --------------------------------

  function CellIn(c: Column, name: string, incoming: Option<string>): Cell {
    CellFor(c, map[name := RawOf(incoming)])
  }

  /** One cell across one pass: first its original may be captured, then its column's cell is written. */
  ghost predicate CellPass(before: Cells, after: Cells, key: CellKey, captured: bool, original: Option<string>,
                           cell: Cell)
  {
    && (key in after.values <==> key in before.values || cell.Stored?)
    && (key in after.values ==> after.values[key] == if cell.Stored? then Some(cell.text) else before.values[key])
    && (key in after.baselines <==> key in before.baselines || captured || (cell.Stored? && key !in before.values))
    && (key in after.baselines ==>
          after.baselines[key] ==
          if key in before.baselines then before.baselines[key] else if captured then original else Some(cell.text))
  }

  ghost predicate Ready(p: Pair) {
    p.a != p.b && UniqueColumns(p.ta) && UniqueColumns(p.tb)
  }

  predicate PassAccepted(p: Pair, name: string) {
    && NameIn(p.ta, name) && NameIn(p.tb, name)
    && (forall c :: c in p.ta ==> !CellIn(c, name, NewText(p, name)).Bad?)
    && forall c :: c in p.tb ==> !CellIn(c, name, OldText(p, name)).Bad?
  }

  lemma AcceptsOneName(cols: seq<Column>, name: string, incoming: Option<string>)
    ensures Accepts(cols, map[name := RawOf(incoming)]) <==>
            NameIn(cols, name) && forall c :: c in cols ==> !CellIn(c, name, incoming).Bad?
  {
    assert name in map[name := RawOf(incoming)];
  }

  lemma FoundColumn(cols: seq<Column>, c: Column)
    requires UniqueColumns(cols) && c in cols
    ensures FindColumn(cols, c.name).Some? && cols[FindColumn(cols, c.name).value] == c
    ensures forall d :: d in cols && d.id == c.id ==> d == c
    ensures forall d :: d in cols && d.name == c.name ==> d == c
  {
    var i :| 0 <= i < |cols| && cols[i] == c;
    assert FindColumn(cols, c.name).Some?;
  }

  lemma CaptureMeaning(cells: Cells, setupId: int, cols: seq<Column>, name: string, original: Option<string>)
    requires UniqueColumns(cols)
    ensures var r := CaptureOriginal(cells, setupId, cols, name, original);
            && r.values == cells.values
            && (forall key :: !KeyIn(cols, setupId, key) ==> SameCell(cells, r, key))
            && forall c :: c in cols ==> CellPass(cells, r, (setupId, c.id), c.name == name, original, Absent)
  {
    var r := CaptureOriginal(cells, setupId, cols, name, original);
    forall c | c in cols ensures CellPass(cells, r, (setupId, c.id), c.name == name, original, Absent) {
      FoundColumn(cols, c);
      if FindColumn(cols, name).Some? {
        FoundColumn(cols, cols[FindColumn(cols, name).value]);
      }
    }
    if FindColumn(cols, name).Some? {
      assert cols[FindColumn(cols, name).value] in cols;
    }
  }

  /**
   * After a pass each side's cells went through one capture and one write; cells outside the templates did not change.
   */
  ghost predicate PassResult(p: Pair, cells: Cells, r: Cells, name: string) {
    && (forall key :: !KeyIn(p.ta, p.a, key) && !KeyIn(p.tb, p.b, key) ==> SameCell(cells, r, key))
    && (forall c :: c in p.ta ==>
          CellPass(cells, r, (p.a, c.id), c.name == name, OldText(p, name), CellIn(c, name, NewText(p, name))))
    && forall c :: c in p.tb ==>
         CellPass(cells, r, (p.b, c.id), c.name == name, NewText(p, name), CellIn(c, name, OldText(p, name)))
  }

  /** A pass captures, then stores a side's values one after the other; it succeeds when both sides accept. */
  lemma PassSteps(p: Pair, cells: Cells, name: string)
    requires Ready(p)
    ensures ExchangeCustom(p, cells, name).Ok? <==> PassAccepted(p, name)
    ensures PassAccepted(p, name) ==>
            var half := SetValues(Captured(p, cells, name), p.a, p.ta, map[name := RawOf(NewText(p, name))]);
            && half.Ok?
            && ExchangeCustom(p, cells, name) == SetValues(half.value, p.b, p.tb, map[name := RawOf(OldText(p, name))])
  {
    var captured := Captured(p, cells, name);
    AcceptsOneName(p.ta, name, NewText(p, name));
    AcceptsOneName(p.tb, name, OldText(p, name));
    SetValuesMeaning(captured, p.a, p.ta, map[name := RawOf(NewText(p, name))]);
    if SetValues(captured, p.a, p.ta, map[name := RawOf(NewText(p, name))]).Ok? {
      var half := SetValues(captured, p.a, p.ta, map[name := RawOf(NewText(p, name))]).value;
      SetValuesMeaning(half, p.b, p.tb, map[name := RawOf(OldText(p, name))]);
    }
  }

  /** Storing one delivered value: each cell of the side is written as its column says, no other is touched. */
  ghost predicate SideStored(before: Cells, after: Cells, id: int, cols: seq<Column>, name: string,
                             incoming: Option<string>)
  {
    && (forall key :: !KeyIn(cols, id, key) ==> SameCell(before, after, key))
    && forall c :: c in cols ==>
         WrittenCell(before, after, (id, c.id),
                     if CellIn(c, name, incoming).Stored? then Some(CellIn(c, name, incoming).text) else None)
  }

  lemma SideIsStored(cells: Cells, id: int, cols: seq<Column>, name: string, incoming: Option<string>)
    requires UniqueColumns(cols) && SetValues(cells, id, cols, map[name := RawOf(incoming)]).Ok?
    ensures SideStored(cells, SetValues(cells, id, cols, map[name := RawOf(incoming)]).value, id, cols, name, incoming)
  {
    SetValuesMeaning(cells, id, cols, map[name := RawOf(incoming)]);
  }

  /** Both halves of a pass; the two sides do not disturb each other. */
  lemma PassMeaning(p: Pair, cells: Cells, name: string)
    requires Ready(p)
    ensures ExchangeCustom(p, cells, name).Ok? <==> PassAccepted(p, name)
    ensures PassAccepted(p, name) ==> PassResult(p, cells, ExchangeCustom(p, cells, name).value, name)
  {
    PassSteps(p, cells, name);
    if PassAccepted(p, name) {
      var first := CaptureOriginal(cells, p.a, p.ta, name, OldText(p, name));
      var captured := Captured(p, cells, name);
      var half := SetValues(captured, p.a, p.ta, map[name := RawOf(NewText(p, name))]).value;
      CaptureMeaning(cells, p.a, p.ta, name, OldText(p, name));
      CaptureMeaning(first, p.b, p.tb, name, NewText(p, name));
      SideIsStored(captured, p.a, p.ta, name, NewText(p, name));
      SideIsStored(half, p.b, p.tb, name, OldText(p, name));
      HalvesCompose(p, cells, first, captured, half, ExchangeCustom(p, cells, name).value, name);
    }
  }

  /** A captured side: its originals may be recorded, nothing else happened. */
  ghost predicate SideCaptured(before: Cells, after: Cells, id: int, cols: seq<Column>, name: string,
                               original: Option<string>)
  {
    && (forall key :: !KeyIn(cols, id, key) ==> SameCell(before, after, key))
    && forall c :: c in cols ==> CellPass(before, after, (id, c.id), c.name == name, original, Absent)
  }

  lemma HalvesCompose(p: Pair, cells: Cells, first: Cells, captured: Cells, half: Cells, r: Cells, name: string)
    requires Ready(p)
    requires SideCaptured(cells, first, p.a, p.ta, name, OldText(p, name))
    requires SideCaptured(first, captured, p.b, p.tb, name, NewText(p, name))
    requires SideStored(captured, half, p.a, p.ta, name, NewText(p, name))
    requires SideStored(half, r, p.b, p.tb, name, OldText(p, name))
    ensures PassResult(p, cells, r, name)
  {
    forall c | c in p.ta
      ensures CellPass(cells, r, (p.a, c.id), c.name == name, OldText(p, name), CellIn(c, name, NewText(p, name)))
    {
      CapturedThenWritten(cells, cells, first, captured, half, r, (p.a, c.id), c.name == name, OldText(p, name),
                          CellIn(c, name, NewText(p, name)));
    }
    forall c | c in p.tb
      ensures CellPass(cells, r, (p.b, c.id), c.name == name, NewText(p, name), CellIn(c, name, OldText(p, name)))
    {
      CapturedThenWritten(cells, first, captured, half, r, r, (p.b, c.id), c.name == name, NewText(p, name),
                          CellIn(c, name, OldText(p, name)));
    }
  }

  /** One cell through a pass: between its capture and its write nothing else touches it. */
  lemma CapturedThenWritten(c0: Cells, c1: Cells, c2: Cells, c3: Cells, c4: Cells, c5: Cells, key: CellKey,
                            captured: bool,
                            original: Option<string>, cell: Cell)
    requires SameCell(c0, c1, key) && CellPass(c1, c2, key, captured, original, Absent) && SameCell(c2, c3, key)
    requires WrittenCell(c3, c4, key, if cell.Stored? then Some(cell.text) else None) && SameCell(c4, c5, key)
    ensures CellPass(c0, c5, key, captured, original, cell)
  {
  }

  // --- The whole loop, column by column ----------------------------------

  /** The custom names of a column list, in order. */
  function CustomNames(cols: seq<Col>): seq<string> {
    if cols == [] then []
    else CustomNames(cols[..|cols| - 1]) + match cols[|cols| - 1] case Fixed(_) => [] case Custom(name) => [name]
  }

  /** The text of one column's cell after a pass for name that delivers incoming. */
  function Received(c: Column, text: Result<Option<string>>, name: string,
                    incoming: Option<string>): Result<Option<string>>
  {
    if text.Err? then text
    else match CellIn(c, name, incoming)
      case Bad => Err(Invalid)
      case Absent => text
      case Stored(t) => Ok(Some(t))
  }

  /** The text of one column's cell across the passes for names, when each pass delivers incoming(name). */
  function Evolve(c: Column, names: seq<string>, incoming: string -> Option<string>, own: Option<string>):
    Result<Option<string>>
  {
    if names == [] then Ok(own)
    else
      var last := names[|names| - 1];
      Received(c, Evolve(c, names[..|names| - 1], incoming, own), last, incoming(last))
  }

  function ToA(p: Pair): string -> Option<string> { name => NewText(p, name) }

  function ToB(p: Pair): string -> Option<string> { name => OldText(p, name) }

  ghost predicate Loopable(p: Pair, names: seq<string>) {
    && (forall name :: name in names ==> NameIn(p.ta, name) && NameIn(p.tb, name))
    && (forall c :: c in p.ta ==> Evolve(c, names, ToA(p), p.start.Text((p.a, c.id))).Ok?)
    && forall c :: c in p.tb ==> Evolve(c, names, ToB(p), p.start.Text((p.b, c.id))).Ok?
  }

  /** Every cell's text is what its column evolved to; cells outside the two templates are untouched. */
  ghost predicate Evolved(p: Pair, names: seq<string>, cells: Cells) {
    && (forall key :: !KeyIn(p.ta, p.a, key) && !KeyIn(p.tb, p.b, key) ==> SameCell(p.start, cells, key))
    && (forall c :: c in p.ta ==> Evolve(c, names, ToA(p), p.start.Text((p.a, c.id))) == Ok(cells.Text((p.a, c.id))))
    && forall c :: c in p.tb ==> Evolve(c, names, ToB(p), p.start.Text((p.b, c.id))) == Ok(cells.Text((p.b, c.id)))
  }

  lemma {:induction false} LoopEvolves(p: Pair, w: Work, cols: seq<Col>)
    requires Ready(p) && Fits(p, w) && w.cells == p.start
    ensures Exchange(p, w, cols).Ok? <==> Loopable(p, CustomNames(cols))
    ensures Exchange(p, w, cols).Ok? ==> Evolved(p, CustomNames(cols), Exchange(p, w, cols).value.cells)
  {
    if cols != [] {
      var init, col := cols[..|cols| - 1], cols[|cols| - 1];
      LoopEvolves(p, w, init);
      if col.Fixed? {
        assert CustomNames(cols) == CustomNames(init);
      } else {
        assert CustomNames(cols) == CustomNames(init) + [col.name];
        if Exchange(p, w, init).Ok? {
          PassMeaning(p, Exchange(p, w, init).value.cells, col.name);
          PassEvolves(p, CustomNames(init), Exchange(p, w, init).value.cells, col.name);
        } else {
          NotLoopableExtends(p, CustomNames(init), col.name);
        }
      }
    }
  }

  lemma EvolveOneMore(c: Column, names: seq<string>, name: string, incoming: string -> Option<string>,
                      own: Option<string>)
    ensures Evolve(c, names + [name], incoming, own) ==
            Received(c, Evolve(c, names, incoming, own), name, incoming(name))
  {
    assert (names + [name])[..|names|] == names;
  }

  /** One side of a pass: each column's cell receives what the pass delivers. */
  lemma SideEvolves(cols: seq<Column>, id: int, start: Cells, cells: Cells, r: Cells, names: seq<string>, name: string,
                    incoming: string -> Option<string>, original: Option<string>)
    requires forall c :: c in cols ==> Evolve(c, names, incoming, start.Text((id, c.id))) == Ok(cells.Text((id, c.id)))
    requires forall c :: c in cols ==> !CellIn(c, name, incoming(name)).Bad?
    requires forall c :: c in cols ==>
               CellPass(cells, r, (id, c.id), c.name == name, original, CellIn(c, name, incoming(name)))
    ensures forall c :: c in cols ==>
              Evolve(c, names + [name], incoming, start.Text((id, c.id))) == Ok(r.Text((id, c.id)))
  {
    forall c | c in cols ensures Evolve(c, names + [name], incoming, start.Text((id, c.id))) == Ok(r.Text((id, c.id))) {
      EvolveOneMore(c, names, name, incoming, start.Text((id, c.id)));
      assert CellPass(cells, r, (id, c.id), c.name == name, original, CellIn(c, name, incoming(name)));
    }
  }

  /** One side goes through one more pass exactly when no column rejects what it delivers. */
  lemma SideLoopable(cols: seq<Column>, id: int, start: Cells, names: seq<string>, name: string,
                     incoming: string -> Option<string>)
    requires forall c :: c in cols ==> Evolve(c, names, incoming, start.Text((id, c.id))).Ok?
    ensures (forall c :: c in cols ==> Evolve(c, names + [name], incoming, start.Text((id, c.id))).Ok?) <==>
            forall c :: c in cols ==> !CellIn(c, name, incoming(name)).Bad?
  {
    forall c | c in cols
      ensures Evolve(c, names + [name], incoming, start.Text((id, c.id))).Ok? <==> !CellIn(c, name, incoming(name)).Bad?
    {
      EvolveOneMore(c, names, name, incoming, start.Text((id, c.id)));
    }
  }

  lemma PassLoopable(p: Pair, names: seq<string>, name: string)
    requires Loopable(p, names)
    ensures Loopable(p, names + [name]) <==> PassAccepted(p, name)
  {
    SideLoopable(p.ta, p.a, p.start, names, name, ToA(p));
    SideLoopable(p.tb, p.b, p.start, names, name, ToB(p));
    assert forall n :: n in names + [name] <==> n in names || n == name;
  }

  lemma PassEvolves(p: Pair, names: seq<string>, cells: Cells, name: string)
    requires Ready(p) && Loopable(p, names) && Evolved(p, names, cells)
    ensures Loopable(p, names + [name]) <==> PassAccepted(p, name)
    ensures PassAccepted(p, name) ==> Evolved(p, names + [name], ExchangeCustom(p, cells, name).value)
  {
    PassLoopable(p, names, name);
    if PassAccepted(p, name) {
      PassMeaning(p, cells, name);
      PassKeepsEvolved(p, names, cells, name, ExchangeCustom(p, cells, name).value);
    }
  }

  lemma PassKeepsEvolved(p: Pair, names: seq<string>, cells: Cells, name: string, r: Cells)
    requires Evolved(p, names, cells) && PassAccepted(p, name) && PassResult(p, cells, r, name)
    ensures Evolved(p, names + [name], r)
  {
    SideEvolves(p.ta, p.a, p.start, cells, r, names, name, ToA(p), OldText(p, name));
    SideEvolves(p.tb, p.b, p.start, cells, r, names, name, ToB(p), NewText(p, name));
    forall key | !KeyIn(p.ta, p.a, key) && !KeyIn(p.tb, p.b, key) ensures SameCell(p.start, r, key) {
      assert SameCell(p.start, cells, key) && SameCell(cells, r, key);
    }
  }

  lemma NotLoopableExtends(p: Pair, names: seq<string>, name: string)
    requires !Loopable(p, names)
    ensures !Loopable(p, names + [name])
  {
    var more := names + [name];
    assert more[..|names|] == names;
    if Loopable(p, more) {
      forall n | n in names ensures NameIn(p.ta, n) && NameIn(p.tb, n) {
        assert n in more;
      }
      forall c | c in p.ta ensures Evolve(c, names, ToA(p), p.start.Text((p.a, c.id))).Ok? {
        assert Evolve(c, more, ToA(p), p.start.Text((p.a, c.id))).Ok?;
      }
      forall c | c in p.tb ensures Evolve(c, names, ToB(p), p.start.Text((p.b, c.id))).Ok? {
        assert Evolve(c, more, ToB(p), p.start.Text((p.b, c.id))).Ok?;
      }
    }
  }

  // --- Exactly when a column settles on the exchanged value --------------

  predicate HasText(text: Option<string>) {
    text.Some? && text.value != ""
  }

  /** A column whose text arrives, and is stored as it is. */
  predicate Canonical(c: Column, text: Option<string>) {
    HasText(text) && Serialize(c, RawText(text.value)) == text
  }

  /**
   * What a caller can check before the call. Every pass re-applies a default; only a last pass can leave a different
   * value behind. Without a default a required column fails every pass that brings it nothing, and a blank arrival
   * leaves the old value.
   */
  predicate Settles(c: Column, names: seq<string>, incoming: string -> Option<string>, own: Option<string>) {
    names == [] ||
    var listed := c.name in names;
    var arrives := listed && HasText(incoming(c.name));
    match c.default
    case Some(d) =>
      if arrives then
        if names[|names| - 1] == c.name then Canonical(c, incoming(c.name))
        else Serialize(c, RawText(incoming(c.name).value)).Some? && incoming(c.name) == Some(d)
      else (if listed then incoming(c.name) else own) == Some(d)
    case None =>
      && (c.required ==> arrives && names == [c.name])
      && (listed ==> if arrives then Canonical(c, incoming(c.name)) else incoming(c.name) == own)
  }

  /** What the passes leave in a column's cell, in closed form. */
  function Closed(c: Column, names: seq<string>, incoming: string -> Option<string>,
                  own: Option<string>): Result<Option<string>>
    requires names != []
  {
    var arrives := c.name in names && HasText(incoming(c.name));
    var text := if arrives then Serialize(c, RawText(incoming(c.name).value)) else None;
    if arrives && text.None? then Err(Invalid)
    else match c.default
      case Some(d) => Ok(if arrives && names[|names| - 1] == c.name then text else Some(d))
      case None =>
        if c.required && !(arrives && names == [c.name]) then Err(Invalid)
        else Ok(if arrives then text else own)
  }

  lemma {:induction false} EvolveClosed(c: Column, names: seq<string>, incoming: string -> Option<string>,
                                        own: Option<string>)
    requires Distinct(names) && names != []
    ensures Evolve(c, names, incoming, own) == Closed(c, names, incoming, own)
  {
    var n := |names| - 1;
    var init, last := names[..n], names[n];
    assert names == init + [last];
    if n == 0 {
      ClosedOne(c, last, incoming, own);
      assert Evolve(c, init, incoming, own) == Ok(own);
    } else {
      EvolveClosed(c, init, incoming, own);
      ClosedStep(c, init, last, incoming, own);
    }
  }

  lemma ClosedOne(c: Column, name: string, incoming: string -> Option<string>, own: Option<string>)
    ensures Closed(c, [name], incoming, own) == Received(c, Ok(own), name, incoming(name))
  {
    LastCell(c, name, incoming(name));
    assert c.name in [name] <==> c.name == name;
    assert [name] == [c.name] <==> [name][0] == c.name;
  }

  lemma ClosedStep(c: Column, init: seq<string>, last: string, incoming: string -> Option<string>, own: Option<string>)
    requires init != [] && last !in init
    ensures Closed(c, init + [last], incoming, own) ==
            Received(c, Closed(c, init, incoming, own), last, incoming(last))
  {
    var names := init + [last];
    LastCell(c, last, incoming(last));
    assert names[|names| - 1] == last;
    assert c.name in names <==> c.name in init || c.name == last;
    assert names != [c.name];
    assert init == [c.name] ==> c.name in init;
  }

  lemma LastCell(c: Column, name: string, incoming: Option<string>)
    ensures var arrives := c.name == name && HasText(incoming);
            CellIn(c, name, incoming) ==
            if arrives then
              match Serialize(c, RawText(incoming.value)) case Some(t) => Stored(t) case None => Bad
            else match c.default
              case None => if c.required then Bad else Absent
              case Some(d) => Stored(d)
  {
  }

  lemma SettlesExactly(c: Column, names: seq<string>, incoming: string -> Option<string>, own: Option<string>)
    requires Distinct(names)
    ensures Evolve(c, names, incoming, own) == Ok(if c.name in names then incoming(c.name) else own) <==>
            Settles(c, names, incoming, own)
  {
    if names != [] {
      EvolveClosed(c, names, incoming, own);
    }
  }

  // --- The exchange theorem ----------------------------------------------

  /** The stored text of exactly the listed columns is exchanged; every other cell of the store keeps its text. */
  ghost predicate CustomExchanged(p: Pair, names: seq<string>, after: Cells) {
    && (forall c :: c in p.ta ==>
          after.Text((p.a, c.id)) == if c.name in names then NewText(p, c.name) else p.start.Text((p.a, c.id)))
    && (forall c :: c in p.tb ==>
          after.Text((p.b, c.id)) == if c.name in names then OldText(p, c.name) else p.start.Text((p.b, c.id)))
    && forall key :: !KeyIn(p.ta, p.a, key) && !KeyIn(p.tb, p.b, key) ==> after.Text(key) == p.start.Text(key)
  }

  ghost predicate AllSettle(p: Pair, names: seq<string>) {
    && (forall c :: c in p.ta ==> Settles(c, names, ToA(p), p.start.Text((p.a, c.id))))
    && forall c :: c in p.tb ==> Settles(c, names, ToB(p), p.start.Text((p.b, c.id)))
  }

  /** Every column of one side evolves to the exchanged text. */
  ghost predicate SideReceives(cols: seq<Column>, id: int, start: Cells, names: seq<string>,
                               incoming: string -> Option<string>)
  {
    forall c :: c in cols ==>
      Evolve(c, names, incoming, start.Text((id, c.id))) ==
      Ok(if c.name in names then incoming(c.name) else start.Text((id, c.id)))
  }

  lemma SideSettlesIff(cols: seq<Column>, id: int, start: Cells, names: seq<string>, incoming: string -> Option<string>)
    requires Distinct(names)
    ensures SideReceives(cols, id, start, names, incoming) <==>
            forall c :: c in cols ==> Settles(c, names, incoming, start.Text((id, c.id)))
  {
    forall c | c in cols
      ensures Evolve(c, names, incoming, start.Text((id, c.id))) ==
              Ok(if c.name in names then incoming(c.name) else start.Text((id, c.id))) <==>
              Settles(c, names, incoming, start.Text((id, c.id)))
    {
      SettlesExactly(c, names, incoming, start.Text((id, c.id)));
    }
  }

  /** A finished loop has exchanged the columns exactly when both sides received the exchanged texts. */
  lemma EvolvedExchangedIff(p: Pair, names: seq<string>, after: Cells)
    requires Evolved(p, names, after)
    ensures CustomExchanged(p, names, after) <==>
            SideReceives(p.ta, p.a, p.start, names, ToA(p)) && SideReceives(p.tb, p.b, p.start, names, ToB(p))
  {
    forall key | !KeyIn(p.ta, p.a, key) && !KeyIn(p.tb, p.b, key) ensures after.Text(key) == p.start.Text(key) {
      assert SameCell(p.start, after, key);
    }
  }

  lemma ReceivingIsLoopable(p: Pair, names: seq<string>)
    requires forall name :: name in names ==> NameIn(p.ta, name) && NameIn(p.tb, name)
    requires SideReceives(p.ta, p.a, p.start, names, ToA(p)) && SideReceives(p.tb, p.b, p.start, names, ToB(p))
    ensures Loopable(p, names)
  {
  }

  /** The loop succeeds and exchanges the listed custom columns exactly when every column of both templates settles. */
  lemma LoopExchangesCustomIff(p: Pair, w: Work, cols: seq<Col>)
    requires Ready(p) && Fits(p, w) && w.cells == p.start && Distinct(CustomNames(cols))
    requires forall name :: name in CustomNames(cols) ==> NameIn(p.ta, name) && NameIn(p.tb, name)
    ensures (Exchange(p, w, cols).Ok? && CustomExchanged(p, CustomNames(cols), Exchange(p, w, cols).value.cells)) <==>
            AllSettle(p, CustomNames(cols))
  {
    var names := CustomNames(cols);
    LoopEvolves(p, w, cols);
    SideSettlesIff(p.ta, p.a, p.start, names, ToA(p));
    SideSettlesIff(p.tb, p.b, p.start, names, ToB(p));
    if Exchange(p, w, cols).Ok? {
      EvolvedExchangedIff(p, names, Exchange(p, w, cols).value.cells);
    } else if AllSettle(p, names) {
      ReceivingIsLoopable(p, names);
    }
  }

  lemma {:induction false} CustomNamesDistinct(cols: seq<Col>)
    requires Distinct(cols)
    ensures Distinct(CustomNames(cols))
    ensures forall name :: name in CustomNames(cols) <==> Custom(name) in cols
  {
    if cols != [] {
      var init, col := cols[..|cols| - 1], cols[|cols| - 1];
      assert cols == init + [col];
      CustomNamesDistinct(init);
      assert col !in init by {
        assert forall i :: 0 <= i < |init| ==> init[i] == cols[i];
      }
    }
  }

  /** The approval as a whole. */
  lemma ApprovalExchangesCustomIff(s: State, actorId: int, id: int)
    requires s.HasUser(actorId) && ApproveRefusal(s, actorId, id).None?
    requires Ready(PairOf(s, s.swaps[id])) && Distinct(ColumnsOf(s.swaps[id]))
    requires forall name :: Custom(name) in ColumnsOf(s.swaps[id]) ==>
               NameIn(PairOf(s, s.swaps[id]).ta, name) && NameIn(PairOf(s, s.swaps[id]).tb, name)
    ensures var p, names := PairOf(s, s.swaps[id]), CustomNames(ColumnsOf(s.swaps[id]));
            && (&& ApproveSwap(s, actorId, id).Ok?
                && var s' := ApproveSwap(s, actorId, id).value;
                   CustomExchanged(p, names, Cells(s'.values, s'.customBaselines)))
            <==> AllSettle(p, names)
  {
    CustomNamesDistinct(ColumnsOf(s.swaps[id]));
    LoopExchangesCustomIff(PairOf(s, s.swaps[id]), StartOf(s), ColumnsOf(s.swaps[id]));
  }

  /** The everyday case: one custom column, canonical on both sides, and no other column required or defaulted. */
  lemma OneCanonicalColumnSettles(p: Pair, name: string)
    requires forall c :: c in p.ta && c.name == name ==> Canonical(c, NewText(p, name))
    requires forall c :: c in p.tb && c.name == name ==> Canonical(c, OldText(p, name))
    requires forall c :: (c in p.ta || c in p.tb) && c.name != name ==> !c.required && c.default.None?
    ensures AllSettle(p, [name])
  {
    assert forall n :: n in [name] <==> n == name;
  }

  /** A one-sided value is not exchanged but copied: the side that should become empty keeps its text. */
  lemma BlankSideKeepsItsText(p: Pair, c: Column, text: string)
    requires p.a != p.b && p.ta == [c] && p.tb == [c] && text != ""
    requires p.start.Text((p.a, c.id)) == Some(text) && p.start.Text((p.b, c.id)) == None
    requires c.dataType == StringColumn && c.default.None? && !c.required
    ensures Ready(p) && !AllSettle(p, [c.name]) && OldText(p, c.name) == Some(text) && NewText(p, c.name) == None
    ensures ExchangeCustom(p, p.start, c.name).Ok?
    ensures ExchangeCustom(p, p.start, c.name).value.Text((p.a, c.id)) == Some(text)
    ensures ExchangeCustom(p, p.start, c.name).value.Text((p.b, c.id)) == Some(text)
  {
    FoundColumn([c], c);
    assert OldText(p, c.name) == Some(text) && NewText(p, c.name).None?;
    assert c in p.ta && c in p.tb && c.name in [c.name];
    assert !Settles(c, [c.name], ToA(p), p.start.Text((p.a, c.id)));
    LastCell(c, c.name, None);
    LastCell(c, c.name, Some(text));
    assert PassAccepted(p, c.name);
    PassMeaning(p, p.start, c.name);
    var r := ExchangeCustom(p, p.start, c.name).value;
    assert CellPass(p.start, r, (p.a, c.id), true, OldText(p, c.name), CellIn(c, c.name, None));
    assert CellPass(p.start, r, (p.b, c.id), true, NewText(p, c.name), CellIn(c, c.name, Some(text)));
  }

  // --- Captured originals ------------------------------------------------

  /** The baseline of one column's cell after the passes for names. */
  ghost predicate OriginalKept(start: Cells, cells: Cells, key: CellKey, c: Column, names: seq<string>) {
    if key in start.baselines then key in cells.baselines && cells.baselines[key] == start.baselines[key]
    else if c.name in names then
      && key in cells.baselines
      && cells.baselines[key] ==
         if names[0] == c.name || c.default.None? || key in start.values then start.Text(key) else c.default
    else
      && (key in cells.values <==> key in start.values || (names != [] && c.default.Some?))
      && (key in cells.baselines <==> names != [] && c.default.Some? && key !in start.values)
      && (key in cells.baselines ==> cells.baselines[key] == c.default)
  }

  lemma PassKeepsOriginal(start: Cells, cells: Cells, after: Cells, key: CellKey, c: Column, names: seq<string>,
                          name: string,
                          cell: Cell)
    requires OriginalKept(start, cells, key, c, names)
    requires CellPass(cells, after, key, c.name == name, start.Text(key), cell)
    requires c.name != name ==> cell == match c.default case None => Absent case Some(d) => Stored(d)
    ensures OriginalKept(start, after, key, c, names + [name])
  {
    assert forall n :: n in names + [name] <==> n in names || n == name;
  }

  lemma {:induction false} LoopKeepsOriginals(p: Pair, w: Work, cols: seq<Col>)
    requires Ready(p) && Fits(p, w) && w.cells == p.start && Exchange(p, w, cols).Ok?
    ensures var names, after := CustomNames(cols), Exchange(p, w, cols).value.cells;
            && (forall c :: c in p.ta ==> OriginalKept(p.start, after, (p.a, c.id), c, names))
            && (forall c :: c in p.tb ==> OriginalKept(p.start, after, (p.b, c.id), c, names))
            && forall key :: !KeyIn(p.ta, p.a, key) && !KeyIn(p.tb, p.b, key) ==> SameCell(p.start, after, key)
  {
    if cols != [] {
      var init, col := cols[..|cols| - 1], cols[|cols| - 1];
      LoopKeepsOriginals(p, w, init);
      if col.Fixed? {
        assert CustomNames(cols) == CustomNames(init);
      } else {
        var cells, after := Exchange(p, w, init).value.cells, Exchange(p, w, cols).value.cells;
        PassMeaning(p, cells, col.name);
        forall c | c in p.ta ensures OriginalKept(p.start, after, (p.a, c.id), c, CustomNames(cols)) {
          FoundColumn(p.ta, c);
          LastCell(c, col.name, NewText(p, col.name));
          PassKeepsOriginal(p.start, cells, after, (p.a, c.id), c, CustomNames(init), col.name,
                            CellIn(c, col.name, NewText(p, col.name)));
        }
        forall c | c in p.tb ensures OriginalKept(p.start, after, (p.b, c.id), c, CustomNames(cols)) {
          FoundColumn(p.tb, c);
          LastCell(c, col.name, OldText(p, col.name));
          PassKeepsOriginal(p.start, cells, after, (p.b, c.id), c, CustomNames(init), col.name,
                            CellIn(c, col.name, OldText(p, col.name)));
        }
        forall key | !KeyIn(p.ta, p.a, key) && !KeyIn(p.tb, p.b, key) ensures SameCell(p.start, after, key) {
          assert SameCell(p.start, cells, key) && SameCell(cells, after, key);
        }
      }
    }
  }

  /**
   * An approval never changes a custom baseline. One it has to create for a listed column records the value before the
   * approval, exactly when the column comes first, has no default, or already had a stored row; otherwise an earlier
   * pass has stored the default and its insert hook records that.
   */
  lemma ApprovalCapturesOriginals(s: State, actorId: int, id: int)
    requires s.HasUser(actorId) && ApproveSwap(s, actorId, id).Ok? && Ready(PairOf(s, s.swaps[id]))
    ensures var p, names := PairOf(s, s.swaps[id]), CustomNames(ColumnsOf(s.swaps[id]));
            var s' := ApproveSwap(s, actorId, id).value;
            && (forall key :: key in s.customBaselines ==>
                  key in s'.customBaselines && s'.customBaselines[key] == s.customBaselines[key])
            && (forall c :: c in p.ta && c.name in names && (p.a, c.id) !in s.customBaselines ==>
                  && (p.a, c.id) in s'.customBaselines
                  && (s'.customBaselines[(p.a, c.id)] == p.start.Text((p.a, c.id)) <==>
                      names[0] == c.name || c.default.None? || (p.a, c.id) in s.values))
            && forall c :: c in p.tb && c.name in names && (p.b, c.id) !in s.customBaselines ==>
                  && (p.b, c.id) in s'.customBaselines
                  && (s'.customBaselines[(p.b, c.id)] == p.start.Text((p.b, c.id)) <==>
                      names[0] == c.name || c.default.None? || (p.b, c.id) in s.values)
  {
    var p, cols := PairOf(s, s.swaps[id]), ColumnsOf(s.swaps[id]);
    LoopKeepsOriginals(p, StartOf(s), cols);
    var after := Exchange(p, StartOf(s), cols).value.cells;
    forall key | key in s.customBaselines
      ensures key in after.baselines && after.baselines[key] == s.customBaselines[key]
    {
      if KeyIn(p.ta, p.a, key) {
        var c :| c in p.ta && c.id == key.1;
        assert OriginalKept(p.start, after, (p.a, c.id), c, CustomNames(cols));
        assert key == (p.a, c.id);
      } else if KeyIn(p.tb, p.b, key) {
        var c :| c in p.tb && c.id == key.1;
        assert OriginalKept(p.start, after, (p.b, c.id), c, CustomNames(cols));
        assert key == (p.b, c.id);
      } else {
        assert SameCell(p.start, after, key);
      }
    }
  }
}
