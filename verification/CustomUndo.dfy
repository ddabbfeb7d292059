/**
 * Two approvals of the same custom columns: exactly when the second restores every text, whatever the first one did.
 */
module CustomUndo {
  import opened Common
  import opened Domain
  import opened TemplateValues
  import opened Swaps
  import opened CustomExchange
  import opened CellRuns

  /** The text one exchange leaves in a column's cell. */
  function ClosedText(c: Column, names: seq<string>, incoming: string -> Option<string>,
                      own: Option<string>): Option<string>
    requires names != []
  {
    match Closed(c, names, incoming, own) case Ok(text) => text case Err(_) => None
  }

  /** The text one exchange leaves under a name. */
  function MidText(cols: seq<Column>, id: int, start: Cells, names: seq<string>, incoming: string -> Option<string>,
                   name: string): Option<string>
    requires names != []
  {
    match FindColumn(cols, name)
    case None => None
    case Some(i) => ClosedText(cols[i], names, incoming, start.Text((id, cols[i].id)))
  }

  function MidA(p: Pair, names: seq<string>): string -> Option<string>
    requires names != []
  {
    name => MidText(p.ta, p.a, p.start, names, ToA(p), name)
  }

  function MidB(p: Pair, names: seq<string>): string -> Option<string>
    requires names != []
  {
    name => MidText(p.tb, p.b, p.start, names, ToB(p), name)
  }

  /**
   * Each of a side's columns, given what the first exchange brought it and what the second brings, ends as it started.
   */
  ghost predicate SideRestored(cols: seq<Column>, id: int, start: Cells, names: seq<string>,
                               first: string -> Option<string>,
                               second: string -> Option<string>)
    requires names != []
  {
    forall c :: c in cols ==>
      var own := start.Text((id, c.id));
      Closed(c, names, second, ClosedText(c, names, first, own)) == Ok(own)
  }

  /** What a caller can check before the first of two exchanges: the closed form, composed with itself. */
  ghost predicate RestoredByTwo(p: Pair, names: seq<string>) {
    names == [] ||
    (&& SideRestored(p.ta, p.a, p.start, names, ToA(p), MidB(p, names))
     && SideRestored(p.tb, p.b, p.start, names, ToB(p), MidA(p, names)))
  }

  /** After the first exchange a side holds the closed texts. */
  lemma SideAfterFirst(cols: seq<Column>, id: int, start: Cells, mid: Cells, names: seq<string>,
                       incoming: string -> Option<string>)
    requires UniqueColumns(cols) && Distinct(names) && names != []
    requires forall c :: c in cols ==> Evolve(c, names, incoming, start.Text((id, c.id))) == Ok(mid.Text((id, c.id)))
    ensures forall c :: c in cols ==> mid.Text((id, c.id)) == ClosedText(c, names, incoming, start.Text((id, c.id)))
    ensures forall name :: TextByName(mid, id, cols, name) == MidText(cols, id, start, names, incoming, name)
  {
    forall c | c in cols ensures mid.Text((id, c.id)) == ClosedText(c, names, incoming, start.Text((id, c.id))) {
      EvolveClosed(c, names, incoming, start.Text((id, c.id)));
    }
    forall name ensures TextByName(mid, id, cols, name) == MidText(cols, id, start, names, incoming, name) {
      if FindColumn(cols, name).Some? {
        assert cols[FindColumn(cols, name).value] in cols;
      }
    }
  }

  /** The second exchange leads a side back to its start. */
  ghost predicate SideLeadsBack(cols: seq<Column>, id: int, start: Cells, mid: Cells, names: seq<string>,
                                incoming: string -> Option<string>)
  {
    forall c :: c in cols ==> Evolve(c, names, incoming, mid.Text((id, c.id))) == Ok(start.Text((id, c.id)))
  }

  lemma SideLeadsBackIff(cols: seq<Column>, id: int, start: Cells, mid: Cells, names: seq<string>,
                         first: string -> Option<string>, second: string -> Option<string>,
                         incoming: string -> Option<string>)
    requires Distinct(names) && names != []
    requires forall c :: c in cols ==> mid.Text((id, c.id)) == ClosedText(c, names, first, start.Text((id, c.id)))
    requires forall name :: incoming(name) == second(name)
    ensures SideLeadsBack(cols, id, start, mid, names, incoming) <==>
            SideRestored(cols, id, start, names, first, second)
  {
    forall c | c in cols
      ensures Evolve(c, names, incoming, mid.Text((id, c.id))) == Closed(c, names, second, mid.Text((id, c.id)))
    {
      EvolveClosed(c, names, incoming, mid.Text((id, c.id)));
      assert incoming(c.name) == second(c.name);
    }
  }

  /** The second loop ends with the starting texts exactly when it leads both sides back. */
  lemma LoopLeadsBackIff(p: Pair, q: Pair, w: Work, cols: seq<Col>)
    requires Ready(q) && SamePair(p, q) && Fits(q, w) && w.cells == q.start
    requires forall name :: name in CustomNames(cols) ==> NameIn(q.ta, name) && NameIn(q.tb, name)
    requires forall key :: !KeyIn(q.ta, q.a, key) && !KeyIn(q.tb, q.b, key) ==> q.start.Text(key) == p.start.Text(key)
    ensures (Exchange(q, w, cols).Ok? && SameTexts(Exchange(q, w, cols).value.cells, p.start)) <==>
            && SideLeadsBack(q.ta, q.a, p.start, q.start, CustomNames(cols), ToA(q))
            && SideLeadsBack(q.tb, q.b, p.start, q.start, CustomNames(cols), ToB(q))
  {
    LoopEvolves(q, w, cols);
    if Exchange(q, w, cols).Ok? {
      EvolvedBackIff(p, q, CustomNames(cols), Exchange(q, w, cols).value.cells);
    }
  }

  lemma EvolvedBackIff(p: Pair, q: Pair, names: seq<string>, after: Cells)
    requires Evolved(q, names, after)
    requires forall key :: !KeyIn(q.ta, q.a, key) && !KeyIn(q.tb, q.b, key) ==> q.start.Text(key) == p.start.Text(key)
    ensures SameTexts(after, p.start) <==>
            && SideLeadsBack(q.ta, q.a, p.start, q.start, names, ToA(q))
            && SideLeadsBack(q.tb, q.b, p.start, q.start, names, ToB(q))
  {
    if SideLeadsBack(q.ta, q.a, p.start, q.start, names, ToA(q))
       && SideLeadsBack(q.tb, q.b, p.start, q.start, names, ToB(q)) {
      forall key ensures after.Text(key) == p.start.Text(key) {
        if KeyIn(q.ta, q.a, key) {
          var c :| c in q.ta && c.id == key.1;
          assert key == (q.a, c.id);
        } else if KeyIn(q.tb, q.b, key) {
          var c :| c in q.tb && c.id == key.1;
          assert key == (q.b, c.id);
        } else {
          assert SameCell(q.start, after, key);
        }
      }
    }
  }

  /**
   * Whatever the first exchange of the custom columns did, exchanging them again, in either order of the pair, goes
   * through and restores every text of the store exactly when the closed form, applied twice, restores each column's
   * text.
   */
  lemma TwoExchangesRestoreIff(p: Pair, w: Work, q: Pair, w2: Work, cols: seq<Col>)
    requires Ready(p) && Fits(p, w) && w.cells == p.start && Distinct(CustomNames(cols)) && Exchange(p, w, cols).Ok?
    requires SamePair(p, q) && Fits(q, w2) && w2.cells == q.start
    requires q.start.values == Exchange(p, w, cols).value.cells.values
    ensures (Exchange(q, w2, cols).Ok? && SameTexts(Exchange(q, w2, cols).value.cells, p.start)) <==>
            RestoredByTwo(p, CustomNames(cols))
  {
    LoopEvolves(p, w, cols);
    EvolvedByValues(p, CustomNames(cols), Exchange(p, w, cols).value.cells, q.start);
    LoopLeadsBackIff(p, q, w2, cols);
    if CustomNames(cols) != [] {
      SideAfterFirst(p.ta, p.a, p.start, q.start, CustomNames(cols), ToA(p));
      SideAfterFirst(p.tb, p.b, p.start, q.start, CustomNames(cols), ToB(p));
      SecondLeadsBackIff(p, q, CustomNames(cols));
    }
  }

  /** Texts depend on the stored values only. */
  lemma EvolvedByValues(p: Pair, names: seq<string>, cells: Cells, mid: Cells)
    requires Evolved(p, names, cells) && mid.values == cells.values
    ensures forall c :: c in p.ta ==> Evolve(c, names, ToA(p), p.start.Text((p.a, c.id))) == Ok(mid.Text((p.a, c.id)))
    ensures forall c :: c in p.tb ==> Evolve(c, names, ToB(p), p.start.Text((p.b, c.id))) == Ok(mid.Text((p.b, c.id)))
    ensures forall key :: !KeyIn(p.ta, p.a, key) && !KeyIn(p.tb, p.b, key) ==> mid.Text(key) == p.start.Text(key)
  {
    forall key | !KeyIn(p.ta, p.a, key) && !KeyIn(p.tb, p.b, key) ensures mid.Text(key) == p.start.Text(key) {
      assert SameCell(p.start, cells, key);
    }
  }

  lemma SecondLeadsBackIff(p: Pair, q: Pair, names: seq<string>)
    requires SamePair(p, q) && Distinct(names) && names != []
    requires forall c :: c in p.ta ==>
               q.start.Text((p.a, c.id)) == ClosedText(c, names, ToA(p), p.start.Text((p.a, c.id)))
    requires forall c :: c in p.tb ==>
               q.start.Text((p.b, c.id)) == ClosedText(c, names, ToB(p), p.start.Text((p.b, c.id)))
    requires forall name :: TextByName(q.start, p.a, p.ta, name) == MidText(p.ta, p.a, p.start, names, ToA(p), name)
    requires forall name :: TextByName(q.start, p.b, p.tb, name) == MidText(p.tb, p.b, p.start, names, ToB(p), name)
    ensures (&& SideLeadsBack(q.ta, q.a, p.start, q.start, names, ToA(q))
             && SideLeadsBack(q.tb, q.b, p.start, q.start, names, ToB(q)))
            <==> RestoredByTwo(p, names)
  {
    var same := q.a == p.a && q.b == p.b && q.ta == p.ta && q.tb == p.tb;
    var toA, toB := if same then ToA(q) else ToB(q), if same then ToB(q) else ToA(q);
    forall name ensures toA(name) == MidB(p, names)(name) {
      assert toA(name) == TextByName(q.start, p.b, p.tb, name);
    }
    forall name ensures toB(name) == MidA(p, names)(name) {
      assert toB(name) == TextByName(q.start, p.a, p.ta, name);
    }
    SideLeadsBackIff(p.ta, p.a, p.start, q.start, names, ToA(p), MidB(p, names), toA);
    SideLeadsBackIff(p.tb, p.b, p.start, q.start, names, ToB(p), MidA(p, names), toB);
  }

  /**
   * Two approvals of requests for the same pair of setups and the same columns, the values standing still in between:
   * whatever the first did to the custom columns, the second goes through and restores every stored text exactly when
   * the closed form, applied twice, restores each column's text.
   */
  lemma TwoApprovalsRestoreIff(s: State, actorId: int, id: int, s2: State, actorId2: int, id2: int)
    requires s.HasUser(actorId) && ApproveSwap(s, actorId, id).Ok?
    requires Ready(PairOf(s, s.swaps[id])) && Distinct(ColumnsOf(s.swaps[id]))
    requires s2.values == ApproveSwap(s, actorId, id).value.values
    requires s2.HasUser(actorId2) && ApproveRefusal(s2, actorId2, id2).None?
    requires s2.swaps[id2].columnName == s.swaps[id].columnName
    requires SamePair(PairOf(s, s.swaps[id]), PairOf(s2, s2.swaps[id2]))
    ensures (&& ApproveSwap(s2, actorId2, id2).Ok?
             && SameTexts(Cells(ApproveSwap(s2, actorId2, id2).value.values, map[]), Cells(s.values, map[])))
            <==> RestoredByTwo(PairOf(s, s.swaps[id]), CustomNames(ColumnsOf(s.swaps[id])))
  {
    var p, q, cols := PairOf(s, s.swaps[id]), PairOf(s2, s2.swaps[id2]), ColumnsOf(s.swaps[id]);
    CustomNamesDistinct(cols);
    TwoExchangesRestoreIff(p, StartOf(s), q, StartOf(s2), cols);
    if ApproveSwap(s2, actorId2, id2).Ok? {
      SameTextsByValues(Exchange(q, StartOf(s2), cols).value.cells, p.start);
    }
  }
}
