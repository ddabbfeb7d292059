/** What an approval does to the fixed fields: the exact exchange, conservation, undo, and its ledger rows. */
module FixedExchange {
  import opened Common
  import opened Domain
  import opened Ledger
  import opened Swaps

  /** The column list has f an odd number of times. */
  predicate Odd(cols: seq<Col>, f: Field) {
    Occurrences(cols, Fixed(f)) % 2 == 1
  }

  /** own, with theirs on the fields the list has an odd number of times. */
  function Mix(own: Fields, theirs: Fields, cols: seq<Col>): Fields {
    map f: Field | true :: if Odd(cols, f) then theirs[f] else own[f]
  }

  /** The setups with the listed fields of a and b exchanged and everything else as it was. */
  function Exchanged(setups: seq<Setup>, a: int, b: int, cols: seq<Col>): seq<Setup>
    requires 0 <= a < |setups| && 0 <= b < |setups|
  {
    setups[a := setups[a].(fixed := Mix(setups[a].fixed, setups[b].fixed, cols))]
          [b := setups[b].(fixed := Mix(setups[b].fixed, setups[a].fixed, cols))]
  }

  // --- The loop computes the exchange ------------------------------------

  /** After the loop: the setups are exchanged, and the records of each fixed column hold its values after the loop. */
  ghost predicate LoopResult(p: Pair, setups: seq<Setup>, w: Work, cols: seq<Col>)
    requires 0 <= p.a < |setups| && 0 <= p.b < |setups|
  {
    w.setups == Exchanged(setups, p.a, p.b, cols) && RecordsCurrent(p, w, cols)
  }

  ghost predicate RecordsCurrent(p: Pair, w: Work, cols: seq<Col>)
    requires Fits(p, w)
  {
    forall f :: Fixed(f) in cols ==>
      && Fixed(f) in w.olds && w.olds[Fixed(f)] == w.setups[p.b].fixed[f]
      && Fixed(f) in w.news && w.news[Fixed(f)] == w.setups[p.a].fixed[f]
  }

  /** What one pass of the loop does to the setups and the records. */
  ghost predicate StepEffect(p: Pair, w: Work, w': Work, col: Col)
    requires Fits(p, w)
  {
    match col
    case Fixed(f) =>
      && w'.setups == ExchangeField(w.setups, p.a, p.b, f)
      && w'.olds == w.olds[col := w.setups[p.a].fixed[f]]
      && w'.news == w.news[col := w.setups[p.b].fixed[f]]
    case Custom(name) =>
      && w'.setups == w.setups
      && (forall f :: Fixed(f) in w.olds ==> Fixed(f) in w'.olds && w'.olds[Fixed(f)] == w.olds[Fixed(f)])
      && (forall f :: Fixed(f) in w.news ==> Fixed(f) in w'.news && w'.news[Fixed(f)] == w.news[Fixed(f)])
  }

  lemma StepHasEffect(p: Pair, w: Work, col: Col)
    requires Fits(p, w) && Step(p, w, col).Ok?
    ensures StepEffect(p, w, Step(p, w, col).value, col)
  {
  }

  lemma {:induction false} LoopExchanges(p: Pair, w: Work, cols: seq<Col>)
    requires Fits(p, w) && p.a != p.b && Exchange(p, w, cols).Ok?
    ensures LoopResult(p, w.setups, Exchange(p, w, cols).value, cols)
  {
    if cols == [] {
      NothingExchanged(w.setups, p.a, p.b);
    } else {
      var init, col := cols[..|cols| - 1], cols[|cols| - 1];
      assert cols == init + [col];
      LoopExchanges(p, w, init);
      OneMoreStep(p, w.setups, Exchange(p, w, init).value, init, col);
    }
  }

  lemma NothingExchanged(setups: seq<Setup>, a: int, b: int)
    requires 0 <= a < |setups| && 0 <= b < |setups|
    ensures Exchanged(setups, a, b, []) == setups
  {
    MixNothing(setups[a].fixed, setups[b].fixed);
    MixNothing(setups[b].fixed, setups[a].fixed);
  }

  lemma OneMoreStep(p: Pair, setups: seq<Setup>, w: Work, init: seq<Col>, col: Col)
    requires 0 <= p.a < |setups| && 0 <= p.b < |setups| && p.a != p.b && Fits(p, w)
    requires LoopResult(p, setups, w, init) && Step(p, w, col).Ok?
    ensures LoopResult(p, setups, Step(p, w, col).value, init + [col])
  {
    StepHasEffect(p, w, col);
    StepKeepsResult(p, setups, w, Step(p, w, col).value, init, col);
  }

  lemma StepKeepsResult(p: Pair, setups: seq<Setup>, w: Work, w': Work, init: seq<Col>, col: Col)
    requires 0 <= p.a < |setups| && 0 <= p.b < |setups| && p.a != p.b && Fits(p, w)
    requires LoopResult(p, setups, w, init) && StepEffect(p, w, w', col)
    ensures LoopResult(p, setups, w', init + [col])
  {
    OneMoreColumn(setups, p.a, p.b, init, col);
    StepKeepsRecords(p, w, w', init, col);
  }

  lemma StepKeepsRecords(p: Pair, w: Work, w': Work, init: seq<Col>, col: Col)
    requires p.a != p.b && Fits(p, w) && Fits(p, w') && RecordsCurrent(p, w, init) && StepEffect(p, w, w', col)
    ensures RecordsCurrent(p, w', init + [col])
  {
    if col.Fixed? {
      ExchangeFieldMeaning(w.setups, p.a, p.b, col.field);
    }
    assert forall f :: Fixed(f) in init + [col] <==> Fixed(f) in init || Fixed(f) == col;
  }

  lemma MixNothing(own: Fields, theirs: Fields)
    ensures Mix(own, theirs, []) == own
  {
  }

  lemma ExchangeFieldMeaning(setups: seq<Setup>, a: int, b: int, f: Field)
    requires 0 <= a < |setups| && 0 <= b < |setups| && a != b
    ensures var r := ExchangeField(setups, a, b, f);
            && r[a] == setups[a].(fixed := setups[a].fixed[f := setups[b].fixed[f]])
            && r[b] == setups[b].(fixed := setups[b].fixed[f := setups[a].fixed[f]])
            && forall x :: 0 <= x < |setups| && x != a && x != b ==> r[x] == setups[x]
  {
  }

  lemma OddStep(init: seq<Col>, col: Col, f: Field)
    ensures Odd(init + [col], f) <==> Odd(init, f) != (col == Fixed(f))
  {
    assert (init + [col])[..|init|] == init;
  }

  lemma MixStep(own: Fields, theirs: Fields, init: seq<Col>, col: Col)
    ensures Mix(own, theirs, init + [col]) ==
            if col.Fixed? then Mix(own, theirs, init)[col.field := Mix(theirs, own, init)[col.field]]
            else Mix(own, theirs, init)
  {
    forall f: Field ensures Odd(init + [col], f) <==> Odd(init, f) != (col == Fixed(f)) {
      OddStep(init, col, f);
    }
  }

  /** One more list entry exchanges its field once more, and a custom entry changes no fixed field. */
  lemma OneMoreColumn(setups: seq<Setup>, a: int, b: int, init: seq<Col>, col: Col)
    requires 0 <= a < |setups| && 0 <= b < |setups| && a != b
    ensures var before, after := Exchanged(setups, a, b, init), Exchanged(setups, a, b, init + [col]);
            after == if col.Fixed? then ExchangeField(before, a, b, col.field) else before
  {
    MixStep(setups[a].fixed, setups[b].fixed, init, col);
    MixStep(setups[b].fixed, setups[a].fixed, init, col);
    if col.Fixed? {
      ExchangeFieldMeaning(Exchanged(setups, a, b, init), a, b, col.field);
    }
  }

  // --- What an approval means --------------------------------------------

  /** Request id exists and names two different setups. */
  predicate TwoSetups(s: State, id: int) {
    HasSwap(s, id) && s.swaps[id].currentSetupId != s.swaps[id].requestedSetupId
  }

  /**
   * One approval exchanges exactly the fields listed an odd number of times, between its two setups, and nothing else.
   */
  lemma ApprovalIsExchange(s: State, actorId: int, id: int)
    requires s.HasUser(actorId) && TwoSetups(s, id)
    ensures ApproveSwap(s, actorId, id).Ok? ==>
            var w, s' := s.swaps[id], ApproveSwap(s, actorId, id).value;
            && s'.setups == Exchanged(s.setups, w.currentSetupId, w.requestedSetupId, ColumnsOf(w))
            && (forall f :: s'.setups[w.currentSetupId].fixed[f] ==
                  if Odd(ColumnsOf(w), f) then s.setups[w.requestedSetupId].fixed[f]
                  else s.setups[w.currentSetupId].fixed[f])
            && (forall f :: s'.setups[w.requestedSetupId].fixed[f] ==
                  if Odd(ColumnsOf(w), f) then s.setups[w.currentSetupId].fixed[f]
                  else s.setups[w.requestedSetupId].fixed[f])
  {
    if ApproveSwap(s, actorId, id).Ok? {
      LoopExchanges(PairOf(s, s.swaps[id]), StartOf(s), ColumnsOf(s.swaps[id]));
    }
  }

  /** With distinct columns the odd ones are the listed ones. */
  lemma DistinctColumnsAreOdd(cols: seq<Col>)
    requires Distinct(cols)
    ensures forall f :: Odd(cols, f) <==> Fixed(f) in cols
  {
    DistinctOccurrences(cols);
    forall f ensures Odd(cols, f) <==> Fixed(f) in cols {
      OccurrencesPositive(cols, Fixed(f));
    }
  }

  /** A column listed twice is exchanged and exchanged back: the approval leaves it where it was. */
  lemma ListedTwiceIsUndone(setups: seq<Setup>, a: int, b: int, f: Field)
    requires 0 <= a < |setups| && 0 <= b < |setups| && a != b
    requires setups[a].fixed[f] != setups[b].fixed[f]
    ensures Exchanged(setups, a, b, [Fixed(f), Fixed(f)])[a].fixed[f] == setups[a].fixed[f]
    ensures Exchanged(setups, a, b, [Fixed(f)])[a].fixed[f] == setups[b].fixed[f]
  {
    var once, twice := [Fixed(f)], [Fixed(f), Fixed(f)];
    assert once[..0] == [] && twice[..1] == once;
    assert Occurrences(once, Fixed(f)) == 1 && Occurrences(twice, Fixed(f)) == 2;
  }

  /** Exchanging the same columns of the same pair again restores both setups, in either direction of the pair. */
  lemma ExchangeTwiceRestores(setups: seq<Setup>, a: int, b: int, cols: seq<Col>)
    requires 0 <= a < |setups| && 0 <= b < |setups| && a != b
    ensures Exchanged(Exchanged(setups, a, b, cols), a, b, cols) == setups
    ensures Exchanged(Exchanged(setups, a, b, cols), b, a, cols) == setups
  {
    var once := Exchanged(setups, a, b, cols);
    assert Mix(once[a].fixed, once[b].fixed, cols) == setups[a].fixed;
    assert Mix(once[b].fixed, once[a].fixed, cols) == setups[b].fixed;
  }

  /**
   * Approving a second request for the same pair and columns undoes the first, as long as the fixed values stood still.
   */
  lemma ApprovingAgainUndoes(s: State, actorId: int, id: int, s2: State, actorId2: int, id2: int)
    requires s.HasUser(actorId) && s2.HasUser(actorId2) && TwoSetups(s, id) && HasSwap(s2, id2)
    requires s2.swaps[id2].columnName == s.swaps[id].columnName
    requires {s2.swaps[id2].currentSetupId, s2.swaps[id2].requestedSetupId} ==
             {s.swaps[id].currentSetupId, s.swaps[id].requestedSetupId}
    ensures ApproveSwap(s, actorId, id).Ok? && s2.setups == ApproveSwap(s, actorId, id).value.setups
            && ApproveSwap(s2, actorId2, id2).Ok? ==>
              ApproveSwap(s2, actorId2, id2).value.setups == s.setups
  {
    var w, w2 := s.swaps[id], s2.swaps[id2];
    var pair := {w.currentSetupId, w.requestedSetupId};
    assert w2.currentSetupId in pair && w2.requestedSetupId in pair;
    assert w.currentSetupId in {w2.currentSetupId, w2.requestedSetupId};
    assert w.requestedSetupId in {w2.currentSetupId, w2.requestedSetupId};
    ApprovalIsExchange(s, actorId, id);
    ApprovalIsExchange(s2, actorId2, id2);
    if ApproveSwap(s, actorId, id).Ok? {
      ExchangeTwiceRestores(s.setups, w.currentSetupId, w.requestedSetupId, ColumnsOf(w));
    }
  }

  // --- Conservation ------------------------------------------------------

  /** Every setup's value of one fixed field. */
  function FieldColumn(setups: seq<Setup>, f: Field): seq<Option<string>> {
    seq(|setups|, i requires 0 <= i < |setups| => setups[i].fixed[f])
  }

  lemma ExchangedValue(setups: seq<Setup>, a: int, b: int, cols: seq<Col>, f: Field, x: int)
    requires 0 <= a < |setups| && 0 <= b < |setups| && a != b && 0 <= x < |setups|
    ensures Exchanged(setups, a, b, cols)[x].fixed[f] ==
            if !Odd(cols, f) then setups[x].fixed[f]
            else if x == a then setups[b].fixed[f]
            else if x == b then setups[a].fixed[f]
            else setups[x].fixed[f]
  {
    var after := Exchanged(setups, a, b, cols);
    if x == a {
      assert after[a].fixed == Mix(setups[a].fixed, setups[b].fixed, cols);
    } else if x == b {
      assert after[b].fixed == Mix(setups[b].fixed, setups[a].fixed, cols);
    } else {
      assert after[x] == setups[x];
    }
  }

  lemma SwapKeepsMultiset<T>(xs: seq<T>, a: int, b: int)
    requires 0 <= a < |xs| && 0 <= b < |xs|
    ensures multiset(xs[a := xs[b]][b := xs[a]]) == multiset(xs)
  {
  }

  /** An approval moves values between two setups and conserves each field's multiset of values. */
  lemma ExchangeConserves(setups: seq<Setup>, a: int, b: int, cols: seq<Col>, f: Field)
    requires 0 <= a < |setups| && 0 <= b < |setups| && a != b
    ensures multiset(FieldColumn(Exchanged(setups, a, b, cols), f)) == multiset(FieldColumn(setups, f))
  {
    var before, after := FieldColumn(setups, f), FieldColumn(Exchanged(setups, a, b, cols), f);
    forall x | 0 <= x < |setups|
      ensures after[x] == if !Odd(cols, f) then before[x]
                          else if x == a then before[b] else if x == b then before[a] else before[x]
    {
      ExchangedValue(setups, a, b, cols, f, x);
    }
    if Odd(cols, f) {
      SwapKeepsMultiset(before, a, b);
      assert after == before[a := before[b]][b := before[a]];
    } else {
      assert after == before;
    }
  }

  // --- The ledger rows of one approval -----------------------------------

  /** own, with the recorded values on the listed fixed columns. */
  function Recorded(own: Fields, cols: seq<Col>, records: map<Col, Option<string>>): Fields {
    map f: Field | true :: if Fixed(f) in cols then ValueOf(records, Fixed(f)) else own[f]
  }

  lemma RecordedNothing(own: Fields, records: map<Col, Option<string>>)
    ensures Recorded(own, [], records) == own
  {
  }

  lemma RecordedStep(own: Fields, init: seq<Col>, col: Col, records: map<Col, Option<string>>)
    ensures Recorded(own, init + [col], records) ==
            if col.Fixed? then Recorded(own, init, records)[col.field := ValueOf(records, col)]
            else Recorded(own, init, records)
  {
    assert forall c :: c in init + [col] <==> c in init || c == col;
  }

  /** view with the recorded values of the listed fixed columns written over a and b. */
  function Overwritten(view: seq<Fields>, a: int, b: int, cols: seq<Col>, olds: map<Col, Option<string>>,
                       news: map<Col, Option<string>>): seq<Fields>
    requires 0 <= a < |view| && 0 <= b < |view|
  {
    view[a := Recorded(view[a], cols, news)][b := Recorded(view[b], cols, olds)]
  }

  lemma {:induction false} RowsOverwrite(view: seq<Fields>, a: int, b: int, cols: seq<Col>,
                                         olds: map<Col, Option<string>>,
                                         news: map<Col, Option<string>>, swapId: int, actorId: int)
    requires 0 <= a < |view| && 0 <= b < |view| && a != b
    ensures Replay(view, Rows(a, b, cols, olds, news, swapId, actorId)) == Overwritten(view, a, b, cols, olds, news)
  {
    if cols == [] {
      RecordedNothing(view[a], news);
      RecordedNothing(view[b], olds);
    } else {
      var init, col := cols[..|cols| - 1], cols[|cols| - 1];
      assert cols == init + [col];
      RowsOverwrite(view, a, b, init, olds, news, swapId, actorId);
      var rows := Rows(a, b, init, olds, news, swapId, actorId);
      var rowA, rowB := RowA(a, col, olds, news, swapId, actorId), RowB(b, col, olds, news, swapId, actorId);
      ReplayConcat(view, rows, [rowA, rowB]);
      ReplayPair(Replay(view, rows), rowA, rowB);
      OverwrittenStep(view, a, b, init, col, olds, news);
    }
  }

  lemma OverwrittenStep(view: seq<Fields>, a: int, b: int, init: seq<Col>, col: Col, olds: map<Col, Option<string>>,
                        news: map<Col, Option<string>>)
    requires 0 <= a < |view| && 0 <= b < |view| && a != b
    ensures var before, after :=
            Overwritten(view, a, b, init, olds, news), Overwritten(view, a, b, init + [col], olds, news);
            after == if col.Fixed? then
                       With(With(before, a, col.field, ValueOf(news, col)), b, col.field, ValueOf(olds, col))
                     else before
  {
    RecordedStep(view[a], init, col, news);
    RecordedStep(view[b], init, col, olds);
  }

  /** Replaying two rows of one column. */
  lemma ReplayPair(view: seq<Fields>, rowA: LedgerRow, rowB: LedgerRow)
    requires 0 <= rowA.setupId < |view| && 0 <= rowB.setupId < |view| && rowA.field == rowB.field
    ensures Replay(view, [rowA, rowB]) ==
            if rowA.field.Fixed? then
              With(With(view, rowA.setupId, rowA.field.field, rowA.newValue), rowB.setupId, rowA.field.field,
                   rowB.newValue)
            else view
    ensures rowA.setupId != rowB.setupId ==>
            (Chained(view, [rowA, rowB]) <==>
             (rowA.field.Fixed? ==> && view[rowA.setupId][rowA.field.field] == rowA.oldValue
                                    && view[rowB.setupId][rowB.field.field] == rowB.oldValue))
  {
    assert [rowA, rowB][..1] == [rowA] && [rowA][..0] == [];
    assert Replay(view, []) == view && Chained(view, []);
    assert Replay(view, [rowA]) ==
           if rowA.field.Fixed? then With(view, rowA.setupId, rowA.field.field, rowA.newValue) else view;
  }

  /** Replaying an approval's rows over the values before it gives the values after it, whatever the column list. */
  lemma ApprovalReplays(s: State, actorId: int, id: int)
    requires s.HasUser(actorId) && TwoSetups(s, id)
    ensures ApproveSwap(s, actorId, id).Ok? ==>
            var s' := ApproveSwap(s, actorId, id).value;
            && s.ledger <= s'.ledger
            && Replay(View(s.setups), s'.ledger[|s.ledger|..]) == View(s'.setups)
  {
    if ApproveSwap(s, actorId, id).Ok? {
      var w := s.swaps[id];
      var a, b, cols := w.currentSetupId, w.requestedSetupId, ColumnsOf(w);
      var done := Exchange(PairOf(s, w), StartOf(s), cols).value;
      var rows := Rows(a, b, cols, done.olds, done.news, id, actorId);
      LoopExchanges(PairOf(s, w), StartOf(s), cols);
      assert (s.ledger + rows)[|s.ledger|..] == rows;
      RowsOverwrite(View(s.setups), a, b, cols, done.olds, done.news, id, actorId);
      RecordsAreFinal(PairOf(s, w), s.setups, done, cols);
    }
  }

  lemma RecordsAreFinal(p: Pair, setups: seq<Setup>, w: Work, cols: seq<Col>)
    requires 0 <= p.a < |setups| && 0 <= p.b < |setups| && p.a != p.b
    requires LoopResult(p, setups, w, cols)
    ensures Overwritten(View(setups), p.a, p.b, cols, w.olds, w.news) == View(w.setups)
  {
    var a, b := setups[p.a].fixed, setups[p.b].fixed;
    forall f | Fixed(f) in cols
      ensures ValueOf(w.news, Fixed(f)) == Mix(a, b, cols)[f] && ValueOf(w.olds, Fixed(f)) == Mix(b, a, cols)[f] {}
    RecordedIsMix(a, b, cols, w.news);
    RecordedIsMix(b, a, cols, w.olds);
  }

  lemma RecordedIsMix(own: Fields, theirs: Fields, cols: seq<Col>, records: map<Col, Option<string>>)
    requires forall f :: Fixed(f) in cols ==> ValueOf(records, Fixed(f)) == Mix(own, theirs, cols)[f]
    ensures Recorded(own, cols, records) == Mix(own, theirs, cols)
  {
    forall f: Field ensures Recorded(own, cols, records)[f] == Mix(own, theirs, cols)[f] {
      OccurrencesPositive(cols, Fixed(f));
    }
  }

  // --- When old values chain ---------------------------------------------

  /** The recorded values of f agree with the values before the loop. */
  predicate RecordedBefore(view: seq<Fields>, a: int, b: int, f: Field, olds: map<Col, Option<string>>,
                           news: map<Col, Option<string>>)
    requires 0 <= a < |view| && 0 <= b < |view|
  {
    ValueOf(olds, Fixed(f)) == view[a][f] && ValueOf(news, Fixed(f)) == view[b][f]
  }

  predicate RowsChainFor(view: seq<Fields>, a: int, b: int, cols: seq<Col>, f: Field, olds: map<Col, Option<string>>,
                         news: map<Col, Option<string>>)
    requires 0 <= a < |view| && 0 <= b < |view|
  {
    && (Occurrences(cols, Fixed(f)) >= 1 ==> RecordedBefore(view, a, b, f, olds, news))
    && (Occurrences(cols, Fixed(f)) >= 2 ==> ValueOf(olds, Fixed(f)) == ValueOf(news, Fixed(f)))
  }

  lemma {:induction false} RowsChainIff(view: seq<Fields>, a: int, b: int, cols: seq<Col>,
                                        olds: map<Col, Option<string>>,
                                        news: map<Col, Option<string>>, swapId: int, actorId: int)
    requires 0 <= a < |view| && 0 <= b < |view| && a != b
    ensures Chained(view, Rows(a, b, cols, olds, news, swapId, actorId)) <==>
            forall f :: RowsChainFor(view, a, b, cols, f, olds, news)
  {
    if cols != [] {
      var init, col := cols[..|cols| - 1], cols[|cols| - 1];
      assert cols == init + [col];
      RowsChainIff(view, a, b, init, olds, news, swapId, actorId);
      var rows := Rows(a, b, init, olds, news, swapId, actorId);
      var rowA, rowB := RowA(a, col, olds, news, swapId, actorId), RowB(b, col, olds, news, swapId, actorId);
      ReplayConcat(view, rows, [rowA, rowB]);
      ReplayPair(Replay(view, rows), rowA, rowB);
      RowsOverwrite(view, a, b, init, olds, news, swapId, actorId);
      ChainStep(view, a, b, init, col, olds, news);
    }
  }

  /** The two rows of one more column chain exactly when the column's own condition is kept. */
  lemma ChainStep(view: seq<Fields>, a: int, b: int, init: seq<Col>, col: Col, olds: map<Col, Option<string>>,
                  news: map<Col, Option<string>>)
    requires 0 <= a < |view| && 0 <= b < |view| && a != b
    ensures var now := Overwritten(view, a, b, init, olds, news);
            (forall f :: RowsChainFor(view, a, b, init + [col], f, olds, news)) <==>
            && (forall f :: RowsChainFor(view, a, b, init, f, olds, news))
            && (col.Fixed? ==> now[a][col.field] == ValueOf(olds, col) && now[b][col.field] == ValueOf(news, col))
  {
    forall f: Field
      ensures RowsChainFor(view, a, b, init + [col], f, olds, news) <==>
              RowsChainFor(view, a, b, init, f, olds, news) && (col == Fixed(f) ==>
                var now := Overwritten(view, a, b, init, olds, news);
                now[a][f] == ValueOf(olds, col) && now[b][f] == ValueOf(news, col))
    {
      assert (init + [col])[..|init|] == init;
      OccurrencesPositive(init, Fixed(f));
    }
  }

  /**
   * The old value of every row of an approval is the value just before that row, exactly when each field listed more
   * than once was equal on the two setups.
   */
  lemma ApprovalChainsIff(s: State, actorId: int, id: int)
    requires s.HasUser(actorId) && TwoSetups(s, id)
    ensures ApproveSwap(s, actorId, id).Ok? ==>
            var w, s' := s.swaps[id], ApproveSwap(s, actorId, id).value;
            Chained(View(s.setups), s'.ledger[|s.ledger|..]) <==>
            forall f :: Occurrences(ColumnsOf(w), Fixed(f)) >= 2 ==>
              s.setups[w.currentSetupId].fixed[f] == s.setups[w.requestedSetupId].fixed[f]
  {
    if ApproveSwap(s, actorId, id).Ok? {
      var w := s.swaps[id];
      var p, cols := PairOf(s, w), ColumnsOf(w);
      var done := Exchange(p, StartOf(s), cols).value;
      var rows := Rows(p.a, p.b, cols, done.olds, done.news, id, actorId);
      LoopExchanges(p, StartOf(s), cols);
      assert (s.ledger + rows)[|s.ledger|..] == rows;
      LoopRowsChain(p, s.setups, done, cols, id, actorId);
    }
  }

  lemma LoopRowsChain(p: Pair, setups: seq<Setup>, w: Work, cols: seq<Col>, id: int, actorId: int)
    requires 0 <= p.a < |setups| && 0 <= p.b < |setups| && p.a != p.b
    requires LoopResult(p, setups, w, cols)
    ensures Chained(View(setups), Rows(p.a, p.b, cols, w.olds, w.news, id, actorId)) <==>
            forall f :: Occurrences(cols, Fixed(f)) >= 2 ==> setups[p.a].fixed[f] == setups[p.b].fixed[f]
  {
    RowsChainIff(View(setups), p.a, p.b, cols, w.olds, w.news, id, actorId);
    forall f: Field
      ensures RowsChainFor(View(setups), p.a, p.b, cols, f, w.olds, w.news) <==>
              (Occurrences(cols, Fixed(f)) >= 2 ==> setups[p.a].fixed[f] == setups[p.b].fixed[f])
    {
      ChainForOne(p, setups, w, cols, f);
    }
  }

  lemma ChainForOne(p: Pair, setups: seq<Setup>, w: Work, cols: seq<Col>, f: Field)
    requires 0 <= p.a < |setups| && 0 <= p.b < |setups| && p.a != p.b
    requires LoopResult(p, setups, w, cols)
    ensures RowsChainFor(View(setups), p.a, p.b, cols, f, w.olds, w.news) <==>
            (Occurrences(cols, Fixed(f)) >= 2 ==> setups[p.a].fixed[f] == setups[p.b].fixed[f])
  {
    OccurrencesPositive(cols, Fixed(f));
    ExchangedValue(setups, p.a, p.b, cols, f, p.a);
    ExchangedValue(setups, p.a, p.b, cols, f, p.b);
  }

  /** An approval owns two rows for each time a column is listed, and writes none for any other request. */
  lemma {:induction false} RowsOwned(a: int, b: int, cols: seq<Col>, olds: map<Col, Option<string>>,
                                     news: map<Col, Option<string>>, swapId: int, actorId: int, id: int, col: Col)
    ensures RowsFor(Rows(a, b, cols, olds, news, swapId, actorId), id, col) ==
            if id == swapId then 2 * Occurrences(cols, col) else 0
  {
    if cols != [] {
      var init, last := cols[..|cols| - 1], cols[|cols| - 1];
      RowsOwned(a, b, init, olds, news, swapId, actorId, id, col);
      var rowA, rowB := RowA(a, last, olds, news, swapId, actorId), RowB(b, last, olds, news, swapId, actorId);
      RowsForConcat(Rows(a, b, init, olds, news, swapId, actorId), [rowA, rowB], id, col);
      assert [rowA, rowB][..1] == [rowA] && [rowA][..0] == [];
      assert RowsFor([], id, col) == 0;
      assert RowsFor([rowA], id, col) == if swapId == id && last == col then 1 else 0;
    }
  }
}
