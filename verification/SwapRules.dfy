/**
 * What each swap call answers and writes, by the rules on the rows, and what a request raised is worth when approved.
 */
module SwapRules {
  import opened Common
  import opened Text
  import opened Domain
  import opened Ordering
  import opened ColumnNames
  import opened TemplateValues
  import opened Swaps
  import opened FixedExchange
  import opened Runs
  import opened Rules
  import opened RoutingRules
  import LedgerRuns
  import FullSwaps
  import SwapRuns

  // --- The columns of a request ------------------------------------------

  /** The explicit list if one is given, else the single column, else every column the two setups have in common. */
  function RequestedNames(s: State, p: SwapPayload): seq<string> {
    if p.columnNames.Some? then FirstOccurrences(NonBlank(p.columnNames.value))
    else if p.columnName.Some? && Strip(p.columnName.value) != "" then [Strip(p.columnName.value)]
    else AllowedColumns(ColumnsAt(s, p.currentSetupId), ColumnsAt(s, p.requestedSetupId))
  }

  /** A fixed field, or a custom column of both setups. */
  predicate Exchangeable(s: State, p: SwapPayload, name: string) {
    IsFieldName(name) || (HasColumn(s, p.currentSetupId, name) && HasColumn(s, p.requestedSetupId, name))
  }

  predicate SomeNotBlank(parts: seq<string>) {
    exists p :: p in parts && Strip(p) != ""
  }

  predicate AllFit(parts: seq<string>) {
    forall p :: p in parts ==> |Strip(p)| <= 100
  }

  /** An explicit list needs a name, and no name may exceed the stored width. */
  predicate ListReadable(p: SwapPayload) {
    p.columnNames.Some? ==> SomeNotBlank(p.columnNames.value) && AllFit(p.columnNames.value)
  }

  lemma OneMorePart(init: seq<string>, last: string)
    ensures SomeNotBlank(init + [last]) <==> SomeNotBlank(init) || Strip(last) != ""
    ensures AllFit(init + [last]) <==> AllFit(init) && |Strip(last)| <= 100
  {
    assert forall p :: p in init + [last] <==> p in init || p == last;
  }

  lemma NonBlankLast(init: seq<string>, last: string)
    ensures NonBlank(init + [last]) ==
            if Strip(last) == "" then NonBlank(init) else NonBlank(init) + [Strip(last)]
  {
    assert (init + [last])[..|init|] == init;
  }

  lemma {:induction false} NonBlankIff(parts: seq<string>)
    ensures NonBlank(parts) != [] <==> SomeNotBlank(parts)
    ensures TooLong(NonBlank(parts)) <==> !AllFit(parts)
  {
    if parts == [] {
      assert NonBlank(parts) == [];
    } else {
      var init, last := parts[..|parts| - 1], parts[|parts| - 1];
      assert parts == init + [last];
      NonBlankIff(init);
      OneMorePart(init, last);
      NonBlankLast(init, last);
      if Strip(last) != "" {
        TooLongStep(NonBlank(init), Strip(last));
      }
    }
  }

  lemma ListReadableIff(p: SwapPayload)
    ensures ValidColumnNames(p.columnNames).Ok? <==> ListReadable(p)
    ensures ValidColumnNames(p.columnNames).Err? ==> ValidColumnNames(p.columnNames).error == Invalid
  {
    if p.columnNames.Some? {
      NonBlankIff(p.columnNames.value);
    }
  }

  lemma FieldNamesAre(name: string)
    ensures name in FieldNames() <==> IsFieldName(name)
  {
    assert FieldNames() == ["ssd", "hdd", "hardware_info", "capacity", "form_factor", "adapter", "aardvark", "quarch",
                            "apc", "remote_server"];
  }

  lemma ListedAsField(name: string)
    ensures Resolve(name).Fixed? <==> IsFieldName(name)
  {
    FieldNamesAre(name);
    LedgerRuns.FixedNamesListed(name);
  }

  lemma AllowedIff(s: State, p: SwapPayload, name: string)
    ensures name in AllowedColumns(ColumnsAt(s, p.currentSetupId), ColumnsAt(s, p.requestedSetupId)) <==>
            Exchangeable(s, p, name)
  {
    var ta, tb := ColumnsAt(s, p.currentSetupId), ColumnsAt(s, p.requestedSetupId);
    StringOrderTotal();
    FieldNamesAre(name);
    var custom := Sorted(CommonNames(ta, tb), StringLe);
    assert name in custom <==> name in Elements(custom);
    assert name in CommonNames(ta, tb) <==> NameIn(ta, name) && NameIn(tb, name);
  }

  /** The full list: the ten fields in table order, then the common custom columns in strictly increasing order. */
  lemma FullListIs(ta: seq<Column>, tb: seq<Column>)
    ensures var r := AllowedColumns(ta, tb);
            && |r| >= 10 && (forall i :: 0 <= i < 10 ==> r[i] == FieldName(FIELDS[i]))
            && (forall i, j :: 10 <= i < j < |r| ==> r[i] != r[j] && StringLe(r[i], r[j]))
            && forall name :: name in r[10..] <==> NameIn(ta, name) && NameIn(tb, name)
  {
    StringOrderTotal();
    var r, custom := AllowedColumns(ta, tb), Sorted(CommonNames(ta, tb), StringLe);
    assert |FieldNames()| == 10 && r[10..] == custom;
    forall i, j | 10 <= i < j < |r| ensures r[i] != r[j] && StringLe(r[i], r[j]) {
      assert r[i] == custom[i - 10] && r[j] == custom[j - 10];
    }
    forall name ensures name in custom <==> NameIn(ta, name) && NameIn(tb, name) {
      assert name in custom <==> name in Elements(custom);
    }
  }

  // --- Raising -----------------------------------------------------------

  /** The checks of a raise, in order. */
  ghost function MayRaise(s: State, a: int, p: SwapPayload): Outcome {
    var x, y := p.currentSetupId, p.requestedSetupId;
    :- Need(SignedIn(s, a) && Granted(s, a, SwapRequestPermission), Forbidden);
    :- Need(ListReadable(p), Invalid);
    :- Need(x != y, Conflict);
    :- Need(Exists(s, x) && Exists(s, y), NotFound);
    :- Need(InUse(s, x) && InUse(s, y), Conflict);
    :- Need(s.requireSameProduct ==> s.setups[x].productId == s.setups[y].productId, Invalid);
    :- Need(Reaches(s, x, a) && Reaches(s, y, a), Forbidden);
    Need(forall name :: name in RequestedNames(s, p) ==> Exchangeable(s, p, name), Invalid)
  }

  lemma ColumnsAtIs(s: State, x: int)
    requires s.HasSetup(x)
    ensures s.Template(s.setups[x].productId) == ColumnsAt(s, x)
  {
  }

  /** The columns `create` settles on are the requested ones, or refused. */
  lemma ChosenAre(s: State, p: SwapPayload)
    requires ValidColumnNames(p.columnNames).Ok?
    ensures var allowed := AllowedColumns(ColumnsAt(s, p.currentSetupId), ColumnsAt(s, p.requestedSetupId));
            ChosenColumns(p.(columnNames := ValidColumnNames(p.columnNames).value), allowed) ==
            if forall name :: name in RequestedNames(s, p) ==> Exchangeable(s, p, name) then Ok(RequestedNames(s, p))
            else Err(Invalid)
  {
    var allowed := AllowedColumns(ColumnsAt(s, p.currentSetupId), ColumnsAt(s, p.requestedSetupId));
    ListReadableIff(p);
    FullListIs(ColumnsAt(s, p.currentSetupId), ColumnsAt(s, p.requestedSetupId));
    forall name ensures name in allowed <==> Exchangeable(s, p, name) {
      AllowedIff(s, p, name);
    }
    if p.columnNames.Some? {
      FirstOccurrencesEmpty(NonBlank(p.columnNames.value));
    }
  }

  lemma RaiseRefusalIs(s: State, a: int, p: SwapPayload)
    requires SignedIn(s, a) && Granted(s, a, SwapRequestPermission) && ListReadable(p)
    ensures MayRaise(s, a, p) ==
            match RaiseRefusal(s, a, p)
            case Some(e) => Fail(e)
            case None => Need(forall name :: name in RequestedNames(s, p) ==> Exchangeable(s, p, name), Invalid)
  {
    var x, y := p.currentSetupId, p.requestedSetupId;
    if s.HasSetup(x) && s.HasSetup(y) {
      HasAccessIff(s, x, a);
      HasAccessIff(s, y, a);
    }
  }

  /** What a successful `create` appends. */
  lemma CreatedRow(s: State, a: int, p: SwapPayload)
    requires s.HasUser(a) && CreateSwap(s, a, p).Ok?
    ensures CreateSwap(s, a, p).value ==
            s.(swaps := s.swaps + [Swap(a, p.currentSetupId, p.requestedSetupId, Join(RequestedNames(s, p), ','),
                                        SwapPending, None)])
  {
    ListReadableIff(p);
    ColumnsAtIs(s, p.currentSetupId);
    ColumnsAtIs(s, p.requestedSetupId);
    ChosenAre(s, p);
  }

  /**
   * Raising a swap answers the first rule it breaks; otherwise it appends one pending row of the caller, with the two
   * setups of the payload and exactly the requested columns, and writes nothing else.
   */
  lemma RaiseAnswer(s: State, a: int, p: SwapPayload)
    ensures Exec(s, OnSwap(a, RaiseSwap(p))) ==
            match MayRaise(s, a, p)
            case Fail(e) => Err(e)
            case Pass =>
              Ok(s.(swaps := s.swaps + [Swap(a, p.currentSetupId, p.requestedSetupId, Join(RequestedNames(s, p), ','),
                                             SwapPending, None)]))
  {
    if SignedIn(s, a) && Granted(s, a, SwapRequestPermission) && ListReadable(p) {
      RaiseRefusalIs(s, a, p);
      ListReadableIff(p);
      if RaiseRefusal(s, a, p).None? {
        ColumnsAtIs(s, p.currentSetupId);
        ColumnsAtIs(s, p.requestedSetupId);
        ChosenAre(s, p);
      }
    } else {
      ListReadableIff(p);
    }
  }

  // --- Deciding ----------------------------------------------------------

  predicate Known(s: State, id: int) {
    0 <= id < |s.swaps|
  }

  ghost function MayComplete(s: State, a: int, id: int): Outcome {
    var mayCall := SignedIn(s, a) && Granted(s, a, SwapApprovePermission);
    :- Need(mayCall, Forbidden);
    :- Need(Known(s, id), NotFound);
    var w := s.swaps[id];
    :- Need(w.status == SwapPending, Conflict);
    :- Need(Exists(s, w.currentSetupId) && Exists(s, w.requestedSetupId), NotFound);
    :- Need(InUse(s, w.currentSetupId) && InUse(s, w.requestedSetupId), Conflict);
    Need(DecidesSwap(s, w.currentSetupId, a), Forbidden)
  }

  lemma ApproveRefusalIs(s: State, a: int, id: int)
    requires SignedIn(s, a) && Granted(s, a, SwapApprovePermission)
    ensures MayComplete(s, a, id) == match ApproveRefusal(s, a, id) case Some(e) => Fail(e) case None => Pass
  {
    if HasSwap(s, id) && s.HasSetup(s.swaps[id].currentSetupId) {
      MayApproveIff(s, s.swaps[id].currentSetupId, a);
    }
  }

  /** If w lists a fixed field, a missing baseline of either of its setups is captured from the values before. */
  ghost predicate OriginalsAfter(s: State, w: Swap, after: map<int, Fields>)
    requires Exists(s, w.currentSetupId) && Exists(s, w.requestedSetupId)
  {
    var captures := exists f :: Fixed(f) in ColumnsOf(w);
    && (forall x :: x in after <==>
          x in s.baselines || (captures && (x == w.currentSetupId || x == w.requestedSetupId)))
    && forall x :: x in after ==> after[x] == if x in s.baselines then s.baselines[x] else s.setups[x].fixed
  }

  lemma AnyFixedIff(cols: seq<Col>)
    ensures AnyFixed(cols) <==> exists f :: Fixed(f) in cols
  {
    if c :| c in cols && c.Fixed? {
      assert Fixed(c.field) in cols;
    }
  }

  lemma CapturedRows(baselines: map<int, Fields>, setups: seq<Setup>, a: int, b: int)
    requires 0 <= a < |setups| && 0 <= b < |setups|
    ensures var after := CapturedBaselines(baselines, setups, a, b);
            && (forall x :: x in after <==> x in baselines || x == a || x == b)
            && forall x :: x in after ==> after[x] == if x in baselines then baselines[x] else setups[x].fixed
  {
    var first := if a in baselines then baselines else baselines[a := setups[a].fixed];
    assert forall x :: x in first <==> x in baselines || x == a;
    assert CapturedBaselines(baselines, setups, a, b) == if b in first then first else first[b := setups[b].fixed];
  }

  lemma CapturedAre(s: State, w: Swap)
    requires Exists(s, w.currentSetupId) && Exists(s, w.requestedSetupId)
    ensures OriginalsAfter(s, w, if AnyFixed(ColumnsOf(w)) then
                                   CapturedBaselines(s.baselines, s.setups, w.currentSetupId, w.requestedSetupId)
                                 else s.baselines)
  {
    AnyFixedIff(ColumnsOf(w));
    CapturedRows(s.baselines, s.setups, w.currentSetupId, w.requestedSetupId);
  }

  lemma {:induction false} ExchangeFailsInvalid(p: Pair, w: Work, cols: seq<Col>)
    requires Fits(p, w)
    ensures Exchange(p, w, cols).Err? ==> Exchange(p, w, cols).error == Invalid
  {
    if cols != [] {
      ExchangeFailsInvalid(p, w, cols[..|cols| - 1]);
    }
  }

  /**
   * Approving answers the first rule it breaks, or that a custom column cannot take its value; otherwise the request
   * becomes COMPLETED by the caller, missing originals are captured if a fixed field is listed, and besides values,
   * custom originals and the ledger nothing else is written.
   */
  lemma ApproveAnswer(s: State, a: int, id: int)
    ensures var r := Exec(s, OnSwap(a, ApproveSwapCall(id)));
            match MayComplete(s, a, id)
            case Fail(e) => r == Err(e)
            case Pass =>
              match Exchange(PairOf(s, s.swaps[id]), StartOf(s), ColumnsOf(s.swaps[id]))
              case Err(_) => r == Err(Invalid)
              case Ok(done) =>
                && r.Ok? && OriginalsAfter(s, s.swaps[id], r.value.baselines)
                && r.value == s.(setups := done.setups, values := done.cells.values,
                                 customBaselines := done.cells.baselines, baselines := r.value.baselines,
                                 ledger := r.value.ledger,
                                 swaps := s.swaps[id := s.swaps[id].(status := SwapCompleted,
                                                                     approvedById := Some(a))])
  {
    if SignedIn(s, a) && Granted(s, a, SwapApprovePermission) {
      ApproveRefusalIs(s, a, id);
      if ApproveRefusal(s, a, id).None? {
        CapturedAre(s, s.swaps[id]);
        ExchangeFailsInvalid(PairOf(s, s.swaps[id]), StartOf(s), ColumnsOf(s.swaps[id]));
      }
    }
  }

  ghost function MayReject(s: State, a: int, id: int): Outcome {
    var mayCall := SignedIn(s, a) && Granted(s, a, SwapApprovePermission);
    :- Need(mayCall, Forbidden);
    :- Need(Known(s, id), NotFound);
    var w := s.swaps[id];
    :- Need(w.status == SwapPending, Conflict);
    Need(Exists(s, w.currentSetupId) ==> DecidesSwap(s, w.currentSetupId, a), Forbidden)
  }

  /** Rejecting answers the first rule it breaks; otherwise the request becomes REJECTED by the caller, nothing else. */
  lemma RejectAnswer(s: State, a: int, id: int)
    ensures Exec(s, OnSwap(a, RejectSwapCall(id))) ==
            match MayReject(s, a, id)
            case Fail(e) => Err(e)
            case Pass =>
              Ok(s.(swaps := s.swaps[id := s.swaps[id].(status := SwapRejected, approvedById := Some(a))]))
  {
    if SignedIn(s, a) && HasSwap(s, id) && s.HasSetup(s.swaps[id].currentSetupId) {
      MayApproveIff(s, s.swaps[id].currentSetupId, a);
    }
  }

  ghost function MayCancel(s: State, a: int, id: int): Outcome {
    var mayCall := SignedIn(s, a);
    :- Need(mayCall, Forbidden);
    :- Need(Known(s, id), NotFound);
    :- Need(s.swaps[id].requesterId == a, Forbidden);
    Need(s.swaps[id].status == SwapPending, Conflict)
  }

  /** Cancelling is for the requester, while the request is pending; it becomes CANCELLED, nothing else. */
  lemma CancelAnswer(s: State, a: int, id: int)
    ensures Exec(s, OnSwap(a, CancelSwapCall(id))) ==
            match MayCancel(s, a, id)
            case Fail(e) => Err(e)
            case Pass => Ok(s.(swaps := s.swaps[id := s.swaps[id].(status := SwapCancelled)]))
  {
  }

  // --- From the payload to the exchange ----------------------------------

  lemma {:induction false} RequestStays(s: State, calls: seq<Call>, id: int)
    requires HasSwap(s, id)
    ensures HasSwap(Run(s, calls), id) && LedgerRuns.SameRequest(s.swaps[id], Run(s, calls).swaps[id])
  {
    if calls != [] {
      var before, c := Run(s, calls[..|calls| - 1]), calls[|calls| - 1];
      RequestStays(s, calls[..|calls| - 1], id);
      SwapRuns.NextMoves(before, c);
      assert SwapRuns.Moves(before, c, id, before.swaps[id], Run(s, calls).swaps[id]);
    }
  }

  /** An explicit or single request names each column once, trimmed and not blank. */
  lemma NamedColumnsAreTidy(s: State, p: SwapPayload)
    requires p.columnNames.Some? || (p.columnName.Some? && Strip(p.columnName.value) != "")
    ensures Distinct(RequestedNames(s, p))
    ensures forall name :: name in RequestedNames(s, p) ==> name != "" && Trimmed(name)
  {
    if p.columnNames.Some? {
      var names := NonBlank(p.columnNames.value);
      FirstOccurrencesMeaning(names);
      forall name | name in FirstOccurrences(names) ensures name != "" && Trimmed(name) {
        var raw := NonBlankEntries(p.columnNames.value, name);
      }
    }
  }

  /** The row a raise appends is the payload's, and its stored column list reads back as the requested columns. */
  lemma RaisedRow(s: State, a: int, p: SwapPayload)
    requires Exec(s, OnSwap(a, RaiseSwap(p))).Ok? && forall name :: name in RequestedNames(s, p) ==> Clean(name)
    ensures var s' := Next(s, OnSwap(a, RaiseSwap(p)));
            && |s'.swaps| == |s.swaps| + 1 && p.currentSetupId != p.requestedSetupId
            && var w := s'.swaps[|s.swaps|];
               && w.requesterId == a && w.currentSetupId == p.currentSetupId && w.requestedSetupId == p.requestedSetupId
               && Decode(w.columnName) == RequestedNames(s, p)
  {
    RaiseAnswer(s, a, p);
    ColumnListRoundTrip(RequestedNames(s, p));
  }

  /**
   * A raised request, approved after any further calls, exchanges between the payload's two setups exactly the fixed
   * fields the payload asked for, and no other fixed value of any setup.
   */
  lemma RaisedThenApproved(s: State, a: int, p: SwapPayload, calls: seq<Call>, approver: int)
    requires Exec(s, OnSwap(a, RaiseSwap(p))).Ok?
    requires Distinct(RequestedNames(s, p)) && forall name :: name in RequestedNames(s, p) ==> Clean(name)
    requires var mid := Run(Next(s, OnSwap(a, RaiseSwap(p))), calls);
             Exec(mid, OnSwap(approver, ApproveSwapCall(|s.swaps|))).Ok?
    ensures var mid := Run(Next(s, OnSwap(a, RaiseSwap(p))), calls);
            var end := Next(mid, OnSwap(approver, ApproveSwapCall(|s.swaps|)));
            && mid.HasSetup(p.currentSetupId) && mid.HasSetup(p.requestedSetupId) && |end.setups| == |mid.setups|
            && forall x, f :: mid.HasSetup(x) ==>
                 end.setups[x].fixed[f] ==
                 mid.setups[if FieldName(f) !in RequestedNames(s, p) then x
                            else if x == p.currentSetupId then p.requestedSetupId
                            else if x == p.requestedSetupId then p.currentSetupId
                            else x].fixed[f]
  {
    var mid := Run(Next(s, OnSwap(a, RaiseSwap(p))), calls);
    RaisedRow(s, a, p);
    RequestStays(Next(s, OnSwap(a, RaiseSwap(p))), calls, |s.swaps|);
    ApprovedExchanges(mid, approver, |s.swaps|, RequestedNames(s, p));
  }

  lemma ApprovedExchanges(s: State, approver: int, id: int, names: seq<string>)
    requires TwoSetups(s, id) && Decode(s.swaps[id].columnName) == names && Distinct(names)
    requires Exec(s, OnSwap(approver, ApproveSwapCall(id))).Ok?
    ensures var end, x0, y0 := Next(s, OnSwap(approver, ApproveSwapCall(id))), s.swaps[id].currentSetupId,
                               s.swaps[id].requestedSetupId;
            && s.HasSetup(x0) && s.HasSetup(y0) && |end.setups| == |s.setups|
            && forall x, f :: s.HasSetup(x) ==>
                 end.setups[x].fixed[f] ==
                 s.setups[if FieldName(f) !in names then x
                          else if x == x0 then y0
                          else if x == y0 then x0
                          else x].fixed[f]
  {
    var w := s.swaps[id];
    ApprovalIsExchange(s, approver, id);
    ListedExchanged(s.setups, w.currentSetupId, w.requestedSetupId, names);
  }

  lemma ListedExchanged(setups: seq<Setup>, x0: int, y0: int, names: seq<string>)
    requires 0 <= x0 < |setups| && 0 <= y0 < |setups| && x0 != y0 && Distinct(names)
    ensures var after := Exchanged(setups, x0, y0, ResolveAll(names));
            forall x, f :: 0 <= x < |setups| ==>
              after[x].fixed[f] ==
              setups[if FieldName(f) !in names then x else if x == x0 then y0 else if x == y0 then x0 else x].fixed[f]
  {
    ResolveAllDistinct(names);
    DistinctColumnsAreOdd(ResolveAll(names));
    forall x, f | 0 <= x < |setups|
      ensures Exchanged(setups, x0, y0, ResolveAll(names))[x].fixed[f] ==
              setups[if FieldName(f) !in names then x else if x == x0 then y0 else if x == y0 then x0 else x].fixed[f]
    {
      NamedField(names, f);
      ExchangedValue(setups, x0, y0, ResolveAll(names), f, x);
    }
  }

  lemma NamedField(names: seq<string>, f: Field)
    ensures Fixed(f) in ResolveAll(names) <==> FieldName(f) in names
  {
    FullSwaps.ResolvedOccurrences(names, f);
    OccurrencesPositive(names, FieldName(f));
    OccurrencesPositive(ResolveAll(names), Fixed(f));
  }

  // --- Who the ledger names ----------------------------------------------

  /** The row is of a completed request, one of its setups and columns, and names the user who approved it. */
  ghost predicate RowSigned(s: State, row: LedgerRow) {
    && HasSwap(s, row.swapId)
    && var w := s.swaps[row.swapId];
       && w.status == SwapCompleted && w.approvedById == Some(row.changedById)
       && (row.setupId == w.currentSetupId || row.setupId == w.requestedSetupId) && row.field in ColumnsOf(w)
  }

  ghost predicate LedgerSigned(s: State) {
    forall i :: 0 <= i < |s.ledger| ==> RowSigned(s, s.ledger[i])
  }

  lemma {:induction false} RowsNamed(a: int, b: int, cols: seq<Col>, olds: map<Col, Option<string>>,
                                     news: map<Col, Option<string>>, id: int, actorId: int)
    ensures forall i :: 0 <= i < |Rows(a, b, cols, olds, news, id, actorId)| ==>
              var row := Rows(a, b, cols, olds, news, id, actorId)[i];
              row.swapId == id && row.changedById == actorId && (row.setupId == a || row.setupId == b)
                && row.field in cols
  {
    if cols != [] {
      assert cols == cols[..|cols| - 1] + [cols[|cols| - 1]];
      RowsNamed(a, b, cols[..|cols| - 1], olds, news, id, actorId);
    }
  }

  lemma StillSigned(s: State, c: Call, row: LedgerRow)
    requires RowSigned(s, row)
    ensures RowSigned(Next(s, c), row)
  {
    SwapRuns.NextMoves(s, c);
    assert SwapRuns.Moves(s, c, row.swapId, s.swaps[row.swapId], Next(s, c).swaps[row.swapId]);
  }

  lemma ApprovalAppends(s: State, actorId: int, id: int) returns (rows: seq<LedgerRow>)
    requires s.HasUser(actorId) && ApproveSwap(s, actorId, id).Ok?
    ensures var s', w := ApproveSwap(s, actorId, id).value, s.swaps[id];
            && s'.ledger == s.ledger + rows
            && s'.swaps == s.swaps[id := w.(status := SwapCompleted, approvedById := Some(actorId))]
            && forall row :: row in rows ==>
                 && row.swapId == id && row.changedById == actorId && row.field in ColumnsOf(w)
                 && (row.setupId == w.currentSetupId || row.setupId == w.requestedSetupId)
  {
    var w := s.swaps[id];
    var done := Exchange(PairOf(s, w), StartOf(s), ColumnsOf(w)).value;
    rows := Rows(w.currentSetupId, w.requestedSetupId, ColumnsOf(w), done.olds, done.news, id, actorId);
    RowsNamed(w.currentSetupId, w.requestedSetupId, ColumnsOf(w), done.olds, done.news, id, actorId);
  }

  lemma ApprovalSigns(s: State, actorId: int, id: int)
    requires s.HasUser(actorId) && ApproveSwap(s, actorId, id).Ok?
    ensures var s' := ApproveSwap(s, actorId, id).value;
            s.ledger <= s'.ledger && forall i :: |s.ledger| <= i < |s'.ledger| ==> RowSigned(s', s'.ledger[i])
  {
    var rows := ApprovalAppends(s, actorId, id);
    var s' := ApproveSwap(s, actorId, id).value;
    forall row | row in rows ensures RowSigned(s', row) {
      CompletedColumns(s.swaps[id], actorId);
    }
    SuffixSigned(s', s.ledger, rows);
  }

  lemma CompletedColumns(w: Swap, actorId: int)
    ensures ColumnsOf(w.(status := SwapCompleted, approvedById := Some(actorId))) == ColumnsOf(w)
  {
  }

  lemma SuffixSigned(s: State, before: seq<LedgerRow>, rows: seq<LedgerRow>)
    requires s.ledger == before + rows && forall row :: row in rows ==> RowSigned(s, row)
    ensures forall i :: |before| <= i < |s.ledger| ==> RowSigned(s, s.ledger[i])
  {
    forall i | |before| <= i < |s.ledger| ensures RowSigned(s, s.ledger[i]) {
      assert s.ledger[i] == rows[i - |before|];
    }
  }

  /** In every run, every ledger row belongs to a completed request and names that request's approver. */
  lemma {:induction false} LedgerStaysSigned(s: State, calls: seq<Call>)
    requires LedgerSigned(s)
    ensures LedgerSigned(Run(s, calls))
  {
    if calls != [] {
      LedgerStaysSigned(s, calls[..|calls| - 1]);
      NextSigns(Run(s, calls[..|calls| - 1]), calls[|calls| - 1]);
    }
  }

  lemma NextSigns(s: State, c: Call)
    requires LedgerSigned(s)
    ensures LedgerSigned(Next(s, c))
  {
    forall i | 0 <= i < |s.ledger| ensures RowSigned(Next(s, c), s.ledger[i]) {
      StillSigned(s, c, s.ledger[i]);
    }
    if LedgerRuns.IsApproval(s, c) {
      LedgerRuns.ApprovalStep(s, c);
      ApprovalSigns(s, c.actorId, c.swap.swapId);
    } else {
      LedgerRuns.SameLedger(s, c);
    }
  }
}
