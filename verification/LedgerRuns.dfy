/** Swaps over whole runs: the ledger replays and reverts, values are conserved, rows are owned, originals stay. */
module LedgerRuns {
  import opened Common
  import opened Domain
  import opened Ordering
  import opened ColumnNames
  import opened TemplateValues
  import opened Ledger
  import opened Swaps
  import opened FixedExchange
  import opened CustomExchange
  import opened Runs
  import opened Effects

  /** The only calls of the run that can write a fixed field are swap approvals. */
  ghost predicate OnlySwapsWrite(calls: seq<Call>) {
    forall c :: c in calls ==> !WritesSetups(c)
  }

  predicate WritesSetups(c: Call) {
    c.OnAdmin? && (c.admin.EditSetupCall? || c.admin.ImportCall?)
  }

  /** A step that is not an approval keeps every fixed value and the ledger. */
  ghost predicate IsApproval(s: State, c: Call) {
    c.OnSwap? && c.swap.ApproveSwapCall? && Exec(s, c).Ok?
  }

  lemma ApprovalStep(s: State, c: Call)
    ensures IsApproval(s, c) ==>
              && s.HasUser(c.actorId) && Exec(s, c) == ApproveSwap(s, c.actorId, c.swap.swapId)
              && Next(s, c) == ApproveSwap(s, c.actorId, c.swap.swapId).value
  {
  }

  lemma OtherStepsKeepFields(s: State, c: Call)
    requires !IsApproval(s, c) && !WritesSetups(c)
    ensures View(Next(s, c).setups) == View(s.setups) && Next(s, c).ledger == s.ledger
  {
    if Exec(s, c).Ok? {
      match c
      case OnSwap(a, call) => SwapCallEffect(s, a, call);
      case OnBorrow(a, now, call) => BorrowCallEffect(s, a, now, call);
      case OnReservation(a, now, call) =>
        ReservationCallEffect(s, a, now, call);
        SameButStatusView(s.setups, Next(s, c).setups);
      case ReservationJob(now) =>
        SweepEffect(s, now);
        SameButStatusView(s.setups, Next(s, c).setups);
      case OnAdmin(a, call) => AdminCallEffect(s, a, call);
      case BorrowJob(now) =>
    }
  }

  lemma SameButStatusView(setups: seq<Setup>, setups': seq<Setup>)
    requires SameButStatus(setups, setups')
    ensures View(setups') == View(setups)
  {
  }

  // --- Replay ------------------------------------------------------------

  /** The rows a run has added. */
  function Added(before: seq<LedgerRow>, after: seq<LedgerRow>): seq<LedgerRow>
    requires before <= after
  {
    after[|before|..]
  }

  /** s' is reached from s by replaying the rows it added. */
  ghost predicate Replays(s: State, s': State) {
    s.ledger <= s'.ledger && Replay(View(s.setups), Added(s.ledger, s'.ledger)) == View(s'.setups)
  }

  lemma ReplaysOn(s: State, s1: State, s2: State)
    requires Replays(s, s1) && Replays(s1, s2)
    ensures Replays(s, s2)
    ensures Added(s.ledger, s2.ledger) == Added(s.ledger, s1.ledger) + Added(s1.ledger, s2.ledger)
  {
    assert Added(s.ledger, s2.ledger) == Added(s.ledger, s1.ledger) + Added(s1.ledger, s2.ledger);
    ReplayConcat(View(s.setups), Added(s.ledger, s1.ledger), Added(s1.ledger, s2.ledger));
  }

  lemma NextReplays(s: State, c: Call)
    requires SwapsWellFormed(s) && !WritesSetups(c)
    ensures Replays(s, Next(s, c))
  {
    if IsApproval(s, c) {
      ApprovalStep(s, c);
      ApprovalReplays(s, c.actorId, c.swap.swapId);
    } else {
      OtherStepsKeepFields(s, c);
      assert Added(s.ledger, Next(s, c).ledger) == [];
    }
  }

  /** Replaying the ledger rows of a run from the initial values yields the current value of every setup and field. */
  lemma {:induction false} LedgerReplays(s: State, calls: seq<Call>)
    requires SwapsWellFormed(s) && OnlySwapsWrite(calls)
    ensures SwapsWellFormed(Run(s, calls)) && Replays(s, Run(s, calls))
  {
    if calls == [] {
      assert Added(s.ledger, s.ledger) == [];
    } else {
      var n := |calls| - 1;
      assert calls == calls[..n] + [calls[n]];
      LedgerReplays(s, calls[..n]);
      NextReplays(Run(s, calls[..n]), calls[n]);
      NextKeepsWellFormed(Run(s, calls[..n]), calls[n]);
      ReplaysOn(s, Run(s, calls[..n]), Run(s, calls));
    }
  }

  // --- Distinct column lists ---------------------------------------------

  /** Every custom column has a name that survives the stored form and is not the name of a fixed field. */
  ghost predicate PlainTemplates(s: State) {
    forall p, c :: p in s.templates && c in s.templates[p] ==> Clean(c.name) && !Resolve(c.name).Fixed?
  }

  lemma FixedNamesListed(name: string)
    ensures name in FieldNames() <==> Resolve(name).Fixed?
  {
    if name in FieldNames() {
      var i :| 0 <= i < |FIELDS| && FieldNames()[i] == name;
    }
    match FindFirst(FIELDS, (f: Field) => FieldName(f) == name)
    case Some(i) => assert FieldNames()[i] == name;
    case None =>
  }

  lemma FieldNamesDistinct()
    ensures Distinct(FieldNames()) && |FieldNames()| == 10
  {
    assert |FieldName(Ssd)| == 3 && |FieldName(Hdd)| == 3 && |FieldName(Apc)| == 3;
    assert |FieldName(HardwareInfo)| == 13 && |FieldName(RemoteServer)| == 13;
    assert |FieldName(Capacity)| == 8 && |FieldName(Aardvark)| == 8;
    assert |FieldName(FormFactor)| == 11 && |FieldName(Adapter)| == 7 && |FieldName(Quarch)| == 6;
    assert FieldName(Ssd)[0] == 's' && FieldName(Hdd)[0] == 'h' && FieldName(Apc)[0] == 'a';
    assert FieldName(HardwareInfo)[0] == 'h' && FieldName(RemoteServer)[0] == 'r';
    assert FieldName(Capacity)[0] == 'c' && FieldName(Aardvark)[0] == 'a';
  }

  lemma FieldNamesClean(f: Field)
    ensures Clean(FieldName(f))
  {
  }

  /**
   * The allowed columns of a full swap are distinct exactly when no common custom column is named like a fixed field.
   */
  lemma FullSwapDistinctIff(ta: seq<Column>, tb: seq<Column>)
    ensures Distinct(AllowedColumns(ta, tb)) <==> forall name :: name in CommonNames(ta, tb) ==> !Resolve(name).Fixed?
  {
    StringOrderTotal();
    FieldNamesDistinct();
    var custom := Sorted(CommonNames(ta, tb), StringLe);
    DistinctConcat(FieldNames(), custom);
    forall name ensures name in custom <==> name in CommonNames(ta, tb) {
      assert name in custom <==> name in Elements(custom);
    }
    forall name ensures name in FieldNames() <==> Resolve(name).Fixed? {
      FixedNamesListed(name);
    }
  }

  /** w lists each column once, and only custom columns both templates have. */
  ghost predicate PlainSwap(s: State, w: Swap) {
    && s.HasSetup(w.currentSetupId) && s.HasSetup(w.requestedSetupId) && w.currentSetupId != w.requestedSetupId
    && Distinct(ColumnsOf(w))
    && forall name :: Custom(name) in ColumnsOf(w) ==> NameIn(PairOf(s, w).ta, name) && NameIn(PairOf(s, w).tb, name)
  }

  ghost predicate PlainSwaps(s: State) {
    forall k :: 0 <= k < |s.swaps| ==> PlainSwap(s, s.swaps[k])
  }

  /** What a raised request may name: clean names, fixed or common to both templates. */
  lemma AllowedMeaning(ta: seq<Column>, tb: seq<Column>, name: string)
    requires name in AllowedColumns(ta, tb)
    ensures Resolve(name).Fixed? || (Resolve(name) == Custom(name) && name in CommonNames(ta, tb))
  {
    StringOrderTotal();
    FixedNamesListed(name);
    var custom := Sorted(CommonNames(ta, tb), StringLe);
    assert name in custom <==> name in Elements(custom);
  }

  lemma TemplateNamesPlain(s: State, p: int, c: Column)
    ensures PlainTemplates(s) && c in s.Template(p) ==> Clean(c.name) && !Resolve(c.name).Fixed?
  {
  }

  lemma AllowedIsPlain(s: State, pa: int, pb: int)
    requires PlainTemplates(s)
    ensures Distinct(AllowedColumns(s.Template(pa), s.Template(pb)))
    ensures forall name :: name in AllowedColumns(s.Template(pa), s.Template(pb)) ==> Clean(name)
  {
    var ta, tb := s.Template(pa), s.Template(pb);
    forall name | name in CommonNames(ta, tb) ensures Clean(name) && !Resolve(name).Fixed? {
      var c :| c in ta && c.name == name;
      TemplateNamesPlain(s, pa, c);
    }
    FullSwapDistinctIff(ta, tb);
    forall name | name in AllowedColumns(ta, tb) ensures Clean(name) {
      AllowedMeaning(ta, tb, name);
      if Resolve(name).Fixed? {
        ResolvedName(name);
        FieldNamesClean(Resolve(name).field);
      }
    }
  }

  lemma ResolvedName(name: string)
    requires Resolve(name).Fixed?
    ensures FieldName(Resolve(name).field) == name
  {
  }

  /** The chosen columns are distinct allowed ones. */
  lemma ChosenMeaning(p: SwapPayload, allowed: seq<string>)
    requires ValidColumnNames(p.columnNames).Ok? && Distinct(allowed)
    ensures var r := ChosenColumns(p.(columnNames := ValidColumnNames(p.columnNames).value), allowed);
            r.Ok? ==> Distinct(r.value) && forall n :: n in r.value ==> n in allowed
  {
    if p.columnNames.Some? {
      FirstOccurrencesMeaning(NonBlank(p.columnNames.value));
    }
  }

  lemma ColumnsOfStored(names: seq<string>)
    requires Distinct(names) && forall n :: n in names ==> Clean(n)
    ensures Distinct(ResolveAll(Decode(Encode(names))))
    ensures Decode(Encode(names)) == names
  {
    ColumnListRoundTrip(names);
    ResolveAllDistinct(names);
  }

  lemma RaisedIsPlain(s: State, actorId: int, p: SwapPayload)
    requires s.HasUser(actorId) && PlainTemplates(s) && CreateSwap(s, actorId, p).Ok?
    ensures PlainSwap(s, CreateSwap(s, actorId, p).value.swaps[|s.swaps|])
  {
    var pa, pb := s.setups[p.currentSetupId].productId, s.setups[p.requestedSetupId].productId;
    var allowed := AllowedColumns(s.Template(pa), s.Template(pb));
    var names := ValidColumnNames(p.columnNames).value;
    var chosen := ChosenColumns(p.(columnNames := names), allowed).value;
    AllowedIsPlain(s, pa, pb);
    ChosenMeaning(p, allowed);
    ColumnsOfStored(chosen);
    forall name | Custom(name) in ResolveAll(chosen)
      ensures NameIn(s.Template(pa), name) && NameIn(s.Template(pb), name)
    {
      var i :| 0 <= i < |chosen| && ResolveAll(chosen)[i] == Custom(name);
      assert chosen[i] in chosen;
      AllowedMeaning(s.Template(pa), s.Template(pb), chosen[i]);
    }
  }

  /** A step of such a run keeps the templates and every setup's product. */
  lemma NextKeepsProducts(s: State, c: Call)
    requires SwapsWellFormed(s) && !WritesSetups(c)
    ensures Next(s, c).templates == s.templates && |Next(s, c).setups| == |s.setups|
    ensures forall x :: s.HasSetup(x) ==> Next(s, c).setups[x].productId == s.setups[x].productId
  {
    if Exec(s, c).Ok? {
      match c
      case OnSwap(a, call) =>
        SwapCallEffect(s, a, call);
        SwapCallKeepsWellFormed(s, a, call);
      case OnBorrow(a, now, call) => BorrowCallEffect(s, a, now, call);
      case OnReservation(a, now, call) => ReservationCallEffect(s, a, now, call);
      case ReservationJob(now) => SweepEffect(s, now);
      case OnAdmin(a, call) => AdminCallEffect(s, a, call);
      case BorrowJob(now) =>
    }
  }

  /** What a swap call does to the request table: decide or cancel one row, or append one. */
  lemma SwapCallLists(s: State, actorId: int, call: SwapCall)
    requires s.HasUser(actorId) && ExecSwap(s, actorId, call).Ok?
    ensures var s' := ExecSwap(s, actorId, call).value;
            if call.RaiseSwap? then
              CreateSwap(s, actorId, call.swapPayload) == Ok(s') && s'.swaps == s.swaps + [s'.swaps[|s.swaps|]]
              && s'.swaps[|s.swaps|].status == SwapPending
            else |s'.swaps| == |s.swaps| && exists id :: HasSwap(s, id) && OneDecided(s, s', call, id)
  {
    var s' := ExecSwap(s, actorId, call).value;
    match call
    case RaiseSwap(p) =>
    case ApproveSwapCall(id) => assert OneDecided(s, s', call, id);
    case RejectSwapCall(id) => assert OneDecided(s, s', call, id);
    case CancelSwapCall(id) => assert OneDecided(s, s', call, id);
  }

  ghost predicate OneDecided(s: State, s': State, call: SwapCall, id: int)
    requires HasSwap(s, id)
  {
    && HasSwap(s', id) && s'.swaps == s.swaps[id := s'.swaps[id]] && SameRequest(s.swaps[id], s'.swaps[id])
    && s.swaps[id].status == SwapPending && (s'.swaps[id].status == SwapCompleted <==> call.ApproveSwapCall?)
  }

  /** Other calls leave the request table alone. */
  lemma OtherCallsKeepSwaps(s: State, c: Call)
    requires !c.OnSwap?
    ensures Next(s, c).swaps == s.swaps && Next(s, c).ledger == s.ledger
  {
    if Exec(s, c).Ok? {
      match c
      case OnBorrow(a, now, call) => BorrowCallEffect(s, a, now, call);
      case OnReservation(a, now, call) => ReservationCallEffect(s, a, now, call);
      case ReservationJob(now) => SweepEffect(s, now);
      case OnAdmin(a, call) => AdminCallEffect(s, a, call);
      case BorrowJob(now) =>
    }
  }

  /** A step keeps each request's setups and columns, and a raised one is plain. */
  lemma NextKeepsLists(s: State, c: Call)
    requires PlainTemplates(s)
    ensures |s.swaps| <= |Next(s, c).swaps|
    ensures forall k :: 0 <= k < |s.swaps| ==> SameRequest(s.swaps[k], Next(s, c).swaps[k])
    ensures forall k :: |s.swaps| <= k < |Next(s, c).swaps| ==> PlainSwap(s, Next(s, c).swaps[k])
  {
    if !c.OnSwap? {
      OtherCallsKeepSwaps(s, c);
    } else if Exec(s, c).Ok? {
      SwapCallLists(s, c.actorId, c.swap);
      if c.swap.RaiseSwap? {
        RaisedIsPlain(s, c.actorId, c.swap.swapPayload);
      }
    }
  }

  predicate SameRequest(w: Swap, w': Swap) {
    w' == w.(status := w'.status, approvedById := w'.approvedById)
  }

  lemma StillPlain(s: State, s': State, w: Swap, w': Swap)
    requires PlainSwap(s, w) && SameRequest(w, w')
    requires s'.templates == s.templates && |s'.setups| == |s.setups|
    requires forall x :: s.HasSetup(x) ==> s'.setups[x].productId == s.setups[x].productId
    ensures PlainSwap(s', w')
  {
    assert ColumnsOf(w') == ColumnsOf(w);
    assert PairOf(s', w').ta == PairOf(s, w).ta && PairOf(s', w').tb == PairOf(s, w).tb;
  }

  lemma NextKeepsPlain(s: State, c: Call)
    requires PlainTemplates(s) && PlainSwaps(s) && !WritesSetups(c)
    ensures PlainTemplates(Next(s, c)) && PlainSwaps(Next(s, c))
  {
    var s' := Next(s, c);
    PlainIsWellFormed(s);
    NextKeepsProducts(s, c);
    NextKeepsLists(s, c);
    forall k | 0 <= k < |s'.swaps| ensures PlainSwap(s', s'.swaps[k]) {
      StillPlain(s, s', if k < |s.swaps| then s.swaps[k] else s'.swaps[k], s'.swaps[k]);
    }
  }

  lemma PlainIsWellFormed(s: State)
    requires PlainSwaps(s)
    ensures SwapsWellFormed(s)
  {
    forall k | 0 <= k < |s.swaps|
      ensures s.HasSetup(s.swaps[k].currentSetupId) && s.HasSetup(s.swaps[k].requestedSetupId)
              && s.swaps[k].currentSetupId != s.swaps[k].requestedSetupId
    {
      assert PlainSwap(s, s.swaps[k]);
    }
  }

  // --- Chaining and undoing ----------------------------------------------

  /** s' is reached from s by rows that replay, and whose old values are the values just before them. */
  ghost predicate ReplaysChained(s: State, s': State) {
    Replays(s, s') && Chained(View(s.setups), Added(s.ledger, s'.ledger))
  }

  lemma ReplaysChainedOn(s: State, s1: State, s2: State)
    requires ReplaysChained(s, s1) && ReplaysChained(s1, s2)
    ensures ReplaysChained(s, s2)
  {
    ReplaysOn(s, s1, s2);
    ReplayConcat(View(s.setups), Added(s.ledger, s1.ledger), Added(s1.ledger, s2.ledger));
  }

  lemma NextChains(s: State, c: Call)
    requires PlainSwaps(s) && !WritesSetups(c)
    ensures ReplaysChained(s, Next(s, c))
  {
    PlainIsWellFormed(s);
    NextReplays(s, c);
    if IsApproval(s, c) {
      ApprovalStep(s, c);
      var w := s.swaps[c.swap.swapId];
      assert PlainSwap(s, w);
      ApprovalChainsIff(s, c.actorId, c.swap.swapId);
      ListedOnce(ColumnsOf(w));
    } else {
      OtherStepsKeepFields(s, c);
      assert Added(s.ledger, Next(s, c).ledger) == [];
    }
  }

  lemma ListedOnce(cols: seq<Col>)
    requires Distinct(cols)
    ensures forall col :: Occurrences(cols, col) <= 1
  {
    DistinctOccurrences(cols);
    forall col ensures Occurrences(cols, col) <= 1 {
      OccurrencesPositive(cols, col);
    }
  }

  lemma {:induction false} RunChains(s: State, calls: seq<Call>)
    requires PlainTemplates(s) && PlainSwaps(s) && OnlySwapsWrite(calls)
    ensures PlainTemplates(Run(s, calls)) && PlainSwaps(Run(s, calls)) && ReplaysChained(s, Run(s, calls))
  {
    if calls == [] {
      assert Added(s.ledger, s.ledger) == [];
    } else {
      var n := |calls| - 1;
      assert calls == calls[..n] + [calls[n]];
      RunChains(s, calls[..n]);
      NextKeepsPlain(Run(s, calls[..n]), calls[n]);
      NextChains(Run(s, calls[..n]), calls[n]);
      ReplaysChainedOn(s, Run(s, calls[..n]), Run(s, calls));
    }
  }

  /**
   * With plain templates every row's old value is the value just before it, so the ledger also reverts: playing the
   * run's rows backwards over the current values restores the values the run started from.
   */
  lemma LedgerReverts(s: State, calls: seq<Call>)
    requires PlainTemplates(s) && PlainSwaps(s) && OnlySwapsWrite(calls)
    ensures var end := Run(s, calls);
            && s.ledger <= end.ledger
            && Chained(View(s.setups), Added(s.ledger, end.ledger))
            && Revert(View(end.setups), Added(s.ledger, end.ledger)) == View(s.setups)
  {
    RunChains(s, calls);
    RevertUndoesReplay(View(s.setups), Added(s.ledger, Run(s, calls).ledger));
  }

  /** Call c, made in state s, approves a swap that lists more than once a field on which its setups differ. */
  ghost predicate ApprovesRepeat(s: State, c: Call)
    requires SwapsWellFormed(s)
  {
    IsApproval(s, c) &&
    var w := s.swaps[c.swap.swapId];
    exists f :: Occurrences(ColumnsOf(w), Fixed(f)) >= 2
      && s.setups[w.currentSetupId].fixed[f] != s.setups[w.requestedSetupId].fixed[f]
  }

  lemma NextChainsIff(s: State, c: Call)
    requires SwapsWellFormed(s) && !WritesSetups(c)
    ensures ReplaysChained(s, Next(s, c)) <==> !ApprovesRepeat(s, c)
  {
    NextReplays(s, c);
    if IsApproval(s, c) {
      ApprovalStep(s, c);
      ApprovalChainsIff(s, c.actorId, c.swap.swapId);
    } else {
      OtherStepsKeepFields(s, c);
      assert Added(s.ledger, Next(s, c).ledger) == [];
    }
  }

  lemma WellFormedThroughout(s: State, calls: seq<Call>, k: int)
    requires SwapsWellFormed(s) && OnlySwapsWrite(calls) && 0 <= k <= |calls|
    ensures SwapsWellFormed(Before(s, calls, k)) && Replays(s, Before(s, calls, k))
  {
    forall c | c in calls[..k] ensures !WritesSetups(c) {
      assert c in calls;
    }
    LedgerReplays(s, calls[..k]);
  }

  /** Call k of the run approves such a swap. */
  ghost predicate RepeatAt(s: State, calls: seq<Call>, k: int)
    requires SwapsWellFormed(s) && OnlySwapsWrite(calls) && 0 <= k < |calls|
  {
    WellFormedThroughout(s, calls, k);
    ApprovesRepeat(Before(s, calls, k), calls[k])
  }

  /** Rows chain exactly when both stretches of them do. */
  lemma ReplaysChainedSplit(s: State, s1: State, s2: State)
    requires Replays(s, s1) && Replays(s1, s2)
    ensures ReplaysChained(s, s2) <==> ReplaysChained(s, s1) && ReplaysChained(s1, s2)
  {
    ReplaysOn(s, s1, s2);
    ReplayConcat(View(s.setups), Added(s.ledger, s1.ledger), Added(s1.ledger, s2.ledger));
  }

  ghost predicate ChainedUpTo(s: State, calls: seq<Call>, k: int)
    requires 0 <= k <= |calls|
  {
    ReplaysChained(s, Before(s, calls, k))
  }

  lemma OneMoreChainsIff(s: State, calls: seq<Call>, k: int)
    requires SwapsWellFormed(s) && OnlySwapsWrite(calls) && 0 <= k < |calls|
    ensures ChainedUpTo(s, calls, k + 1) == (ChainedUpTo(s, calls, k) && !RepeatAt(s, calls, k))
  {
    var before := Before(s, calls, k);
    WellFormedThroughout(s, calls, k);
    RunSteps(s, calls, k);
    NextReplays(before, calls[k]);
    NextChainsIff(before, calls[k]);
    ReplaysChainedSplit(s, before, Before(s, calls, k + 1));
  }

  lemma ChainedAtStart(s: State, calls: seq<Call>)
    ensures ChainedUpTo(s, calls, 0)
  {
    RunEnds(s, calls);
    assert Added(s.ledger, s.ledger) == [];
  }

  lemma {:induction false} ChainsWithoutRepeats(s: State, calls: seq<Call>, k: int)
    requires SwapsWellFormed(s) && OnlySwapsWrite(calls) && 0 <= k <= |calls|
    requires forall i :: 0 <= i < |calls| ==> !RepeatAt(s, calls, i)
    ensures ChainedUpTo(s, calls, k)
  {
    if k == 0 {
      ChainedAtStart(s, calls);
    } else {
      ChainsWithoutRepeats(s, calls, k - 1);
      OneMoreChainsIff(s, calls, k - 1);
    }
  }

  lemma {:induction false} ChainedEarlier(s: State, calls: seq<Call>, i: int, k: int)
    requires SwapsWellFormed(s) && OnlySwapsWrite(calls) && 0 <= i <= k <= |calls| && ChainedUpTo(s, calls, k)
    ensures ChainedUpTo(s, calls, i)
  {
    if i < k {
      OneMoreChainsIff(s, calls, k - 1);
      ChainedEarlier(s, calls, i, k - 1);
    }
  }

  /**
   * In any run whose only writers of fixed values are swap approvals, every row's old value is the value just before it
   * exactly when no approved swap lists more than once a field on which its setups differ; then the ledger also
   * reverts.
   */
  lemma RunChainsIff(s: State, calls: seq<Call>)
    requires SwapsWellFormed(s) && OnlySwapsWrite(calls)
    ensures ReplaysChained(s, Run(s, calls)) <==> forall k :: 0 <= k < |calls| ==> !RepeatAt(s, calls, k)
    ensures ReplaysChained(s, Run(s, calls)) ==>
              Revert(View(Run(s, calls).setups), Added(s.ledger, Run(s, calls).ledger)) == View(s.setups)
  {
    RunEnds(s, calls);
    if forall k :: 0 <= k < |calls| ==> !RepeatAt(s, calls, k) {
      ChainsWithoutRepeats(s, calls, |calls|);
    } else {
      var i :| 0 <= i < |calls| && RepeatAt(s, calls, i);
      OneMoreChainsIff(s, calls, i);
      if ChainedUpTo(s, calls, |calls|) {
        ChainedEarlier(s, calls, i + 1, |calls|);
        assert false;
      }
    }
    if ReplaysChained(s, Run(s, calls)) {
      RevertUndoesReplay(View(s.setups), Added(s.ledger, Run(s, calls).ledger));
    }
  }

  // --- Every reachable approval is an exchange ---------------------------

  ghost predicate UniqueTemplates(s: State) {
    forall p :: p in s.templates ==> UniqueColumns(s.templates[p])
  }

  lemma {:induction false} RunKeepsTemplates(s: State, calls: seq<Call>)
    ensures Run(s, calls).templates == s.templates
  {
    if calls != [] {
      var before, c := Run(s, calls[..|calls| - 1]), calls[|calls| - 1];
      RunKeepsTemplates(s, calls[..|calls| - 1]);
      if Exec(before, c).Ok? {
        match c
        case OnSwap(a, call) => SwapCallEffect(before, a, call);
        case OnBorrow(a, now, call) => BorrowCallEffect(before, a, now, call);
        case OnReservation(a, now, call) => ReservationCallEffect(before, a, now, call);
        case ReservationJob(now) => SweepEffect(before, now);
        case OnAdmin(a, call) => AdminCallEffect(before, a, call);
        case BorrowJob(now) =>
      }
    }
  }

  /** The listed fixed fields of the two setups changed places; no other fixed value changed. */
  ghost predicate FixedExchanged(setups: seq<Setup>, after: seq<Setup>, a: int, b: int, cols: seq<Col>)
    requires 0 <= a < |setups| && 0 <= b < |setups|
  {
    && |after| == |setups|
    && forall x, f :: 0 <= x < |setups| ==>
         after[x].fixed[f] ==
         if Fixed(f) !in cols then setups[x].fixed[f]
         else if x == a then setups[b].fixed[f]
         else if x == b then setups[a].fixed[f]
         else setups[x].fixed[f]
  }

  lemma DistinctExchange(setups: seq<Setup>, a: int, b: int, cols: seq<Col>)
    requires 0 <= a < |setups| && 0 <= b < |setups| && a != b && Distinct(cols)
    ensures FixedExchanged(setups, Exchanged(setups, a, b, cols), a, b, cols)
  {
    DistinctColumnsAreOdd(cols);
    forall x, f | 0 <= x < |setups|
      ensures Exchanged(setups, a, b, cols)[x].fixed[f] ==
              if Fixed(f) !in cols then setups[x].fixed[f]
              else if x == a then setups[b].fixed[f]
              else if x == b then setups[a].fixed[f]
              else setups[x].fixed[f]
    {
      ExchangedValue(setups, a, b, cols, f, x);
    }
  }

  /**
   * In every reachable state, an approval that goes through exchanges exactly the listed fixed fields between its two
   * setups, and it goes through and exchanges the listed custom columns exactly when every custom column settles.
   */
  lemma ReachableApprovalExchanges(s: State, calls: seq<Call>, actorId: int, id: int)
    requires PlainTemplates(s) && UniqueTemplates(s) && PlainSwaps(s) && OnlySwapsWrite(calls)
    requires Run(s, calls).HasUser(actorId) && ApproveRefusal(Run(s, calls), actorId, id).None?
    ensures var end := Run(s, calls);
            var w, r := end.swaps[id], ApproveSwap(end, actorId, id);
            && (r.Ok? ==>
               FixedExchanged(end.setups, r.value.setups, w.currentSetupId, w.requestedSetupId, ColumnsOf(w)))
            && ((&& r.Ok?
                 && CustomExchanged(PairOf(end, w), CustomNames(ColumnsOf(w)),
                                    Cells(r.value.values, r.value.customBaselines)))
                <==> AllSettle(PairOf(end, w), CustomNames(ColumnsOf(w))))
  {
    var end := Run(s, calls);
    var w := end.swaps[id];
    RunChains(s, calls);
    RunKeepsTemplates(s, calls);
    assert PlainSwap(end, w);
    assert Ready(PairOf(end, w));
    ApprovalExchangesCustomIff(end, actorId, id);
    if ApproveSwap(end, actorId, id).Ok? {
      ApprovalIsExchange(end, actorId, id);
      DistinctExchange(end.setups, w.currentSetupId, w.requestedSetupId, ColumnsOf(w));
    }
  }

  // --- Ownership ---------------------------------------------------------

  /** A COMPLETED request owns two rows per listed column, every other request none. */
  ghost predicate RowsOwnedBy(s: State, id: int) {
    forall col :: RowsFor(s.ledger, id, col) ==
      if HasSwap(s, id) && s.swaps[id].status == SwapCompleted then 2 * Occurrences(ColumnsOf(s.swaps[id]), col) else 0
  }

  ghost predicate LedgerOwned(s: State) {
    forall id :: RowsOwnedBy(s, id)
  }

  lemma ApprovalOwns(s: State, actorId: int, id: int)
    requires s.HasUser(actorId) && ApproveSwap(s, actorId, id).Ok? && LedgerOwned(s)
    ensures LedgerOwned(ApproveSwap(s, actorId, id).value)
  {
    var s', w := ApproveSwap(s, actorId, id).value, s.swaps[id];
    var cols := ColumnsOf(w);
    var done := Exchange(PairOf(s, w), StartOf(s), cols).value;
    assert s'.ledger == s.ledger + Rows(w.currentSetupId, w.requestedSetupId, cols, done.olds, done.news, id, actorId);
    assert s'.swaps == s.swaps[id := w.(status := SwapCompleted, approvedById := Some(actorId))];
    forall k ensures RowsOwnedBy(s', k) {
      assert RowsOwnedBy(s, k);
      AppendedRows(s.ledger, w.currentSetupId, w.requestedSetupId, cols, done.olds, done.news, id, actorId, k);
    }
  }

  lemma AppendedRows(ledger: seq<LedgerRow>, a: int, b: int, cols: seq<Col>, olds: map<Col, Option<string>>,
                     news: map<Col, Option<string>>, id: int, actorId: int, k: int)
    ensures forall col :: RowsFor(ledger + Rows(a, b, cols, olds, news, id, actorId), k, col) ==
                          RowsFor(ledger, k, col) + if k == id then 2 * Occurrences(cols, col) else 0
  {
    forall col
      ensures RowsFor(ledger + Rows(a, b, cols, olds, news, id, actorId), k, col) ==
              RowsFor(ledger, k, col) + if k == id then 2 * Occurrences(cols, col) else 0
    {
      RowsForConcat(ledger, Rows(a, b, cols, olds, news, id, actorId), k, col);
      RowsOwned(a, b, cols, olds, news, id, actorId, k, col);
    }
  }

  lemma NextKeepsOwned(s: State, c: Call)
    requires LedgerOwned(s)
    ensures LedgerOwned(Next(s, c))
  {
    if IsApproval(s, c) {
      ApprovalStep(s, c);
      ApprovalOwns(s, c.actorId, c.swap.swapId);
    } else {
      SameLedger(s, c);
      forall id ensures RowsOwnedBy(Next(s, c), id) {
        assert RowsOwnedBy(s, id);
      }
    }
  }

  /** Every other step keeps the ledger and completes no request. */
  lemma SameLedger(s: State, c: Call)
    requires !IsApproval(s, c)
    ensures Next(s, c).ledger == s.ledger && |s.swaps| <= |Next(s, c).swaps|
    ensures forall k :: 0 <= k < |Next(s, c).swaps| ==>
              if k < |s.swaps| then
                && SameRequest(s.swaps[k], Next(s, c).swaps[k])
                && (Next(s, c).swaps[k].status == SwapCompleted <==> s.swaps[k].status == SwapCompleted)
              else Next(s, c).swaps[k].status == SwapPending
  {
    if !c.OnSwap? {
      OtherCallsKeepSwaps(s, c);
    } else if Exec(s, c).Ok? {
      SwapCallEffect(s, c.actorId, c.swap);
      SwapCallLists(s, c.actorId, c.swap);
    }
  }

  /** In every run at all, each COMPLETED request owns two rows per listed column and no other request owns any. */
  lemma {:induction false} RowsStayOwned(s: State, calls: seq<Call>)
    requires LedgerOwned(s)
    ensures LedgerOwned(Run(s, calls))
  {
    if calls != [] {
      RowsStayOwned(s, calls[..|calls| - 1]);
      NextKeepsOwned(Run(s, calls[..|calls| - 1]), calls[|calls| - 1]);
    }
  }

  // --- Conservation ------------------------------------------------------

  lemma SameViewSameColumn(setups: seq<Setup>, setups': seq<Setup>, f: Field)
    requires View(setups') == View(setups)
    ensures FieldColumn(setups', f) == FieldColumn(setups, f)
  {
    forall i | 0 <= i < |setups| ensures setups'[i].fixed[f] == setups[i].fixed[f] {
      assert View(setups')[i] == View(setups)[i];
    }
  }

  lemma NextConserves(s: State, c: Call, f: Field)
    requires SwapsWellFormed(s) && !WritesSetups(c)
    ensures multiset(FieldColumn(Next(s, c).setups, f)) == multiset(FieldColumn(s.setups, f))
  {
    if IsApproval(s, c) {
      ApprovalStep(s, c);
      var w := s.swaps[c.swap.swapId];
      ApprovalIsExchange(s, c.actorId, c.swap.swapId);
      ExchangeConserves(s.setups, w.currentSetupId, w.requestedSetupId, ColumnsOf(w), f);
    } else {
      OtherStepsKeepFields(s, c);
      SameViewSameColumn(s.setups, Next(s, c).setups, f);
    }
  }

  /** Swaps only move values: the multiset of each field's current values over all setups never changes. */
  lemma {:induction false} ValuesAreConserved(s: State, calls: seq<Call>, f: Field)
    requires SwapsWellFormed(s) && OnlySwapsWrite(calls)
    ensures multiset(FieldColumn(Run(s, calls).setups, f)) == multiset(FieldColumn(s.setups, f))
  {
    if calls != [] {
      var n := |calls| - 1;
      assert calls == calls[..n] + [calls[n]];
      ValuesAreConserved(s, calls[..n], f);
      LedgerReplays(s, calls[..n]);
      NextConserves(Run(s, calls[..n]), calls[n], f);
    }
  }
}
