/** A full swap - a request that names no column - and exactly which fixed fields it exchanges. */
module FullSwaps {
  import opened Common
  import opened Domain
  import opened Ordering
  import opened ColumnNames
  import opened Swaps
  import opened FixedExchange
  import opened Runs
  import opened LedgerRuns

  lemma FieldNameInjective(f: Field, g: Field)
    requires FieldName(f) == FieldName(g)
    ensures f == g
  {
    FieldNamesDistinct();
    EveryFieldListed(f);
    EveryFieldListed(g);
    var i :| 0 <= i < |FIELDS| && FIELDS[i] == f;
    var j :| 0 <= j < |FIELDS| && FIELDS[j] == g;
    assert FieldNames()[i] == FieldNames()[j];
  }

  lemma FieldNameResolves(f: Field)
    ensures Resolve(FieldName(f)) == Fixed(f)
  {
    EveryFieldListed(f);
    assert Resolve(FieldName(f)).Fixed?;
    ResolvedName(FieldName(f));
    FieldNameInjective(Resolve(FieldName(f)).field, f);
  }

  /** A name resolves to a fixed field exactly when it is that field's name. */
  lemma ResolvesTo(name: string, f: Field)
    ensures Resolve(name) == Fixed(f) <==> name == FieldName(f)
  {
    FieldNameResolves(f);
    if Resolve(name).Fixed? {
      ResolvedName(name);
    }
  }

  lemma {:induction false} ResolvedOccurrences(names: seq<string>, f: Field)
    ensures Occurrences(ResolveAll(names), Fixed(f)) == Occurrences(names, FieldName(f))
  {
    if names != [] {
      var init, last := names[..|names| - 1], names[|names| - 1];
      assert ResolveAll(names)[..|names| - 1] == ResolveAll(init);
      ResolvedOccurrences(init, f);
      ResolvesTo(last, f);
    }
  }

  lemma DistinctOnce<T>(xs: seq<T>, x: T)
    requires Distinct(xs)
    ensures Occurrences(xs, x) == if x in xs then 1 else 0
  {
    DistinctOccurrences(xs);
    OccurrencesPositive(xs, x);
  }

  lemma SortedOnce(names: set<string>, name: string)
    requires TotalOrder(StringLe)
    ensures Occurrences(Sorted(names, StringLe), name) == if name in names then 1 else 0
  {
    var xs := Sorted(names, StringLe);
    assert name in xs <==> name in Elements(xs);
    DistinctOnce(xs, name);
  }

  lemma FieldNameOnce(f: Field)
    ensures Occurrences(FieldNames(), FieldName(f)) == 1
  {
    FieldNamesDistinct();
    EveryFieldListed(f);
    var i :| 0 <= i < |FIELDS| && FIELDS[i] == f;
    assert FieldNames()[i] == FieldName(f);
    DistinctOnce(FieldNames(), FieldName(f));
  }

  lemma {:induction false} OddOf(cols: seq<Col>, f: Field, twice: bool)
    requires Occurrences(cols, Fixed(f)) == if twice then 2 else 1
    ensures Odd(cols, f) <==> !twice
  {
  }

  lemma {:induction false} ResolvedCount(names: seq<string>, f: Field, n: nat)
    requires Occurrences(names, FieldName(f)) == n
    ensures Occurrences(ResolveAll(names), Fixed(f)) == n
  {
    ResolvedOccurrences(names, f);
  }

  lemma {:induction false} OddResolved(names: seq<string>, f: Field, twice: bool)
    requires Occurrences(names, FieldName(f)) == if twice then 2 else 1
    ensures Odd(ResolveAll(names), f) <==> !twice
  {
    ResolvedCount(names, f, if twice then 2 else 1);
    OddOf(ResolveAll(names), f, twice);
  }

  lemma {:induction false} AllowedOccurrences(ta: seq<Column>, tb: seq<Column>, f: Field)
    ensures Occurrences(AllowedColumns(ta, tb), FieldName(f)) == if FieldName(f) in CommonNames(ta, tb) then 2 else 1
  {
    FieldNameOnce(f);
    StringOrderTotal();
    SortedOnce(CommonNames(ta, tb), FieldName(f));
    OccurrencesConcat(FieldNames(), Sorted(CommonNames(ta, tb), StringLe), FieldName(f));
  }

  /** A full swap lists a fixed field an odd number of times exactly when no common custom column is named like it. */
  lemma {:induction false} FullSwapOddIff(ta: seq<Column>, tb: seq<Column>, f: Field)
    ensures Odd(ResolveAll(AllowedColumns(ta, tb)), f) <==> FieldName(f) !in CommonNames(ta, tb)
  {
    AllowedOccurrences(ta, tb, f);
    OddResolved(AllowedColumns(ta, tb), f, FieldName(f) in CommonNames(ta, tb));
  }

  /** w is stored as a full swap of its two setups, whose custom column names survive the stored form. */
  ghost predicate IsFullSwap(s: State, w: Swap) {
    && s.HasSetup(w.currentSetupId) && s.HasSetup(w.requestedSetupId)
    && var ta, tb := PairOf(s, w).ta, PairOf(s, w).tb;
       && w.columnName == Encode(AllowedColumns(ta, tb))
       && forall name :: name in AllowedColumns(ta, tb) ==> Clean(name)
  }

  /** The fixed fields a full swap of w leaves where they are. */
  predicate Shadowed(s: State, w: Swap, f: Field)
    requires s.HasSetup(w.currentSetupId) && s.HasSetup(w.requestedSetupId)
  {
    FieldName(f) in CommonNames(PairOf(s, w).ta, PairOf(s, w).tb)
  }

  /**
   * An approved full swap exchanges each fixed field unless a common custom column is named like it; so it exchanges
   * all of them exactly when every field so named was equal on the two setups.
   */
  lemma FullSwapExchangesIff(s: State, actorId: int, id: int)
    requires s.HasUser(actorId) && TwoSetups(s, id) && IsFullSwap(s, s.swaps[id])
    requires ApproveSwap(s, actorId, id).Ok?
    ensures var w, s' := s.swaps[id], ApproveSwap(s, actorId, id).value;
            var a, b := w.currentSetupId, w.requestedSetupId;
            && (forall f :: s'.setups[a].fixed[f] == s.setups[if Shadowed(s, w, f) then a else b].fixed[f])
            && (forall f :: s'.setups[b].fixed[f] == s.setups[if Shadowed(s, w, f) then b else a].fixed[f])
            && ((s'.setups[a].fixed == s.setups[b].fixed && s'.setups[b].fixed == s.setups[a].fixed) <==>
                forall f :: Shadowed(s, w, f) ==> s.setups[a].fixed[f] == s.setups[b].fixed[f])
  {
    var w := s.swaps[id];
    var ta, tb := PairOf(s, w).ta, PairOf(s, w).tb;
    ColumnListRoundTrip(AllowedColumns(ta, tb));
    ApprovalIsExchange(s, actorId, id);
    forall f ensures Odd(ColumnsOf(w), f) <==> !Shadowed(s, w, f) {
      FullSwapOddIff(ta, tb, f);
    }
    ExchangedAllIff(s.setups, ApproveSwap(s, actorId, id).value.setups, w.currentSetupId, w.requestedSetupId,
                    iset f | Shadowed(s, w, f));
  }

  lemma ExchangedAllIff(before: seq<Setup>, after: seq<Setup>, a: int, b: int, kept: iset<Field>)
    requires 0 <= a < |before| && 0 <= b < |before| && |after| == |before|
    requires forall f :: after[a].fixed[f] == before[if f in kept then a else b].fixed[f]
    requires forall f :: after[b].fixed[f] == before[if f in kept then b else a].fixed[f]
    ensures (after[a].fixed == before[b].fixed && after[b].fixed == before[a].fixed) <==>
            forall f :: f in kept ==> before[a].fixed[f] == before[b].fixed[f]
  {
    if after[a].fixed == before[b].fixed {
      forall f | f in kept ensures before[a].fixed[f] == before[b].fixed[f] {
        assert after[a].fixed[f] == before[a].fixed[f];
      }
    }
  }

  // --- A failing full swap -----------------------------------------------

  lemma {:induction false} FixedListsGoThrough(p: Pair, w: Work, cols: seq<Col>)
    requires Fits(p, w) && forall c :: c in cols ==> c.Fixed?
    ensures Exchange(p, w, cols).Ok?
  {
    if cols != [] {
      assert cols == cols[..|cols| - 1] + [cols[|cols| - 1]];
      FixedListsGoThrough(p, w, cols[..|cols| - 1]);
      assert cols[|cols| - 1] in cols;
    }
  }

  /** One template with one column, named like the fixed field f. */
  lemma ShadowingTemplate(c: Column, f: Field)
    requires c.name == FieldName(f)
    ensures CommonNames([c], [c]) == {FieldName(f)}
    ensures forall name :: name in AllowedColumns([c], [c]) ==> Clean(name) && Resolve(name).Fixed?
  {
    assert c in [c];
    forall name ensures name in CommonNames([c], [c]) <==> name == FieldName(f) {}
    forall name | name in AllowedColumns([c], [c]) ensures Clean(name) && Resolve(name).Fixed? {
      AllowedMeaning([c], [c], name);
      ResolvesTo(FieldName(f), f);
      if name in CommonNames([c], [c]) {
        assert name == FieldName(f);
      }
      ResolvedName(name);
      FieldNamesClean(Resolve(name).field);
    }
  }

  /** An active Owner with both swap permissions. */
  predicate ActingOwner(s: State, actorId: int) {
    && Authenticated(s, actorId) && s.users[actorId].IsOwner()
    && SwapRequestPermission in s.users[actorId].permissions && SwapApprovePermission in s.users[actorId].permissions
  }

  /** Setups a and b are two different ones, in service, and of the product whose template is cols. */
  predicate TwoInService(s: State, a: int, b: int, cols: seq<Column>) {
    && s.HasSetup(a) && s.HasSetup(b) && a != b && !s.setups[a].OutOfService() && !s.setups[b].OutOfService()
    && s.setups[a].productId == s.setups[b].productId && s.Template(s.setups[a].productId) == cols
  }

  lemma FullRaiseCommits(s: State, actorId: int, a: int, b: int, cols: seq<Column>)
    requires ActingOwner(s, actorId) && TwoInService(s, a, b, cols)
    ensures Next(s, OnSwap(actorId, RaiseSwap(SwapPayload(a, b, None, None)))) ==
            s.(swaps := s.swaps + [Swap(actorId, a, b, Encode(AllowedColumns(cols, cols)), SwapPending, None)])
  {
    FieldNamesDistinct();
    assert RaiseRefusal(s, actorId, SwapPayload(a, b, None, None)).None?;
    assert AllowedColumns(cols, cols) != [];
  }

  lemma OwnerApproves(s: State, actorId: int, id: int)
    requires ActingOwner(s, actorId) && HasSwap(s, id) && s.swaps[id].status == SwapPending
    requires s.HasSetup(s.swaps[id].currentSetupId) && s.HasSetup(s.swaps[id].requestedSetupId)
    requires !s.setups[s.swaps[id].currentSetupId].OutOfService()
             && !s.setups[s.swaps[id].requestedSetupId].OutOfService()
    requires Exchange(PairOf(s, s.swaps[id]), StartOf(s), ColumnsOf(s.swaps[id])).Ok?
    ensures ApproveRefusal(s, actorId, id).None? && Exec(s, OnSwap(actorId, ApproveSwapCall(id))).Ok?
    ensures ApproveSwap(s, actorId, id) == Ok(Next(s, OnSwap(actorId, ApproveSwapCall(id))))
  {
  }

  lemma ApprovalCompletes(s: State, actorId: int, id: int)
    requires s.HasUser(actorId) && TwoSetups(s, id) && ApproveSwap(s, actorId, id).Ok?
    ensures var s' := ApproveSwap(s, actorId, id).value;
            && |s'.swaps| == |s.swaps| && s'.swaps[id].status == SwapCompleted && |s'.setups| == |s.setups|
  {
    ApprovalIsExchange(s, actorId, id);
  }

  lemma RunTwo(s: State, first: Call, second: Call)
    ensures Run(s, [first, second]) == Next(Next(s, first), second)
  {
    assert [first, second][..1] == [first] && [first][..0] == [];
    assert Run(s, []) == s && Run(s, [first]) == Next(s, first);
  }

  /**
   * A template column named like f: a raised and approved full swap exchanges every other field, and leaves f where it
   * is.
   */
  lemma ShadowedFieldStays(s: State, actorId: int, a: int, b: int, c: Column, f: Field, g: Field)
    requires ActingOwner(s, actorId) && TwoInService(s, a, b, [c]) && c.name == FieldName(f)
    requires s.swaps == [] && g != f && s.setups[a].fixed[f] != s.setups[b].fixed[f]
    ensures var end := Run(s, [OnSwap(actorId, RaiseSwap(SwapPayload(a, b, None, None))),
                               OnSwap(actorId, ApproveSwapCall(0))]);
            && |end.swaps| == 1 && end.swaps[0].status == SwapCompleted && |end.setups| == |s.setups|
            && end.setups[a].fixed[f] == s.setups[a].fixed[f] != s.setups[b].fixed[f]
            && end.setups[b].fixed[f] == s.setups[b].fixed[f]
            && end.setups[a].fixed[g] == s.setups[b].fixed[g] && end.setups[b].fixed[g] == s.setups[a].fixed[g]
  {
    var raise, approve :=
      OnSwap(actorId, RaiseSwap(SwapPayload(a, b, None, None))), OnSwap(actorId, ApproveSwapCall(0));
    RunTwo(s, raise, approve);
    FullRaiseCommits(s, actorId, a, b, [c]);
    var s1 := Next(s, raise);
    ShadowingTemplate(c, f);
    ShadowedApproval(s1, actorId, c, f, g);
  }

  lemma ShadowedGoesThrough(s: State, c: Column, f: Field)
    requires |s.swaps| == 1 && c.name == FieldName(f)
    requires TwoInService(s, s.swaps[0].currentSetupId, s.swaps[0].requestedSetupId, [c])
    requires s.swaps[0].columnName == Encode(AllowedColumns([c], [c]))
    ensures IsFullSwap(s, s.swaps[0]) && CommonNames([c], [c]) == {FieldName(f)}
    ensures Exchange(PairOf(s, s.swaps[0]), StartOf(s), ColumnsOf(s.swaps[0])).Ok?
  {
    var w, names := s.swaps[0], AllowedColumns([c], [c]);
    ShadowingTemplate(c, f);
    ColumnListRoundTrip(names);
    forall col | col in ColumnsOf(w) ensures col.Fixed? {
      var i :| 0 <= i < |names| && ColumnsOf(w)[i] == col;
      assert names[i] in names;
    }
    FixedListsGoThrough(PairOf(s, w), StartOf(s), ColumnsOf(w));
  }

  lemma OnlyShadowed(s: State, w: Swap, f: Field, g: Field)
    requires s.HasSetup(w.currentSetupId) && s.HasSetup(w.requestedSetupId) && g != f
    requires CommonNames(PairOf(s, w).ta, PairOf(s, w).tb) == {FieldName(f)}
    ensures Shadowed(s, w, f) && !Shadowed(s, w, g)
  {
    ResolvesTo(FieldName(f), g);
    ResolvesTo(FieldName(f), f);
  }

  lemma ShadowedApproval(s: State, actorId: int, c: Column, f: Field, g: Field)
    requires ActingOwner(s, actorId) && |s.swaps| == 1 && s.swaps[0].status == SwapPending && g != f
    requires TwoInService(s, s.swaps[0].currentSetupId, s.swaps[0].requestedSetupId, [c]) && c.name == FieldName(f)
    requires s.swaps[0].columnName == Encode(AllowedColumns([c], [c]))
    ensures var end, a, b :=
            Next(s, OnSwap(actorId, ApproveSwapCall(0))), s.swaps[0].currentSetupId, s.swaps[0].requestedSetupId;
            && |end.swaps| == 1 && end.swaps[0].status == SwapCompleted && |end.setups| == |s.setups|
            && end.setups[a].fixed[f] == s.setups[a].fixed[f] && end.setups[b].fixed[f] == s.setups[b].fixed[f]
            && end.setups[a].fixed[g] == s.setups[b].fixed[g] && end.setups[b].fixed[g] == s.setups[a].fixed[g]
  {
    ShadowedGoesThrough(s, c, f);
    OwnerApproves(s, actorId, 0);
    ApprovalCompletes(s, actorId, 0);
    FullSwapExchangesIff(s, actorId, 0);
    OnlyShadowed(s, s.swaps[0], f, g);
  }
}
