/** The template and swap services over the database, proved against their specification functions. */
module SwapServices {
  import opened Common
  import opened Domain
  import opened ColumnNames
  import opened ApprovalRouting
  import Holder
  import opened TemplateValues
  import opened Swaps
  import opened Store
  import Rules
  import RoutingRules
  import SwapRules
  import Text

  // --- Custom values -----------------------------------------------------

  class TemplateService {
    const db: Database

    constructor (db: Database)
      ensures this.db == db
    {
      this.db := db;
    }

    /** `set_setup_values`: validate, then upsert every serialised value in template order. */
    method SetSetupValues(setupId: int, productId: int, raw: map<string, Raw>) returns (r: Result<()>)
      modifies db`values, db`customBaselines
      ensures match SetValues(old(db.CustomCells()), setupId, db.Snapshot().Template(productId), raw)
              case Ok(cells) => r == Ok(()) && db.CustomCells() == cells
              case Err(e) => r == Err(e) && db.CustomCells() == old(db.CustomCells())
    {
      var columns := if productId in db.templates then db.templates[productId] else [];
      var serialized, badColumns, unknown := ValidateAndSerialize(columns, raw);
      if serialized.Err? {
        return Err(serialized.error);
      }
      ghost var before := db.CustomCells();
      for i := 0 to |columns|
        invariant db.CustomCells() == WriteAll(before, setupId, columns[..i], serialized.value)
      {
        var column := columns[i];
        WriteOneMore(before, setupId, columns, i, serialized.value);
        if column.name in serialized.value {
          db.UpsertValue((setupId, column.id), serialized.value[column.name]);
        }
      }
      assert columns[..|columns|] == columns;
      r := Ok(());
    }
  }

  lemma WriteOneMore(cells: Cells, setupId: int, cols: seq<Column>, i: int, m: map<string, string>)
    requires 0 <= i < |cols|
    ensures WriteAll(cells, setupId, cols[..i + 1], m) ==
            var earlier := WriteAll(cells, setupId, cols[..i], m);
            if cols[i].name in m then Upsert(earlier, (setupId, cols[i].id), m[cols[i].name]) else earlier
  {
    assert cols[..i + 1][..i] == cols[..i];
  }

  // --- Swaps -------------------------------------------------------------

  /** The lookups the exchange loop caches when it meets its first custom column. */
  datatype Cached = Cached(valuesA: map<string, Option<string>>, valuesB: map<string, Option<string>>,
                           idsA: map<string, int>, idsB: map<string, int>)

  function ColumnIds(cols: seq<Column>): map<string, int> {
    map c | c in cols :: c.name := cols[FindColumn(cols, c.name).value].id
  }

  function CacheOf(p: Pair): Cached {
    Cached(ValuesMap(p.start, p.a, p.ta), ValuesMap(p.start, p.b, p.tb), ColumnIds(p.ta), ColumnIds(p.tb))
  }

  lemma ValuesMapReads(cells: Cells, setupId: int, cols: seq<Column>, name: string)
    ensures Lookup(ValuesMap(cells, setupId, cols), name) == TextByName(cells, setupId, cols, name)
    ensures name in ColumnIds(cols) <==> FindColumn(cols, name).Some?
    ensures name in ColumnIds(cols) ==> ColumnIds(cols)[name] == cols[FindColumn(cols, name).value].id
  {
    var found := FindColumn(cols, name);
    if found.Some? {
      assert cols[found.value] in cols && cols[found.value].name == name;
    } else {
      forall c | c in cols ensures c.name != name {
        var i :| 0 <= i < |cols| && cols[i] == c;
      }
    }
  }

  /** A failed prefix fails the whole loop. */
  lemma {:induction false} ExchangeFails(p: Pair, w: Work, cols: seq<Col>, i: int)
    requires Fits(p, w) && 0 <= i <= |cols| && Exchange(p, w, cols[..i]).Err?
    ensures Exchange(p, w, cols) == Exchange(p, w, cols[..i])
    decreases |cols| - i
  {
    if i == |cols| {
      assert cols[..i] == cols;
    } else {
      assert cols[..i + 1][..i] == cols[..i];
      ExchangeFails(p, w, cols, i + 1);
    }
  }

  lemma ExchangeOneMore(p: Pair, w: Work, cols: seq<Col>, i: int)
    requires Fits(p, w) && 0 <= i < |cols| && Exchange(p, w, cols[..i]).Ok?
    ensures Exchange(p, w, cols[..i + 1]) == Step(p, Exchange(p, w, cols[..i]).value, cols[i])
  {
    assert cols[..i + 1][..i] == cols[..i];
  }

  lemma RowsOneMore(a: int, b: int, cols: seq<Col>, i: int, olds: map<Col, Option<string>>,
                    news: map<Col, Option<string>>,
                    swapId: int, actorId: int)
    requires 0 <= i < |cols|
    ensures Rows(a, b, cols[..i + 1], olds, news, swapId, actorId) ==
            Rows(a, b, cols[..i], olds, news, swapId, actorId)
            + [RowA(a, cols[i], olds, news, swapId, actorId), RowB(b, cols[i], olds, news, swapId, actorId)]
  {
    assert cols[..i + 1][..i] == cols[..i];
  }

  /** Two ledger rows per column, in column order. */
  method LedgerRows(a: int, b: int, cols: seq<Col>, olds: map<Col, Option<string>>, news: map<Col, Option<string>>,
                    swapId: int, actorId: int)
      returns (rows: seq<LedgerRow>)
    ensures rows == Rows(a, b, cols, olds, news, swapId, actorId)
  {
    rows := [];
    for i := 0 to |cols|
      invariant rows == Rows(a, b, cols[..i], olds, news, swapId, actorId)
    {
      var column := cols[i];
      RowsOneMore(a, b, cols, i, olds, news, swapId, actorId);
      rows := rows + [LedgerRow(a, column, ValueOf(olds, column), ValueOf(news, column), swapId, actorId),
                      LedgerRow(b, column, ValueOf(news, column), ValueOf(olds, column), swapId, actorId)];
    }
    assert cols[..|cols|] == cols;
  }

  /**
   * Until the first custom column the custom cells are as at the start; from then on the cache tells what they were.
   */
  ghost predicate CacheHolds(cache: Option<Cached>, p: Pair, cells: Cells) {
    if cache.None? then cells == p.start else cache.value == CacheOf(p)
  }

  /** What exchanging one column does to the setups and the custom cells, and the two values it moved. */
  ghost predicate ColumnExchanged(p: Pair, column: Col, setups: seq<Setup>, cells: Cells, r: Result<()>,
                                  setups': seq<Setup>, cells': Cells, oldValue: Option<string>, valueB: Option<string>)
    requires 0 <= p.a < |setups| && 0 <= p.b < |setups|
  {
    match column
    case Fixed(f) =>
      && r == Ok(()) && setups' == ExchangeField(setups, p.a, p.b, f) && cells' == cells
      && oldValue == setups[p.a].fixed[f] && valueB == setups[p.b].fixed[f]
    case Custom(name) =>
      match ExchangeCustom(p, cells, name)
      case Ok(c) =>
        r == Ok(()) && setups' == setups && cells' == c && oldValue == OldText(p, name) && valueB == NewText(p, name)
      case Err(e) => r == Err(e)
  }

  lemma StepIs(p: Pair, w: Work, column: Col, r: Result<()>, setups: seq<Setup>, cells: Cells,
               oldValue: Option<string>, valueB: Option<string>)
    requires Fits(p, w) && ColumnExchanged(p, column, w.setups, w.cells, r, setups, cells, oldValue, valueB)
    ensures match r
            case Ok(_) =>
              Step(p, w, column) == Ok(Work(setups, cells, w.olds[column := oldValue], w.news[column := valueB]))
            case Err(e) => Step(p, w, column) == Err(e)
  {
  }

  lemma CompletedIs(s: State, s': State, id: int, actorId: int, cols: seq<Col>, done: Work)
    requires HasSwap(s, id) && s.HasSetup(s.swaps[id].currentSetupId) && s.HasSetup(s.swaps[id].requestedSetupId)
    requires var w := s.swaps[id];
             && s' == s.(setups := s'.setups, values := s'.values, customBaselines := s'.customBaselines,
                         baselines := s'.baselines, swaps := s'.swaps, ledger := s'.ledger)
             && s'.setups == done.setups && Cells(s'.values, s'.customBaselines) == done.cells
             && s'.baselines ==
                (if AnyFixed(cols) then CapturedBaselines(s.baselines, s.setups, w.currentSetupId, w.requestedSetupId)
                 else s.baselines)
             && s'.swaps == s.swaps[id := w.(status := SwapCompleted, approvedById := Some(actorId))]
             && s'.ledger ==
                s.ledger + Rows(w.currentSetupId, w.requestedSetupId, cols, done.olds, done.news, id, actorId)
    ensures s' == Swaps.Completed(s, id, actorId, cols, done)
  {
  }

  class SwapService {
    const db: Database
    const templates: TemplateService

    ghost predicate Valid() { templates.db == db }

    constructor (db: Database, templates: TemplateService)
      requires templates.db == db
      ensures Valid() && this.db == db && this.templates == templates
    {
      this.db, this.templates := db, templates;
    }

    /** `_assert_has_setup_access`. */
    method HasSetupAccess(setupId: int, actorId: int) returns (ok: bool)
      requires db.Snapshot().HasUser(actorId) && db.Snapshot().HasSetup(setupId)
      ensures ok == HasAccess(db.Snapshot(), setupId, actorId)
      ensures ok <==> Rules.Reaches(db.Snapshot(), setupId, actorId)
    {
      RoutingRules.HasAccessIff(db.Snapshot(), setupId, actorId);
      if db.users[actorId].IsOwner() {
        return true;
      }
      var holding := set g | g in db.grants && Holder.ActiveFor(g, setupId) :: g.grantedToGroupId;
      if holding == {} && db.setups[setupId].groupId.Some? {
        holding := {db.setups[setupId].groupId.value};
      }
      ok := holding == {} || holding * db.users[actorId].AllGroups() != {};
    }

    /** `_assert_can_approve`. */
    method CanApprove(setupId: int, actorId: int) returns (ok: bool)
      requires db.Snapshot().HasUser(actorId) && db.Snapshot().HasSetup(setupId)
      ensures ok == MayApprove(db.Snapshot(), setupId, actorId)
      ensures ok <==> Rules.DecidesSwap(db.Snapshot(), setupId, actorId)
    {
      RoutingRules.MayApproveIff(db.Snapshot(), setupId, actorId);
      if db.users[actorId].IsOwner() {
        return true;
      }
      var approvers := ResolveSwapApprovers(db.users, db.edges, db.setups[setupId].groupId);
      ok := approvers == {} || actorId in approvers;
    }

    /** Validate the column list, then `create`; the new request's id. */
    method Create(actorId: int, p: SwapPayload) returns (r: Result<int>)
      requires db.Snapshot().HasUser(actorId)
      modifies db`swaps
      ensures Outcome(CreateSwap(old(db.Snapshot()), actorId, p), r, db.Snapshot())
      ensures r.Ok? ==>
                && r.value == |old(db.swaps)|
                && db.swaps == old(db.swaps) + [Swap(actorId, p.currentSetupId, p.requestedSetupId,
                                                     Text.Join(SwapRules.RequestedNames(old(db.Snapshot()), p), ','),
                                                     SwapPending, None)]
    {
      if CreateSwap(db.Snapshot(), actorId, p).Ok? {
        SwapRules.CreatedRow(db.Snapshot(), actorId, p);
      }
      var names := ValidateColumnNames(p.columnNames);
      if names.Err? {
        return Err(names.error);
      }
      var a, b := p.currentSetupId, p.requestedSetupId;
      if a == b {
        return Err(Conflict);
      }
      if !(0 <= a < |db.setups|) || !(0 <= b < |db.setups|) {
        return Err(NotFound);
      }
      if db.setups[a].OutOfService() || db.setups[b].OutOfService() {
        return Err(Conflict);
      }
      if db.requireSameProduct && db.setups[a].productId != db.setups[b].productId {
        return Err(Invalid);
      }
      var accessA := HasSetupAccess(a, actorId);
      var accessB := HasSetupAccess(b, actorId);
      if !accessA || !accessB {
        return Err(Forbidden);
      }
      var chosen := ResolveColumns(a, b, p.(columnNames := names.value));
      if chosen.Err? {
        return Err(chosen.error);
      }
      r := Ok(|db.swaps|);
      db.swaps := db.swaps + [Swap(actorId, a, b, Encode(chosen.value), SwapPending, None)];
    }

    /** The columns a request names, all of them allowed; with none named, every common column. */
    method ResolveColumns(a: int, b: int, p: SwapPayload) returns (r: Result<seq<string>>)
      requires db.Snapshot().HasSetup(a) && db.Snapshot().HasSetup(b)
      ensures r == ChosenColumns(p, AllowedColumns(db.Snapshot().Template(db.setups[a].productId),
                                                   db.Snapshot().Template(db.setups[b].productId)))
      ensures r.Ok? && p.columnNames.Some? && p.columnNames.value != [] ==> r.value == p.columnNames.value
      ensures && r.Ok? && (p.columnNames.None? || p.columnNames.value == [])
              && p.columnName.Some? && Text.Strip(p.columnName.value) != "" ==>
                r.value == [Text.Strip(p.columnName.value)]
    {
      var ta, tb := db.Snapshot().Template(db.setups[a].productId), db.Snapshot().Template(db.setups[b].productId);
      var allowed := AllowedColumns(ta, tb);
      var requested := ResolvedColumnNames(p.columnName, p.columnNames);
      if requested.None? {
        return if allowed == [] then Err(Invalid) else Ok(allowed);
      }
      for i := 0 to |requested.value|
        invariant forall j :: 0 <= j < i ==> requested.value[j] in allowed
      {
        if requested.value[i] !in allowed {
          return Err(Invalid);
        }
      }
      r := Ok(requested.value);
    }

    // --- Approving -------------------------------------------------------

    /** Capture each side's original custom value before it is overwritten. */
    method CaptureOriginals(a: int, b: int, name: string, cache: Cached, ghost p: Pair)
      requires cache == CacheOf(p) && p.a == a && p.b == b
      modifies db`customBaselines
      ensures db.CustomCells() == Captured(p, old(db.CustomCells()), name)
    {
      ValuesMapReads(p.start, a, p.ta, name);
      ValuesMapReads(p.start, b, p.tb, name);
      if name in cache.idsA {
        db.RecordOriginal((a, cache.idsA[name]), Lookup(cache.valuesA, name));
      }
      if name in cache.idsB {
        db.RecordOriginal((b, cache.idsB[name]), Lookup(cache.valuesB, name));
      }
    }

    /** Capture both originals, then write each side's new value. */
    method WriteCustomColumn(a: int, b: int, productA: int, productB: int, name: string, cache: Cached, ghost p: Pair)
        returns (r: Result<()>)
      requires Valid()
      requires p == Pair(a, b, db.Snapshot().Template(productA), db.Snapshot().Template(productB), p.start)
      requires cache == CacheOf(p)
      modifies db`values, db`customBaselines
      ensures match ExchangeCustom(p, old(db.CustomCells()), name)
              case Ok(cells) => r == Ok(()) && db.CustomCells() == cells
              case Err(e) => r == Err(e)
    {
      CaptureOriginals(a, b, name, cache, p);
      ValuesMapReads(p.start, a, p.ta, name);
      ValuesMapReads(p.start, b, p.tb, name);
      r := templates.SetSetupValues(a, productA, map[name := RawOf(Lookup(cache.valuesB, name))]);
      if r.Ok? {
        r := templates.SetSetupValues(b, productB, map[name := RawOf(Lookup(cache.valuesA, name))]);
      }
    }

    /** A fixed field: read both values, then write each over the other. */
    method ExchangeFixedColumn(a: int, b: int, f: Field) returns (oldValue: Option<string>, valueB: Option<string>)
      requires db.Snapshot().HasSetup(a) && db.Snapshot().HasSetup(b)
      modifies db`setups
      ensures db.setups == ExchangeField(old(db.setups), a, b, f)
      ensures oldValue == old(db.setups[a].fixed[f]) && valueB == old(db.setups[b].fixed[f])
    {
      oldValue, valueB := db.setups[a].fixed[f], db.setups[b].fixed[f];
      db.SetField(a, f, valueB);
      db.SetField(b, f, oldValue);
    }

    /** A custom column: fill the cache if this is the first one, then write both sides from it. */
    method ExchangeCustomColumn(a: int, b: int, productA: int, productB: int, name: string, cache: Option<Cached>,
                                ghost p: Pair)
        returns (r: Result<()>, cache': Option<Cached>, oldValue: Option<string>, valueB: Option<string>)
      requires Valid()
      requires p == Pair(a, b, db.Snapshot().Template(productA), db.Snapshot().Template(productB), p.start)
      requires CacheHolds(cache, p, db.CustomCells())
      modifies db`values, db`customBaselines
      ensures match ExchangeCustom(p, old(db.CustomCells()), name)
              case Ok(cells) => r == Ok(()) && db.CustomCells() == cells
              case Err(e) => r == Err(e)
      ensures oldValue == OldText(p, name) && valueB == NewText(p, name)
      ensures cache' == Some(CacheOf(p))
    {
      var ta, tb := db.Snapshot().Template(productA), db.Snapshot().Template(productB);
      cache' := cache;
      if cache.None? {
        var valuesA, valuesB := ValuesMap(db.CustomCells(), a, ta), ValuesMap(db.CustomCells(), b, tb);
        cache' := Some(Cached(valuesA, valuesB, ColumnIds(ta), ColumnIds(tb)));
      }
      ValuesMapReads(p.start, a, ta, name);
      ValuesMapReads(p.start, b, tb, name);
      oldValue, valueB := Lookup(cache'.value.valuesA, name), Lookup(cache'.value.valuesB, name);
      r := WriteCustomColumn(a, b, productA, productB, name, cache'.value, p);
    }

    /** One column: two attribute writes for a fixed field, the template service for a custom one. */
    method ExchangeColumn(a: int, b: int, productA: int, productB: int, column: Col, cache: Option<Cached>,
                          ghost p: Pair)
        returns (r: Result<()>, cache': Option<Cached>, oldValue: Option<string>, valueB: Option<string>)
      requires Valid() && db.Snapshot().HasSetup(a) && db.Snapshot().HasSetup(b)
      requires p == Pair(a, b, db.Snapshot().Template(productA), db.Snapshot().Template(productB), p.start)
      requires CacheHolds(cache, p, db.CustomCells())
      modifies db`setups, db`values, db`customBaselines
      ensures ColumnExchanged(p, column, old(db.setups), old(db.CustomCells()), r, db.setups, db.CustomCells(),
                              oldValue, valueB)
      ensures CacheHolds(cache', p, db.CustomCells())
    {
      if column.Fixed? {
        r, cache' := Ok(()), cache;
        oldValue, valueB := ExchangeFixedColumn(a, b, column.field);
      } else {
        r, cache', oldValue, valueB := ExchangeCustomColumn(a, b, productA, productB, column.name, cache, p);
      }
    }

    /** The exchange loop over the requested columns; the recorded old and new values by column. */
    method ExchangeColumns(a: int, b: int, cols: seq<Col>, ghost p: Pair, ghost start: Work)
        returns (r: Result<()>, olds: map<Col, Option<string>>, news: map<Col, Option<string>>)
      requires Valid() && db.Snapshot().HasSetup(a) && db.Snapshot().HasSetup(b)
      requires p == PairIn(db.Snapshot(), a, b) && start == StartOf(db.Snapshot())
      modifies db`setups, db`values, db`customBaselines
      ensures match Exchange(p, start, cols)
              case Ok(done) => r == Ok(()) && Work(db.setups, db.CustomCells(), olds, news) == done
              case Err(e) => r == Err(e)
    {
      var productA, productB := db.setups[a].productId, db.setups[b].productId;
      var cache: Option<Cached> := None;
      r, olds, news := Ok(()), map[], map[];
      for i := 0 to |cols|
        invariant |db.setups| == |start.setups|
        invariant r == Ok(()) && Exchange(p, start, cols[..i]) == Ok(Work(db.setups, db.CustomCells(), olds, news))
        invariant CacheHolds(cache, p, db.CustomCells())
      {
        ExchangeOneMore(p, start, cols, i);
        ghost var before := Work(db.setups, db.CustomCells(), olds, news);
        var oldValue, valueB;
        r, cache, oldValue, valueB := ExchangeColumn(a, b, productA, productB, cols[i], cache, p);
        StepIs(p, before, cols[i], r, db.setups, db.CustomCells(), oldValue, valueB);
        if r.Err? {
          ExchangeFails(p, start, cols, i + 1);
          return;
        }
        olds, news := olds[cols[i] := oldValue], news[cols[i] := valueB];
      }
      assert cols[..|cols|] == cols;
    }

    /** The safety net: both setups get a fixed baseline before the loop if a fixed field is listed. */
    method EnsureBaselines(a: int, b: int, cols: seq<Col>)
      requires db.Snapshot().HasSetup(a) && db.Snapshot().HasSetup(b)
      modifies db`baselines
      ensures db.baselines == if AnyFixed(cols) then CapturedBaselines(old(db.baselines), db.setups, a, b)
                              else old(db.baselines)
    {
      var anyFixed := false;
      for i := 0 to |cols|
        invariant anyFixed <==> exists j :: 0 <= j < i && cols[j].Fixed?
      {
        anyFixed := anyFixed || cols[i].Fixed?;
      }
      assert anyFixed <==> AnyFixed(cols);
      if anyFixed {
        db.EnsureFixedBaseline(a);
        db.EnsureFixedBaseline(b);
      }
    }

    /** The checks of `approve`, in order. */
    method CheckApproval(actorId: int, id: int) returns (refusal: Option<Error>)
      requires db.Snapshot().HasUser(actorId)
      ensures refusal == ApproveRefusal(db.Snapshot(), actorId, id)
    {
      if !(0 <= id < |db.swaps|) {
        return Some(NotFound);
      }
      var swap := db.swaps[id];
      if swap.status != SwapPending {
        return Some(Conflict);
      }
      var a, b := swap.currentSetupId, swap.requestedSetupId;
      if !(0 <= a < |db.setups|) || !(0 <= b < |db.setups|) {
        return Some(NotFound);
      }
      if db.setups[a].OutOfService() || db.setups[b].OutOfService() {
        return Some(Conflict);
      }
      var allowed := CanApprove(a, actorId);
      refusal := if allowed then None else Some(Forbidden);
    }

    /** Mark the request COMPLETED and append its ledger rows. */
    method CompleteSwap(actorId: int, id: int, cols: seq<Col>, olds: map<Col, Option<string>>,
                        news: map<Col, Option<string>>)
      requires HasSwap(db.Snapshot(), id)
      modifies db`swaps, db`ledger
      ensures var w := old(db.swaps[id]);
              && db.swaps == old(db.swaps)[id := w.(status := SwapCompleted, approvedById := Some(actorId))]
              && db.ledger == old(db.ledger) + Rows(w.currentSetupId, w.requestedSetupId, cols, olds, news, id, actorId)
    {
      var swap := db.swaps[id];
      var rows := LedgerRows(swap.currentSetupId, swap.requestedSetupId, cols, olds, news, id, actorId);
      db.swaps := db.swaps[id := swap.(status := SwapCompleted, approvedById := Some(actorId))];
      db.ledger := db.ledger + rows;
    }

    /** Capture the baselines, exchange the columns, complete the request and append its ledger rows. */
    method ApplySwap(actorId: int, id: int) returns (r: Result<()>)
      requires Valid() && db.Snapshot().HasUser(actorId) && ApproveRefusal(db.Snapshot(), actorId, id).None?
      modifies db`setups, db`values, db`customBaselines, db`baselines, db`swaps, db`ledger
      ensures var s, w := old(db.Snapshot()), old(db.swaps[id]);
              match Exchange(PairIn(s, w.currentSetupId, w.requestedSetupId), StartOf(s), ColumnsOf(w))
              case Ok(done) => r == Ok(()) && db.Snapshot() == Swaps.Completed(s, id, actorId, ColumnsOf(w), done)
              case Err(e) => r == Err(e)
    {
      var swap := db.swaps[id];
      var a, b, cols := swap.currentSetupId, swap.requestedSetupId, ColumnsOf(swap);
      ghost var s, p, start := db.Snapshot(), PairIn(db.Snapshot(), a, b), StartOf(db.Snapshot());
      EnsureBaselines(a, b, cols);
      var olds, news;
      r, olds, news := ExchangeColumns(a, b, cols, p, start);
      if r.Ok? {
        CompleteSwap(actorId, id, cols, olds, news);
        CompletedIs(s, db.Snapshot(), id, actorId, cols, Work(db.setups, db.CustomCells(), olds, news));
      }
    }

    /** `approve`. */
    method Approve(actorId: int, id: int) returns (r: Result<()>)
      requires Valid() && db.Snapshot().HasUser(actorId)
      modifies db`setups, db`values, db`customBaselines, db`baselines, db`swaps, db`ledger
      ensures Outcome(ApproveSwap(old(db.Snapshot()), actorId, id), r, db.Snapshot())
    {
      var refusal := CheckApproval(actorId, id);
      if refusal.Some? {
        return Err(refusal.value);
      }
      r := ApplySwap(actorId, id);
    }

    /** `reject`. */
    method Reject(actorId: int, id: int) returns (r: Result<()>)
      requires db.Snapshot().HasUser(actorId)
      modifies db`swaps
      ensures Outcome(RejectSwap(old(db.Snapshot()), actorId, id), r, db.Snapshot())
    {
      if !(0 <= id < |db.swaps|) {
        return Err(NotFound);
      }
      var swap := db.swaps[id];
      if swap.status != SwapPending {
        return Err(Conflict);
      }
      if 0 <= swap.currentSetupId < |db.setups| {
        var allowed := CanApprove(swap.currentSetupId, actorId);
        if !allowed {
          return Err(Forbidden);
        }
      }
      db.swaps := db.swaps[id := swap.(status := SwapRejected, approvedById := Some(actorId))];
      r := Ok(());
    }

    /** `cancel`. */
    method Cancel(actorId: int, id: int) returns (r: Result<()>)
      modifies db`swaps
      ensures Outcome(CancelSwap(old(db.Snapshot()), actorId, id), r, db.Snapshot())
    {
      if !(0 <= id < |db.swaps|) {
        return Err(NotFound);
      }
      var swap := db.swaps[id];
      if swap.requesterId != actorId {
        return Err(Forbidden);
      }
      if swap.status != SwapPending {
        return Err(Conflict);
      }
      db.swaps := db.swaps[id := swap.(status := SwapCancelled)];
      r := Ok(());
    }
  }
}
