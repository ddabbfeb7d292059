/** What each admin call answers and writes, by the rules on the rows, and what setups keep in every run. */
module AdminRules {
  import opened Common
  import opened Domain
  import opened ApprovalRouting
  import opened TemplateValues
  import opened HardwareState
  import opened Imports
  import opened SetupEdits
  import opened Runs
  import opened Rules
  import ValueRules

  // --- The hierarchy -----------------------------------------------------

  function MayAddEdge(s: State, a: int, e: Edge): Outcome {
    var mayCall := SignedIn(s, a) && Granted(s, a, GroupManagePermission);
    :- Need(mayCall, Forbidden);
    :- Need(e.parent in s.groups && e.child in s.groups, NotFound);
    :- Need(e.parent != e.child, Invalid);
    Need(e !in s.edges, Conflict)
  }

  /** An edge between two existing different groups is appended once. */
  lemma AddEdgeAnswer(s: State, a: int, e: Edge)
    ensures Exec(s, OnAdmin(a, AddEdge(e))) ==
            match MayAddEdge(s, a, e)
            case Fail(err) => Err(err)
            case Pass => Ok(s.(edges := s.edges + [e]))
  {
  }

  /** i is the first row of e. */
  predicate FirstRow(edges: seq<Edge>, e: Edge, i: int) {
    0 <= i < |edges| && edges[i] == e && e !in edges[..i]
  }

  lemma DeleteEdgeIs(edges: seq<Edge>, e: Edge)
    ensures e !in edges ==> DeleteEdge(edges, e) == Err(NotFound)
    ensures forall i :: FirstRow(edges, e, i) ==> DeleteEdge(edges, e) == Ok(edges[..i] + edges[i + 1..])
  {
    var found := FindFirst(edges, (d: Edge) => d == e);
    forall i | FirstRow(edges, e, i) ensures found == Some(i) {
      assert found.Some?;
      forall j | 0 <= j < i ensures edges[j] != e {
        assert edges[j] in edges[..i];
      }
    }
  }

  /** Removing an edge takes out its first row, and answers NotFound when there is none. */
  lemma RemoveEdgeAnswer(s: State, a: int, e: Edge)
    ensures var r := Exec(s, OnAdmin(a, RemoveEdge(e)));
            if !(SignedIn(s, a) && Granted(s, a, GroupManagePermission)) then r == Err(Forbidden)
            else if e !in s.edges then r == Err(NotFound)
            else forall i :: FirstRow(s.edges, e, i) ==> r == Ok(s.(edges := s.edges[..i] + s.edges[i + 1..]))
  {
    DeleteEdgeIs(s.edges, e);
  }

  // --- Editing a setup ---------------------------------------------------

  function Kept<T>(given: Option<T>, own: T): T {
    match given case Some(v) => v case None => own
  }

  /** Another setup has this address or this host name. */
  predicate Clashes(s: State, x: int, ip: string, host: string) {
    exists y :: 0 <= y < |s.setups| && y != x && (s.setups[y].ipAddress == ip || s.setups[y].hostname == host)
  }

  /** Status changes an admin may make by hand. */
  predicate MayTurn(from: SetupStatus, to: SetupStatus) {
    (from, to) in {(Available, Reserved), (Available, Maintenance), (Available, Retired), (Reserved, Available),
                   (Reserved, Maintenance), (Maintenance, Available), (Maintenance, Retired)}
  }

  function MayEdit(s: State, a: int, x: int, edit: SetupEdit): Outcome {
    var mayCall := SignedIn(s, a) && Granted(s, a, ProductManagePermission);
    :- Need(mayCall, Forbidden);
    :- Need(Exists(s, x), NotFound);
    var own := s.setups[x];
    :- Need(edit.ipAddress.Some? || edit.hostname.Some? ==>
              !Clashes(s, x, Kept(edit.ipAddress, own.ipAddress), Kept(edit.hostname, own.hostname)), Conflict);
    Need(edit.status.Some? && edit.status.value != own.status ==> MayTurn(own.status, edit.status.value), Conflict)
  }

  /** The row an edit leaves: every given attribute, and the own one where none is given. */
  function RowAfter(own: Setup, edit: SetupEdit): Setup {
    Setup(Kept(edit.productId, own.productId), Kept(edit.group, own.groupId), Kept(edit.ipAddress, own.ipAddress),
          Kept(edit.hostname, own.hostname),
          map f: Field | true :: if f in edit.fixed then edit.fixed[f] else own.fixed[f],
          Kept(edit.owner, own.ownerId), Kept(edit.location, own.location), Kept(edit.remarks, own.remarks),
          Kept(edit.status, own.status))
  }

  /** The edit makes f show differently. */
  predicate Touches(own: Setup, edit: SetupEdit, f: Field) {
    f in edit.fixed && ValueRules.Shown(edit.fixed[f]) != ValueRules.Shown(own.fixed[f])
  }

  /**
   * The originals an edit leaves: those of other setups as they were; its own, if a field was touched, with the new
   * value of each touched field over the recorded row, or over the row as edited when none was recorded.
   */
  ghost predicate OriginalsAfter(s: State, x: int, edit: SetupEdit, after: map<int, Fields>)
    requires s.HasSetup(x)
  {
    var own := s.setups[x];
    && (forall y :: y != x ==> (y in after <==> y in s.baselines) && (y in after ==> after[y] == s.baselines[y]))
    && (x in after <==> x in s.baselines || exists f :: Touches(own, edit, f))
    && (x in after ==> forall f ::
          after[x][f] == if Touches(own, edit, f) then edit.fixed[f]
                         else if x in s.baselines then s.baselines[x][f]
                         else RowAfter(own, edit).fixed[f])
  }

  lemma TransitionIff(from: SetupStatus, to: SetupStatus)
    ensures AllowedTransition(from, to) <==> MayTurn(from, to)
  {
  }

  lemma ClashesIff(s: State, x: int, edited: Setup)
    requires s.HasSetup(x) && UniqueKeys(s.setups)
    ensures KeysTaken(s.setups, x, edited) <==> Clashes(s, x, edited.ipAddress, edited.hostname)
  {
    KeysTakenIff(s.setups, x, edited);
    forall y | 0 <= y < |s.setups|
      ensures SameKey(s.setups[y], edited.ipAddress, edited.hostname) <==>
              s.setups[y].ipAddress == edited.ipAddress || s.setups[y].hostname == edited.hostname
    {}
  }

  lemma EditedRowIs(own: Setup, edit: SetupEdit)
    ensures EditedSetup(own, edit).(status := Or(edit.status, own.status)) == RowAfter(own, edit)
  {
  }

  /** What the edit of an existing setup comes to. */
  lemma EditSetupIs(s: State, a: int, x: int, edit: SetupEdit)
    requires UniqueKeys(s.setups) && s.HasSetup(x) && SignedIn(s, a) && Granted(s, a, ProductManagePermission)
    ensures MayEdit(s, a, x, edit).Fail? <==> EditSetup(s, x, edit).Err?
    ensures MayEdit(s, a, x, edit).Fail? ==> EditSetup(s, x, edit) == Err(MayEdit(s, a, x, edit).error)
  {
    var own := s.setups[x];
    ClashesIff(s, x, EditedSetup(own, edit));
    if edit.status.Some? {
      TransitionIff(own.status, edit.status.value);
    }
  }

  lemma EditSetupWrites(s: State, x: int, edit: SetupEdit)
    requires EditSetup(s, x, edit).Ok?
    ensures var s' := EditSetup(s, x, edit).value;
            && s.HasSetup(x)
            && s' == s.(setups := s.setups[x := RowAfter(s.setups[x], edit)], baselines := s'.baselines)
            && OriginalsAfter(s, x, edit, s'.baselines)
  {
    EditedRowIs(s.setups[x], edit);
    EditOriginals(s, x, edit);
  }

  /**
   * Where keys are unique, an edit answers the first rule it breaks; otherwise it writes that row and those originals.
   */
  lemma EditAnswer(s: State, a: int, x: int, edit: SetupEdit)
    requires UniqueKeys(s.setups)
    ensures var r := Exec(s, OnAdmin(a, EditSetupCall(x, edit)));
            match MayEdit(s, a, x, edit)
            case Fail(e) => r == Err(e)
            case Pass =>
              && r.Ok?
              && r.value == s.(setups := s.setups[x := RowAfter(s.setups[x], edit)], baselines := r.value.baselines)
              && OriginalsAfter(s, x, edit, r.value.baselines)
  {
    if SignedIn(s, a) && Granted(s, a, ProductManagePermission) && s.HasSetup(x) {
      EditSetupIs(s, a, x, edit);
      if EditSetup(s, x, edit).Ok? {
        EditSetupWrites(s, x, edit);
      }
    }
  }

  lemma EditOriginals(s: State, x: int, edit: SetupEdit)
    requires s.HasSetup(x)
    ensures OriginalsAfter(s, x, edit,
                           RebaselinedFixed(s.baselines, x, s.setups[x].fixed,
                                            EditedFields(s.setups[x].fixed, edit.fixed)))
  {
    var own, after := s.setups[x], EditedFields(s.setups[x].fixed, edit.fixed);
    forall f ensures EditedField(own.fixed, after, f) <==> Touches(own, edit, f) {}
    assert RowAfter(own, edit).fixed == after;
  }

  // --- Storing values ----------------------------------------------------

  /** Every column takes its value, and every name is a column's. */
  predicate Storable(s: State, x: int, raw: map<string, Raw>) {
    && (forall c :: c in ColumnsAt(s, x) ==> !CellFor(c, raw).Bad?)
    && forall name :: name in raw ==> HasColumn(s, x, name)
  }

  function MayStore(s: State, a: int, x: int, raw: map<string, Raw>): Outcome {
    var mayCall := SignedIn(s, a) && Granted(s, a, ProductManagePermission);
    :- Need(mayCall, Forbidden);
    :- Need(Exists(s, x), NotFound);
    Need(Storable(s, x, raw), Invalid)
  }

  /**
   * Storing answers the first rule it breaks; otherwise it writes each column's cell of that setup and nothing else.
   */
  lemma StoreAnswer(s: State, a: int, x: int, raw: map<string, Raw>)
    requires UniqueColumns(ColumnsAt(s, x))
    ensures var r := Exec(s, OnAdmin(a, StoreValuesCall(x, raw)));
            match MayStore(s, a, x, raw)
            case Fail(e) => r == Err(e)
            case Pass =>
              && r.Ok?
              && r.value == s.(values := r.value.values, customBaselines := r.value.customBaselines)
              && (forall key :: !KeyIn(ColumnsAt(s, x), x, key) ==> SameCell(CellsOf(s), CellsOf(r.value), key))
              && forall c :: c in ColumnsAt(s, x) ==>
                   WrittenCell(CellsOf(s), CellsOf(r.value), (x, c.id),
                               if CellFor(c, raw).Stored? then Some(CellFor(c, raw).text) else None)
  {
    if s.HasSetup(x) {
      assert s.Template(s.setups[x].productId) == ColumnsAt(s, x);
      SetValuesMeaning(CellsOf(s), x, ColumnsAt(s, x), raw);
      assert Storable(s, x, raw) <==> Accepts(ColumnsAt(s, x), raw);
      ValueRules.TemplateRefusesIff(ColumnsAt(s, x), raw);
    }
  }

  // --- Importing ---------------------------------------------------------

  /**
   * A row the import can use: its product, and its group and owner if it names them, are known, and its shape is right.
   */
  predicate Usable(d: Directory, row: ImportRow) {
    && row.productName in d.products
    && (row.groupName != "" ==> row.groupName in d.groups)
    && (row.ownerUsername != "" ==> row.ownerUsername in d.users)
    && d.schemaErrors(row) == 0
  }

  lemma UsableIff(d: Directory, row: ImportRow)
    ensures RowErrors(d, row) == 0 <==> Usable(d, row)
  {
  }

  /** The lookups of a row that fail. */
  function Unknown(d: Directory, row: ImportRow): set<string> {
    (if row.productName in d.products then {} else {"product"})
    + (if row.groupName == "" || row.groupName in d.groups then {} else {"group"})
    + (if row.ownerUsername == "" || row.ownerUsername in d.users then {} else {"owner"})
  }

  /** A row counts one error per failing lookup, besides those of the schema. */
  lemma ErrorsAre(d: Directory, row: ImportRow)
    ensures RowErrors(d, row) == |Unknown(d, row)| + d.schemaErrors(row)
  {
    assert "product"[0] == 'p' && "group"[0] == 'g' && "owner"[0] == 'o';
  }

  /** The setup a usable row describes. */
  predicate Describes(d: Directory, row: ImportRow, setup: Setup) {
    && Usable(d, row)
    && setup.productId == d.products[row.productName]
    && setup.groupId == (if row.groupName == "" then None else Some(d.groups[row.groupName]))
    && setup.ownerId == (if row.ownerUsername == "" then None else Some(d.users[row.ownerUsername]))
    && setup.ipAddress == row.ipAddress && setup.hostname == row.hostname && setup.fixed == row.fixed
    && setup.location == row.location && setup.remarks == row.remarks
  }

  /** Setup x has the row's address or host name. */
  predicate Meets(setups: seq<Setup>, x: int, row: ImportRow) {
    0 <= x < |setups| && (setups[x].ipAddress == row.ipAddress || setups[x].hostname == row.hostname)
  }

  /** x is the first setup that has the row's address or host name. */
  predicate FirstMet(setups: seq<Setup>, x: int, row: ImportRow) {
    Meets(setups, x, row) && forall y :: 0 <= y < x ==> !Meets(setups, y, row)
  }

  lemma FoundIs(setups: seq<Setup>, row: ImportRow)
    ensures forall x :: FirstMet(setups, x, row) ==> FindByKey(setups, row.ipAddress, row.hostname) == Some(x)
    ensures (forall y :: !Meets(setups, y, row)) ==> FindByKey(setups, row.ipAddress, row.hostname) == None
  {
    forall y | 0 <= y < |setups| ensures SameKey(setups[y], row.ipAddress, row.hostname) <==> Meets(setups, y, row) {}
    var found := FindByKey(setups, row.ipAddress, row.hostname);
    assert found.Some? ==> Meets(setups, found.value, row);
  }

  lemma PayloadIs(d: Directory, row: ImportRow, status: SetupStatus)
    requires RowErrors(d, row) == 0
    ensures Describes(d, row, PayloadOf(d, row, status)) && PayloadOf(d, row, status).status == status
  {
  }

  /**
   * A row met by a setup: the first such setup becomes what the row describes and keeps its status; the row is refused
   * when the keys would clash.
   */
  lemma UpdateAnswer(d: Directory, p: Progress, row: ImportRow, x: int)
    requires RowErrors(d, row) == 0 && FirstMet(p.setups, x, row)
    ensures exists setup :: Describes(d, row, setup) && setup.status == p.setups[x].status
              && Upserted(d, p, row) ==
                 if UniqueKeys(p.setups[x := setup]) then
                   Ok(p.(setups := p.setups[x := setup], updated := p.updated + 1))
                 else Err(Conflict)
  {
    FoundIs(p.setups, row);
    PayloadIs(d, row, p.setups[x].status);
    var setup := PayloadOf(d, row, p.setups[x].status);
    assert Upserted(d, p, row) ==
           if UniqueKeys(p.setups[x := setup]) then Ok(p.(setups := p.setups[x := setup], updated := p.updated + 1))
           else Err(Conflict);
  }

  /** A row no setup meets: an AVAILABLE setup is appended as described, and its original recorded. */
  lemma CreateAnswer(d: Directory, p: Progress, row: ImportRow)
    requires RowErrors(d, row) == 0 && forall y :: !Meets(p.setups, y, row)
    ensures exists setup :: Describes(d, row, setup) && setup.status == Available
              && Upserted(d, p, row) ==
                 Ok(p.(setups := p.setups + [setup], created := p.created + 1,
                       baselines := if |p.setups| in p.baselines then p.baselines
                                    else p.baselines[|p.setups| := row.fixed]))
  {
    FoundIs(p.setups, row);
    PayloadIs(d, row, Available);
    var setup := PayloadOf(d, row, Available);
    assert Upserted(d, p, row) ==
           Ok(p.(setups := p.setups + [setup], created := p.created + 1,
                 baselines := if |p.setups| in p.baselines then p.baselines
                              else p.baselines[|p.setups| := row.fixed]));
  }

  /**
   * An import with an unusable row writes nothing; otherwise it writes what upserting the rows in order leaves, or is
   * refused.
   */
  lemma ImportAnswer(s: State, a: int, d: Directory, rows: seq<ImportRow>)
    ensures var r := Exec(s, OnAdmin(a, ImportCall(d, rows)));
            if !(SignedIn(s, a) && Granted(s, a, ImportRunPermission)) then r == Err(Forbidden)
            else if exists row :: row in rows && !Usable(d, row) then r == Ok(s)
            else
              && BatchErrors(d, rows) == 0
              && r == match AllUpserted(d, Progress(s.setups, s.baselines, 0, 0), rows)
                      case Err(e) => Err(e)
                      case Ok(q) => Ok(s.(setups := q.setups, baselines := q.baselines))
  {
    ErrorFreeBatch(d, rows);
    forall row ensures RowErrors(d, row) == 0 <==> Usable(d, row) {
      UsableIff(d, row);
    }
  }
}
