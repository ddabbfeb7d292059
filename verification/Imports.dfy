/** Bulk import of setups: validate every row, then upsert them one by one, all or nothing. */
module Imports {
  import opened Common
  import opened Domain

  /** One parsed workbook row; the names are resolved against the directory. */
  datatype ImportRow = ImportRow(productName: string, groupName: string, ownerUsername: string, ipAddress: string,
                                 hostname: string, fixed: Fields, location: string, remarks: Option<string>)

  /** The name lookups, and how many errors the schema (addresses, host names, lengths) reports on a row. */
  datatype Directory = Directory(products: map<string, int>, groups: map<string, int>, users: map<string, int>,
                                 schemaErrors: ImportRow -> nat)

  /** `_validate_row`: how many errors it reports. */
  function RowErrors(d: Directory, row: ImportRow): nat {
    (if row.productName in d.products then 0 else 1)
    + (if row.groupName == "" || row.groupName in d.groups then 0 else 1)
    + (if row.ownerUsername == "" || row.ownerUsername in d.users then 0 else 1)
    + d.schemaErrors(row)
  }

  function BatchErrors(d: Directory, rows: seq<ImportRow>): nat {
    if rows == [] then 0 else BatchErrors(d, rows[..|rows| - 1]) + RowErrors(d, rows[|rows| - 1])
  }

  /** The errors of one more row are added to those of the earlier ones. */
  lemma ErrorsOneMore(d: Directory, init: seq<ImportRow>, row: ImportRow)
    ensures BatchErrors(d, init + [row]) == BatchErrors(d, init) + RowErrors(d, row)
  {
    assert (init + [row])[..|init|] == init;
  }

  ghost predicate NoRowErrors(d: Directory, rows: seq<ImportRow>) {
    forall row :: row in rows ==> RowErrors(d, row) == 0
  }

  lemma {:induction false} ErrorFreeBatch(d: Directory, rows: seq<ImportRow>)
    ensures BatchErrors(d, rows) == 0 <==> NoRowErrors(d, rows)
  {
    if rows != [] {
      var init, last := rows[..|rows| - 1], rows[|rows| - 1];
      assert rows == init + [last];
      ErrorFreeBatch(d, init);
      ErrorsOneMore(d, init, last);
    }
  }

  // --- One row -----------------------------------------------------------

  /** The setup a row describes; the status is not part of the payload. */
  function PayloadOf(d: Directory, row: ImportRow, status: SetupStatus): Setup
    requires RowErrors(d, row) == 0
  {
    Setup(d.products[row.productName],
          if row.groupName == "" then None else Some(d.groups[row.groupName]),
          row.ipAddress, row.hostname, row.fixed,
          if row.ownerUsername == "" then None else Some(d.users[row.ownerUsername]),
          row.location, row.remarks, status)
  }

  predicate SameKey(s: Setup, ipAddress: string, hostname: string) {
    s.ipAddress == ipAddress || s.hostname == hostname
  }

  /** `get_by_ip_or_hostname`. */
  function FindByKey(setups: seq<Setup>, ipAddress: string, hostname: string): Option<nat> {
    FindFirst(setups, (s: Setup) => SameKey(s, ipAddress, hostname))
  }

  /** The unique constraints on ip_address and hostname. */
  predicate UniqueKeys(setups: seq<Setup>) {
    forall i, j :: 0 <= i < j < |setups| ==> !SameKey(setups[i], setups[j].ipAddress, setups[j].hostname)
  }

  /** The batch so far. */
  datatype Progress = Progress(setups: seq<Setup>, baselines: map<int, Fields>, created: nat, updated: nat)

  /**
   * Upsert one row; a unique-constraint violation surfaces as an error. A new setup's baseline is captured on insert.
   */
  function Upserted(d: Directory, p: Progress, row: ImportRow): Result<Progress>
    requires RowErrors(d, row) == 0
  {
    match FindByKey(p.setups, row.ipAddress, row.hostname)
    case Some(i) =>
      var setups := p.setups[i := PayloadOf(d, row, p.setups[i].status)];
      if UniqueKeys(setups) then Ok(p.(setups := setups, updated := p.updated + 1)) else Err(Conflict)
    case None =>
      var n := |p.setups|;
      var made := PayloadOf(d, row, Available);
      Ok(p.(setups := p.setups + [made],
            baselines := if n in p.baselines then p.baselines else p.baselines[n := made.fixed],
            created := p.created + 1))
  }

  function AllUpserted(d: Directory, p: Progress, rows: seq<ImportRow>): Result<Progress>
    requires BatchErrors(d, rows) == 0
  {
    if rows == [] then Ok(p)
    else match AllUpserted(d, p, rows[..|rows| - 1])
      case Err(e) => Err(e)
      case Ok(earlier) => Upserted(d, earlier, rows[|rows| - 1])
  }

  datatype ImportReport = ImportReport(totalRows: nat, created: nat, updated: nat, errors: nat, committed: bool)

  function StartImport(s: State): Progress {
    Progress(s.setups, s.baselines, 0, 0)
  }

  /** `import_setups`: a report with errors and no change, or the upserted batch. */
  function ImportSetups(s: State, d: Directory, rows: seq<ImportRow>): Result<(State, ImportReport)> {
    var errors := BatchErrors(d, rows);
    if errors > 0 then Ok((s, ImportReport(|rows|, 0, 0, errors, false)))
    else match AllUpserted(d, StartImport(s), rows)
      case Err(e) => Err(e)
      case Ok(p) =>
        Ok((s.(setups := p.setups, baselines := p.baselines), ImportReport(|rows|, p.created, p.updated, 0, true)))
  }

  // --- All or nothing, and the counts ------------------------------------

  /** rows have pairwise different addresses and pairwise different host names. */
  ghost predicate DistinctKeys(rows: seq<ImportRow>) {
    forall i, j :: 0 <= i < j < |rows| ==>
      rows[i].ipAddress != rows[j].ipAddress && rows[i].hostname != rows[j].hostname
  }

  /** Some setup is exactly what row describes. */
  ghost predicate Holds(d: Directory, setups: seq<Setup>, row: ImportRow)
    requires RowErrors(d, row) == 0
  {
    exists x :: 0 <= x < |setups| && setups[x] == PayloadOf(d, row, setups[x].status)
  }

  ghost predicate AllHeld(d: Directory, setups: seq<Setup>, rows: seq<ImportRow>) {
    forall i :: 0 <= i < |rows| ==> RowErrors(d, rows[i]) == 0 && Holds(d, setups, rows[i])
  }

  lemma UpsertKeepsUnique(d: Directory, p: Progress, row: ImportRow)
    requires RowErrors(d, row) == 0 && UniqueKeys(p.setups) && Upserted(d, p, row).Ok?
    ensures UniqueKeys(Upserted(d, p, row).value.setups)
    ensures Holds(d, Upserted(d, p, row).value.setups, row)
  {
    var p' := Upserted(d, p, row).value;
    var found := FindByKey(p.setups, row.ipAddress, row.hostname);
    var x := if found.Some? then found.value else |p.setups|;
    assert p'.setups[x] == PayloadOf(d, row, p'.setups[x].status);
    if found.None? {
      forall i, j | 0 <= i < j < |p'.setups|
        ensures !SameKey(p'.setups[i], p'.setups[j].ipAddress, p'.setups[j].hostname)
      {
        assert p'.setups[i] == p.setups[i];
        if j < |p.setups| {
          assert p'.setups[j] == p.setups[j];
        }
      }
    }
  }

  /** Upserting another row, with other keys, leaves a held row held. */
  lemma UpsertKeepsHeld(d: Directory, p: Progress, row: ImportRow, other: ImportRow)
    requires RowErrors(d, row) == 0 && RowErrors(d, other) == 0 && Upserted(d, p, row).Ok? && Holds(d, p.setups, other)
    requires other.ipAddress != row.ipAddress && other.hostname != row.hostname
    ensures Holds(d, Upserted(d, p, row).value.setups, other)
  {
    var x :| 0 <= x < |p.setups| && p.setups[x] == PayloadOf(d, other, p.setups[x].status);
    var p' := Upserted(d, p, row).value;
    assert !SameKey(p.setups[x], row.ipAddress, row.hostname);
    assert p'.setups[x] == p.setups[x];
  }

  /** Upserting one more row with keys of its own keeps the earlier rows held and holds the new one. */
  lemma OneMoreHeld(d: Directory, p: Progress, init: seq<ImportRow>, last: ImportRow)
    requires AllHeld(d, p.setups, init) && RowErrors(d, last) == 0 && UniqueKeys(p.setups) && Upserted(d, p, last).Ok?
    requires DistinctKeys(init + [last])
    ensures AllHeld(d, Upserted(d, p, last).value.setups, init + [last])
  {
    var rows := init + [last];
    UpsertKeepsUnique(d, p, last);
    forall i | 0 <= i < |init|
      ensures RowErrors(d, rows[i]) == 0 && Holds(d, Upserted(d, p, last).value.setups, rows[i])
    {
      assert rows[i] == init[i] && RowErrors(d, init[i]) == 0 && Holds(d, p.setups, init[i]);
      assert rows[|init|] == last;
      UpsertKeepsHeld(d, p, last, rows[i]);
    }
  }

  lemma PrefixErrorFree(d: Directory, rows: seq<ImportRow>)
    requires rows != [] && BatchErrors(d, rows) == 0
    ensures BatchErrors(d, rows[..|rows| - 1]) == 0 && RowErrors(d, rows[|rows| - 1]) == 0
  {
  }

  /** After a committed batch every row is held, keys are still unique, and the counts add up. */
  lemma {:induction false} BatchHolds(d: Directory, p: Progress, rows: seq<ImportRow>)
    requires BatchErrors(d, rows) == 0 && UniqueKeys(p.setups) && AllUpserted(d, p, rows).Ok?
    ensures var q := AllUpserted(d, p, rows).value;
            && UniqueKeys(q.setups)
            && q.created + q.updated == p.created + p.updated + |rows|
            && |q.setups| == |p.setups| + q.created - p.created
            && (DistinctKeys(rows) ==> AllHeld(d, q.setups, rows))
  {
    if rows != [] {
      var init, last := rows[..|rows| - 1], rows[|rows| - 1];
      assert rows == init + [last];
      BatchHolds(d, p, init);
      var mid := AllUpserted(d, p, init).value;
      UpsertKeepsUnique(d, mid, last);
      if DistinctKeys(rows) {
        assert DistinctKeys(init);
        OneMoreHeld(d, mid, init, last);
      }
    }
  }

  // --- Importing again ---------------------------------------------------

  /** Upserting a row that is already held updates it to itself. */
  lemma UpsertHeldIsIdentity(d: Directory, p: Progress, row: ImportRow)
    requires RowErrors(d, row) == 0 && UniqueKeys(p.setups) && Holds(d, p.setups, row)
    ensures Upserted(d, p, row) == Ok(p.(updated := p.updated + 1))
  {
    var x :| 0 <= x < |p.setups| && p.setups[x] == PayloadOf(d, row, p.setups[x].status);
    assert SameKey(p.setups[x], row.ipAddress, row.hostname);
    var found := FindByKey(p.setups, row.ipAddress, row.hostname);
    assert found.Some?;
    assert found.value == x;
    assert p.setups[x := p.setups[x]] == p.setups;
  }

  /** Upserting row into these setups only counts an update. */
  ghost predicate Idle(d: Directory, setups: seq<Setup>, row: ImportRow) {
    && RowErrors(d, row) == 0
    && forall q: Progress {:trigger Upserted(d, q, row)} :: q.setups == setups ==>
         Upserted(d, q, row) == Ok(q.(updated := q.updated + 1))
  }

  lemma {:induction false} IdleBatch(d: Directory, p: Progress, rows: seq<ImportRow>)
    requires BatchErrors(d, rows) == 0
    requires forall row :: row in rows ==> Idle(d, p.setups, row)
    ensures AllUpserted(d, p, rows) == Ok(p.(updated := p.updated + |rows|))
  {
    if rows != [] {
      var init, last := rows[..|rows| - 1], rows[|rows| - 1];
      PrefixErrorFree(d, rows);
      IdleBatch(d, p, init);
      IdleOne(d, p.(updated := p.updated + |init|), last);
      OneMoreUpdate(d, p, rows);
    }
  }

  lemma OneMoreUpdate(d: Directory, p: Progress, rows: seq<ImportRow>)
    requires rows != [] && BatchErrors(d, rows) == 0
    requires var n := |rows| - 1;
             && AllUpserted(d, p, rows[..n]) == Ok(p.(updated := p.updated + n))
             && Upserted(d, p.(updated := p.updated + n), rows[n]) == Ok(p.(updated := p.updated + n + 1))
    ensures AllUpserted(d, p, rows) == Ok(p.(updated := p.updated + |rows|))
  {
  }

  lemma IdleOne(d: Directory, p: Progress, row: ImportRow)
    requires Idle(d, p.setups, row)
    ensures RowErrors(d, row) == 0 && Upserted(d, p, row) == Ok(p.(updated := p.updated + 1))
  {
  }

  lemma ReimportIsIdentity(d: Directory, p: Progress, rows: seq<ImportRow>)
    requires BatchErrors(d, rows) == 0 && UniqueKeys(p.setups)
    requires AllHeld(d, p.setups, rows)
    ensures AllUpserted(d, p, rows) == Ok(p.(updated := p.updated + |rows|))
  {
    forall row | row in rows ensures Idle(d, p.setups, row) {
      var i :| 0 <= i < |rows| && rows[i] == row;
      assert RowErrors(d, rows[i]) == 0 && Holds(d, p.setups, rows[i]);
      forall q: Progress | q.setups == p.setups ensures Upserted(d, q, row) == Ok(q.(updated := q.updated + 1)) {
        UpsertHeldIsIdentity(d, q, row);
      }
    }
    IdleBatch(d, p, rows);
  }

  /**
   * Any row error leaves the store as it was; a committed batch counts every row once; and importing rows with distinct
   * keys a second time creates nothing and changes no setup.
   */
  lemma ImportLaws(s: State, d: Directory, rows: seq<ImportRow>)
    requires UniqueKeys(s.setups) && ImportSetups(s, d, rows).Ok?
    ensures var (s1, report) := ImportSetups(s, d, rows).value;
            && (report.committed <==> forall row :: row in rows ==> RowErrors(d, row) == 0)
            && (!report.committed ==> s1 == s && report == ImportReport(|rows|, 0, 0, BatchErrors(d, rows), false))
            && (report.committed ==> report.errors == 0)
            && (report.committed ==> report.created + report.updated == report.totalRows == |rows|)
            && (report.committed ==> |s1.setups| == |s.setups| + report.created && UniqueKeys(s1.setups))
            && (report.committed && DistinctKeys(rows) ==>
                  ImportSetups(s1, d, rows) == Ok((s1, ImportReport(|rows|, 0, |rows|, 0, true))))
  {
    ErrorFreeBatch(d, rows);
    if BatchErrors(d, rows) == 0 {
      BatchHolds(d, StartImport(s), rows);
      if DistinctKeys(rows) {
        ReimportIsIdentity(d, StartImport(ImportSetups(s, d, rows).value.0), rows);
      }
    }
  }
}
