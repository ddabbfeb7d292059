/** A product's custom columns: rows with an order_index, read back as an ordered list. */
module TemplateOrder {
  import opened Common
  import opened Ordering
  import opened Text

  /**
   * What a request says about a new column besides its name, and what its row stores; the title is the column label.
   */
  datatype ColumnRequest = ColumnRequest(title: Option<string>, dataType: string, required: bool,
                                         default: Option<string>,
                                         allowed: Option<seq<string>>)

  datatype ColumnSpec = ColumnSpec(title: string, dataType: string, required: bool, default: Option<string>,
                                   allowed: Option<seq<string>>)

  datatype ColumnRow = ColumnRow(productId: int, name: string, orderIndex: int, spec: ColumnSpec)

  type ColumnRows = map<int, ColumnRow>

  // --- The ordered view --------------------------------------------------

  function OrderOf(rows: ColumnRows, id: int): int {
    if id in rows then rows[id].orderIndex else 0
  }

  /** ORDER BY order_index, id. */
  function ByOrder(rows: ColumnRows): (int, int) -> bool {
    (a, b) => OrderOf(rows, a) < OrderOf(rows, b) || (OrderOf(rows, a) == OrderOf(rows, b) && a <= b)
  }

  lemma ByOrderTotal(rows: ColumnRows)
    ensures TotalOrder(ByOrder(rows))
  {
  }

  function ColumnsOf(rows: ColumnRows, productId: int): set<int> {
    set id | id in rows && rows[id].productId == productId
  }

  /** `list_columns_for_product`. */
  function Listed(rows: ColumnRows, productId: int): seq<int> {
    ByOrderTotal(rows);
    Sorted(ColumnsOf(rows, productId), ByOrder(rows))
  }

  /** An increasing listing of a product's columns is the listing. */
  lemma ListedIs(rows: ColumnRows, productId: int, ids: seq<int>)
    requires Elements(ids) == ColumnsOf(rows, productId) && Increasing(ids, ByOrder(rows))
    ensures Listed(rows, productId) == ids
  {
    ByOrderTotal(rows);
    forall x ensures x in Listed(rows, productId) <==> x in ids {
      assert x in Elements(Listed(rows, productId)) <==> x in Elements(ids);
    }
    IncreasingUnique(Listed(rows, productId), ids, ByOrder(rows));
  }

  lemma ListedFacts(rows: ColumnRows, productId: int)
    ensures Elements(Listed(rows, productId)) == ColumnsOf(rows, productId)
    ensures forall x :: x in Listed(rows, productId) <==> x in ColumnsOf(rows, productId)
    ensures Increasing(Listed(rows, productId), ByOrder(rows))
  {
    ByOrderTotal(rows);
    forall x ensures x in Listed(rows, productId) <==> x in ColumnsOf(rows, productId) {
      assert x in Listed(rows, productId) <==> x in Elements(Listed(rows, productId));
    }
  }

  /** No two columns of a product share an order_index. */
  ghost predicate DistinctOrder(rows: ColumnRows, productId: int) {
    forall a, b :: a in rows && b in rows && a != b && rows[a].productId == rows[b].productId == productId ==>
      rows[a].orderIndex != rows[b].orderIndex
  }

  /** Rows of one product changed; another product's listing is as before. */
  lemma OtherProductsKept(rows: ColumnRows, rows': ColumnRows, productId: int, other: int)
    requires other != productId
    requires forall id :: id in rows && rows[id].productId != productId ==> id in rows' && rows'[id] == rows[id]
    requires forall id :: id in rows' && rows'[id].productId != productId ==> id in rows
    requires forall id :: id in rows && id in rows' ==> rows[id].productId == rows'[id].productId
    ensures Listed(rows', other) == Listed(rows, other)
  {
    ListedFacts(rows, other);
    forall id ensures id in ColumnsOf(rows', other) <==> id in ColumnsOf(rows, other) {
      if id in rows && id in rows' {
        assert rows[id].productId == rows'[id].productId;
      }
    }
    forall i, j | 0 <= i < j < |Listed(rows, other)|
      ensures ByOrder(rows')(Listed(rows, other)[i], Listed(rows, other)[j])
    {
      assert Listed(rows, other)[i] in ColumnsOf(rows, other) && Listed(rows, other)[j] in ColumnsOf(rows, other);
      assert ByOrder(rows)(Listed(rows, other)[i], Listed(rows, other)[j]);
    }
    ListedIs(rows', other, Listed(rows, other));
  }

  // --- Names -------------------------------------------------------------

  const MANDATORY_NAMES: seq<string> := ["ip", "user", "owner", "reservation", "remark", "location", "group", "product"]

  /** strip, lower, and spaces to underscores. */
  function NormalizedName(raw: string): string {
    var s := Lower(Strip(raw));
    seq(|s|, i requires 0 <= i < |s| => if s[i] == ' ' then '_' else s[i])
  }

  predicate NameTaken(rows: ColumnRows, productId: int, name: string) {
    exists id :: id in rows && rows[id].productId == productId && rows[id].name == name
  }

  // --- Add ---------------------------------------------------------------

  /** A missing or empty label falls back to the name as given; an empty list of allowed values is stored as none. */
  function SpecOf(rawName: string, q: ColumnRequest): ColumnSpec {
    ColumnSpec(Strip(if q.title.Some? && q.title.value != "" then q.title.value else rawName), q.dataType, q.required,
               q.default, if q.allowed == Some([]) then None else q.allowed)
  }

  /** max(order_index values, default -1) + 1. */
  function NextOrder(rows: ColumnRows, ids: seq<int>): int {
    if ids == [] then 0
    else
      var rest := NextOrder(rows, ids[..|ids| - 1]);
      var mine := OrderOf(rows, ids[|ids| - 1]) + 1;
      if |ids| == 1 || mine > rest then mine else rest
  }

  lemma {:induction false} NextOrderIsAbove(rows: ColumnRows, ids: seq<int>)
    ensures forall id :: id in ids ==> OrderOf(rows, id) < NextOrder(rows, ids)
  {
    if ids != [] {
      NextOrderIsAbove(rows, ids[..|ids| - 1]);
      assert ids == ids[..|ids| - 1] + [ids[|ids| - 1]];
    }
  }

  function Added(rows: ColumnRows, productId: int, id: int, name: string, spec: ColumnSpec): ColumnRows {
    rows[id := ColumnRow(productId, name, NextOrder(rows, Listed(rows, productId)), spec)]
  }

  lemma AddAppends(rows: ColumnRows, productId: int, id: int, name: string, spec: ColumnSpec)
    requires id !in rows
    ensures var rows' := Added(rows, productId, id, name, spec);
            && Listed(rows', productId) == Listed(rows, productId) + [id]
            && (forall other :: other != productId ==> Listed(rows', other) == Listed(rows, other))
            && (DistinctOrder(rows, productId) ==> DistinctOrder(rows', productId))
  {
    var rows', ids := Added(rows, productId, id, name, spec), Listed(rows, productId);
    ListedFacts(rows, productId);
    NextOrderIsAbove(rows, ids);
    ElementsAppend(ids, id);
    forall i, j | 0 <= i < j < |ids| + 1
      ensures (ids + [id])[i] != (ids + [id])[j] && ByOrder(rows')((ids + [id])[i], (ids + [id])[j])
    {
      assert ids[i] in ids;
      if j < |ids| {
        assert ids[j] in ids && ByOrder(rows)(ids[i], ids[j]);
      }
    }
    assert ColumnsOf(rows', productId) == ColumnsOf(rows, productId) + {id};
    ListedIs(rows', productId, ids + [id]);
    forall other | other != productId ensures Listed(rows', other) == Listed(rows, other) {
      OtherProductsKept(rows, rows', productId, other);
    }
    if DistinctOrder(rows, productId) {
      forall a | a in rows && rows[a].productId == productId ensures rows[a].orderIndex != rows'[id].orderIndex {
        assert a in ids;
      }
    }
  }

  // --- Delete ------------------------------------------------------------

  function Without(xs: seq<int>, x: int): seq<int> {
    if xs == [] then [] else (if xs[0] == x then [] else [xs[0]]) + Without(xs[1..], x)
  }

  lemma {:induction false} WithoutMembers(xs: seq<int>, x: int)
    ensures forall y :: y in Without(xs, x) <==> y in xs && y != x
  {
    if xs != [] {
      WithoutMembers(xs[1..], x);
      assert xs == [xs[0]] + xs[1..];
    }
  }

  lemma PrependIncreasing(x: int, xs: seq<int>, le: (int, int) -> bool)
    requires Increasing(xs, le) && forall y :: y in xs ==> y != x && le(x, y)
    ensures Increasing([x] + xs, le)
  {
    var all := [x] + xs;
    forall i, j | 0 <= i < j < |all| ensures all[i] != all[j] && le(all[i], all[j]) {
      assert all[j] == xs[j - 1] && xs[j - 1] in xs;
      assert i > 0 ==> all[i] == xs[i - 1];
    }
  }

  lemma {:induction false} WithoutKeepsOrder(xs: seq<int>, x: int, le: (int, int) -> bool)
    requires Increasing(xs, le)
    ensures Increasing(Without(xs, x), le)
  {
    if xs != [] {
      var tail := xs[1..];
      forall i, j | 0 <= i < j < |tail| ensures tail[i] != tail[j] && le(tail[i], tail[j]) {
        assert tail[i] == xs[i + 1] && tail[j] == xs[j + 1];
      }
      WithoutKeepsOrder(tail, x, le);
      WithoutMembers(tail, x);
      forall y | y in Without(tail, x) ensures y != xs[0] && le(xs[0], y) {
        var j :| 0 <= j < |tail| && tail[j] == y;
        assert xs[j + 1] == y;
      }
      PrependIncreasing(xs[0], Without(tail, x), le);
    }
  }

  lemma StillIncreasing(rows: ColumnRows, rows': ColumnRows, ids: seq<int>)
    requires Increasing(ids, ByOrder(rows))
    requires forall x :: x in ids ==> OrderOf(rows', x) == OrderOf(rows, x)
    ensures Increasing(ids, ByOrder(rows'))
  {
    forall i, j | 0 <= i < j < |ids| ensures ids[i] != ids[j] && ByOrder(rows')(ids[i], ids[j]) {
      assert ids[i] in ids && ids[j] in ids && ByOrder(rows)(ids[i], ids[j]);
    }
  }

  lemma RemainingColumns(rows: ColumnRows, id: int, kept: seq<int>)
    requires id in rows
    requires forall x :: x in kept <==> x in ColumnsOf(rows, rows[id].productId) && x != id
    ensures Elements(kept) == ColumnsOf(rows - {id}, rows[id].productId)
  {
    forall x ensures x in Elements(kept) <==> x in ColumnsOf(rows - {id}, rows[id].productId) {
      assert x in Elements(kept) <==> x in kept;
    }
  }

  lemma DeleteLists(rows: ColumnRows, id: int)
    requires id in rows
    ensures var p := rows[id].productId; Listed(rows - {id}, p) == Without(Listed(rows, p), id)
  {
    var p := rows[id].productId;
    var ids := Listed(rows, p);
    var kept := Without(ids, id);
    ListedFacts(rows, p);
    WithoutMembers(ids, id);
    WithoutKeepsOrder(ids, id, ByOrder(rows));
    RemainingColumns(rows, id, kept);
    StillIncreasing(rows, rows - {id}, kept);
    ListedIs(rows - {id}, p, kept);
  }

  lemma DeleteRemoves(rows: ColumnRows, id: int)
    requires id in rows
    ensures var rows', p := rows - {id}, rows[id].productId;
            && Listed(rows', p) == Without(Listed(rows, p), id)
            && (forall other :: other != p ==> Listed(rows', other) == Listed(rows, other))
            && forall q :: DistinctOrder(rows, q) ==> DistinctOrder(rows', q)
  {
    DeleteLists(rows, id);
    forall other | other != rows[id].productId ensures Listed(rows - {id}, other) == Listed(rows, other) {
      OtherProductsKept(rows, rows - {id}, rows[id].productId, other);
    }
  }

  // --- Reorder -----------------------------------------------------------

  /** The last position of x in xs. */
  function LastIndex(xs: seq<int>, x: int): (i: int)
    requires x in xs
    ensures 0 <= i < |xs| && xs[i] == x && x !in xs[i + 1..]
  {
    if xs[|xs| - 1] == x then |xs| - 1
    else
      assert xs == xs[..|xs| - 1] + [xs[|xs| - 1]];
      var i := LastIndex(xs[..|xs| - 1], x);
      assert xs[i + 1..] == xs[..|xs| - 1][i + 1..] + [xs[|xs| - 1]];
      i
  }

  /** The rows after `enumerate(column_ids)` has written every index: a repeated id keeps its last. */
  function Reordered(rows: ColumnRows, ids: seq<int>): ColumnRows {
    map id | id in rows :: if id in ids then rows[id].(orderIndex := LastIndex(ids, id)) else rows[id]
  }

  /** xs with every element kept where it last occurs. */
  function LastOccurrences(xs: seq<int>): seq<int> {
    if xs == [] then []
    else (if xs[0] in xs[1..] then [] else [xs[0]]) + LastOccurrences(xs[1..])
  }

  lemma {:induction false} LastOccurrencesIncrease(all: seq<int>, n: nat)
    requires n <= |all|
    ensures var r := LastOccurrences(all[n..]);
            && (forall x :: x in r <==> x in all[n..])
            && (forall i, j :: 0 <= i < j < |r| ==>
                 r[i] in all && r[j] in all && LastIndex(all, r[i]) < LastIndex(all, r[j]))
            && forall i :: 0 <= i < |r| ==> r[i] in all && LastIndex(all, r[i]) >= n
    decreases |all| - n
  {
    if n < |all| {
      var x, rest := all[n], LastOccurrences(all[n + 1..]);
      assert all[n..] == [x] + all[n + 1..] && all[n..][1..] == all[n + 1..];
      LastOccurrencesIncrease(all, n + 1);
      if x !in all[n + 1..] {
        LastIndexIs(all, x, n);
      }
    }
  }

  lemma {:induction false} LastIndexIs(xs: seq<int>, x: int, n: nat)
    requires n < |xs| && xs[n] == x && x !in xs[n + 1..]
    ensures x in xs && LastIndex(xs, x) == n
  {
    if n < |xs| - 1 {
      var init := xs[..|xs| - 1];
      assert xs[|xs| - 1] == xs[n + 1..][|xs| - n - 2];
      assert xs[n + 1..] == init[n + 1..] + [xs[|xs| - 1]];
      LastIndexIs(init, x, n);
    }
  }

  lemma {:induction false} DistinctHasNoRepeats(xs: seq<int>)
    ensures LastOccurrences(xs) == xs <==> Distinct(xs)
    ensures |LastOccurrences(xs)| <= |xs|
  {
    if xs != [] {
      DistinctHasNoRepeats(xs[1..]);
      assert xs == [xs[0]] + xs[1..];
      if xs[0] in xs[1..] {
        var j :| 0 <= j < |xs[1..]| && xs[1..][j] == xs[0];
        assert xs[j + 1] == xs[0] && !Distinct(xs);
      } else {
        assert Distinct(xs) <==> Distinct(xs[1..]) by {
          if Distinct(xs[1..]) {
            forall i, j | 0 <= i < j < |xs| ensures xs[i] != xs[j] {
              assert xs[j] == xs[1..][j - 1];
              if i > 0 {
                assert xs[i] == xs[1..][i - 1];
              }
            }
          }
        }
      }
    }
  }

  /**
   * An accepted reorder - one naming exactly the product's columns, possibly with repeats - lists the columns by their
   * last mention. That is the given sequence exactly when no id is repeated.
   */
  lemma ReorderLists(rows: ColumnRows, productId: int, ids: seq<int>)
    requires Elements(ids) == ColumnsOf(rows, productId)
    ensures Listed(Reordered(rows, ids), productId) == LastOccurrences(ids)
    ensures Listed(Reordered(rows, ids), productId) == ids <==> Distinct(ids)
    ensures forall other :: other != productId ==> Listed(Reordered(rows, ids), other) == Listed(rows, other)
    ensures DistinctOrder(Reordered(rows, ids), productId)
  {
    var rows', r := Reordered(rows, ids), LastOccurrences(ids);
    assert ids[0..] == ids;
    LastOccurrencesIncrease(ids, 0);
    DistinctHasNoRepeats(ids);
    assert forall x :: x in ids <==> x in Elements(ids);
    forall i, j | 0 <= i < j < |r| ensures r[i] != r[j] && ByOrder(rows')(r[i], r[j]) {
      assert LastIndex(ids, r[i]) < LastIndex(ids, r[j]);
      assert OrderOf(rows', r[i]) == LastIndex(ids, r[i]) && OrderOf(rows', r[j]) == LastIndex(ids, r[j]);
    }
    assert Elements(r) == ColumnsOf(rows', productId);
    ListedIs(rows', productId, r);
    forall other | other != productId ensures Listed(rows', other) == Listed(rows, other) {
      OtherProductsKept(rows, rows', productId, other);
    }
    forall a, b | a in rows' && b in rows' && a != b && rows'[a].productId == rows'[b].productId == productId
      ensures rows'[a].orderIndex != rows'[b].orderIndex
    {
      assert a in ids && b in ids;
    }
  }

  /** Every other product's columns are listed as before. */
  ghost predicate OthersListed(before: ColumnRows, after: ColumnRows, productId: int) {
    forall other :: other != productId ==> Listed(after, other) == Listed(before, other)
  }

  // --- One call ----------------------------------------------------------

  datatype TableCall =
    | AddCall(productId: int, rawName: string, request: ColumnRequest, newId: int)
    | DeleteCall(productId: int, columnId: int)
    | ReorderCall(productId: int, columnIds: seq<int>)

  predicate AcceptedCall(products: set<int>, rows: ColumnRows, c: TableCall) {
    match c
    case AddCall(p, raw, _, id) =>
      && p in products && id !in rows
      && NormalizedName(raw) !in MANDATORY_NAMES && !NameTaken(rows, p, NormalizedName(raw))
    case DeleteCall(p, id) => id in rows && rows[id].productId == p
    case ReorderCall(p, ids) => p in products && Elements(ids) == ColumnsOf(rows, p)
  }

  /** The rows after a call; a refused one leaves them, and the database never hands out a key in use. */
  function AfterCall(products: set<int>, rows: ColumnRows, c: TableCall): ColumnRows {
    if !AcceptedCall(products, rows, c) then rows
    else match c
      case AddCall(p, raw, q, id) => Added(rows, p, id, NormalizedName(raw), SpecOf(raw, q))
      case DeleteCall(p, id) => rows - {id}
      case ReorderCall(p, ids) => Reordered(rows, ids)
  }

  // --- The table ---------------------------------------------------------

  class ColumnTable {
    const products: set<int>
    var rows: ColumnRows

    constructor (products: set<int>)
      ensures this.products == products && rows == map[]
    {
      this.products, rows := products, map[];
    }

    /** `add_column`; id is the key the database assigns to the new row. */
    method AddColumn(productId: int, rawName: string, q: ColumnRequest, id: int) returns (r: Result<int>)
      requires id !in rows
      modifies this
      ensures var name := NormalizedName(rawName);
              if productId !in products then r == Err(NotFound) && rows == old(rows)
              else if name in MANDATORY_NAMES || NameTaken(old(rows), productId, name) then
                r == Err(Conflict) && rows == old(rows)
              else
                && r == Ok(id) && id in rows && rows == old(rows)[id := rows[id]]
                && rows[id] == ColumnRow(productId, name, rows[id].orderIndex, SpecOf(rawName, q))
                && Listed(rows, productId) == Listed(old(rows), productId) + [id]
                && (DistinctOrder(old(rows), productId) ==> DistinctOrder(rows, productId))
                && OthersListed(old(rows), rows, productId)
      ensures rows == AfterCall(products, old(rows), AddCall(productId, rawName, q, id))
    {
      if productId !in products {
        return Err(NotFound);
      }
      var name := NormalizedName(rawName);
      if name in MANDATORY_NAMES || NameTaken(rows, productId, name) {
        return Err(Conflict);
      }
      var existing := Listed(rows, productId);
      AddAppends(rows, productId, id, name, SpecOf(rawName, q));
      rows := rows[id := ColumnRow(productId, name, NextOrder(rows, existing), SpecOf(rawName, q))];
      r := Ok(id);
    }

    /** `delete_column`. */
    method DeleteColumn(productId: int, id: int) returns (r: Result<()>)
      modifies this
      ensures if id !in old(rows) || old(rows)[id].productId != productId then r == Err(NotFound) && rows == old(rows)
              else
                && r == Ok(()) && rows == old(rows) - {id}
                && Listed(rows, productId) == Without(Listed(old(rows), productId), id)
                && (DistinctOrder(old(rows), productId) ==> DistinctOrder(rows, productId))
                && OthersListed(old(rows), rows, productId)
      ensures rows == AfterCall(products, old(rows), DeleteCall(productId, id))
    {
      if id !in rows || rows[id].productId != productId {
        return Err(NotFound);
      }
      DeleteRemoves(rows, id);
      rows := rows - {id};
      r := Ok(());
    }

    /** `reorder_columns`: the ids are compared as sets, then every position is written in turn. */
    method ReorderColumns(productId: int, ids: seq<int>) returns (r: Result<()>)
      modifies this
      ensures if productId !in products then r == Err(NotFound) && rows == old(rows)
              else if Elements(ids) != ColumnsOf(old(rows), productId) then r == Err(Invalid) && rows == old(rows)
              else
                && r == Ok(())
                && rows == Reordered(old(rows), ids)
                && Listed(rows, productId) == LastOccurrences(ids)
                && (Listed(rows, productId) == ids <==> Distinct(ids))
                && DistinctOrder(rows, productId)
                && OthersListed(old(rows), rows, productId)
      ensures rows == AfterCall(products, old(rows), ReorderCall(productId, ids))
    {
      if productId !in products {
        return Err(NotFound);
      }
      if (set id | id in ids) != ColumnsOf(rows, productId) {
        return Err(Invalid);
      }
      ReorderLists(rows, productId, ids);
      WriteIndexes(productId, ids);
      r := Ok(());
    }

    /** `for index, column_id in enumerate(column_ids)`. */
    method WriteIndexes(productId: int, ids: seq<int>)
      requires Elements(ids) == ColumnsOf(rows, productId)
      modifies this
      ensures rows == Reordered(old(rows), ids)
    {
      ghost var before := rows;
      assert Reordered(before, ids[..0]) == before;
      for index := 0 to |ids|
        invariant rows == Reordered(before, ids[..index])
      {
        assert ids[index] in Elements(ids);
        OneMoreIndex(before, ids, index);
        rows := rows[ids[index] := rows[ids[index]].(orderIndex := index)];
      }
      assert ids[..|ids|] == ids;
    }
  }

  lemma OneMoreIndex(rows: ColumnRows, ids: seq<int>, index: int)
    requires 0 <= index < |ids| && ids[index] in rows
    ensures Reordered(rows, ids[..index + 1]) ==
            Reordered(rows, ids[..index])[ids[index] := rows[ids[index]].(orderIndex := index)]
  {
    var shorter, longer := ids[..index], ids[..index + 1];
    assert longer == shorter + [ids[index]] && longer[..|longer| - 1] == shorter;
    forall id | id in rows && id in shorter && id != ids[index]
      ensures LastIndex(longer, id) == LastIndex(shorter, id) {}
  }
}
