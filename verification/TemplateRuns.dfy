/**
 * A product's columns over whole sequences of calls: orders and names stay distinct, and exactly when names stay plain.
 */
module TemplateRuns {
  import opened Common
  import opened Text
  import opened Domain
  import opened ColumnNames
  import Swaps
  import opened TemplateOrder
  import LedgerRuns
  import FullSwaps

  function RunTable(products: set<int>, rows: ColumnRows, calls: seq<TableCall>): ColumnRows {
    if calls == [] then rows
    else AfterCall(products, RunTable(products, rows, calls[..|calls| - 1]), calls[|calls| - 1])
  }

  // --- What a call writes ------------------------------------------------

  /** A name is stored without the blanks around it, in lower case, with underscores for the blanks in it. */
  lemma NormalizedIs(raw: string)
    ensures var s, n := Strip(raw), NormalizedName(raw);
            && |n| == |s|
            && forall i :: 0 <= i < |s| ==>
                 n[i] == if s[i] == ' ' then '_' else if 'A' <= s[i] <= 'Z' then (s[i] as int + 32) as char else s[i]
  {
  }

  /** One past the highest order of the product, or 0 for its first column. */
  ghost predicate IsNextOrder(rows: ColumnRows, productId: int, order: int) {
    && (forall id :: id in rows && rows[id].productId == productId ==> rows[id].orderIndex < order)
    && ((exists id :: id in rows && rows[id].productId == productId && rows[id].orderIndex == order - 1)
        || (order == 0 && forall id :: id in rows ==> rows[id].productId != productId))
  }

  lemma {:induction false} NextOrderReached(rows: ColumnRows, ids: seq<int>)
    ensures ids == [] ==> NextOrder(rows, ids) == 0
    ensures ids != [] ==> exists id :: id in ids && OrderOf(rows, id) == NextOrder(rows, ids) - 1
  {
    if ids != [] {
      var init, last := ids[..|ids| - 1], ids[|ids| - 1];
      assert ids == init + [last];
      NextOrderReached(rows, init);
      assert last in ids;
    }
  }

  lemma NextOrderIs(rows: ColumnRows, productId: int)
    ensures IsNextOrder(rows, productId, NextOrder(rows, Listed(rows, productId)))
  {
    var ids := Listed(rows, productId);
    ListedFacts(rows, productId);
    NextOrderIsAbove(rows, ids);
    NextOrderReached(rows, ids);
    forall id | id in rows && rows[id].productId == productId ensures id in ids {}
  }

  /**
   * A column is added exactly when its product is there, its name is not a mandatory one, and no column of the product
   * has it; its row has the name as normalised, the next order, and the label - or else the name as given - without
   * blanks.
   */
  lemma AddAnswer(products: set<int>, rows: ColumnRows, productId: int, raw: string, q: ColumnRequest, id: int)
    requires id !in rows
    ensures var name, rows' := NormalizedName(raw), AfterCall(products, rows, AddCall(productId, raw, q, id));
            if && productId in products && (forall i :: 0 <= i < |MANDATORY_NAMES| ==> MANDATORY_NAMES[i] != name)
               && forall other :: other in rows && rows[other].productId == productId ==> rows[other].name != name
            then
              && id in rows' && rows' == rows[id := rows'[id]]
              && rows'[id].productId == productId && rows'[id].name == name
              && IsNextOrder(rows, productId, rows'[id].orderIndex)
              && rows'[id].spec.title == Strip(if q.title.Some? && |q.title.value| > 0 then q.title.value else raw)
              && rows'[id].spec.dataType == q.dataType && rows'[id].spec.required == q.required
              && rows'[id].spec.default == q.default
              && rows'[id].spec.allowed == (if q.allowed.Some? && |q.allowed.value| == 0 then None else q.allowed)
            else rows' == rows
  {
    NextOrderIs(rows, productId);
  }

  lemma SameIdsIff(rows: ColumnRows, productId: int, ids: seq<int>)
    ensures Elements(ids) == ColumnsOf(rows, productId) <==>
            forall id :: id in ids <==> id in rows && rows[id].productId == productId
  {
    forall id ensures (id in ids <==> id in Elements(ids))
                   && (id in ColumnsOf(rows, productId) <==> id in rows && rows[id].productId == productId) {}
    if forall id :: id in ids <==> id in rows && rows[id].productId == productId {
      assert Elements(ids) == ColumnsOf(rows, productId);
    }
  }

  /** An accepted reorder writes to each column its last position in the list, and nothing else. */
  lemma ReorderAnswer(products: set<int>, rows: ColumnRows, productId: int, ids: seq<int>)
    ensures var rows' := AfterCall(products, rows, ReorderCall(productId, ids));
            if && productId in products
               && forall id :: id in ids <==> id in rows && rows[id].productId == productId
            then
              && rows'.Keys == rows.Keys
              && (forall i :: 0 <= i < |ids| && ids[i] !in ids[i + 1..] ==>
                    ids[i] in rows && rows'[ids[i]] == rows[ids[i]].(orderIndex := i))
              && forall id :: id in rows && id !in ids ==> rows'[id] == rows[id]
            else rows' == rows
  {
    SameIdsIff(rows, productId, ids);
    forall i | 0 <= i < |ids| && ids[i] !in ids[i + 1..] ensures LastIndex(ids, ids[i]) == i {
      LastIndexIs(ids, ids[i], i);
    }
  }

  /** Columns are listed by order, and by id where orders are equal. */
  lemma ListedInOrder(rows: ColumnRows, productId: int)
    ensures var ids := Listed(rows, productId);
            && (forall id :: id in ids <==> id in rows && rows[id].productId == productId)
            && forall i, j :: 0 <= i < j < |ids| ==>
                 && ids[i] in rows && ids[j] in rows
                 && (|| rows[ids[i]].orderIndex < rows[ids[j]].orderIndex
                     || (rows[ids[i]].orderIndex == rows[ids[j]].orderIndex && ids[i] < ids[j]))
  {
    var ids := Listed(rows, productId);
    ListedFacts(rows, productId);
    forall i, j | 0 <= i < j < |ids|
      ensures && ids[i] in rows && ids[j] in rows
              && (|| rows[ids[i]].orderIndex < rows[ids[j]].orderIndex
                  || (rows[ids[i]].orderIndex == rows[ids[j]].orderIndex && ids[i] < ids[j]))
    {
      assert ids[i] in ids && ids[j] in ids && ByOrder(rows)(ids[i], ids[j]);
    }
  }

  // --- Distinct orders and names -----------------------------------------

  ghost predicate DistinctNames(rows: ColumnRows) {
    forall a, b :: a in rows && b in rows && a != b && rows[a].productId == rows[b].productId ==>
      rows[a].name != rows[b].name
  }

  /** Orders and names are distinct on every product, and no column is named like a mandatory one. */
  ghost predicate SoundTable(rows: ColumnRows) {
    && (forall q :: DistinctOrder(rows, q))
    && DistinctNames(rows)
    && forall id :: id in rows ==> rows[id].name !in MANDATORY_NAMES
  }

  lemma AddKeepsSound(rows: ColumnRows, productId: int, id: int, name: string, spec: ColumnSpec)
    requires SoundTable(rows) && id !in rows && name !in MANDATORY_NAMES && !NameTaken(rows, productId, name)
    ensures SoundTable(Added(rows, productId, id, name, spec))
  {
    var rows' := Added(rows, productId, id, name, spec);
    AddAppends(rows, productId, id, name, spec);
    forall q ensures DistinctOrder(rows', q) {
      assert DistinctOrder(rows, q);
    }
  }

  lemma ReorderKeepsSound(rows: ColumnRows, productId: int, ids: seq<int>)
    requires SoundTable(rows) && Elements(ids) == ColumnsOf(rows, productId)
    ensures SoundTable(Reordered(rows, ids))
  {
    ReorderLists(rows, productId, ids);
    forall q | q != productId ensures DistinctOrder(Reordered(rows, ids), q) {
      assert DistinctOrder(rows, q);
      assert forall x :: x in ids ==> x in Elements(ids);
    }
  }

  lemma CallKeepsSound(products: set<int>, rows: ColumnRows, c: TableCall)
    requires SoundTable(rows)
    ensures SoundTable(AfterCall(products, rows, c))
  {
    if AcceptedCall(products, rows, c) {
      match c
      case AddCall(p, raw, q, id) => AddKeepsSound(rows, p, id, NormalizedName(raw), SpecOf(raw, q));
      case DeleteCall(p, id) => DeleteRemoves(rows, id);
      case ReorderCall(p, ids) => ReorderKeepsSound(rows, p, ids);
    }
  }

  /** Whatever is added, deleted and reordered, on every product no two columns share an order or a name. */
  lemma {:induction false} RunKeepsSound(products: set<int>, rows: ColumnRows, calls: seq<TableCall>)
    requires SoundTable(rows)
    ensures SoundTable(RunTable(products, rows, calls))
  {
    if calls != [] {
      RunKeepsSound(products, rows, calls[..|calls| - 1]);
      CallKeepsSound(products, RunTable(products, rows, calls[..|calls| - 1]), calls[|calls| - 1]);
    }
  }

  // --- Plain names -------------------------------------------------------

  /** A name the exchange of custom columns can rely on: it survives the stored column list and is no fixed field's. */
  predicate PlainName(name: string) {
    Clean(name) && !Resolve(name).Fixed?
  }

  /** Normalising a name changes neither its blanks at the ends nor its commas. */
  lemma NormalizedIsCleanIff(raw: string)
    ensures Clean(NormalizedName(raw)) <==> Strip(raw) != "" && ',' !in Strip(raw)
  {
    var s, name := Strip(raw), NormalizedName(raw);
    assert |name| == |s|;
    forall i | 0 <= i < |s| ensures (name[i] == ',' <==> s[i] == ',') && (IsSpace(name[i]) ==> IsSpace(s[i])) {
      NormalizedChar(raw, i);
    }
  }

  lemma NormalizedChar(raw: string, i: int)
    requires 0 <= i < |Strip(raw)|
    ensures |NormalizedName(raw)| == |Strip(raw)|
    ensures var c, n := Strip(raw)[i], NormalizedName(raw)[i];
            (n == ',' <==> c == ',') && (IsSpace(n) ==> IsSpace(c))
  {
  }

  /** What a caller can check before adding a column. */
  lemma NormalizedIsPlainIff(raw: string)
    ensures PlainName(NormalizedName(raw)) <==>
            Strip(raw) != "" && ',' !in Strip(raw) && NormalizedName(raw) !in Swaps.FieldNames()
  {
    NormalizedIsCleanIff(raw);
    LedgerRuns.FixedNamesListed(NormalizedName(raw));
  }

  ghost predicate PlainRows(rows: ColumnRows) {
    forall id :: id in rows ==> PlainName(rows[id].name)
  }

  /** Call c is an accepted addition of a column with a blank name, a comma in it, or a fixed field's name. */
  predicate AddsUnplain(products: set<int>, rows: ColumnRows, c: TableCall) {
    && c.AddCall? && AcceptedCall(products, rows, c)
    && (Strip(c.rawName) == "" || ',' in Strip(c.rawName) || NormalizedName(c.rawName) in Swaps.FieldNames())
  }

  lemma CallKeepsPlainIff(products: set<int>, rows: ColumnRows, c: TableCall)
    requires PlainRows(rows)
    ensures PlainRows(AfterCall(products, rows, c)) <==> !AddsUnplain(products, rows, c)
  {
    var rows' := AfterCall(products, rows, c);
    if c.AddCall? && AcceptedCall(products, rows, c) {
      NormalizedIsPlainIff(c.rawName);
      assert c.newId in rows' && rows'[c.newId].name == NormalizedName(c.rawName);
    } else {
      forall id | id in rows' ensures id in rows && rows'[id].name == rows[id].name {}
    }
  }

  /** Call k of the sequence is such an addition. */
  predicate UnplainAt(products: set<int>, rows: ColumnRows, calls: seq<TableCall>, k: int)
    requires 0 <= k < |calls|
  {
    AddsUnplain(products, RunTable(products, rows, calls[..k]), calls[k])
  }

  ghost predicate PlainAfter(products: set<int>, rows: ColumnRows, calls: seq<TableCall>, k: int)
    requires 0 <= k <= |calls|
  {
    PlainRows(RunTable(products, rows, calls[..k]))
  }

  lemma StepKeepsPlainIff(products: set<int>, rows: ColumnRows, calls: seq<TableCall>, k: int)
    requires 0 <= k < |calls| && PlainAfter(products, rows, calls, k)
    ensures PlainAfter(products, rows, calls, k + 1) <==> !UnplainAt(products, rows, calls, k)
  {
    assert calls[..k + 1][..k] == calls[..k];
    CallKeepsPlainIff(products, RunTable(products, rows, calls[..k]), calls[k]);
  }

  lemma {:induction false} PlainUpTo(products: set<int>, rows: ColumnRows, calls: seq<TableCall>, k: int)
    requires PlainRows(rows) && 0 <= k <= |calls|
    requires forall i :: 0 <= i < |calls| ==> !UnplainAt(products, rows, calls, i)
    ensures PlainAfter(products, rows, calls, k)
  {
    if k == 0 {
      assert calls[..0] == [];
    } else {
      PlainUpTo(products, rows, calls, k - 1);
      StepKeepsPlainIff(products, rows, calls, k - 1);
    }
  }

  /** Templates stay plain throughout a sequence of calls exactly when no accepted call adds an unplain name. */
  lemma RunKeepsPlainIff(products: set<int>, rows: ColumnRows, calls: seq<TableCall>)
    requires PlainRows(rows)
    ensures (forall k :: 0 <= k <= |calls| ==> PlainAfter(products, rows, calls, k)) <==>
            forall k :: 0 <= k < |calls| ==> !UnplainAt(products, rows, calls, k)
  {
    if forall k :: 0 <= k < |calls| ==> !UnplainAt(products, rows, calls, k) {
      forall k | 0 <= k <= |calls| ensures PlainAfter(products, rows, calls, k) {
        PlainUpTo(products, rows, calls, k);
      }
    } else {
      var k :| 0 <= k < |calls| && UnplainAt(products, rows, calls, k);
      if PlainAfter(products, rows, calls, k) {
        StepKeepsPlainIff(products, rows, calls, k);
      }
    }
  }

  // --- A fixed field's name is accepted ----------------------------------

  /** No upper-case ASCII letter and no blank. */
  predicate IsNormal(s: string) {
    Trimmed(s) && forall i :: 0 <= i < |s| ==> !('A' <= s[i] <= 'Z') && s[i] != ' '
  }

  lemma NormalStays(s: string)
    requires IsNormal(s)
    ensures NormalizedName(s) == s
  {
  }

  lemma FieldNameIsNormal(f: Field)
    ensures IsNormal(FieldName(f))
  {
  }

  lemma FieldNameIsNotMandatory(f: Field)
    ensures FieldName(f) !in MANDATORY_NAMES
  {
  }

  /** Nothing keeps a custom column from being named like a fixed field: on an empty table the addition is accepted. */
  lemma FieldNameIsAccepted(products: set<int>, productId: int, f: Field, q: ColumnRequest, id: int)
    requires productId in products
    ensures var add := AddCall(productId, FieldName(f), q, id);
            && AcceptedCall(products, map[], add) && AddsUnplain(products, map[], add)
            && id in AfterCall(products, map[], add) && AfterCall(products, map[], add)[id].name == FieldName(f)
  {
    FieldNameIsNormal(f);
    FieldNameIsNotMandatory(f);
    NormalStays(FieldName(f));
    FullSwaps.FieldNameResolves(f);
    LedgerRuns.FixedNamesListed(FieldName(f));
  }
}
