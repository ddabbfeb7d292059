/** The column list of a swap request: request validation, and its comma-separated stored form. */
module ColumnNames {
  import opened Common
  import opened Text

  const MAX_COLUMN_NAME := 100

  /** The stripped entries of parts that are not blank, in order. */
  function NonBlank(parts: seq<string>): seq<string> {
    if parts == [] then []
    else
      var last := parts[|parts| - 1];
      NonBlank(parts[..|parts| - 1]) + if Strip(last) == "" then [] else [Strip(last)]
  }

  /** xs without its repeated elements, each kept where it first occurs. */
  function FirstOccurrences(xs: seq<string>): seq<string> {
    if xs == [] then []
    else
      var kept := FirstOccurrences(xs[..|xs| - 1]);
      if xs[|xs| - 1] in kept then kept else kept + [xs[|xs| - 1]]
  }

  /** x occurs in xs before y does. */
  ghost predicate OccursBefore(xs: seq<string>, x: string, y: string) {
    exists p :: 0 <= p < |xs| && xs[p] == x && y !in xs[..p + 1]
  }

  /** r lists its elements in the order in which xs first has them. */
  ghost predicate InOrderOf(xs: seq<string>, r: seq<string>) {
    forall i, j :: 0 <= i < j < |r| ==> OccursBefore(xs, r[i], r[j])
  }

  lemma OccursBeforeExtends(init: seq<string>, last: string, x: string, y: string)
    ensures OccursBefore(init, x, y) ==> OccursBefore(init + [last], x, y)
    ensures x in init && y !in init ==> OccursBefore(init + [last], x, y)
  {
    var xs := init + [last];
    forall p | 0 <= p < |init| && init[p] == x && y !in init[..p + 1] ensures OccursBefore(xs, x, y) {
      assert init[..p + 1] == xs[..p + 1];
    }
  }

  lemma {:induction false} FirstOccurrencesMeaning(xs: seq<string>)
    ensures Distinct(FirstOccurrences(xs))
    ensures forall x :: x in FirstOccurrences(xs) <==> x in xs
    ensures InOrderOf(xs, FirstOccurrences(xs))
  {
    if xs != [] {
      var n := |xs| - 1;
      var init, kept, r := xs[..n], FirstOccurrences(xs[..n]), FirstOccurrences(xs);
      assert xs == init + [xs[n]];
      FirstOccurrencesMeaning(init);
      forall i, j | 0 <= i < j < |r| ensures OccursBefore(xs, r[i], r[j]) {
        OccursBeforeExtends(init, xs[n], r[i], r[j]);
      }
    }
  }

  /** The `column_names` validator: strip, drop blanks and repeats, limit the length, refuse an empty list. */
  method ValidateColumnNames(value: Option<seq<string>>) returns (r: Result<Option<seq<string>>>)
    ensures r == ValidColumnNames(value)
  {
    if value.None? {
      return Ok(None);
    }
    var raws := value.value;
    var cleaned: seq<string> := [];
    for i := 0 to |raws|
      invariant cleaned == FirstOccurrences(NonBlank(raws[..i]))
      invariant !TooLong(NonBlank(raws[..i]))
    {
      var name := Strip(raws[i]);
      NonBlankStep(raws, i);
      if name != "" {
        TooLongStep(NonBlank(raws[..i]), name);
        if |name| > MAX_COLUMN_NAME {
          TooLongPrefix(raws, i + 1);
          return Err(Invalid);
        }
        FirstOccurrencesStep(NonBlank(raws[..i]), name);
        if name !in cleaned {
          cleaned := cleaned + [name];
        }
      }
    }
    assert raws[..|raws|] == raws;
    FirstOccurrencesEmpty(NonBlank(raws));
    if cleaned == [] {
      r := Err(Invalid);
    } else {
      r := Ok(Some(cleaned));
    }
  }

  /** Some name exceeds the stored field-name width. */
  predicate TooLong(names: seq<string>) {
    names != [] && (TooLong(names[..|names| - 1]) || |names[|names| - 1]| > MAX_COLUMN_NAME)
  }

  lemma TooLongStep(names: seq<string>, name: string)
    ensures TooLong(names + [name]) <==> TooLong(names) || |name| > MAX_COLUMN_NAME
  {
    assert (names + [name])[..|names|] == names;
  }

  lemma FirstOccurrencesEmpty(xs: seq<string>)
    ensures FirstOccurrences(xs) == [] <==> xs == []
  {
    FirstOccurrencesMeaning(xs);
    if xs != [] {
      assert xs[0] in xs;
    }
  }

  lemma NonBlankStep(parts: seq<string>, i: nat)
    requires i < |parts|
    ensures NonBlank(parts[..i + 1]) ==
            if Strip(parts[i]) == "" then NonBlank(parts[..i]) else NonBlank(parts[..i]) + [Strip(parts[i])]
  {
    assert parts[..i + 1][..i] == parts[..i];
  }

  lemma FirstOccurrencesStep(xs: seq<string>, x: string)
    ensures FirstOccurrences(xs + [x]) == FirstOccurrences(xs) + if x in FirstOccurrences(xs) then [] else [x]
  {
    assert (xs + [x])[..|xs|] == xs;
  }

  lemma {:induction false} TooLongPrefix(parts: seq<string>, i: nat)
    requires i <= |parts|
    ensures TooLong(NonBlank(parts[..i])) ==> TooLong(NonBlank(parts))
    decreases |parts| - i
  {
    if i == |parts| {
      assert parts[..i] == parts;
    } else {
      TooLongPrefix(parts, i + 1);
      NonBlankStep(parts, i);
      TooLongStep(NonBlank(parts[..i]), Strip(parts[i]));
    }
  }

  /** What validation answers: the distinct names in first-occurrence order, or a refusal. */
  function ValidColumnNames(value: Option<seq<string>>): Result<Option<seq<string>>> {
    match value
    case None => Ok(None)
    case Some(raws) =>
      var names := NonBlank(raws);
      if names == [] || TooLong(names) then Err(Invalid)
      else Ok(Some(FirstOccurrences(names)))
  }

  /** The columns a request names, or None for "every common column". */
  function ResolvedColumnNames(columnName: Option<string>, columnNames: Option<seq<string>>): Option<seq<string>> {
    if columnNames.Some? && columnNames.value != [] then columnNames
    else if columnName.Some? && Strip(columnName.value) != "" then Some([Strip(columnName.value)])
    else None
  }

  // --- Stored form -------------------------------------------------------

  /** `_encode_columns`. */
  function Encode(names: seq<string>): string {
    Join(names, ',')
  }

  /** `SwapRequest.column_names`. */
  function Decode(stored: string): seq<string> {
    if stored == "" then [] else NonBlank(Split(stored, ','))
  }

  /** A name that survives the stored form: not blank, no outer whitespace, no comma. */
  predicate Clean(name: string) {
    name != "" && Trimmed(name) && ',' !in name
  }

  lemma {:induction false} NonBlankEntries(parts: seq<string>, n: string) returns (p: string)
    requires n in NonBlank(parts)
    ensures n != "" && Trimmed(n) && p in parts && n == Strip(p)
  {
    if n in NonBlank(parts[..|parts| - 1]) {
      p := NonBlankEntries(parts[..|parts| - 1], n);
    } else {
      p := parts[|parts| - 1];
    }
  }

  lemma {:induction false} NonBlankOfClean(names: seq<string>)
    requires forall n :: n in names ==> n != "" && Trimmed(n)
    ensures NonBlank(names) == names
  {
    if names != [] {
      var init, last := names[..|names| - 1], names[|names| - 1];
      assert names == init + [last] && last in names;
      assert forall n :: n in init ==> n in names;
      NonBlankOfClean(init);
    }
  }

  /** The stored form gives the list back exactly when every name in it is clean. */
  lemma ColumnListRoundTrip(names: seq<string>)
    ensures Decode(Encode(names)) == names <==> forall n :: n in names ==> Clean(n)
  {
    if forall n :: n in names ==> Clean(n) {
      if names != [] {
        SplitJoin(names, ',');
        NonBlankOfClean(names);
        assert names[0] in names;
      }
    } else {
      forall n | n in Decode(Encode(names)) ensures Clean(n) {
        var p := NonBlankEntries(Split(Encode(names), ','), n);
        var i, j := StripMeaning(p);
      }
    }
  }

  /** Distinctness also survives: an explicit, comma-free request is decoded as validated. */
  lemma ExplicitRequestDecoded(raws: seq<string>, names: seq<string>)
    requires ValidColumnNames(Some(raws)) == Ok(Some(names))
    ensures Distinct(names) && names != [] && ResolvedColumnNames(None, Some(names)) == Some(names)
    ensures forall n :: n in names <==> n in NonBlank(raws)
    ensures InOrderOf(NonBlank(raws), names)
    ensures Decode(Encode(names)) == names <==> forall n :: n in names ==> ',' !in n
  {
    FirstOccurrencesMeaning(NonBlank(raws));
    ColumnListRoundTrip(names);
    assert NonBlank(raws)[0] in names;
    forall n | n in names ensures n != "" && Trimmed(n) {
      var p := NonBlankEntries(raws, n);
    }
  }
}
