/** What validation stores for each kind of column, and when two hardware values count as the same, on the texts. */
module ValueRules {
  import opened Common
  import opened Text
  import opened Domain
  import opened TemplateValues
  import opened HardwareState

  // --- Blanks ------------------------------------------------------------

  /** The code points that count as blanks: tab to carriage return, the separators, space, and the Unicode spaces. */
  const BLANKS: set<int> :=
    {9, 10, 11, 12, 13, 28, 29, 30, 31, 32, 133, 160, 5760,
     8192, 8193, 8194, 8195, 8196, 8197, 8198, 8199, 8200, 8201, 8202, 8232, 8233, 8239, 8287, 12288}

  lemma BlanksAre(c: char)
    ensures IsSpace(c) <==> c as int in BLANKS
  {
  }

  // --- Numerals ----------------------------------------------------------

  predicate Digit(c: char) {
    c in "0123456789"
  }

  predicate BetweenDigits(s: string, i: int) {
    0 < i < |s| - 1 && Digit(s[i - 1]) && Digit(s[i + 1])
  }

  /** At least one digit; an underscore only between two digits. */
  predicate Numeral(s: string) {
    s != "" && forall i :: 0 <= i < |s| ==> Digit(s[i]) || (s[i] == '_' && BetweenDigits(s, i))
  }

  lemma DigitIff(c: char)
    ensures IsDigit(c) <==> Digit(c)
  {
  }

  lemma NumeralIff(s: string)
    ensures DigitGroups(s) <==> Numeral(s)
  {
    forall c ensures IsDigit(c) <==> Digit(c) {
      DigitIff(c);
    }
    if DigitGroups(s) {
      forall i | 0 <= i < |s| && s[i] == '_' ensures BetweenDigits(s, i) {
        assert IsDigit(s[i + 1]);
      }
    }
    if Numeral(s) {
      assert !BetweenDigits(s, 0) && !BetweenDigits(s, |s| - 1);
      forall i | 0 < i < |s| && s[i] == '_' ensures s[i - 1] != '_' {
        assert BetweenDigits(s, i);
      }
    }
  }

  /** The text without its underscores. */
  function Plain(s: string): string {
    if s == "" then "" else Plain(s[..|s| - 1]) + if s[|s| - 1] == '_' then "" else [s[|s| - 1]]
  }

  lemma DigitsAppend(head: string, last: char)
    requires (forall c :: c in head ==> IsDigit(c) || c == '_') && IsDigit(last)
    ensures (forall c :: c in head + [last] ==> IsDigit(c) || c == '_')
    ensures DigitsValue(head + [last]) == 10 * DigitsValue(head) + DigitValue(last)
  {
    assert (head + [last])[..|head|] == head;
  }

  lemma UnderscoreAppend(head: string)
    requires forall c :: c in head ==> IsDigit(c) || c == '_'
    ensures (forall c :: c in head + ['_'] ==> IsDigit(c) || c == '_')
    ensures DigitsValue(head + ['_']) == DigitsValue(head)
  {
    assert (head + ['_'])[..|head|] == head;
  }

  lemma {:induction false} PlainDigits(s: string)
    requires forall c :: c in s ==> IsDigit(c) || c == '_'
    ensures forall c :: c in Plain(s) ==> IsDigit(c)
    ensures DigitsValue(Plain(s)) == DigitsValue(s)
  {
    if s != "" {
      var head, last := s[..|s| - 1], s[|s| - 1];
      assert s == head + [last] && last in s;
      PlainDigits(head);
      if last != '_' {
        assert Plain(s) == Plain(head) + [last];
        DigitsAppend(head, last);
        DigitsAppend(Plain(head), last);
      } else {
        assert Plain(s) == Plain(head);
        UnderscoreAppend(head);
      }
    }
  }

  /** A number without leading zeros is printed back as it was written. */
  lemma {:induction false} PrintsBack(s: string)
    requires s != "" && (forall c :: c in s ==> IsDigit(c)) && (|s| > 1 ==> s[0] != '0')
    ensures PrintNat(DigitsValue(s)) == s
    ensures |s| > 1 ==> DigitsValue(s) >= 10
  {
    var head, last := s[..|s| - 1], s[|s| - 1];
    assert s == head + [last] && last in s;
    if |s| > 1 {
      assert head[0] == s[0] && s[0] in s;
      PrintsBack(head);
      LeadingDigit(head);
      var n, d := DigitsValue(head), DigitValue(last);
      assert (10 * n + d) / 10 == n && (10 * n + d) % 10 == d;
      assert DigitChar(d) == last;
    } else {
      assert head == "" && DigitsValue(s) == DigitValue(last) && DigitChar(DigitValue(last)) == last;
    }
  }

  lemma {:induction false} LeadingDigit(s: string)
    requires s != "" && (forall c :: c in s ==> IsDigit(c)) && s[0] != '0'
    ensures DigitsValue(s) > 0
  {
    var head, last := s[..|s| - 1], s[|s| - 1];
    assert s == head + [last] && last in s;
    if head != "" {
      LeadingDigit(head);
    } else {
      assert DigitsValue(s) == DigitValue(last);
    }
  }

  predicate Signed(s: string) {
    s != "" && (s[0] == '+' || s[0] == '-')
  }

  /** n is the number a numeral's digits write, underscores aside, negated after a minus sign. */
  predicate ReadsAs(body: string, negative: bool, n: int) {
    && (forall c :: c in Plain(body) ==> IsDigit(c))
    && n == (if negative then -1 else 1) * DigitsValue(Plain(body))
  }

  /**
   * Reading an integer: blanks around it and one sign are allowed, and it is refused exactly when the rest is no
   * numeral.
   */
  lemma ParseIntIff(text: string)
    ensures var s := Strip(text);
            var body := if Signed(s) then s[1..] else s;
            && (ParseInt(text).Some? <==> Numeral(body))
            && (Numeral(body) ==> ReadsAs(body, Signed(s) && s[0] == '-', ParseInt(text).value))
  {
    var s := Strip(text);
    var body := if Signed(s) then s[1..] else s;
    NumeralIff(body);
    if DigitGroups(body) {
      PlainDigits(body);
    }
  }

  // --- One value ---------------------------------------------------------

  const TRUE_WORDS := ["true", "1", "yes", "y"]
  const FALSE_WORDS := ["false", "0", "no", "n"]

  /**
   * A BOOLEAN column stores "True" or "False": a flag as itself, a text by its stripped, lower-cased word, a number 1
   * or 0; anything else is refused.
   */
  lemma BooleanStores(c: Column, text: string, n: int, b: bool)
    requires c.dataType == BooleanColumn
    ensures Serialize(c, RawBool(b)) == Some(if b then "True" else "False")
    ensures var word := Lower(Strip(text));
            Serialize(c, RawText(text)) == if word in TRUE_WORDS then Some("True")
                                           else if word in FALSE_WORDS then Some("False") else None
    ensures Serialize(c, RawInt(n)) == if n == 1 then Some("True") else if n == 0 then Some("False") else None
    ensures Serialize(c, RawNone) == None
  {
    NumberWord(n);
    NoneIsNoWord();
    ParseBoolIs(text, Lower(Strip(text)));
  }

  lemma NoneIsNoWord()
    ensures ParseBool("None") == None
  {
    assert Trimmed("None") && Lower("None") == "none";
  }

  lemma PrintsAs(n: int, k: int)
    ensures PrintInt(n) == PrintInt(k) <==> n == k
  {
    ParsePrintInt(n);
    ParsePrintInt(k);
  }

  lemma OneAndZero()
    ensures PrintInt(1) == "1" && PrintInt(0) == "0"
  {
  }

  lemma NumberWord(n: int)
    ensures ParseBool(PrintInt(n)) == if n == 1 then Some("True") else if n == 0 then Some("False") else None
  {
    OneAndZero();
    PrintsAs(n, 1);
    PrintsAs(n, 0);
    PrintedIsPlain(n);
    NotAWord(PrintInt(n));
    ParseBoolIs(PrintInt(n), PrintInt(n));
  }

  lemma OtherStart(s: string, w: string)
    requires s != "" && w != "" && s[0] != w[0]
    ensures s != w
  {
  }

  /** Reading a word. */
  lemma ParseBoolIs(text: string, word: string)
    requires word == Lower(Strip(text))
    ensures ParseBool(text) == if word in TRUE_WORDS then Some("True") else if word in FALSE_WORDS then Some("False")
                               else None
  {
  }

  lemma NotAWord(s: string)
    requires s != "" && (Digit(s[0]) || s[0] == '-')
    ensures s in TRUE_WORDS <==> s == "1"
    ensures s in FALSE_WORDS <==> s == "0"
  {
    OtherStart(s, "true");
    OtherStart(s, "yes");
    OtherStart(s, "y");
    OtherStart(s, "false");
    OtherStart(s, "no");
    OtherStart(s, "n");
  }

  /** A printed number is a word of digits and perhaps a minus sign. */
  lemma PrintedIsPlain(n: int)
    ensures var s := PrintInt(n); Strip(s) == s && Lower(s) == s && s != "" && (Digit(s[0]) || s[0] == '-')
  {
    var m: nat := if n < 0 then -n else n;
    PrintNatDigits(m);
    var s := PrintInt(n);
    forall i | 0 <= i < |s| ensures LowerChar(s[i]) == s[i] {
      assert s[i] in s;
      assert s[i] == '-' || IsDigit(s[i]);
    }
    DigitIff(s[0]);
  }

  /**
   * An INTEGER column stores a decimal numeral: a number printed, a flag as 1 or 0, a text as the number it reads as.
   */
  lemma IntegerStores(c: Column, text: string, n: int, b: bool)
    requires c.dataType == IntegerColumn
    ensures Serialize(c, RawInt(n)) == Some(PrintInt(n))
    ensures Serialize(c, RawBool(b)) == Some(if b then "1" else "0")
    ensures match ParseInt(text)
            case Some(k) => Serialize(c, RawText(text)) == Some(PrintInt(k))
            case None => Serialize(c, RawText(text)) == None
    ensures Serialize(c, RawNone) == None
  {
    assert PrintInt(1) == "1" && PrintInt(0) == "0";
  }

  /** A DROPDOWN column stores one of its allowed values as given, and refuses every other. */
  lemma DropdownStores(c: Column, text: string, n: int, b: bool)
    requires c.dataType == DropdownColumn
    ensures Serialize(c, RawText(text)) == if text in c.allowed then Some(text) else None
    ensures Serialize(c, RawInt(n)) == if PrintInt(n) in c.allowed then Some(PrintInt(n)) else None
    ensures var flag := if b then "True" else "False";
            Serialize(c, RawBool(b)) == if flag in c.allowed then Some(flag) else None
  {
  }

  /** A STRING column stores everything, as text. */
  lemma StringStores(c: Column, text: string, n: int, b: bool)
    requires c.dataType == StringColumn
    ensures Serialize(c, RawText(text)) == Some(text) && Serialize(c, RawInt(n)) == Some(PrintInt(n))
    ensures Serialize(c, RawBool(b)) == Some(if b then "True" else "False")
  {
  }

  /** A flag written as a number by one column is read as the same flag by another. */
  lemma FlagThroughNumber(integers: Column, flags: Column, b: bool)
    requires integers.dataType == IntegerColumn && flags.dataType == BooleanColumn
    ensures Serialize(integers, RawBool(b)).Some?
    ensures Serialize(flags, RawText(Serialize(integers, RawBool(b)).value)) == Serialize(flags, RawBool(b))
  {
    IntegerStores(integers, "", 0, b);
    BooleanStores(flags, if b then "1" else "0", 0, b);
    assert Lower(Strip("1")) == "1" && Lower(Strip("0")) == "0";
  }

  // --- One column --------------------------------------------------------

  /** A value is given: present, and neither missing nor the empty text. */
  predicate Given(c: Column, raw: map<string, Raw>) {
    c.name in raw && raw[c.name] != RawNone && raw[c.name] != RawText("")
  }

  /** A given value is stored or refused as its column says; otherwise the default, or a refusal if one is required. */
  lemma ColumnStores(c: Column, raw: map<string, Raw>)
    ensures Given(c, raw) ==>
              CellFor(c, raw) == match Serialize(c, raw[c.name]) case Some(t) => Stored(t) case None => Bad
    ensures !Given(c, raw) ==>
              CellFor(c, raw) == if c.default.Some? then Stored(c.default.value) else if c.required then Bad else Absent
  {
  }

  /** A template refuses a map exactly when a column refuses its value or the map has a name the template lacks. */
  lemma TemplateRefusesIff(cols: seq<Column>, raw: map<string, Raw>)
    ensures Validate(cols, raw).Err? <==>
            || (exists c :: c in cols && CellFor(c, raw).Bad?)
            || exists name :: name in raw && forall c :: c in cols ==> c.name != name
    ensures Validate(cols, raw).Err? ==> Validate(cols, raw).error == Invalid
  {
    if name :| name in raw && forall c :: c in cols ==> c.name != name {
      assert !NameIn(cols, name);
    }
    if Validate(cols, raw).Err? && !exists c :: c in cols && CellFor(c, raw).Bad? {
      var name :| name in raw && !NameIn(cols, name);
    }
  }

  /** The bad columns are those that refuse their value, by name, in template order. */
  lemma {:induction false} BadNamesAre(cols: seq<Column>, raw: map<string, Raw>)
    ensures var at := Where(cols, (c: Column) => CellFor(c, raw).Bad?);
            && |BadNames(cols, raw)| == |at|
            && forall i :: 0 <= i < |at| ==> 0 <= at[i] < |cols| && BadNames(cols, raw)[i] == cols[at[i]].name
  {
    if cols != [] {
      BadNamesAre(cols[..|cols| - 1], raw);
    }
    var at := Where(cols, (c: Column) => CellFor(c, raw).Bad?);
    assert forall i :: 0 <= i < |at| ==> at[i] in at;
  }

  // --- Original and current ----------------------------------------------

  /** A value as it is compared: nothing for a missing one, else without the blanks around it. */
  function Shown(value: Option<string>): string {
    if value.Some? then Strip(value.value) else ""
  }

  /**
   * A field is reported as changed exactly when an original is recorded for it - and, for a column, the column is known
   * - and the two values show differently.
   */
  lemma ChangedIff(s: State, names: ColumnNames, x: int, f: Field, k: int)
    requires s.HasSetup(x)
    ensures IsChanged(s, names, x, FixedKey(f)) <==>
            x in s.baselines && Shown(s.baselines[x][f]) != Shown(s.setups[x].fixed[f])
    ensures IsChanged(s, names, x, CustomKey(k)) <==>
            && (x, k) in s.customBaselines && k in names
            && Shown(s.customBaselines[(x, k)]) != Shown(if (x, k) in s.values then s.values[(x, k)] else None)
  {
  }

  /** An edit of a field counts exactly when it makes it show differently. */
  lemma EditedIff(before: Fields, after: Fields, f: Field, was: Cells, now: Cells, x: int, c: Column)
    ensures EditedField(before, after, f) <==> Shown(before[f]) != Shown(after[f])
    ensures EditedColumn(was, now, x, c) <==>
            Shown(if (x, c.id) in was.values then was.values[(x, c.id)] else None) !=
            Shown(if (x, c.id) in now.values then now.values[(x, c.id)] else None)
  {
  }
}
