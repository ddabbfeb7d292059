/** Python string operations the services rely on: strip, split and join, lower, decimal print and parse. */
module Text {
  import opened Common

  // --- Whitespace --------------------------------------------------------

  /** str.isspace() for one character. */
  predicate IsSpace(c: char) {
    || c == ' '
    || '\t' <= c <= '\r'
    || '\U{1C}' <= c <= '\U{1F}'
    || c == '\U{85}' || c == '\U{A0}' || c == '\U{1680}'
    || '\U{2000}' <= c <= '\U{200A}'
    || c == '\U{2028}' || c == '\U{2029}' || c == '\U{202F}' || c == '\U{205F}' || c == '\U{3000}'
  }

  /** Neither end of s is whitespace. */
  predicate Trimmed(s: string) {
    s == "" || (!IsSpace(s[0]) && !IsSpace(s[|s| - 1]))
  }

  /** str.strip(). */
  function Strip(s: string): (r: string)
    ensures Trimmed(r)
    ensures Trimmed(s) ==> r == s
  {
    if s == "" then s
    else if IsSpace(s[0]) then Strip(s[1..])
    else if IsSpace(s[|s| - 1]) then Strip(s[..|s| - 1])
    else s
  }

  /** Stripping only removes whitespace, and only at the ends. */
  lemma {:induction false} StripMeaning(s: string) returns (i: nat, j: nat)
    ensures i <= j <= |s| && Strip(s) == s[i..j]
    ensures forall k :: 0 <= k < |s| && !(i <= k < j) ==> IsSpace(s[k])
  {
    i, j := 0, |s|;
    if s == "" {
    } else if IsSpace(s[0]) {
      i, j := StripMeaning(s[1..]);
      i, j := i + 1, j + 1;
    } else if IsSpace(s[|s| - 1]) {
      i, j := StripMeaning(s[..|s| - 1]);
    }
  }

  // --- Splitting and joining ---------------------------------------------

  /** s.split(c): never empty. */
  function Split(s: string, c: char): (parts: seq<string>)
    ensures |parts| > 0
    ensures forall p :: p in parts ==> c !in p
  {
    if s == "" then [""]
    else
      var rest := Split(s[1..], c);
      if s[0] == c then [""] + rest else [[s[0]] + rest[0]] + rest[1..]
  }

  /** [c].join(parts). */
  function Join(parts: seq<string>, c: char): string {
    if parts == [] then ""
    else if |parts| == 1 then parts[0]
    else parts[0] + [c] + Join(parts[1..], c)
  }

  lemma {:induction false} SplitHead(p: string, rest: string, c: char)
    requires c !in p
    ensures Split(p + [c] + rest, c) == [p] + Split(rest, c)
  {
    if p == "" {
      assert (p + [c] + rest)[1..] == rest;
    } else {
      SplitHead(p[1..], rest, c);
      assert (p + [c] + rest)[1..] == p[1..] + [c] + rest;
      assert p == [p[0]] + p[1..];
    }
  }

  lemma {:induction false} SplitWhole(p: string, c: char)
    requires c !in p
    ensures Split(p, c) == [p]
  {
    if p != "" {
      SplitWhole(p[1..], c);
      assert p == [p[0]] + p[1..];
    }
  }

  /** Splitting undoes joining when no part contains the separator. */
  lemma {:induction false} SplitJoin(parts: seq<string>, c: char)
    requires parts != []
    requires forall p :: p in parts ==> c !in p
    ensures Split(Join(parts, c), c) == parts
  {
    if |parts| == 1 {
      SplitWhole(parts[0], c);
    } else {
      SplitJoin(parts[1..], c);
      SplitHead(parts[0], Join(parts[1..], c), c);
      assert parts == [parts[0]] + parts[1..];
    }
  }

  // --- Case folding ------------------------------------------------------

  /** str.lower() on ASCII letters. */
  function LowerChar(c: char): char {
    if 'A' <= c <= 'Z' then (c as int + 32) as char else c
  }

  function Lower(s: string): string {
    seq(|s|, i requires 0 <= i < |s| => LowerChar(s[i]))
  }

  // --- Decimal integers --------------------------------------------------

  predicate IsDigit(c: char) { '0' <= c <= '9' }

  function DigitChar(d: nat): (c: char)
    requires d < 10
    ensures IsDigit(c) && c as int == '0' as int + d
  {
    ('0' as int + d) as char
  }

  function PrintNat(n: nat): (s: string)
    ensures s != ""
    ensures forall c :: c in s ==> IsDigit(c)
    ensures DigitsValue(s) == n
  {
    if n < 10 then [DigitChar(n)]
    else
      var head, d := PrintNat(n / 10), DigitChar(n % 10);
      assert (head + [d])[..|head|] == head;
      head + [d]
  }

  /** str(n). */
  function PrintInt(n: int): string {
    if n < 0 then "-" + PrintNat(-n) else PrintNat(n)
  }

  /** Decimal digits, single underscores allowed between two digits. */
  predicate DigitGroups(s: string) {
    && s != "" && IsDigit(s[0]) && IsDigit(s[|s| - 1])
    && (forall i :: 0 <= i < |s| ==> IsDigit(s[i]) || s[i] == '_')
    && (forall i :: 0 < i < |s| && s[i] == '_' ==> s[i - 1] != '_')
  }

  function DigitValue(c: char): nat
    requires IsDigit(c)
  {
    var code, zero := c as int, '0' as int;
    code - zero
  }

  function DigitsValue(s: string): nat
    requires forall c :: c in s ==> IsDigit(c) || c == '_'
  {
    if s == "" then 0
    else
      var head, last := s[..|s| - 1], s[|s| - 1];
      assert last in s;
      if last == '_' then DigitsValue(head) else 10 * DigitsValue(head) + DigitValue(last)
  }

  /** int(text): surrounding whitespace, one optional sign, then digit groups. */
  function ParseInt(text: string): Option<int> {
    var s := Strip(text);
    var body := if s != "" && (s[0] == '-' || s[0] == '+') then s[1..] else s;
    if !DigitGroups(body) then None
    else if s[0] == '-' then var n: int := DigitsValue(body); Some(-n)
    else Some(DigitsValue(body))
  }

  lemma PrintNatDigits(n: nat)
    ensures DigitGroups(PrintNat(n)) && !IsSpace(PrintNat(n)[0]) && !IsSpace(PrintNat(n)[|PrintNat(n)| - 1])
    ensures PrintNat(n)[0] != '-' && PrintNat(n)[0] != '+'
  {
    var s := PrintNat(n);
    assert forall i :: 0 <= i < |s| ==> s[i] in s;
  }

  /** Decimal print and parse undo each other. */
  lemma ParsePrintInt(n: int)
    ensures ParseInt(PrintInt(n)) == Some(n)
  {
    var m: nat := if n < 0 then -n else n;
    PrintNatDigits(m);
    var s := PrintInt(n);
    assert Strip(s) == s;
    assert (if n < 0 then s[1..] else s) == PrintNat(m);
  }
}
