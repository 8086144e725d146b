/** Python's `int(text)` on a `str`, base 10: surrounding whitespace is
    skipped, one optional sign, then decimal digits in which single underscores
    may separate digits. Leading zeros are accepted. Modelled over Latin-1, where
    the only decimal digits are 0-9. */
module PyInt {
  import opened Base

  /** The Latin-1 characters for which `str.isspace` holds. */
  predicate IsSpace(c: char) {
    c == ' ' || ('\t' <= c <= '\r') || ('\U{1C}' <= c <= '\U{1F}') || c == '\U{85}' || c == '\U{A0}'
  }

  predicate IsDigit(c: char) {
    '0' <= c <= '9'
  }

  function StripLeft(s: string): (r: string)
    ensures |r| <= |s| && r == s[|s| - |r|..]
    ensures r != [] ==> !IsSpace(r[0])
    decreases |s|
  {
    if s != [] && IsSpace(s[0]) then StripLeft(s[1..]) else s
  }

  function StripRight(s: string): (r: string)
    ensures |r| <= |s| && r == s[..|r|]
    ensures r != [] ==> !IsSpace(r[|r| - 1])
    decreases |s|
  {
    if s != [] && IsSpace(s[|s| - 1]) then StripRight(s[..|s| - 1]) else s
  }

  /** A digit string as `int` accepts it: at least one digit, digits and
      underscores only, no underscore first, last or next to another. */
  predicate WellFormedDigits(b: string) {
    && |b| > 0
    && IsDigit(b[0])
    && IsDigit(b[|b| - 1])
    && (forall i :: 0 <= i < |b| ==> IsDigit(b[i]) || b[i] == '_')
    && (forall i :: 0 <= i < |b| - 1 ==> b[i] == '_' ==> b[i + 1] != '_')
  }

  /** The number that the digits of `b` denote, underscores skipped. */
  function DigitsValue(b: string): (n: nat)
    decreases |b|
  {
    if b == [] then 0
    else if IsDigit(b[|b| - 1]) then DigitsValue(b[..|b| - 1]) * 10 + (b[|b| - 1] as int - '0' as int)
    else DigitsValue(b[..|b| - 1])
  }

  /** `int(text)`: `None` where Python raises `ValueError`. Text without a
      digit (the empty string included) never parses, and a negative value
      needs a minus sign. */
  function ParseInt(text: string): (r: Option<int>)
    ensures r.Some? ==> exists i :: 0 <= i < |text| && IsDigit(text[i])
    ensures r.Some? && r.value < 0 ==> '-' in text
  {
    var l := StripLeft(text);
    var t := StripRight(l);
    assert forall i :: 0 <= i < |t| ==> t[i] == text[|text| - |l| + i];
    ParseStripped(t)
  }

  /** `int` on text whose surrounding whitespace is already stripped: an
      optional sign, then the digits. */
  function ParseStripped(t: string): (r: Option<int>)
    ensures r.Some? ==> exists i :: 0 <= i < |t| && IsDigit(t[i])
    ensures r.Some? && r.value < 0 ==> t != [] && t[0] == '-'
  {
    var negative := t != [] && t[0] == '-';
    var body := if t != [] && (t[0] == '-' || t[0] == '+') then t[1..] else t;
    if WellFormedDigits(body) then
      assert IsDigit(t[|t| - |body|]);
      var magnitude: int := DigitsValue(body);
      Some(if negative then -magnitude else magnitude)
    else
      None
  }

  /** `str(n)` for a natural number: its decimal digits, most significant first. */
  function Decimal(n: nat): (s: string)
    ensures |s| > 0
    ensures forall i :: 0 <= i < |s| ==> IsDigit(s[i])
    decreases n
  {
    if n < 10 then [('0' as int + n) as char]
    else Decimal(n / 10) + [('0' as int + n % 10) as char]
  }

  lemma {:induction false} DecimalValue(n: nat)
    ensures DigitsValue(Decimal(n)) == n
    decreases n
  {
    var s := Decimal(n);
    if n < 10 {
      assert s[..0] == [];
    } else {
      DecimalValue(n / 10);
      assert s[..|s| - 1] == Decimal(n / 10);
    }
  }

  /** Text that neither starts nor ends with a blank is not stripped. */
  lemma StripUnchanged(s: string)
    requires s != [] && !IsSpace(s[0]) && !IsSpace(s[|s| - 1])
    ensures StripRight(StripLeft(s)) == s
  {
  }

  lemma DecimalWellFormed(n: nat)
    ensures WellFormedDigits(Decimal(n))
    ensures !IsSpace(Decimal(n)[0]) && !IsSpace(Decimal(n)[|Decimal(n)| - 1])
  {
  }

  /** `int(str(n)) == n`: the text a non-negative count is written as parses
      back to that count. */
  lemma DecimalRoundTrip(n: nat)
    ensures ParseInt(Decimal(n)) == Some(n)
  {
    var s := Decimal(n);
    DecimalValue(n);
    DecimalWellFormed(n);
    StripUnchanged(s);
  }

  /** A minus sign before well-formed digits negates their value. */
  lemma ParseStrippedNegative(b: string)
    requires WellFormedDigits(b)
    ensures ParseStripped("-" + b) == Some(-(DigitsValue(b) as int))
  {
    var t := "-" + b;
    assert t[0] == '-' && t[1..] == b;
  }

  /** `int("-" + digits)`: a minus sign negates the value of the digits. */
  lemma ParseNegative(b: string)
    requires WellFormedDigits(b)
    ensures ParseInt("-" + b) == Some(-(DigitsValue(b) as int))
  {
    var t := "-" + b;
    assert t[0] == '-' && t[|t| - 1] == b[|b| - 1];
    StripUnchanged(t);
    ParseStrippedNegative(b);
  }
}
