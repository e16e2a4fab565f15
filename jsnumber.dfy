/** JavaScript's string-to-number conversions: `Number(string)` (the StringNumericLiteral
    grammar of ECMAScript) and `parseInt(string, 10)`. Values are exact reals: the rounding
    to the nearest double and the overflow to Infinity for huge literals are not modelled. */
module JsNumber {
  import opened Js
  import opened JsStrings

  /** A JavaScript number as far as this code can tell them apart. */
  datatype Num = Finite(r: real) | PosInf | NegInf | NaN

  predicate IsDigit(c: char) {
    '0' <= c <= '9'
  }

  predicate AllDigits(s: string) {
    forall i :: 0 <= i < |s| ==> IsDigit(s[i])
  }

  function DigitValue(c: char): (r: nat)
    requires IsDigit(c)
    ensures r < 10
  {
    c as int - '0' as int
  }

  function DigitChar(d: nat): (c: char)
    requires d < 10
    ensures IsDigit(c) && DigitValue(c) == d
  {
    ('0' as int + d) as char
  }

  /** The value of a decimal digit string, most significant digit first. */
  function DigitsValue(s: string): nat
    requires AllDigits(s)
    decreases |s|
  {
    if s == [] then 0 else DigitsValue(s[..|s| - 1]) * 10 + DigitValue(s[|s| - 1])
  }

  /** The decimal text of a natural number, as `String(n)` prints it. */
  function NatToString(n: nat): (r: string)
    ensures r != [] && AllDigits(r)
    ensures |r| > 1 ==> r[0] != '0'
    decreases n
  {
    if n < 10 then [DigitChar(n)] else NatToString(n / 10) + [DigitChar(n % 10)]
  }

  /** Printing a natural number and reading the digits back gives the number. */
  lemma {:induction false} NatToStringValue(n: nat)
    ensures DigitsValue(NatToString(n)) == n
    decreases n
  {
    if n >= 10 {
      var s := NatToString(n);
      assert s[..|s| - 1] == NatToString(n / 10);
      NatToStringValue(n / 10);
    }
  }

  /** The value of a digit in base 2, 8 or 16, or -1 when `c` is not such a digit. */
  function RadixDigit(c: char, radix: nat): (r: int)
    ensures r < radix || r == -1
  {
    var d :=
      if '0' <= c <= '9' then c as int - '0' as int
      else if 'a' <= c <= 'f' then c as int - 'a' as int + 10
      else if 'A' <= c <= 'F' then c as int - 'A' as int + 10
      else -1;
    if 0 <= d < radix then d else -1
  }

  predicate AllRadixDigits(s: string, radix: nat) {
    forall i :: 0 <= i < |s| ==> RadixDigit(s[i], radix) >= 0
  }

  function RadixValue(s: string, radix: nat): nat
    requires AllRadixDigits(s, radix)
    decreases |s|
  {
    if s == [] then 0 else RadixValue(s[..|s| - 1], radix) * radix + RadixDigit(s[|s| - 1], radix)
  }

  function Pow10(e: nat): (r: nat)
    ensures r >= 1
  {
    if e == 0 then 1 else 10 * Pow10(e - 1)
  }

  /** m * 10^e. */
  function Scale(m: nat, e: int): (r: real)
    ensures r >= 0.0
  {
    if e >= 0 then (m * Pow10(e)) as real else m as real / Pow10(-e) as real
  }

  /** The index of the first `e` or `E`, or -1. */
  function IndexOfExponent(s: string): (r: int)
    ensures -1 <= r < |s|
    ensures r >= 0 ==> s[r] == 'e' || s[r] == 'E'
    decreases |s|
  {
    if s == [] then -1
    else if s[0] == 'e' || s[0] == 'E' then 0
    else var k := IndexOfExponent(s[1..]); if k < 0 then -1 else k + 1
  }

  /** The exponent of a literal: an optional sign and at least one digit. */
  function ParseExponent(e: string): Option<int> {
    var neg := e != [] && e[0] == '-';
    var digits := if e != [] && (e[0] == '+' || e[0] == '-') then e[1..] else e;
    if digits != [] && AllDigits(digits) then
      var v: int := DigitsValue(digits);
      Some(if neg then -v else v)
    else None
  }

  /** The digits before the exponent: an integer part and an optional fraction after a
      single `.`, with at least one digit in all. The result is the value of all the digits
      and the number of fraction digits. */
  function ParseMantissa(mant: string): Option<(nat, nat)> {
    var di := IndexOf(mant, '.');
    var intPart := if di >= 0 then mant[..di] else mant;
    var frac := if di >= 0 then mant[di + 1..] else "";
    if AllDigits(intPart) && AllDigits(frac) && |intPart| + |frac| >= 1 then
      Some((DigitsValue(intPart) * Pow10(|frac|) + DigitsValue(frac), |frac|))
    else None
  }

  /** StrUnsignedDecimalLiteral without `Infinity`: a mantissa and an optional exponent. */
  function ParseDecimal(u: string): (r: Num)
    ensures r.Finite? || r.NaN?
    ensures r.Finite? ==> r.r >= 0.0
  {
    var ei := IndexOfExponent(u);
    var m := ParseMantissa(if ei >= 0 then u[..ei] else u);
    var e := if ei >= 0 then ParseExponent(u[ei + 1..]) else Some(0);
    if m.Some? && e.Some? then Finite(Scale(m.value.0, e.value - m.value.1)) else NaN
  }

  function ParseUnsigned(u: string): Num {
    if u == "Infinity" then PosInf else ParseDecimal(u)
  }

  function Negate(n: Num): Num {
    match n
    case Finite(r) => Finite(-r)
    case PosInf => NegInf
    case NegInf => PosInf
    case NaN => NaN
  }

  /** Digits after a `0x`, `0o` or `0b` prefix; no sign is allowed with these. */
  function ParseRadix(d: string, radix: nat): Num {
    if d != [] && AllRadixDigits(d, radix) then Finite(RadixValue(d, radix) as real) else NaN
  }

  /** `Number(s)` for a string: surrounding white space is ignored, the empty string is 0,
      and anything outside the grammar is NaN. */
  function StringToNumber(s: string): Num {
    var t := Trim(s);
    if t == "" then Finite(0.0)
    else if |t| >= 2 && t[0] == '0' && (t[1] == 'x' || t[1] == 'X') then ParseRadix(t[2..], 16)
    else if |t| >= 2 && t[0] == '0' && (t[1] == 'o' || t[1] == 'O') then ParseRadix(t[2..], 8)
    else if |t| >= 2 && t[0] == '0' && (t[1] == 'b' || t[1] == 'B') then ParseRadix(t[2..], 2)
    else if t[0] == '+' then ParseUnsigned(t[1..])
    else if t[0] == '-' then Negate(ParseUnsigned(t[1..]))
    else ParseUnsigned(t)
  }

  /** `Number(String(n))` is `n` for every natural number. */
  lemma NatToStringToNumber(n: nat)
    ensures StringToNumber(NatToString(n)) == Finite(n as real)
  {
    var t := NatToString(n);
    TrimNoSpace(t);
    assert IsDigit(t[0]) && (|t| >= 2 ==> IsDigit(t[1]));
    DigitsAsDecimal(t);
    NatToStringValue(n);
  }

  /** A non-empty run of decimal digits reads as its value. */
  lemma DigitsAsDecimal(t: string)
    requires t != [] && AllDigits(t)
    ensures ParseUnsigned(t) == Finite(DigitsValue(t) as real)
  {
    NoExponentInDigits(t);
    assert '.' !in t;
    assert t != "Infinity" by {
      assert IsDigit(t[0]);
    }
    assert ParseMantissa(t) == Some((DigitsValue(t), 0));
  }

  lemma {:induction false} NoExponentInDigits(s: string)
    requires AllDigits(s)
    ensures IndexOfExponent(s) == -1
    decreases |s|
  {
    if s != [] {
      NoExponentInDigits(s[1..]);
    }
  }

  /** The longest prefix of decimal digits. */
  function LeadingDigits(s: string): (r: string)
    ensures |r| <= |s| && AllDigits(r) && r == s[..|r|]
    ensures |r| < |s| ==> !IsDigit(s[|r|])
    decreases |s|
  {
    if s != [] && IsDigit(s[0]) then [s[0]] + LeadingDigits(s[1..]) else ""
  }

  /** `parseInt(s, 10)`: leading white space, an optional sign, then the longest run of
      decimal digits; `None` is NaN (no digit at all). */
  function ParseInt(s: string): (r: Option<int>)
  {
    var t := TrimStart(s);
    var neg := t != [] && t[0] == '-';
    var rest := if t != [] && (t[0] == '-' || t[0] == '+') then t[1..] else t;
    var digits := LeadingDigits(rest);
    if digits == "" then None
    else
      var v: int := DigitsValue(digits);
      Some(if neg then -v else v)
  }

  /** `parseInt` reads back the decimal text of a natural number. */
  lemma ParseIntNat(n: nat)
    ensures ParseInt(NatToString(n)) == Some(n)
  {
    var t := NatToString(n);
    assert TrimStart(t) == t;
    DigitsPrefix(t);
    NatToStringValue(n);
  }

  lemma {:induction false} DigitsPrefix(s: string)
    requires AllDigits(s)
    ensures LeadingDigits(s) == s
    decreases |s|
  {
    if s != [] {
      DigitsPrefix(s[1..]);
    }
  }
}
