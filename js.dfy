/**
 * JavaScript runtime values and the coercions the client code performs on them:
 * truthiness, `String(v)`, `Number(s)`, `parseInt(s, 10)` and `===`.
 * Numbers are integers here; `NaN` is a value of its own.
 */
module Js {
  import opened Text

  datatype Value = Undef | Null | Bool(b: bool) | Num(n: int) | NaN | Str(s: string)

  /** A plain object such as a table row or a request payload; a missing key reads as `undefined`. */
  type Record = map<string, Value>

  function Get(r: Record, key: string): Value {
    if key in r then r[key] else Undef
  }

  /** JavaScript truthiness: `undefined`, `null`, `false`, `0`, `NaN` and `""` are falsy. */
  predicate Truthy(v: Value) {
    match v
    case Undef => false
    case Null => false
    case Bool(b) => b
    case Num(n) => n != 0
    case NaN => false
    case Str(s) => s != ""
  }

  /** `v === null || v === undefined`, the test behind `??`. */
  predicate IsNullish(v: Value) {
    v.Undef? || v.Null?
  }

  /** The TypeScript type `string | null | undefined`. */
  predicate IsNullableString(v: Value) {
    v.Undef? || v.Null? || v.Str?
  }

  /** The TypeScript type `number | null | undefined`. */
  predicate IsNullableNumber(v: Value) {
    v.Undef? || v.Null? || v.Num? || v.NaN?
  }

  /** `a === b`: structural equality, except that `NaN` equals nothing. */
  predicate StrictEquals(a: Value, b: Value) {
    a == b && !a.NaN?
  }

  function DigitChar(d: nat): char
    requires d < 10
  {
    ('0' as int + d) as char
  }

  predicate IsDigit(c: char) {
    '0' <= c <= '9'
  }

  predicate AllDigits(s: string) {
    forall i :: 0 <= i < |s| ==> IsDigit(s[i])
  }

  /** The decimal numeral of `n`, as `String(n)` writes it. */
  function NatToString(n: nat): (r: string)
    ensures |r| >= 1 && AllDigits(r)
  {
    if n < 10 then [DigitChar(n)] else NatToString(n / 10) + [DigitChar(n % 10)]
  }

  /** `String(n)` for an integer. */
  function IntToString(n: int): string {
    if n < 0 then "-" + NatToString(-n) else NatToString(n)
  }

  /** `String(v)`. */
  function ToStr(v: Value): string {
    match v
    case Undef => "undefined"
    case Null => "null"
    case Bool(b) => if b then "true" else "false"
    case Num(n) => IntToString(n)
    case NaN => "NaN"
    case Str(s) => s
  }

  /** The value of a string of decimal digits. */
  function DigitsValue(s: string): nat
    requires AllDigits(s)
  {
    if s == [] then 0 else DigitsValue(s[..|s| - 1]) * 10 + (s[|s| - 1] as int - '0' as int)
  }

  /** The longest prefix of `s` made of decimal digits. */
  function DigitPrefix(s: string): (r: string)
    ensures |r| <= |s| && r == s[..|r|] && AllDigits(r)
    ensures |r| < |s| ==> !IsDigit(s[|r|])
  {
    if s != [] && IsDigit(s[0]) then [s[0]] + DigitPrefix(s[1..]) else []
  }

  /**
   * `parseInt(s, 10)`: skip leading white space, read an optional sign, then the
   * longest run of decimal digits; no digit at all gives `NaN`.
   */
  function ParseInt(s: string): (r: Value)
    ensures r.Num? || r.NaN?
  {
    var t := TrimStart(s);
    var negative := t != [] && t[0] == '-';
    var body := if t != [] && (t[0] == '-' || t[0] == '+') then t[1..] else t;
    var digits := DigitPrefix(body);
    if digits == [] then NaN
    else if negative then Num(-(DigitsValue(digits) as int))
    else Num(DigitsValue(digits))
  }

  /**
   * `Number(s)` for a string, on its integer literals: surrounding white space is
   * ignored, blank text is 0, an optionally signed run of decimal digits is its
   * value, and anything else is `NaN`.
   */
  function StringToNumber(s: string): (r: Value)
    ensures r.Num? || r.NaN?
  {
    var t := Trim(s);
    if t == [] then Num(0) else NumeralValue(t)
  }

  /** The value of trimmed, non-blank text: an optionally signed run of digits, or `NaN`. */
  function NumeralValue(t: string): (r: Value)
    requires t != []
    ensures r.Num? || r.NaN?
  {
    var body := if t[0] == '-' || t[0] == '+' then t[1..] else t;
    if body == [] || !AllDigits(body) then NaN
    else if t[0] == '-' then Num(-(DigitsValue(body) as int))
    else Num(DigitsValue(body))
  }

  lemma {:induction false} NatToStringValue(n: nat)
    ensures DigitsValue(NatToString(n)) == n
  {
    var r := NatToString(n);
    if n >= 10 {
      NatToStringValue(n / 10);
      assert r[..|r| - 1] == NatToString(n / 10);
    }
  }

  lemma {:induction false} DigitPrefixOfDigits(s: string)
    requires AllDigits(s)
    ensures DigitPrefix(s) == s
  {
    if s != [] { DigitPrefixOfDigits(s[1..]); }
  }

  /** A numeral, signed or not, has no white space at either end. */
  lemma IntToStringShape(n: int)
    ensures var s := IntToString(n); |s| >= 1 && !IsSpace(s[0]) && !IsSpace(s[|s| - 1])
    ensures n < 0 ==> IntToString(n)[0] == '-' && IntToString(n)[1..] == NatToString(-n)
    ensures n >= 0 ==> IsDigit(IntToString(n)[0])
  {
    var m := if n < 0 then -n else n;
    var d := NatToString(m);
    assert IsDigit(d[0]) && IsDigit(d[|d| - 1]);
    if n < 0 {
      assert IntToString(n) == "-" + d;
      assert ("-" + d)[1..] == d;
    }
  }

  /** `parseInt(String(n), 10)` gives `n` back for every integer. */
  lemma ParseIntOfIntToString(n: int)
    ensures ParseInt(IntToString(n)) == Num(n)
  {
    var m := if n < 0 then -n else n;
    var digits := NatToString(m);
    NatToStringValue(m);
    DigitPrefixOfDigits(digits);
    var s := IntToString(n);
    IntToStringShape(n);
    assert TrimStart(s) == s;
    if n < 0 {
      assert s[1..] == digits;
    } else {
      assert s == digits;
    }
  }

  /** `Number(String(n))` gives `n` back for every integer. */
  lemma StringToNumberOfIntToString(n: int)
    ensures StringToNumber(IntToString(n)) == Num(n)
  {
    if n < 0 {
      var digits := NatToString(-n);
      assert DigitsValue(digits) == -n by {
        NatToStringValue(-n);
      }
      NegativeNumeral(digits);
    } else {
      assert DigitsValue(NatToString(n)) == n by {
        NatToStringValue(n);
      }
      PlainNumeral(NatToString(n));
    }
  }

  /** A `-` followed by digits reads as the negated digits. */
  lemma NegativeNumeral(digits: string)
    requires digits != [] && AllDigits(digits)
    ensures StringToNumber("-" + digits) == Num(-(DigitsValue(digits) as int))
  {
    var s := "-" + digits;
    assert s[0] == '-' && s[|s| - 1] == digits[|digits| - 1] && IsDigit(digits[|digits| - 1]);
    TrimUnpadded(s);
    assert s[1..] == digits;
    assert NumeralValue(s) == Num(-(DigitsValue(digits) as int));
  }

  /** A run of digits reads as its value. */
  lemma PlainNumeral(s: string)
    requires s != [] && AllDigits(s)
    ensures StringToNumber(s) == Num(DigitsValue(s))
  {
    assert IsDigit(s[0]) && IsDigit(s[|s| - 1]);
    TrimUnpadded(s);
    assert NumeralValue(s) == Num(DigitsValue(s));
  }
}
