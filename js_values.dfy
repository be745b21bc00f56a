/** The JavaScript values that reach the metadata route (header strings, form fields, the result
    of `JSON.parse`), with the parts of JavaScript's semantics the routes depend on: truthiness,
    the numeric reading used by `isNaN` and `<`/`>`, and `parseInt` with no radix.
    Numbers are exact reals: double rounding is not modelled. */
module JsValues {
  import opened JsStrings

  datatype Option<T> = None | Some(value: T)

  /** A JavaScript number. */
  datatype Numeric = Finite(r: real) | PosInfinity | NegInfinity | NaN

  /** A JavaScript value as JSON and the body parsers can produce it. `Obj` lists the object's own
      enumerable properties in enumeration order. */
  datatype JsValue =
    | Undefined
    | Null
    | Bool(b: bool)
    | Num(n: Numeric)
    | Str(s: string)
    | Arr(items: seq<JsValue>)
    | Obj(props: seq<Prop>)

  datatype Prop = Prop(key: string, value: JsValue)

  /** JavaScript truthiness: `undefined`, `null`, `false`, `0`, `NaN` and "" are falsy. */
  predicate Truthy(v: JsValue)
  {
    match v
    case Undefined => false
    case Null => false
    case Bool(b) => b
    case Num(n) => !(n == Finite(0.0) || n.NaN?)
    case Str(s) => s != ""
    case Arr(_) => true
    case Obj(_) => true
  }

  /** A header value is truthy: present and not empty. */
  predicate Given(h: Option<string>)
  {
    h.Some? && h.value != ""
  }

  // ---------------------------------------------------------------------------------------------
  // Characters and digits

  /** ECMAScript WhiteSpace and LineTerminator code points, which `Number(s)` and `parseInt`
      skip. */
  predicate IsJsSpace(c: char)
  {
    c in {'\t', '\n', '\U{000B}', '\U{000C}', '\r', ' ', '\U{00A0}', '\U{1680}', '\U{2028}',
          '\U{2029}', '\U{202F}', '\U{205F}', '\U{3000}', '\U{FEFF}'}
    || '\U{2000}' <= c <= '\U{200A}'
  }

  function TrimStart(s: string): (r: string)
    ensures |r| <= |s| && r == s[|s| - |r|..]
    ensures r == [] || !IsJsSpace(r[0])
    decreases |s|
  {
    if s != [] && IsJsSpace(s[0]) then
      var r := TrimStart(s[1..]);
      assert s[1..][|s[1..]| - |r|..] == s[|s| - |r|..];
      r
    else s
  }

  function TrimEnd(s: string): (r: string)
    ensures r <= s
    ensures r == [] || !IsJsSpace(r[|r| - 1])
    decreases |s|
  {
    if s != [] && IsJsSpace(s[|s| - 1]) then TrimEnd(s[..|s| - 1]) else s
  }

  /** The value of digit `c` in base `radix` (one of 2, 8, 10, 16), or -1. */
  function DigitValue(c: char, radix: nat): (d: int)
    ensures -1 <= d < radix
  {
    var v :=
      if '0' <= c <= '9' then c as int - '0' as int
      else if 'a' <= c <= 'z' then c as int - 'a' as int + 10
      else if 'A' <= c <= 'Z' then c as int - 'A' as int + 10
      else -1;
    if 0 <= v < radix then v else -1
  }

  predicate IsDigit(c: char, radix: nat)
  {
    DigitValue(c, radix) >= 0
  }

  predicate AllDigits(s: string, radix: nat)
  {
    forall i :: 0 <= i < |s| ==> IsDigit(s[i], radix)
  }

  /** The value of a digit string read most significant digit first. */
  function DigitsValue(s: string, radix: nat): (v: nat)
    requires AllDigits(s, radix)
    decreases |s|
  {
    if s == [] then 0
    else DigitsValue(s[..|s| - 1], radix) * radix + DigitValue(s[|s| - 1], radix)
  }

  /** The length of the longest prefix of `s` made of digits of base `radix`. */
  function DigitRun(s: string, radix: nat): (k: nat)
    ensures k <= |s|
    ensures AllDigits(s[..k], radix)
    ensures k == |s| || !IsDigit(s[k], radix)
    decreases |s|
  {
    if s != [] && IsDigit(s[0], radix) then
      var k := DigitRun(s[1..], radix);
      assert s[..k + 1] == [s[0]] + s[1..][..k];
      k + 1
    else 0
  }

  // ---------------------------------------------------------------------------------------------
  // Number(s): the StringNumericLiteral grammar of ECMAScript

  function Pow10(k: nat): (p: nat)
    ensures p >= 1
  {
    if k == 0 then 1 else 10 * Pow10(k - 1)
  }

  /** 10 to the power `e`, as a real. */
  function Scale(e: int): (r: real)
    ensures r > 0.0
  {
    if e >= 0 then Pow10(e) as real else 1.0 / Pow10(-e) as real
  }

  /** The reading of an unsigned decimal literal: digits, an optional fraction, an optional
      exponent; "Infinity" reads as infinity; anything else is NaN. */
  function UnsignedDecimal(u: string): Numeric
  {
    if u == "Infinity" then PosInfinity
    else
      var i := DigitRun(u, 10);
      FractionAndExponent(u[..i], u[i..])
  }

  /** What follows the integer digits: an optional '.' and fraction digits, then the exponent. */
  function FractionAndExponent(intPart: string, rest: string): Numeric
    requires AllDigits(intPart, 10)
  {
    if rest != [] && rest[0] == '.' then
      var j := DigitRun(rest[1..], 10);
      DecimalValue(intPart, rest[1..][..j], rest[1..][j..])
    else DecimalValue(intPart, "", rest)
  }

  /** The value of integer digits, fraction digits and an exponent tail: NaN when there is no
      digit at all or the tail is not an exponent. */
  function DecimalValue(intPart: string, frac: string, tail: string): Numeric
    requires AllDigits(intPart, 10) && AllDigits(frac, 10)
  {
    if |intPart| + |frac| == 0 then NaN
    else
      match Exponent(tail)
      case None => NaN
      case Some(e) =>
        var m := DigitsValue(intPart, 10) * Pow10(|frac|) + DigitsValue(frac, 10);
        Finite(m as real * Scale(e - |frac|))
  }

  /** The exponent of a decimal literal's tail: "" is 0, "e" or "E" then an optionally signed
      digit string is that value, anything else is not an exponent. */
  function Exponent(t: string): Option<int>
  {
    if t == [] then Some(0)
    else if t[0] != 'e' && t[0] != 'E' then None
    else
      var neg := |t| > 1 && t[1] == '-';
      var d := if |t| > 1 && (t[1] == '-' || t[1] == '+') then t[2..] else t[1..];
      if d == [] || !AllDigits(d, 10) then None
      else Some(if neg then -(DigitsValue(d, 10) as int) else DigitsValue(d, 10))
  }

  function Negate(n: Numeric): Numeric
  {
    match n
    case Finite(r) => Finite(-r)
    case PosInfinity => NegInfinity
    case NegInfinity => PosInfinity
    case NaN => NaN
  }

  /** `Number(s)` for a string: white space trimmed, "" reads as 0, then a 0x/0o/0b literal or a
      signed decimal literal; anything else is NaN. */
  function StringToNumber(s: string): Numeric
  {
    var t := TrimEnd(TrimStart(s));
    if t == [] then Finite(0.0)
    else if |t| >= 2 && t[0] == '0' && t[1] in "xXoObB" then
      var radix := if t[1] in "xX" then 16 else if t[1] in "oO" then 8 else 2;
      var d := t[2..];
      if d != [] && AllDigits(d, radix) then Finite(DigitsValue(d, radix) as real) else NaN
    else
      var signed := t[0] == '-' || t[0] == '+';
      var n := UnsignedDecimal(if signed then t[1..] else t);
      if t[0] == '-' then Negate(n) else n
  }

  // ---------------------------------------------------------------------------------------------
  // ToNumber, isNaN and the range comparisons of validateUserData

  /** The message of the TypeError that turning such a value into a primitive throws. */
  const ConversionFailure := "Cannot convert object to primitive value"

  /** Turning `v` into a primitive, as `isNaN`, `<` and `parseInt` do, throws a TypeError. An
      object with an own "toString" has no way to become a primitive: that property is not a
      function (no parsed value holds one), so it is skipped, and the inherited `valueOf` returns
      the object itself. An object without one becomes "[object Object]". An array becomes the
      join of its elements, so it throws exactly when one of its elements does. */
  predicate ConversionThrows(v: JsValue)
    decreases v
  {
    match v
    case Obj(props) => exists i :: 0 <= i < |props| && props[i].key == "toString"
    case Arr(items) => exists i :: 0 <= i < |items| && ConversionThrows(items[i])
    case _ => false
  }

  /** `Number(x)` for an element of an array that is being turned into a string first
      (`String([x])` is "" for null and undefined, "true"/"false" for booleans). */
  function ElementNumber(x: JsValue): Numeric
    decreases x, 1
  {
    match x
    case Undefined => Finite(0.0)
    case Null => Finite(0.0)
    case Bool(_) => NaN
    case _ => PrimitiveNumber(x)
  }

  /** The number a value reads as when its conversion does not throw. Objects read through their
      string "[object Object]"; arrays through their comma-joined string, so that a one-element
      array reads as its element and a longer one, whose string has a ',', as NaN. */
  function PrimitiveNumber(v: JsValue): Numeric
    decreases v, 0
  {
    match v
    case Undefined => NaN
    case Null => Finite(0.0)
    case Bool(b) => Finite(if b then 1.0 else 0.0)
    case Num(n) => n
    case Str(s) => StringToNumber(s)
    case Arr(items) =>
      if items == [] then Finite(0.0)
      else if |items| == 1 then ElementNumber(items[0])
      else NaN
    case Obj(_) => NaN
  }

  /** ECMAScript ToNumber, which `isNaN(x)`, `x < 0` and `x > n` apply to `x`: None when the
      conversion throws. */
  function ToNumber(v: JsValue): (r: Option<Numeric>)
    ensures r.None? <==> ConversionThrows(v)
    ensures r.Some? ==> r.value == PrimitiveNumber(v)
  {
    if ConversionThrows(v) then None else Some(PrimitiveNumber(v))
  }

  /** `n < bound` for a number `bound`. */
  predicate Below(n: Numeric, bound: int)
  {
    match n
    case Finite(r) => r < bound as real
    case NegInfinity => true
    case _ => false
  }

  /** `n > bound` for a number `bound`. */
  predicate Above(n: Numeric, bound: int)
  {
    match n
    case Finite(r) => r > bound as real
    case PosInfinity => true
    case _ => false
  }

  /** The test `v && (isNaN(v) || v < 0 || v > max)` of validateUserData: None when it throws,
      which happens in `isNaN`, before either comparison. A falsy `v` is never converted. */
  function RangeCheck(v: JsValue, max: int): Option<bool>
  {
    if !Truthy(v) then Some(false)
    else match ToNumber(v)
      case None => None
      case Some(n) => Some(n.NaN? || Below(n, 0) || Above(n, max))
  }

  /** The test holds without throwing. */
  predicate OutOfRange(v: JsValue, max: int)
  {
    RangeCheck(v, max) == Some(true)
  }

  /** The test throws exactly when converting `v` throws (such a value is always truthy), and it
      holds exactly when `v` is truthy, converts, and does not read as a number in [0, max]. */
  lemma OutOfRangeIff(v: JsValue, max: int)
    ensures RangeCheck(v, max).None? <==> ConversionThrows(v)
    ensures OutOfRange(v, max) <==>
      Truthy(v) && !ConversionThrows(v) &&
      !(PrimitiveNumber(v).Finite? && 0.0 <= PrimitiveNumber(v).r <= max as real)
  {
  }

  // ---------------------------------------------------------------------------------------------
  // parseInt(v) with no radix

  /** A number that is NaN or a finite integer. */
  predicate IntegerValued(v: JsValue)
  {
    v.Num? && (v.n.NaN? || (v.n.Finite? && v.n.r.Floor as real == v.n.r))
  }

  /** The number with the integer value `z`. */
  function IntegerNumber(z: int): (r: JsValue)
    ensures IntegerValued(r) && r == Num(Finite(z as real))
  {
    assert (z as real).Floor == z;
    Num(Finite(z as real))
  }

  /** `parseInt(s)` on a string: skip leading white space, then read ParseIntSigned. */
  function ParseIntString(s: string): (r: JsValue)
    ensures IntegerValued(r)
  {
    ParseIntSigned(TrimStart(s))
  }

  /** parseInt after the white space: an optional sign, then a "0x" or "0X" prefix switches to
      base 16; the longest run of digits that follows is the value, and no digit at all gives
      NaN. */
  function ParseIntSigned(t: string): (r: JsValue)
    ensures IntegerValued(r)
  {
    var neg := t != [] && t[0] == '-';
    var u := if t != [] && (t[0] == '-' || t[0] == '+') then t[1..] else t;
    match ParseIntUnsigned(u)
    case None => Num(NaN)
    case Some(m) => IntegerNumber(if neg then -(m as int) else m)
  }

  /** The digits parseInt reads after the sign: base 16 after "0x" or "0X", base 10 otherwise. */
  function ParseIntUnsigned(u: string): Option<nat>
  {
    var hex := |u| >= 2 && u[0] == '0' && (u[1] == 'x' || u[1] == 'X');
    var radix := if hex then 16 else 10;
    var w := if hex then u[2..] else u;
    var k := DigitRun(w, radix);
    if k == 0 then None else Some(DigitsValue(w[..k], radix))
  }

  /** The first digit of the decimal writing of a positive integer. */
  function LeadingDigit(n: nat): (d: nat)
    ensures d < 10
    ensures n > 0 ==> d > 0
  {
    if n < 10 then n else LeadingDigit(n / 10)
  }

  /** `parseInt(x)` for a number x: its string is read back. Between 1e-6 and 1e21 in magnitude
      that string is positional decimal, so the integer part (truncated toward zero) is read; at and
      above 1e21 it is exponent notation "d.ddde+21", so only the leading digit is read. Below
      1e-6 the string is also exponent notation; that case is read as its leading digit as well. */
  function ParseIntNumber(x: Numeric): (r: JsValue)
    ensures IntegerValued(r)
  {
    match x
    case Finite(r) =>
      var a := if r < 0.0 then -r else r;
      var m :=
        if a >= 1_000_000_000_000_000_000_000.0 then LeadingDigit(a.Floor)
        else if a == 0.0 || a >= 0.000001 then a.Floor
        else SmallLeadingDigit(a);
      IntegerNumber(if r < 0.0 then -(m as int) else m)
    case _ => Num(NaN)
  }

  /** The first significant digit of a real in (0, 1e-6). */
  function SmallLeadingDigit(a: real): (d: nat)
    requires 0.0 < a < 1.0
    ensures d < 10
    decreases (1.0 / a).Floor
  {
    if a * 10.0 >= 1.0 then (a * 10.0).Floor % 10
    else
      ReciprocalShrinks(a);
      SmallLeadingDigit(a * 10.0)
  }

  lemma ReciprocalShrinks(a: real)
    requires 0.0 < a && a * 10.0 < 1.0
    ensures 0 <= (1.0 / (a * 10.0)).Floor < (1.0 / a).Floor
  {
    var x := 1.0 / a;
    assert x > 10.0;
    assert 1.0 / (a * 10.0) == x / 10.0;
    assert x / 10.0 <= x - 9.0;
  }

  /** What parseInt reads from a value whose conversion does not throw: the value is turned into a
      string and read by ParseIntString. Arrays turn into their comma-joined string, of which
      parseInt reads only the first element's part, because a ',' ends the digits. */
  function ParseIntValue(v: JsValue): (r: JsValue)
    ensures IntegerValued(r)
  {
    match v
    case Num(x) => ParseIntNumber(x)
    case Str(s) => ParseIntString(s)
    case Arr(items) => if items == [] then Num(NaN) else ParseIntValue(items[0])
    case _ => Num(NaN) // "undefined", "null", "true", "false", "[object Object]"
  }

  /** `parseInt(v)` with no radix: None when turning `v` into a string throws, and otherwise NaN
      or an integer. */
  function ParseInt(v: JsValue): (r: Option<JsValue>)
    ensures r.None? <==> ConversionThrows(v)
    ensures r.Some? ==> IntegerValued(r.value) && r.value == ParseIntValue(v)
  {
    if ConversionThrows(v) then None else Some(ParseIntValue(v))
  }


  // ---------------------------------------------------------------------------------------------
  // What parseInt and Number read from a decimal string

  lemma {:induction false} TrimStartSkipsSpace(ws: string, x: string)
    requires forall i :: 0 <= i < |ws| ==> IsJsSpace(ws[i])
    requires x == [] || !IsJsSpace(x[0])
    ensures TrimStart(ws + x) == x
    decreases |ws|
  {
    if ws == [] {
      assert ws + x == x;
    } else {
      assert (ws + x)[1..] == ws[1..] + x;
      TrimStartSkipsSpace(ws[1..], x);
    }
  }

  lemma {:induction false} DigitRunOfDigits(d: string, rest: string, radix: nat)
    requires AllDigits(d, radix)
    requires rest == [] || !IsDigit(rest[0], radix)
    ensures DigitRun(d + rest, radix) == |d|
    ensures (d + rest)[..|d|] == d
    decreases |d|
  {
    if d == [] {
      assert d + rest == rest;
    } else {
      assert (d + rest)[1..] == d[1..] + rest;
      DigitRunOfDigits(d[1..], rest, radix);
    }
  }

  lemma DecimalDigitIsPlain(c: char)
    requires IsDigit(c, 10)
    ensures '0' <= c <= '9'
    ensures !IsJsSpace(c) && c != '-' && c != '+' && c != '.' && c != 'I'
  {
  }

  /** Leading white space does not change what parseInt reads. */
  lemma ParseIntSkipsSpace(ws: string, x: string)
    requires forall i :: 0 <= i < |ws| ==> IsJsSpace(ws[i])
    requires x == [] || !IsJsSpace(x[0])
    ensures ParseIntString(ws + x) == ParseIntSigned(x)
  {
    TrimStartSkipsSpace(ws, x);
  }

  /** A string whose first character is neither white space, a sign nor a digit reads as NaN. */
  lemma ParseIntNonDigit(s: string)
    requires s != [] && !IsJsSpace(s[0]) && s[0] != '-' && s[0] != '+' && !IsDigit(s[0], 10)
    ensures ParseIntString(s) == Num(NaN)
  {
    ParseIntSkipsSpace("", s);
    assert "" + s == s;
    assert s[0] != '0' by { assert IsDigit('0', 10); }
    assert DigitRun(s, 10) == 0;
  }

  /** A string of decimal digits followed by a non-digit (not an "x" after a lone "0") reads as
      the digits' value, after an optional '-' that negates it. */
  lemma ParseIntSignedDigits(negative: bool, d: string, rest: string)
    requires d != [] && AllDigits(d, 10)
    requires rest == [] || !IsDigit(rest[0], 10)
    requires !(d == "0" && rest != [] && (rest[0] == 'x' || rest[0] == 'X'))
    ensures var v := DigitsValue(d, 10) as real;
      ParseIntSigned((if negative then "-" else "") + (d + rest)) == Num(Finite(if negative then -v else v))
  {
    var u := d + rest;
    UnsignedReadsDigits(d, rest);
    if negative {
      var t := "-" + u;
      assert t[0] == '-' && t[1..] == u;
    } else {
      DecimalDigitIsPlain(d[0]);
      assert "" + u == u;
      assert u[0] == d[0];
    }
  }

  /** parseInt reads the leading decimal digits after white space and an optional '-': the form
      field "42" is 42, " -7 years" is -7, "12abc" is 12. */
  lemma ParseIntReadsDecimalPrefix(ws: string, negative: bool, d: string, rest: string)
    requires forall i :: 0 <= i < |ws| ==> IsJsSpace(ws[i])
    requires d != [] && AllDigits(d, 10)
    requires rest == [] || !IsDigit(rest[0], 10)
    requires !(d == "0" && rest != [] && (rest[0] == 'x' || rest[0] == 'X'))
    ensures var v := DigitsValue(d, 10) as real;
      ParseIntString(ws + (if negative then "-" else "") + d + rest)
        == Num(Finite(if negative then -v else v))
  {
    var x := (if negative then "-" else "") + (d + rest);
    assert ws + (if negative then "-" else "") + d + rest == ws + x;
    DecimalDigitIsPlain(d[0]);
    assert x[0] == (if negative then '-' else d[0]);
    ParseIntSkipsSpace(ws, x);
    ParseIntSignedDigits(negative, d, rest);
  }

  /** parseInt of a non-empty decimal digit string is its value. */
  lemma ParseIntOfDigits(d: string)
    requires d != [] && AllDigits(d, 10)
    ensures ParseIntString(d) == Num(Finite(DigitsValue(d, 10) as real))
  {
    DecimalDigitIsPlain(d[0]);
    ParseIntSkipsSpace("", d + "");
    assert "" + (d + "") == d + "" == d;
    ParseIntSignedDigits(false, d, "");
  }

  lemma UnsignedReadsDigits(d: string, rest: string)
    requires d != [] && AllDigits(d, 10)
    requires rest == [] || !IsDigit(rest[0], 10)
    requires !(d == "0" && rest != [] && (rest[0] == 'x' || rest[0] == 'X'))
    ensures ParseIntUnsigned(d + rest) == Some(DigitsValue(d, 10))
  {
    var u := d + rest;
    DigitRunOfDigits(d, rest, 10);
    var hex := |u| >= 2 && u[0] == '0' && (u[1] == 'x' || u[1] == 'X');
    assert !hex by {
      if |d| >= 2 {
        DecimalDigitIsPlain(d[1]);
        assert u[1] == d[1];
      } else if |u| >= 2 {
        assert u[1] == rest[0];
      }
    }
  }

  lemma UnsignedDecimalOfDigits(d: string)
    requires d != [] && AllDigits(d, 10)
    ensures UnsignedDecimal(d) == Finite(DigitsValue(d, 10) as real)
  {
    DecimalDigitIsPlain(d[0]);
    assert d != "Infinity";
    DigitRunOfDigits(d, [], 10);
    assert d + [] == d;
    assert d[..|d|] == d && d[|d|..] == [];
    assert FractionAndExponent(d, []) == DecimalValue(d, "", []);
    assert Pow10(0) == 1 && Scale(0) == 1.0;
  }

  /** Number(d) of a non-empty decimal digit string is its value. */
  lemma StringToNumberOfDigits(d: string)
    requires d != [] && AllDigits(d, 10)
    ensures StringToNumber(d) == Finite(DigitsValue(d, 10) as real)
  {
    DecimalDigitIsPlain(d[0]);
    DecimalDigitIsPlain(d[|d| - 1]);
    assert TrimStart(d) == d;
    assert TrimEnd(d) == d;
    if |d| >= 2 {
      DecimalDigitIsPlain(d[1]);
    }
    assert !(|d| >= 2 && d[0] == '0' && d[1] in "xXoObB");
    UnsignedDecimalOfDigits(d);
  }
}
