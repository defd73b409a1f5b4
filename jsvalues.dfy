/** The JavaScript values the route handlers receive (request bodies, query strings, token
    payloads) and the conversions the handlers apply to them: truthiness, `Number(x)`,
    `parseInt(s)`, strict equality, and the integer a value denotes when it is bound to
    `WHERE id = ?` against an INTEGER column. */
module JsValues {
  import opened Text

  /** A JavaScript number.  Finite values are kept as exact reals; binary64 rounding is not
      modelled. */
  datatype JsNumber = NaN | PosInf | NegInf | Finite(r: real)

  /** A value as it arrives from JSON, a query string or a token payload.  Plain objects are
      opaque, `ref` standing for their identity; arrays keep their elements. */
  datatype Value = Undefined | Null | Bool(b: bool) | Num(n: JsNumber) | Str(s: string) | Obj(ref: int)
                 | Arr(items: seq<Value>)

  /** ToBoolean: what `if (x)` and `!x` test. */
  predicate Truthy(v: Value) {
    match v
    case Undefined => false
    case Null => false
    case Bool(b) => b
    case Num(n) => n != NaN && n != Finite(0.0)
    case Str(s) => s != ""
    case Obj(_) => true
    case Arr(_) => true
  }

  /** `x ?? y` takes y exactly when x is null or undefined. */
  function Coalesce(x: Value, y: Value): (r: Value)
    ensures r == (if x == Undefined || x == Null then y else x)
  {
    if x.Undefined? || x.Null? then y else x
  }

  /** `a === b` on numbers: NaN equals nothing, not even itself. */
  predicate NumberEquals(a: JsNumber, b: JsNumber) {
    a != NaN && a == b
  }

  /** `a === b`: same type and same value; objects by identity (the reference `Obj` carries).
      An `Arr` carries no identity here and compares by its elements, so two distinct arrays
      with equal elements count as equal, which `===` would not. */
  predicate StrictEquals(a: Value, b: Value) {
    if a.Num? && b.Num? then NumberEquals(a.n, b.n) else a == b
  }

  lemma StrictEqualsFacts(a: Value, b: Value)
    ensures StrictEquals(a, b) == StrictEquals(b, a)
    ensures StrictEquals(a, b) ==> a == b
    ensures a == b && a != Num(NaN) ==> StrictEquals(a, b)
  {
  }

  /** Property lookup on a plain object: a missing key reads as `undefined`. */
  function Lookup(m: map<string, Value>, k: string): (v: Value)
    ensures k !in m ==> v == Undefined
  {
    if k in m then m[k] else Undefined
  }

  /** `req.body || {}`: the parsed body object, empty when there is none. */
  function BodyObject(body: Option<map<string, Value>>): (m: map<string, Value>)
    ensures forall k :: Lookup(m, k) == BodyValue(body, k)
  {
    if body.Some? then body.value else map[]
  }

  /** `(req.body || {})[k]`: a field of the request body, undefined when there is no body. */
  function BodyValue(body: Option<map<string, Value>>, k: string): (v: Value)
    ensures body.Some? && k in body.value ==> v == body.value[k]
    ensures body.None? ==> v == Undefined
  {
    if body.Some? then Lookup(body.value, k) else Undefined
  }

  // ---------------------------------------------------------------------------------------
  // Digits in a radix

  /** The weight of c as a digit in radixes up to 36, or 36 when c is no digit at all. */
  function DigitWeight(c: char): (w: int)
    ensures 0 <= w <= 36
  {
    if '0' <= c <= '9' then c as int - '0' as int
    else if 'a' <= c <= 'z' then c as int - 'a' as int + 10
    else if 'A' <= c <= 'Z' then c as int - 'A' as int + 10
    else 36
  }

  predicate IsDigitIn(c: char, radix: int) {
    DigitWeight(c) < radix
  }

  predicate AllDigitsIn(s: string, radix: int) {
    forall i :: 0 <= i < |s| ==> IsDigitIn(s[i], radix)
  }

  /** The value of s read in the given radix, most significant digit first. */
  function ValueIn(s: string, radix: nat): nat
    requires AllDigitsIn(s, radix)
  {
    if s == [] then 0 else ValueIn(s[..|s| - 1], radix) * radix + DigitWeight(s[|s| - 1])
  }

  /** Length of the longest prefix of s made of digits of the radix. */
  function DigitRun(s: string, radix: int): (k: nat)
    ensures k <= |s| && AllDigitsIn(s[..k], radix)
    ensures k < |s| ==> !IsDigitIn(s[k], radix)
  {
    if s != [] && IsDigitIn(s[0], radix) then
      var k := 1 + DigitRun(s[1..], radix);
      assert forall i :: 1 <= i < k ==> s[..k][i] == s[1..][..k - 1][i - 1];
      k
    else 0
  }

  lemma AllDigitsInConcat(a: string, b: string, radix: int)
    requires AllDigitsIn(a, radix) && AllDigitsIn(b, radix)
    ensures AllDigitsIn(a + b, radix)
  {
    forall i | 0 <= i < |a + b|
      ensures IsDigitIn((a + b)[i], radix)
    {
      if i >= |a| {
        assert (a + b)[i] == b[i - |a|];
      }
    }
  }

  lemma DigitRunWhole(s: string, radix: int)
    requires DigitRun(s, radix) == |s|
    ensures AllDigitsIn(s, radix)
  {
    assert s[..|s|] == s;
  }

  /** In radix 10 the digits are the decimal digits and read as DigitsValue reads them. */
  lemma {:induction false} ValueInTen(s: string)
    requires AllDigits(s)
    ensures AllDigitsIn(s, 10) && ValueIn(s, 10) == DigitsValue(s)
  {
    if s != [] {
      ValueInTen(s[..|s| - 1]);
    }
  }

  function Pow10(n: nat): (p: nat)
    ensures p >= 1
  {
    if n == 0 then 1 else 10 * Pow10(n - 1)
  }

  /** m * 10^e for an integral exponent. */
  function Scale(m: nat, e: int): real {
    if e >= 0 then (m * Pow10(e)) as real else m as real / Pow10(-e) as real
  }

  // ---------------------------------------------------------------------------------------
  // Number(x)

  /** The signed integer of an ExponentPart: optional sign, then at least one digit. */
  function SignedDigits(s: string): Option<int> {
    var neg := s != [] && s[0] == '-';
    var body := if s != [] && (s[0] == '-' || s[0] == '+') then s[1..] else s;
    if body != [] && DigitRun(body, 10) == |body| then
      var v: int := ValueIn(body, 10);
      Some(if neg then -v else v)
    else None
  }

  /** Index of the first `e` or `E` of s, or |s|. */
  function ExponentMark(s: string): (k: nat)
    ensures k <= |s| && (k < |s| ==> s[k] == 'e' || s[k] == 'E')
    ensures forall i :: 0 <= i < k ==> s[i] != 'e' && s[i] != 'E'
  {
    if s == [] || s[0] == 'e' || s[0] == 'E' then 0 else 1 + ExponentMark(s[1..])
  }

  /** StrUnsignedDecimalLiteral: `Infinity`, or digits with an optional fraction (at least
      one digit in all) and an optional exponent; NaN for anything else. */
  function UnsignedDecimal(t: string): JsNumber {
    if t == "Infinity" then PosInf
    else
      var k := ExponentMark(t);
      DecimalLiteral(t[..k], if k == |t| then Some(0) else SignedDigits(t[k + 1..]))
  }

  /** The mantissa before the exponent mark, with the exponent read after it (None when that
      is no signed integer). */
  function DecimalLiteral(mantissa: string, exp: Option<int>): JsNumber {
    var i := DigitRun(mantissa, 10);
    var intPart, rest := mantissa[..i], mantissa[i..];
    if rest != [] && rest[0] != '.' then NaN
    else
      var frac := if rest == [] then "" else rest[1..];
      if DigitRun(frac, 10) != |frac| || (intPart == [] && frac == []) then NaN
      else if exp.None? then NaN
      else
        DigitRunWhole(frac, 10);
        AllDigitsInConcat(intPart, frac, 10);
        Finite(Scale(ValueIn(intPart + frac, 10), exp.value - |frac|))
  }

  function Negate(n: JsNumber): JsNumber {
    match n
    case NaN => NaN
    case PosInf => NegInf
    case NegInf => PosInf
    case Finite(r) => Finite(-r)
  }

  /** StringToNumber: surrounding white space is ignored, the empty string is 0, `0x`/`0o`/`0b`
      introduce unsigned integers in radix 16, 8 and 2, and every other text must be a signed
      decimal literal.  Numeric separators are not allowed in this grammar. */
  function StringToNumber(s: string): JsNumber {
    var t := Trim(s);
    if t == "" then Finite(0.0)
    else if |t| >= 2 && t[0] == '0' && (t[1] in "xXoObB") then
      var radix := if t[1] in "xX" then 16 else if t[1] in "oO" then 8 else 2;
      var body := t[2..];
      if body != [] && DigitRun(body, radix) == |body| then Finite(ValueIn(body, radix) as real) else NaN
    else if t[0] == '+' then UnsignedDecimal(t[1..])
    else if t[0] == '-' then Negate(UnsignedDecimal(t[1..]))
    else UnsignedDecimal(t)
  }

  /** `Number(v)`.  A plain object reads its text "[object Object]", which is NaN.  An array
      reads the text of its elements joined with commas: no element is "", which is 0; two or
      more contain a comma, which is NaN; a single element gives its own text, which is ""
      for null and undefined, "true" or "false" for a boolean, and a text that reads back as
      the number itself for a number. */
  function ToNumber(v: Value): JsNumber {
    match v
    case Undefined => NaN
    case Null => Finite(0.0)
    case Bool(b) => Finite(if b then 1.0 else 0.0)
    case Num(n) => n
    case Str(s) => StringToNumber(s)
    case Obj(_) => NaN
    case Arr(items) =>
      if |items| == 0 then Finite(0.0)
      else if |items| > 1 then NaN
      else match items[0]
        case Undefined => Finite(0.0)
        case Null => Finite(0.0)
        case Bool(_) => NaN
        case _ => ToNumber(items[0])
  }

  /** `x <= 0` on a number: false for NaN. */
  predicate AtMostZero(n: JsNumber) {
    n == NegInf || (n.Finite? && n.r <= 0.0)
  }

  lemma {:induction false} DecimalHasNoExponentMark(n: nat)
    ensures ExponentMark(Decimal(n)) == |Decimal(n)|
  {
    var s, k := Decimal(n), ExponentMark(Decimal(n));
    assert k < |s| ==> IsDigit(s[k]);
  }

  lemma {:induction false} DigitRunOfDigits(d: string, rest: string)
    requires AllDigits(d)
    requires rest == [] || !IsDigit(rest[0])
    ensures DigitRun(d + rest, 10) == |d|
  {
    if d != [] {
      assert (d + rest)[1..] == d[1..] + rest;
      DigitRunOfDigits(d[1..], rest);
    } else if rest != [] {
      assert (d + rest)[0] == rest[0];
    }
  }

  /** A non-empty run of decimal digits with exponent 0 is a mantissa with that value. */
  lemma DecimalLiteralOfDigits(s: string)
    requires s != [] && AllDigits(s)
    ensures DecimalLiteral(s, Some(0)) == Finite(DigitsValue(s) as real)
  {
    assert s + [] == s;
    DigitRunOfDigits(s, []);
    assert s[..|s|] == s && s[|s|..] == [];
    ValueInTen(s);
    assert s + "" == s;
    assert Scale(ValueIn(s + "", 10), 0) == DigitsValue(s) as real;
  }

  /** A non-empty run of decimal digits is a decimal literal with that value. */
  lemma UnsignedDecimalOfDigits(s: string)
    requires s != [] && AllDigits(s)
    requires ExponentMark(s) == |s|
    ensures UnsignedDecimal(s) == Finite(DigitsValue(s) as real)
  {
    assert IsDigit(s[0]) && s != "Infinity";
    assert s[..ExponentMark(s)] == s;
    DecimalLiteralOfDigits(s);
  }

  /** `Number(String(n))` is n for every natural number n. */
  lemma DecimalToNumber(n: nat)
    ensures StringToNumber(Decimal(n)) == Finite(n as real)
  {
    var s := Decimal(n);
    assert IsDigit(s[0]);
    TrimOfTrimmed(s);
    assert Trim(s) == s;
    assert !(|s| >= 2 && s[0] == '0' && s[1] in "xXoObB") by {
      if |s| >= 2 {
        assert IsDigit(s[1]);
      }
    }
    assert StringToNumber(s) == UnsignedDecimal(s);
    DecimalHasNoExponentMark(n);
    UnsignedDecimalOfDigits(s);
    DecimalRoundTrip(n);
  }

  // ---------------------------------------------------------------------------------------
  // parseInt(s) and Number.parseInt(s, 10)

  /** `parseInt(s)` (Auto: a `0x`/`0X` prefix selects radix 16) or `parseInt(s, 10)`. */
  datatype Radix = Auto | Ten

  /** Leading white space is skipped, then an optional sign, then the longest run of digits;
      NaN when that run is empty.  Whatever follows the run is ignored. */
  function ParseInt(s: string, radix: Radix): (n: JsNumber)
    ensures n.Finite? || n == NaN
  {
    ParseSigned(TrimStart(s), radix)
  }

  /** An optional sign, then the unsigned part; the minus negates what the digits read as. */
  function ParseSigned(t: string, radix: Radix): (n: JsNumber)
    ensures n.Finite? || n == NaN
  {
    var neg := t != [] && t[0] == '-';
    var v := ParseUnsigned(if t != [] && (t[0] == '-' || t[0] == '+') then t[1..] else t, radix);
    if neg then Negate(v) else v
  }

  /** In Auto mode a `0x`/`0X` prefix selects radix 16; the longest run of digits of the radix
      is read, and an empty run is NaN. */
  function ParseUnsigned(u: string, radix: Radix): (n: JsNumber)
    ensures n.Finite? || n == NaN
  {
    var hex := radix == Auto && |u| >= 2 && u[0] == '0' && (u[1] == 'x' || u[1] == 'X');
    var r: nat := if hex then 16 else 10;
    var body := if hex then u[2..] else u;
    var k := DigitRun(body, r);
    if k == 0 then NaN else Finite(ValueIn(body[..k], r) as real)
  }

  /** The unsigned part of a run of decimal digits followed by a text that does not continue
      it is the run's value. */
  lemma ParseUnsignedOfDigits(d: string, rest: string, radix: Radix)
    requires d != [] && AllDigits(d)
    requires rest == [] || (!IsDigit(rest[0]) && (radix == Auto ==> rest[0] != 'x' && rest[0] != 'X'))
    ensures ParseUnsigned(d + rest, radix) == Finite(DigitsValue(d) as real)
  {
    var s := d + rest;
    DigitRunOfDigits(d, rest);
    assert s[..|d|] == d;
    ValueInTen(d);
    if |s| >= 2 {
      if |d| >= 2 {
        assert s[1] == d[1] && IsDigit(s[1]);
      } else {
        assert s[1] == rest[0];
      }
    }
  }

  /** `parseInt` of a run of decimal digits, followed by anything that does not continue a
      number (no digit, and in Auto mode no `x` that would turn a leading 0 into a hexadecimal prefix), is
      the run's value, in either radix mode; leading zeros do not matter. */
  lemma ParseIntOfDigits(d: string, rest: string, radix: Radix)
    requires d != [] && AllDigits(d)
    requires rest == [] || (!IsDigit(rest[0]) && (radix == Auto ==> rest[0] != 'x' && rest[0] != 'X'))
    ensures ParseInt(d + rest, radix) == Finite(DigitsValue(d) as real)
  {
    var s := d + rest;
    assert s[0] == d[0] && IsDigit(s[0]);
    assert TrimStart(s) == s;
    assert ParseSigned(s, radix) == ParseUnsigned(s, radix);
    ParseUnsignedOfDigits(d, rest, radix);
  }

  /** `parseInt` of the decimal text of n, followed by anything that does not continue a
      number, is n. */
  lemma ParseIntOfDecimal(n: nat, rest: string, radix: Radix)
    requires rest == [] || (!IsDigit(rest[0]) && (radix == Auto ==> rest[0] != 'x' && rest[0] != 'X'))
    ensures ParseInt(Decimal(n) + rest, radix) == Finite(n as real)
  {
    ParseIntOfDigits(Decimal(n), rest, radix);
    DecimalRoundTrip(n);
  }

  /** With a leading minus, `parseInt(s, 10)` is minus what the digits after it read as. */
  lemma ParseIntNegative(x: string)
    requires x != [] && IsDigit(x[0])
    ensures ParseInt(x, Ten).Finite? && ParseInt("-" + x, Ten) == Finite(-ParseInt(x, Ten).r)
  {
    var s := "-" + x;
    assert TrimStart(s) == s && TrimStart(x) == x;
    assert s[1..] == x;
    assert DigitRun(x, 10) >= 1;
  }

  /** Text that starts with no digit, sign or white space reads as NaN. */
  lemma ParseIntNoDigits(w: string)
    requires w == [] || (!IsDigit(w[0]) && !IsJsSpace(w[0]) && w[0] != '-' && w[0] != '+')
    ensures ParseInt(w, Ten) == NaN
  {
    assert TrimStart(w) == w;
  }

  // ---------------------------------------------------------------------------------------
  // Values bound to `WHERE id = ?`

  /** Text SQLite converts to an integer under INTEGER affinity: an optional sign and at least
      one decimal digit. */
  function IntegerText(s: string): (r: Option<int>)
    ensures r.Some? <==> (s != [] && (s[0] == '-' || s[0] == '+') && |s| >= 2 && AllDigits(s[1..]))
                         || (s != [] && AllDigits(s))
  {
    if s != [] && (s[0] == '-' || s[0] == '+') then
      var body := s[1..];
      if body != [] && AllDigits(body) then Some(if s[0] == '-' then -(DigitsValue(body) as int) else DigitsValue(body)) else None
    else if s != [] && AllDigits(s) then Some(DigitsValue(s))
    else None
  }

  /** The integer key a bound parameter matches in an INTEGER PRIMARY KEY or INTEGER column,
      or None when it matches no row: integral numbers and integer texts match, everything
      else (null, undefined, fractions, other texts) matches nothing. */
  function SqlKey(v: Value): (k: Option<int>)
    ensures v.Null? || v.Undefined? || v.Obj? || v.Arr? ==> k == None
  {
    match v
    case Num(Finite(r)) => if r == r.Floor as real then Some(r.Floor) else None
    case Str(s) => IntegerText(s)
    case _ => None
  }

  /** A route parameter `:id` is always a string. */
  function IdKey(id: string): Option<int> {
    SqlKey(Str(id))
  }

  /** The text of an id matches the row with that id, and so does the number. */
  lemma SqlKeyOfId(n: nat)
    ensures IdKey(Decimal(n)) == Some(n)
    ensures SqlKey(Num(Finite(n as real))) == Some(n)
  {
    DecimalRoundTrip(n);
  }
}
