/**
 Finite JavaScript numbers and `String(n)`.

 A non-zero number is given by its sign, the shortest decimal digits that
 denote it and the position of the decimal point: 0.d1d2...dk * 10^point.
 `Show` follows Number::toString of ECMA-262 (section 6.1.6.1.20) from that
 triple on, with its four layouts. Both zeros print as "0".
 */
module JsNumber {
  import opened JsText

  const MINUS: Unit := 0x2D
  const PLUS: Unit := 0x2B
  const EXP: Unit := 0x65
  const ZERO: Unit := 0x30

  predicate IsDigit(u: Unit) { 0x30 <= u <= 0x39 }

  datatype Numeral = Zero | Finite(negative: bool, digits: Str, point: int) {
    predicate Valid() {
      Finite? ==>
        && digits != []
        && (forall i :: 0 <= i < |digits| ==> IsDigit(digits[i]))
        && digits[0] != ZERO && digits[|digits| - 1] != ZERO
    }
  }

  type Number = n: Numeral | n.Valid() witness Zero

  predicate IsNumberChar(u: Unit) {
    IsDigit(u) || u == MINUS || u == PLUS || u == DOT || u == EXP
  }

  function Zeros(n: nat): (z: Str)
    ensures |z| == n && forall i :: 0 <= i < n ==> z[i] == ZERO
  {
    seq(n, _ => ZERO)
  }

  function Decimal(n: nat): (s: Str)
    ensures s != [] && forall i :: 0 <= i < |s| ==> IsDigit(s[i])
  {
    if n < 10 then [ZERO + n] else Decimal(n / 10) + [ZERO + n % 10]
  }

  function ShowExponent(e: int): Str {
    if e > 0 then [PLUS] + Decimal(e) else [MINUS] + Decimal(-e)
  }

  function Mantissa(digits: Str): Str
    requires digits != []
  {
    if |digits| == 1 then digits else [digits[0], DOT] + digits[1..]
  }

  function ShowPlain(digits: Str, point: int): Str
    requires digits != [] && -5 <= point <= 21
  {
    if |digits| <= point then digits + Zeros(point - |digits|)
    else if 0 < point then digits[..point] + ([DOT] + digits[point..])
    else [ZERO, DOT] + Zeros(-point) + digits
  }

  function ShowScientific(digits: Str, point: int): Str
    requires digits != []
  {
    Mantissa(digits) + ([EXP] + ShowExponent(point - 1))
  }

  function ShowUnsigned(digits: Str, point: int): Str
    requires digits != []
  {
    if -5 <= point <= 21 then ShowPlain(digits, point) else ShowScientific(digits, point)
  }

  function Show(x: Number): Str
  {
    match x
    case Zero => [ZERO]
    case Finite(negative, digits, point) =>
      (if negative then [MINUS] else []) + ShowUnsigned(digits, point)
  }

  // ---------- what the text looks like ----------

  predicate AllNumberChars(t: Str) {
    forall i :: 0 <= i < |t| ==> IsNumberChar(t[i])
  }

  lemma Glue(a: Str, b: Str)
    requires AllNumberChars(a) && AllNumberChars(b)
    ensures AllNumberChars(a + b)
  {
  }

  lemma ShowUnsignedChars(digits: Str, point: int)
    requires Finite(false, digits, point).Valid()
    ensures var t := ShowUnsigned(digits, point);
            t != [] && IsDigit(t[0]) && AllNumberChars(t)
  {
    if -5 <= point <= 21 {
      PlainChars(digits, point);
    } else {
      MantissaChars(digits);
      ExponentChars(point - 1);
      hide Mantissa, ShowExponent;
      Glue([EXP], ShowExponent(point - 1));
      Glue(Mantissa(digits), [EXP] + ShowExponent(point - 1));
    }
  }

  lemma PlainChars(digits: Str, point: int)
    requires Finite(false, digits, point).Valid() && -5 <= point <= 21
    ensures var t := ShowPlain(digits, point);
            t != [] && IsDigit(t[0]) && AllNumberChars(t)
  {
    assert AllNumberChars(digits);
    if |digits| <= point {
      Glue(digits, Zeros(point - |digits|));
    } else if 0 < point {
      Glue([DOT], digits[point..]);
      Glue(digits[..point], [DOT] + digits[point..]);
    } else {
      Glue([ZERO, DOT], Zeros(-point));
      Glue([ZERO, DOT] + Zeros(-point), digits);
    }
  }

  lemma MantissaChars(digits: Str)
    requires digits != [] && forall i :: 0 <= i < |digits| ==> IsDigit(digits[i])
    ensures AllNumberChars(Mantissa(digits)) && Mantissa(digits) != [] && Mantissa(digits)[0] == digits[0]
  {
  }

  lemma ExponentChars(e: int)
    ensures AllNumberChars(ShowExponent(e))
  {
    Glue([if e > 0 then PLUS else MINUS], Decimal(if e > 0 then e else -e));
  }

  lemma ShowChars(x: Number)
    ensures var t := Show(x);
            t != [] && (IsDigit(t[0]) || t[0] == MINUS) && AllNumberChars(t)
  {
    if x.Finite? {
      ShowUnsignedChars(x.digits, x.point);
      if x.negative { Glue([MINUS], ShowUnsigned(x.digits, x.point)); }
    }
  }

  // ---------- reading it back ----------

  // The exponent layout is the one with an `e`; within it mantissa and exponent are determined.
  lemma PlainHasNoExponent(d: Str, p: int)
    requires Finite(false, d, p).Valid()
    ensures EXP in ShowUnsigned(d, p) <==> !(-5 <= p <= 21)
  {
    var t := ShowUnsigned(d, p);
    if !(-5 <= p <= 21) {
      var m := Mantissa(d);
      assert t[|m|] == EXP;
    }
  }

}
