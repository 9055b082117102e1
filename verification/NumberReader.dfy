/**
 Reading a decimal number as the grammar of RFC 8259 (section 6) has it: sign,
 integer part, fraction, exponent. Reading what `String(n)` prints gives n back.
 */
module NumberReader {
  import opened Options
  import opened JsText
  import opened JsNumber

  predicate AllDigits(s: Str) { forall i :: 0 <= i < |s| ==> IsDigit(s[i]) }

  // The number that decimal digits denote.
  function DigitsValue(s: Str): (n: nat)
    requires AllDigits(s)
  {
    if s == [] then 0 else 10 * DigitsValue(s[..|s| - 1]) + (s[|s| - 1] - ZERO)
  }

  function StripLeading(s: Str): Str {
    if s != [] && s[0] == ZERO then StripLeading(s[1..]) else s
  }

  function StripTrailingZeros(s: Str): Str {
    if s != [] && s[|s| - 1] == ZERO then StripTrailingZeros(s[..|s| - 1]) else s
  }

  // The digits d and exponent e stand for d * 10^e: the same number, its digits neither starting nor ending in zero.
  function Normalised(negative: bool, d: Str, e: int): Numeral {
    var s := StripLeading(d);
    var t := StripTrailingZeros(s);
    if t == [] then Zero else Finite(negative, t, |s| + e)
  }

  function ReadExponent(s: Str): Option<int> {
    if s == [] then None
    else
      var d := if s[0] == PLUS || s[0] == MINUS then s[1..] else s;
      if d == [] || !AllDigits(d) then None
      else
        var n: int := DigitsValue(d);
        Some(if s[0] == MINUS then -n else n)
  }

  // Where c first stands in s.
  function Find(s: Str, c: Unit): (i: nat)
    ensures i <= |s| && c !in s[..i] && (i < |s| ==> s[i] == c)
  {
    if s == [] || s[0] == c then 0
    else
      assert s == [s[0]] + s[1..] && s[..1 + Find(s[1..], c)] == [s[0]] + s[1..][..Find(s[1..], c)];
      1 + Find(s[1..], c)
  }

  // Digits, perhaps a point and more digits, times a power of ten.
  function ReadMantissa(negative: bool, s: Str, e: int): Option<Numeral> {
    var p := Find(s, DOT);
    var whole, part := s[..p], if p < |s| then s[p + 1..] else [];
    if whole == [] || !AllDigits(whole) || !AllDigits(part) || (p < |s| && part == []) then None
    else Some(Normalised(negative, whole + part, e - |part|))
  }

  // Perhaps an exponent after that.
  function ReadUnsigned(negative: bool, s: Str): Option<Numeral> {
    var k := Find(s, EXP);
    if k == |s| then ReadMantissa(negative, s, 0)
    else match ReadExponent(s[k + 1..]) { case None => None case Some(e) => ReadMantissa(negative, s[..k], e) }
  }

  function ReadNumber(s: Str): Option<Numeral> {
    if s != [] && s[0] == MINUS then ReadUnsigned(true, s[1..]) else ReadUnsigned(false, s)
  }

  // ---------- the printed number is read back ----------

  lemma FindAt(x: Str, y: Str, c: Unit)
    requires c !in x
    ensures Find(x + ([c] + y), c) == |x|
    ensures (x + ([c] + y))[..|x|] == x && (x + ([c] + y))[|x| + 1..] == y
  {
    var s := x + ([c] + y);
    var i := Find(s, c);
    assert s[|x|] == c && forall j :: 0 <= j < |x| ==> s[j] == x[j];
    assert forall j :: 0 <= j < i ==> s[j] == s[..i][j];
  }

  lemma FindNone(x: Str, c: Unit)
    requires c !in x
    ensures Find(x, c) == |x| && x[..|x|] == x
  {
  }

  lemma {:induction false} DecimalRead(n: nat)
    ensures AllDigits(Decimal(n)) && DigitsValue(Decimal(n)) == n
  {
    var s := Decimal(n);
    if n < 10 {
      assert s[..0] == [];
    } else {
      DecimalRead(n / 10);
      assert s[..|s| - 1] == Decimal(n / 10);
    }
  }

  lemma ExponentRead(e: int)
    ensures ReadExponent(ShowExponent(e)) == Some(e)
  {
    hide Decimal, DigitsValue;
    DecimalRead(if e > 0 then e else -e);
    assert ShowExponent(e)[1..] == Decimal(if e > 0 then e else -e);
  }

  lemma {:induction false} StripZerosBefore(n: nat, d: Str)
    requires d != [] && d[0] != ZERO
    ensures StripLeading(Zeros(n) + d) == d
  {
    if n == 0 {
      assert Zeros(0) + d == d;
    } else {
      assert (Zeros(n) + d)[1..] == Zeros(n - 1) + d;
      StripZerosBefore(n - 1, d);
    }
  }

  lemma {:induction false} StripZerosAfter(d: Str, n: nat)
    requires d != [] && d[|d| - 1] != ZERO
    ensures StripTrailingZeros(d + Zeros(n)) == d
  {
    if n == 0 {
      assert d + Zeros(0) == d;
    } else {
      assert (d + Zeros(n))[..|d| + n - 1] == d + Zeros(n - 1);
      StripZerosAfter(d, n - 1);
    }
  }

  lemma NormalisedIs(negative: bool, m: nat, d: Str, n: nat, e: int)
    requires d != [] && d[0] != ZERO && d[|d| - 1] != ZERO
    ensures Normalised(negative, Zeros(m) + (d + Zeros(n)), e) == Finite(negative, d, |d| + n + e)
  {
    hide StripLeading, StripTrailingZeros;
    StripZerosBefore(m, d + Zeros(n));
    StripZerosAfter(d, n);
  }

  lemma DigitsOnly(s: Str)
    requires AllDigits(s)
    ensures DOT !in s && EXP !in s
  {
  }

  lemma PointedNoExponent(whole: Str, part: Str)
    requires EXP !in whole && EXP !in part
    ensures EXP !in whole + ([DOT] + part)
  {
  }

  lemma MantissaRead(negative: bool, whole: Str, part: Str, e: int)
    requires whole != [] && AllDigits(whole) && AllDigits(part)
    ensures (var s := if part == [] then whole else whole + ([DOT] + part);
             && ReadMantissa(negative, s, e) == Some(Normalised(negative, whole + part, e - |part|))
             && EXP !in s)
  {
    hide Find, Normalised, AllDigits;
    DigitsOnly(whole);
    DigitsOnly(part);
    if part == [] {
      FindNone(whole, DOT);
    } else {
      FindAt(whole, part, DOT);
      PointedNoExponent(whole, part);
    }
  }

  lemma PlainRead(negative: bool, s: Str)
    requires EXP !in s
    ensures ReadUnsigned(negative, s) == ReadMantissa(negative, s, 0)
  {
    hide Find, ReadMantissa;
    FindNone(s, EXP);
  }

  lemma ScientificRead(negative: bool, s: Str, e: int)
    requires EXP !in s
    ensures ReadUnsigned(negative, s + ([EXP] + ShowExponent(e))) == ReadMantissa(negative, s, e)
  {
    hide Find, ReadMantissa, ShowExponent, ReadExponent;
    FindAt(s, ShowExponent(e), EXP);
    ExponentRead(e);
  }

  // Digits without zeros round them, as they are.
  lemma DigitsAlone(negative: bool, d: Str, e: int)
    requires d != [] && d[0] != ZERO && d[|d| - 1] != ZERO
    ensures Normalised(negative, d, e) == Finite(negative, d, |d| + e)
  {
    assert Zeros(0) + (d + Zeros(0)) == d;
    NormalisedIs(negative, 0, d, 0, e);
  }

  lemma LargeRead(negative: bool, d: Str, p: int)
    requires Finite(false, d, p).Valid() && |d| <= p
    ensures ReadMantissa(negative, d + Zeros(p - |d|), 0) == Some(Finite(negative, d, p))
    ensures EXP !in d + Zeros(p - |d|)
  {
    hide ReadMantissa, Normalised;
    var s := d + Zeros(p - |d|);
    MantissaRead(negative, s, [], 0);
    assert s + [] == s == Zeros(0) + s;
    NormalisedIs(negative, 0, d, p - |d|, 0);
  }

  lemma PointedRead(negative: bool, d: Str, p: int, k: nat)
    requires Finite(false, d, p).Valid() && 0 < k <= |d|
    ensures (var s := if k == |d| then d else d[..k] + ([DOT] + d[k..]);
             ReadMantissa(negative, s, p - k) == Some(Finite(negative, d, p)) && EXP !in s)
  {
    hide ReadMantissa, Normalised;
    MantissaRead(negative, d[..k], d[k..], p - k);
    assert d[..k] + d[k..] == d;
    assert k == |d| ==> d[..k] == d;
    DigitsAlone(negative, d, p - |d|);
  }

  lemma OneMoreZero(n: nat, d: Str)
    ensures [ZERO] + (Zeros(n) + d) == Zeros(n + 1) + (d + Zeros(0))
  {
  }

  lemma SmallText(n: nat, d: Str)
    requires AllDigits(d)
    ensures [ZERO] + ([DOT] + (Zeros(n) + d)) == [ZERO, DOT] + Zeros(n) + d
    ensures AllDigits(Zeros(n) + d)
  {
  }

  lemma SmallRead(negative: bool, d: Str, p: int)
    requires Finite(false, d, p).Valid() && p <= 0
    ensures (var s := [ZERO, DOT] + Zeros(-p) + d;
             ReadMantissa(negative, s, 0) == Some(Finite(negative, d, p)) && EXP !in s)
  {
    hide ReadMantissa, Normalised, Zeros;
    var part := Zeros(-p) + d;
    SmallText(-p, d);
    hide AllDigits;
    assert AllDigits([ZERO]) by { DigitZero(); }
    MantissaRead(negative, [ZERO], part, 0);
    OneMoreZero(-p, d);
    NormalisedIs(negative, 1 - p, d, 0, p - |d|);
  }

  lemma DigitZero()
    ensures AllDigits([ZERO])
  {
  }

  lemma UnsignedRead(negative: bool, d: Str, p: int)
    requires Finite(false, d, p).Valid()
    ensures ReadUnsigned(negative, ShowUnsigned(d, p)) == Some(Finite(negative, d, p))
  {
    hide ReadUnsigned, ReadMantissa, ShowExponent;
    if !(-5 <= p <= 21) {
      PointedRead(negative, d, p, 1);
      assert |d| > 1 ==> d[..1] + ([DOT] + d[1..]) == [d[0], DOT] + d[1..];
      ScientificRead(negative, Mantissa(d), p - 1);
    } else {
      PlainHasNoExponent(d, p);
      PlainRead(negative, ShowPlain(d, p));
      if |d| <= p { LargeRead(negative, d, p); }
      else if 0 < p { PointedRead(negative, d, p, p); }
      else { SmallRead(negative, d, p); }
    }
  }

  /** Reading the text of a number gives the number. */
  lemma ReadsBack(x: Number)
    ensures ReadNumber(Show(x)) == Some(x)
  {
    hide ReadUnsigned, ShowUnsigned;
    if x.Finite? {
      UnsignedRead(x.negative, x.digits, x.point);
      ShowUnsignedChars(x.digits, x.point);
      if x.negative { assert Show(x)[1..] == ShowUnsigned(x.digits, x.point); }
      else { assert Show(x) == ShowUnsigned(x.digits, x.point); }
    } else {
      ZeroRead();
    }
  }

  // `String(n)` tells any two finite numbers apart.
  lemma ShowInjective(x: Number, y: Number)
    requires Show(x) == Show(y)
    ensures x == y
  {
    hide *;
    ReadsBack(x);
    ReadsBack(y);
  }

  lemma ZeroRead()
    ensures ReadUnsigned(false, [ZERO]) == Some(Zero)
  {
    PlainRead(false, [ZERO]);
    MantissaRead(false, [ZERO], [], 0);
    assert [ZERO] + [] == [ZERO];
    assert StripLeading([ZERO]) == [];
  }
}
