/** The part of Python's `decimal` module the reader relies on: finite
    decimals, reading fixed-point text, and exact division by a power of
    ten. */
module Decimals {
  import opened Results
  import opened Numerals
  import Text

  /** A finite `decimal.Decimal`: `coefficient` × 10^`exponent`. Two
      decimals with the same value may differ in representation: 35.5 is
      `Decimal(355, -1)` and 35.500 is `Decimal(35500, -3)`. There is no
      separate sign, so Python's negative zero is not represented. */
  datatype Decimal = Decimal(coefficient: int, exponent: int)

  function Min(a: int, b: int): int {
    if a <= b then a else b
  }

  /** `a` and `b` stand for the same number: brought to the smaller of
      their two exponents, their coefficients agree. */
  predicate SameValue(a: Decimal, b: Decimal) {
    var m := Min(a.exponent, b.exponent);
    a.coefficient * Pow10(a.exponent - m) == b.coefficient * Pow10(b.exponent - m)
  }

  /** `q` × 10^k is the number `d`. */
  predicate IsQuotient(q: Decimal, d: Decimal, k: nat) {
    SameValue(Decimal(q.coefficient, q.exponent + k), d)
  }

  predicate IsPowerOfTen(n: nat)
    decreases n
  {
    n == 1 || (n >= 10 && n % 10 == 0 && IsPowerOfTen(n / 10))
  }

  function Log10(n: nat): (k: nat)
    requires IsPowerOfTen(n)
    ensures Pow10(k) == n
    decreases n
  {
    if n == 1 then 0 else 1 + Log10(n / 10)
  }

  lemma {:induction false} PowerOfTen(k: nat)
    ensures IsPowerOfTen(Pow10(k)) && Log10(Pow10(k)) == k
  {
    if k > 0 {
      PowerOfTen(k - 1);
      assert Pow10(k) / 10 == Pow10(k - 1);
    }
  }

  lemma {:induction false} Pow10Add(a: nat, b: nat)
    ensures Pow10(a + b) == Pow10(a) * Pow10(b)
  {
    if b > 0 {
      Pow10Add(a, b - 1);
      assert Pow10(a + b) == 10 * Pow10(a + b - 1);
      assert Pow10(a) * Pow10(b) == Pow10(a) * (10 * Pow10(b - 1));
    }
  }

  /** `d / n` in Python's decimal arithmetic, for a divisor `n` that is a
      power of ten. The quotient is exact, and its exponent is the one
      closest to the ideal exponent (that of `d`) that can hold it: trailing
      zeros of the coefficient are used up before the exponent drops. */
  function Divide(d: Decimal, n: nat): (r: Decimal)
    requires IsPowerOfTen(n)
    ensures IsQuotient(r, d, Log10(n))
    ensures d.exponent - Log10(n) <= r.exponent <= d.exponent
    ensures r.exponent < d.exponent ==> r.coefficient % 10 != 0
    decreases n
  {
    if n == 1 then d
    else if d.coefficient % 10 == 0 then
      var c := d.coefficient;
      var r := Divide(Decimal(c / 10, d.exponent), n / 10);
      QuotientCoefficient(r, Decimal(c / 10, d.exponent), Log10(n / 10));
      QuotientTimesTen(r.coefficient, r.exponent - d.exponent + Log10(n / 10), c);
      QuotientCoefficient(r, d, Log10(n));
      r
    else
      var r := Decimal(d.coefficient, d.exponent - Log10(n));
      QuotientCoefficient(r, d, Log10(n));
      r
  }

  lemma QuotientTimesTen(a: int, x: nat, c: int)
    requires c % 10 == 0 && a * Pow10(x) == c / 10
    ensures a * Pow10(x + 1) == c
  {
    assert a * Pow10(x + 1) == 10 * (a * Pow10(x));
  }

  /** Two representations of one value: the one with the smaller exponent
      has a coefficient that is a multiple of ten. */
  lemma TrailingZero(a: Decimal, b: Decimal, m: int)
    requires m <= a.exponent && m <= b.exponent
    requires a.coefficient * Pow10(a.exponent - m) == b.coefficient * Pow10(b.exponent - m)
    ensures a.exponent < b.exponent ==> a.coefficient % 10 == 0
    ensures a.exponent == b.exponent ==> a.coefficient == b.coefficient
  {
    if a.exponent <= b.exponent {
      var x: nat := a.exponent - m;
      var y: nat := b.exponent - a.exponent;
      var z := b.coefficient * Pow10(y);
      Pow10Add(y, x);
      assert b.coefficient * (Pow10(y) * Pow10(x)) == (b.coefficient * Pow10(y)) * Pow10(x);
      MulCancel(a.coefficient, z, Pow10(x));
      if y > 0 {
        MulTen(b.coefficient, y);
      }
    }
  }

  lemma MulTen(a: int, y: nat)
    requires y > 0
    ensures (a * Pow10(y)) % 10 == 0
  {
    assert Pow10(y) == 10 * Pow10(y - 1);
    assert a * (10 * Pow10(y - 1)) == 10 * (a * Pow10(y - 1));
  }

  lemma MulCancel(x: int, y: int, p: int)
    requires p > 0 && x * p == y * p
    ensures x == y
  {
    assert (x - y) * p == 0;
  }

  /** When `q` × 10^k has an exponent no smaller than `d`'s, being the
      quotient is one equation on coefficients. */
  lemma QuotientCoefficient(q: Decimal, d: Decimal, k: nat)
    requires d.exponent <= q.exponent + k
    ensures IsQuotient(q, d, k) <==> q.coefficient * Pow10(q.exponent + k - d.exponent) == d.coefficient
  {
    assert Min(q.exponent + k, d.exponent) == d.exponent;
    assert Pow10(0) == 1;
  }

  /** `Divide`'s contract pins its result down: any decimal that is the
      exact quotient and whose exponent is chosen by the same rule is it. */
  lemma DivideUnique(d: Decimal, n: nat, q: Decimal)
    requires IsPowerOfTen(n)
    requires IsQuotient(q, d, Log10(n))
    requires d.exponent - Log10(n) <= q.exponent <= d.exponent
    requires q.exponent < d.exponent ==> q.coefficient % 10 != 0
    ensures q == Divide(d, n)
  {
    var r := Divide(d, n);
    var m := d.exponent - Log10(n);
    QuotientCoefficient(q, d, Log10(n));
    QuotientCoefficient(r, d, Log10(n));
    TrailingZero(q, r, m);
    TrailingZero(r, q, m);
  }

  /** Dividing a coefficient that carries `k` trailing zeros by 10^k removes
      exactly those zeros and keeps the exponent. */
  lemma {:induction false} DivideScaled(v: int, e: int, k: nat)
    ensures IsPowerOfTen(Pow10(k))
    ensures Divide(Decimal(v * Pow10(k), e), Pow10(k)) == Decimal(v, e)
  {
    PowerOfTen(k);
    if k > 0 {
      DivideScaled(v, e, k - 1);
      ScaledStep(v, k);
    }
  }

  lemma ScaledStep(v: int, k: nat)
    requires k > 0
    ensures (v * Pow10(k)) % 10 == 0 && (v * Pow10(k)) / 10 == v * Pow10(k - 1)
    ensures Pow10(k) != 1 && Pow10(k) / 10 == Pow10(k - 1)
  {
    assert v * Pow10(k) == (v * Pow10(k - 1)) * 10;
  }

  /** Index of the first '.' in `s`, or `|s|` when there is none. */
  function DotIndex(s: string): (i: nat)
    ensures i <= |s|
    ensures forall k :: 0 <= k < i ==> s[k] != '.'
    ensures i < |s| ==> s[i] == '.'
  {
    if |s| == 0 || s[0] == '.' then 0 else 1 + DotIndex(s[1..])
  }

  lemma {:induction false} DotIndexOfDigits(s: string)
    requires AllDigits(s)
    ensures DotIndex(s) == |s|
  {
    if |s| > 0 {
      assert IsDigit(s[0]);
      DotIndexOfDigits(s[1..]);
    }
  }

  /** `Decimal(s)` on text without surrounding whitespace, for the
      fixed-point forms: an optional sign, digits, and optionally a '.'
      followed by more digits, with at least one digit in all. The digits
      after the point fix the exponent. */
  function ParseDecimalLiteral(s: string): (r: Option<Decimal>)
    ensures r.Some? ==> r.value.exponent <= 0
    ensures IsIntLiteral(s) ==> r == Some(Decimal(ParseIntLiteral(s).value, 0))
  {
    var (negative, body) := SplitSign(s);
    var dot := DotIndex(body);
    var whole := body[..dot];
    var fraction := if dot < |body| then body[dot + 1..] else "";
    IntLiteralHasNoPoint(s);
    if AllDigits(whole) && AllDigits(fraction) && |whole| + |fraction| > 0 then
      assert fraction == "" ==> whole + fraction == whole;
      assert dot == |body| ==> whole == body;
      Some(Decimal(Signed(negative, DigitsValue(whole + fraction)), -|fraction|))
    else
      None
  }

  lemma IntLiteralHasNoPoint(s: string)
    ensures IsIntLiteral(s) ==> AllDigits(SplitSign(s).1) && DotIndex(SplitSign(s).1) == |SplitSign(s).1|
  {
    if IsIntLiteral(s) {
      DotIndexOfDigits(SplitSign(s).1);
    }
  }

  /** Python's `decimal.Decimal(s)` for a `str` in fixed-point form;
      surrounding whitespace is ignored. */
  function ParseDecimal(s: string): (r: Option<Decimal>)
    ensures r.Some? ==> r.value.exponent <= 0
    ensures IsIntLiteral(Text.Strip(s)) ==> r == Some(Decimal(ParseIntLiteral(Text.Strip(s)).value, 0))
  {
    ParseDecimalLiteral(Text.Strip(s))
  }

  /** The text `f'{v}.' + '0' * p` reads as `v` × 10^p with exponent -p:
      the same number as `v`, held with `p` places after the point. */
  lemma FixedPointText(v: int, p: nat)
    ensures ParseDecimal(IntToString(v) + "." + Zeros(p)) == Some(Decimal(v * Pow10(p), -(p as int)))
    ensures SameValue(Decimal(v * Pow10(p), -(p as int)), Decimal(v, 0))
  {
    var magnitude: nat := if v < 0 then -v else v;
    var ds := NatToDigits(magnitude);
    FixedPointSyntax(v, p);
    DigitsValueZeros(ds, p);
    SignedScaled(v, magnitude, p);
    FixedPointSameValue(v, p);
  }

  lemma FixedPointSameValue(v: int, p: nat)
    ensures SameValue(Decimal(v * Pow10(p), -(p as int)), Decimal(v, 0))
  {
    assert Min(-(p as int), 0) == -(p as int);
    assert Pow10(0) == 1;
  }

  lemma SignedScaled(v: int, magnitude: nat, p: nat)
    requires magnitude == if v < 0 then -v else v
    ensures Signed(v < 0, magnitude * Pow10(p)) == v * Pow10(p)
  {
    if v < 0 {
      assert -(magnitude * Pow10(p)) == (-(magnitude as int)) * Pow10(p);
    }
  }

  /** How the text `f'{v}.' + '0' * p` splits into sign, whole digits and
      fraction digits. */
  lemma FixedPointSyntax(v: int, p: nat)
    ensures var magnitude: nat := if v < 0 then -v else v;
      var ds := NatToDigits(magnitude);
      AllDigits(ds + Zeros(p)) &&
      ParseDecimal(IntToString(v) + "." + Zeros(p))
        == Some(Decimal(Signed(v < 0, DigitsValue(ds + Zeros(p))), -(p as int)))
  {
    var t := IntToString(v) + "." + Zeros(p);
    var magnitude: nat := if v < 0 then -v else v;
    var ds := NatToDigits(magnitude);
    FixedPointSign(v, p);
    ParsePointed(t, v < 0, ds, Zeros(p));
    assert ParseDecimal(t) == ParseDecimalLiteral(t);
  }

  lemma FixedPointSign(v: int, p: nat)
    ensures var t := IntToString(v) + "." + Zeros(p);
      var magnitude: nat := if v < 0 then -v else v;
      Text.Strip(t) == t && SplitSign(t) == (v < 0, NatToDigits(magnitude) + "." + Zeros(p))
  {
    var t := IntToString(v) + "." + Zeros(p);
    assert Text.NoOuterSpace(t);
    Text.StripKeepsTrimmed(t);
    var magnitude: nat := if v < 0 then -v else v;
    var body := NatToDigits(magnitude) + "." + Zeros(p);
    if v < 0 {
      assert t == "-" + body;
      assert t[1..] == body;
    } else {
      assert t == body;
    }
  }

  /** Text of the form sign, digits, '.', digits reads as the digits run
      together, with one negative power of ten per fraction digit. */
  lemma ParsePointed(s: string, negative: bool, whole: string, fraction: string)
    requires SplitSign(s) == (negative, whole + "." + fraction)
    requires |whole| > 0 && AllDigits(whole) && AllDigits(fraction)
    ensures AllDigits(whole + fraction)
    ensures ParseDecimalLiteral(s) == Some(Decimal(Signed(negative, DigitsValue(whole + fraction)), -|fraction|))
  {
    var body := whole + "." + fraction;
    assert body[|whole|] == '.';
    assert DotIndex(body) == |whole|;
    assert body[..|whole|] == whole;
    assert body[|whole| + 1..] == fraction;
  }
}
