/**
 * Numbers as the cleaning passes read and write them, with exact rationals in
 * place of binary floats: `float()` and `Fraction()` of captured numerals,
 * `Decimal()` of a token, the two renderings of a computed quantity
 * (`Decimal.quantize` to two places, half up, and `str(round(x, 3))`), and the
 * `unicodedata.numeric` values of the eighteen vulgar-fraction glyphs.
 */
module Numbers {
  import opened Wrappers
  import opened Strings

  predicate AllDigits(t: string) {
    forall k :: 0 <= k < |t| ==> IsDigit(t[k])
  }

  function DigitValue(c: char): (d: nat)
    requires IsDigit(c)
    ensures d < 10
  {
    c as int - '0' as int
  }

  /**
   * The value of the decimal digits of `t` read left to right. Every text the
   * passes hand to `float()` or `int()` through this function is a digit run,
   * possibly followed by one whitespace character, which Python reads the same way.
   */
  function NumeralValue(t: string): nat
  {
    if |t| == 0 then 0
    else if IsDigit(t[|t| - 1]) then 10 * NumeralValue(t[..|t| - 1]) + DigitValue(t[|t| - 1])
    else NumeralValue(t[..|t| - 1])
  }

  function Pow10(n: nat): (p: nat)
    ensures p >= 1
  {
    if n == 0 then 1 else 10 * Pow10(n - 1)
  }

  lemma HundredSeptillion()
    ensures Pow10(26) == 100_000_000_000_000_000_000_000_000
  {
    assert Pow10(13) == 10_000_000_000_000;
  }

  /** Powers of ten grow with the exponent. */
  lemma {:induction false} Pow10Grows(m: nat, n: nat)
    requires m <= n
    ensures Pow10(m) <= Pow10(n)
  {
    if m < n {
      Pow10Grows(m, n - 1);
    }
  }

  /** A one followed by `n` zeros. */
  function PowerNumeral(n: nat): (t: string)
    ensures |t| == n + 1 && AllDigits(t)
    ensures NumeralValue(t) == Pow10(n)
  {
    if n == 0 then "1" else PowerNumeral(n - 1) + "0"
  }

  /** First index of `c` in `s`, or `|s|` when there is none. */
  function IndexOf(s: string, c: char): (k: nat)
    ensures k <= |s|
    ensures k < |s| ==> s[k] == c
    ensures forall j :: 0 <= j < k ==> s[j] != c
  {
    if |s| == 0 then 0 else if s[0] == c then 0 else 1 + IndexOf(s[1..], c)
  }

  /** `float(t)` for a text made of digits and points: more than one point is a ValueError. */
  function FloatOf(t: string): (r: Result<real>)
    ensures r.Ok? ==> r.value >= 0.0
  {
    var u := Strip(t);
    var p := IndexOf(u, '.');
    if p == |u| then
      if |u| > 0 && AllDigits(u) then Ok(NumeralValue(u) as real) else Raised(ValueError)
    else
      var ip, fp := u[..p], u[p + 1..];
      if AllDigits(ip) && AllDigits(fp) && |ip| + |fp| > 0
      then Ok(NumeralValue(ip) as real + NumeralValue(fp) as real / Pow10(|fp|) as real)
      else Raised(ValueError)
  }

  /** `float(Fraction(t))` for a captured "digits/digits"; a zero denominator raises. */
  function FractionOf(t: string): (r: Result<real>)
    ensures r.Ok? ==> r.value >= 0.0
  {
    var k := IndexOf(t, '/');
    var num, den := t[..k], if k < |t| then t[k + 1..] else "";
    if NumeralValue(den) == 0 then Raised(ZeroDivisionError)
    else Ok(NumeralValue(num) as real / NumeralValue(den) as real)
  }

  /**
   * The least quotient that `float()` cannot hold: from 2^1024 - 2^970 up, a
   * value rounds (half to even) past the largest double, (2^53 - 1) * 2^971.
   */
  const FloatOverflow: int := 0xFFFF_FFFF_FFFF_FC00_0000_0000_0000_0000_0000_0000_0000_0000_0000_0000_0000_0000_0000_0000_0000_0000_0000_0000_0000_0000_0000_0000_0000_0000_0000_0000_0000_0000_0000_0000_0000_0000_0000_0000_0000_0000_0000_0000_0000_0000_0000_0000_0000_0000_0000_0000_0000_0000_0000_0000_0000_0000_0000_0000_0000_0000_0000_0000_0000_0000

  /**
   * `float(Fraction(t))`: as `FractionOf`, except that a quotient too large
   * for a double raises OverflowError.
   */
  function FloatOfFraction(t: string): (r: Result<real>)
    ensures r.Ok? ==> 0.0 <= r.value < FloatOverflow as real
    ensures r.Raised? <==> FractionOf(t).Raised? || FractionOf(t).value >= FloatOverflow as real
    ensures r.Ok? ==> r == FractionOf(t)
  {
    match FractionOf(t)
    case Raised(e) => Raised(e)
    case Ok(v) => if v >= FloatOverflow as real then Raised(OverflowError) else Ok(v)
  }

  // ---------------------------------------------------------------------
  // Decimal(token)
  // ---------------------------------------------------------------------

  function MantissaValue(m: string): Option<real>
  {
    var p := IndexOf(m, '.');
    if p == |m| then
      if |m| > 0 && AllDigits(m) then Some(NumeralValue(m) as real) else None
    else
      var ip, fp := m[..p], m[p + 1..];
      if AllDigits(ip) && AllDigits(fp) && |ip| + |fp| > 0
      then Some(NumeralValue(ip) as real + NumeralValue(fp) as real / Pow10(|fp|) as real)
      else None
  }

  function ExponentStart(s: string): (k: nat)
    ensures k <= |s|
    ensures k < |s| ==> s[k] == 'e' || s[k] == 'E'
    ensures forall j :: 0 <= j < k ==> s[j] != 'e' && s[j] != 'E'
  {
    if |s| == 0 then 0 else if s[0] == 'e' || s[0] == 'E' then 0 else 1 + ExponentStart(s[1..])
  }

  predicate IsSign(c: char) { c == '+' || c == '-' }

  function ExponentValue(x: string): Option<int>
  {
    if |x| == 0 then Some(0)
    else
      var y := x[1..];
      var neg, d := |y| > 0 && y[0] == '-', if |y| > 0 && IsSign(y[0]) then y[1..] else y;
      if |d| > 0 && AllDigits(d) then Some(if neg then -(NumeralValue(d) as int) else NumeralValue(d) as int)
      else None
  }

  function Scale(v: real, e: int): real {
    if e >= 0 then v * Pow10(e) as real else v / Pow10(-e) as real
  }

  /**
   * `Decimal(t)` for the finite spellings: optional surrounding whitespace,
   * an optional sign, digits with at most one point, and an optional exponent.
   * None stands for InvalidOperation.
   */
  function DecimalOf(t: string): Option<real>
  {
    SignedOf(Strip(t))
  }

  /** A stripped spelling: an optional sign before the unsigned number. */
  function SignedOf(u: string): Option<real>
  {
    if |u| > 0 && IsSign(u[0]) then
      match UnsignedOf(u[1..])
      case Some(v) => Some(if u[0] == '-' then -v else v)
      case None => None
    else UnsignedOf(u)
  }

  /** Digits with at most one point, then an optional exponent. */
  function UnsignedOf(body: string): Option<real>
  {
    var k := ExponentStart(body);
    match (MantissaValue(body[..k]), ExponentValue(body[k..]))
    case (Some(m), Some(e)) => Some(Scale(m, e))
    case _ => None
  }

  /** The spellings `Decimal` reads as an infinity or a NaN, in any letter case. */
  predicate IsSpecialDecimal(t: string) {
    var u := Lower(Strip(t));
    var b := if |u| > 0 && IsSign(u[0]) then u[1..] else u;
    b == "inf" || b == "infinity"
    || (StartsWith(b, 0, "nan") && AllDigits(b[3..]))
    || (StartsWith(b, 0, "snan") && AllDigits(b[4..]))
  }

  // ---------------------------------------------------------------------
  // Rendering
  // ---------------------------------------------------------------------

  /** `Decimal(x).quantize(Decimal(".01"), ROUND_HALF_UP)`, for a non-negative x. */
  function Round2(x: real): real
    requires x >= 0.0
  {
    (x * 100.0 + 0.5).Floor as real / 100.0
  }

  /** The quantized number as `str()` prints it: always exactly two decimals. */
  function Fixed2(x: real): (r: string)
    requires x >= 0.0
  {
    var c := (x * 100.0 + 0.5).Floor;
    NatToString(c / 100) + "." + [DigitChar((c % 100) / 10), DigitChar(c % 10)]
  }

  /** The largest coefficient a decimal context of 28 digits, the default, holds. */
  const MaxCoefficient: int := 9_999_999_999_999_999_999_999_999_999

  /**
   * The hundredths of x, rounded half up, fit the context's 28 digits:
   * floor(100x + 1/2) <= MaxCoefficient, that is 100x + 1/2 < MaxCoefficient + 1.
   */
  predicate Fits2(x: real)
    requires x >= 0.0
  {
    x * 100.0 + 0.5 < MaxCoefficient as real + 1.0
  }

  /**
   * `str(round(Decimal(x), 2))` under ROUND_HALF_UP: the quantize signals
   * InvalidOperation, which the default context traps, when the result needs
   * more than 28 digits, and so does an infinite float.
   */
  function Quantize2(x: real): (r: Result<string>)
    requires x >= 0.0
    ensures r.Ok? <==> x < 99_999_999_999_999_999_999_999_999.995
    ensures r.Raised? ==> r.error == InvalidOperation
    ensures r.Ok? ==> r.value == Fixed2(x)
  {
    if Fits2(x) then Ok(Fixed2(x)) else Raised(InvalidOperation)
  }

  /** Every number below 10^26 - 0.005 quantizes; a quotient `float()` accepts may not. */
  lemma QuantizeLimit(x: real)
    requires x >= 0.0
    ensures Fits2(x) <==> x < 99_999_999_999_999_999_999_999_999.995
    ensures x >= FloatOverflow as real ==> !Fits2(x)
  {
  }

  /** Python's `round(y)` on an exact value: to the nearest integer, ties to even. */
  function RoundHalfEven(y: real): (r: int)
    ensures y >= 0.0 ==> r >= 0
  {
    var f := y.Floor;
    if y - f as real > 0.5 then f + 1
    else if y - f as real < 0.5 then f
    else if f % 2 == 0 then f else f + 1
  }

  /** `round(x, 3)`. */
  function Round3(x: real): real {
    RoundHalfEven(x * 1000.0) as real / 1000.0
  }

  /** The three fractional digits of a thousandth count, trailing zeros dropped but one kept. */
  function Thousandths(d: nat): (r: string)
    requires d < 1000
    ensures 1 <= |r| <= 3
    ensures forall k :: 0 <= k < |r| ==> IsDigit(r[k])
  {
    var a, b, c := DigitChar(d / 100), DigitChar((d / 10) % 10), DigitChar(d % 10);
    if d % 100 == 0 then [a] else if d % 10 == 0 then [a, b] else [a, b, c]
  }

  /** `str(round(x, 3))` for a non-negative x below 10^16 (where `repr` stays positional). */
  function Short3(x: real): (r: string)
    requires x >= 0.0
  {
    var n: nat := RoundHalfEven(x * 1000.0);
    NatToString(n / 1000) + "." + Thousandths(n % 1000)
  }

  // ---------------------------------------------------------------------
  // Vulgar-fraction glyphs
  // ---------------------------------------------------------------------

  /** U+00BC..U+00BE (Latin-1 Supplement) and U+2150..U+215E (Number Forms). */
  predicate IsGlyph(c: char) {
    '\U{BC}' <= c <= '\U{BE}' || '\U{2150}' <= c <= '\U{215E}'
  }

  /** `unicodedata.numeric(c)` for the eighteen glyphs. */
  function GlyphValue(c: char): (v: real)
    requires IsGlyph(c)
    ensures 0.0 < v < 1.0
  {
    match c
    case '\U{BC}' => 1.0 / 4.0
    case '\U{BD}' => 1.0 / 2.0
    case '\U{BE}' => 3.0 / 4.0
    case '\U{2150}' => 1.0 / 7.0
    case '\U{2151}' => 1.0 / 9.0
    case '\U{2152}' => 1.0 / 10.0
    case '\U{2153}' => 1.0 / 3.0
    case '\U{2154}' => 2.0 / 3.0
    case '\U{2155}' => 1.0 / 5.0
    case '\U{2156}' => 2.0 / 5.0
    case '\U{2157}' => 3.0 / 5.0
    case '\U{2158}' => 4.0 / 5.0
    case '\U{2159}' => 1.0 / 6.0
    case '\U{215A}' => 5.0 / 6.0
    case '\U{215B}' => 1.0 / 8.0
    case '\U{215C}' => 3.0 / 8.0
    case '\U{215D}' => 5.0 / 8.0
    case _ => 7.0 / 8.0
  }

  /** `float(w) + numeric(g)` for a mixed number whose whole part is p. */
  function MixedValue(p: nat, g: char): (v: real)
    requires IsGlyph(g)
    ensures p as real < v < p as real + 1.0
  {
    p as real + GlyphValue(g)
  }

  // ---------------------------------------------------------------------
  // Properties
  // ---------------------------------------------------------------------

  /** Reading back a printed integer gives the integer. */
  lemma {:induction false} NumeralOfNatToString(n: nat)
    ensures AllDigits(NatToString(n)) && NumeralValue(NatToString(n)) == n
  {
    if n >= 10 {
      NumeralOfNatToString(n / 10);
      var t := NatToString(n);
      assert t[..|t| - 1] == NatToString(n / 10);
    }
  }

  lemma StripOfPlain(t: string)
    requires |t| > 0 && !IsSpace(t[0]) && !IsSpace(t[|t| - 1])
    ensures Strip(t) == t
  {
    assert LeadingSpaceEnd(t, 0) == 0;
    assert TrailingSpaceStart(t, |t|, 0) == |t|;
  }

  /** Half-up rounding to hundredths moves a value by at most half a hundredth, ties upward. */
  lemma Round2Bounds(x: real)
    requires x >= 0.0
    ensures x - 0.005 < Round2(x) <= x + 0.005
  {
    var c := (x * 100.0 + 0.5).Floor;
    assert c as real <= x * 100.0 + 0.5 < c as real + 1.0;
  }

  /** A text of digits and points holds no exponent marker. */
  lemma ExponentStartOfPlain(t: string)
    requires forall j :: 0 <= j < |t| ==> IsDigit(t[j]) || t[j] == '.'
    ensures ExponentStart(t) == |t|
  {
  }

  lemma MantissaAt(t: string, p: nat)
    requires 0 < p < |t| && IndexOf(t, '.') == p && AllDigits(t[..p]) && AllDigits(t[p + 1..])
    ensures MantissaValue(t) == Some(PointedValue(t, p))
  {
  }

  /** A text of digits with one point is a plain numeral to `Decimal`: no sign, no blanks, no exponent. */
  lemma DecimalOfPlain(t: string)
    requires |t| > 0 && forall j :: 0 <= j < |t| ==> IsDigit(t[j]) || t[j] == '.'
    ensures DecimalOf(t) == MantissaValue(t)
  {
    assert !IsSpace(t[0]) && !IsSpace(t[|t| - 1]);
    StripOfPlain(t);
    ExponentStartOfPlain(t);
    assert !IsSign(t[0]);
    DecimalOfBare(t);
  }

  /** A text with nothing to strip, no sign and no exponent is read as its mantissa. */
  lemma DecimalOfBare(t: string)
    requires |t| > 0 && Strip(t) == t && !IsSign(t[0]) && ExponentStart(t) == |t|
    ensures DecimalOf(t) == MantissaValue(t)
  {
    assert SignedOf(t) == UnsignedOf(t);
    UnsignedOfBare(t);
  }

  lemma UnsignedOfBare(t: string)
    requires ExponentStart(t) == |t|
    ensures UnsignedOf(t) == MantissaValue(t)
  {
    var k := ExponentStart(t);
    assert t[..k] == t && t[k..] == "";
    assert ExponentValue(t[k..]) == Some(0);
    ScaleZero(MantissaValue(t));
  }

  lemma ScaleZero(m: Option<real>)
    ensures m.Some? ==> Scale(m.value, 0) == m.value
  {
    assert Pow10(0) == 1;
  }

  lemma PointedShape(t: string, p: nat)
    requires 0 < p < |t| && t[p] == '.' && AllDigits(t[..p]) && AllDigits(t[p + 1..])
    ensures forall j :: 0 <= j < |t| ==> IsDigit(t[j]) || t[j] == '.'
    ensures IndexOf(t, '.') == p
  {
    forall j | 0 <= j < |t| ensures IsDigit(t[j]) || t[j] == '.' {
      if j < p {
        assert t[j] == t[..p][j];
      } else if j > p {
        assert t[j] == t[p + 1..][j - p - 1];
      }
    }
    assert forall j :: 0 <= j < p ==> t[j] == t[..p][j];
  }

  /** The value of "digits.digits" with the point at `p`: the integer part plus the scaled fraction part. */
  function PointedValue(t: string, p: nat): real
    requires p < |t|
  {
    NumeralValue(t[..p]) as real + NumeralValue(t[p + 1..]) as real / Pow10(|t[p + 1..]|) as real
  }

  /** "digits.digits" without surrounding whitespace, with the point at `p`, is read by `float` as its pointed value. */
  lemma FloatOfPointed(t: string, p: nat)
    requires Strip(t) == t && IndexOf(t, '.') == p < |t| && 0 < p && AllDigits(t[..p]) && AllDigits(t[p + 1..])
    ensures FloatOf(t).Ok? && FloatOf(t).value == PointedValue(t, p)
  {
    assert AllDigits(t[..p]) && AllDigits(t[p + 1..]) && |t[..p]| + |t[p + 1..]| > 0;
  }

  /** "digits.digits", with the point at `p`, is read by `Decimal` as its pointed value. */
  lemma DecimalOfPointed(t: string, p: nat)
    requires 0 < p < |t| && t[p] == '.' && AllDigits(t[..p]) && AllDigits(t[p + 1..])
    ensures DecimalOf(t) == Some(PointedValue(t, p))
  {
    PointedShape(t, p);
    DecimalOfPlain(t);
    MantissaAt(t, p);
  }

  lemma ReadPointed(t: string, p: nat, v: real)
    requires 0 < p < |t| && t[p] == '.' && AllDigits(t[..p]) && AllDigits(t[p + 1..]) && PointedValue(t, p) == v
    ensures DecimalOf(t) == Some(v)
  {
    DecimalOfPointed(t, p);
  }

  lemma NumeralOfTwo(a: char, b: char)
    requires IsDigit(a) && IsDigit(b)
    ensures NumeralValue([a, b]) == 10 * DigitValue(a) + DigitValue(b)
  {
    var t := [a, b];
    assert t[..|t| - 1] == [a];
    assert [a][..0] == [];
    assert NumeralValue([a]) == 10 * NumeralValue([]) + DigitValue(a);
  }

  lemma Fixed2Parts(x: real)
    requires x >= 0.0
    ensures var c := (x * 100.0 + 0.5).Floor;
            var t, p := Fixed2(x), |NatToString(c / 100)|;
            0 < p < |t| && t[p] == '.' && t[..p] == NatToString(c / 100)
            && t[p + 1..] == [DigitChar((c % 100) / 10), DigitChar(c % 10)]
  {
  }

  lemma HundredthsSum(c: int)
    requires c >= 0
    ensures (c / 100) as real + (c % 100) as real / 100.0 == c as real / 100.0
  {
  }

  /** The pointed value once its two parts and the scale are known. */
  lemma PointedParts(t: string, p: nat, a: nat, b: nat, scale: nat)
    requires p < |t| && NumeralValue(t[..p]) == a && NumeralValue(t[p + 1..]) == b && Pow10(|t[p + 1..]|) == scale
    ensures PointedValue(t, p) == a as real + b as real / scale as real
  {
  }

  lemma HundredthsDigits(c: nat)
    ensures var t := [DigitChar((c % 100) / 10), DigitChar(c % 10)];
            AllDigits(t) && NumeralValue(t) == c % 100 && Pow10(|t|) == 100
  {
    NumeralOfTwo(DigitChar((c % 100) / 10), DigitChar(c % 10));
  }

  lemma HundredthsValue(t: string, p: nat, c: nat)
    requires 0 < p < |t| && t[p] == '.' && t[..p] == NatToString(c / 100)
    requires t[p + 1..] == [DigitChar((c % 100) / 10), DigitChar(c % 10)]
    ensures AllDigits(t[..p]) && AllDigits(t[p + 1..])
    ensures PointedValue(t, p) == c as real / 100.0
  {
    NumeralOfNatToString(c / 100);
    HundredthsDigits(c);
    HundredthsSum(c);
    PointedParts(t, p, c / 100, c % 100, 100);
  }

  /** The two-decimal rendering denotes exactly the rounded value when read back as a Decimal. */
  lemma Fixed2Denotes(x: real)
    requires x >= 0.0
    ensures DecimalOf(Fixed2(x)) == Some(Round2(x))
  {
    var c := (x * 100.0 + 0.5).Floor;
    Fixed2Parts(x);
    var t, p := Fixed2(x), |NatToString(c / 100)|;
    HundredthsValue(t, p, c);
    ReadPointed(t, p, Round2(x));
  }

  lemma ThousandthsDenote(d: nat)
    requires d < 1000
    ensures AllDigits(Thousandths(d))
    ensures NumeralValue(Thousandths(d)) as real / Pow10(|Thousandths(d)|) as real == d as real / 1000.0
  {
    if d % 100 == 0 {
      TenthsDenote(d);
    } else if d % 10 == 0 {
      HundredthsDenote(d);
    } else {
      ThreePlacesDenote(d);
    }
  }

  /** The three decimal places of `d`, in terms of `d / 10`. */
  lemma PlacesOf(d: nat)
    ensures d == 10 * (d / 10) + d % 10
    ensures d / 10 == 10 * (d / 100) + (d / 10) % 10
  {
  }

  /** Digits `h`, `t`, `u` read as a numeral, written out in full. */
  lemma NumeralOfPlaces(h: nat, t: nat, u: nat)
    requires h < 10 && t < 10 && u < 10
    ensures NumeralValue([DigitChar(h)]) == h
    ensures NumeralValue([DigitChar(h), DigitChar(t)]) == 10 * h + t
    ensures NumeralValue([DigitChar(h), DigitChar(t), DigitChar(u)]) == 100 * h + 10 * t + u
  {
    var a, b, c := DigitChar(h), DigitChar(t), DigitChar(u);
    assert [a][..0] == [];
    NumeralOfTwo(a, b);
    assert [a, b, c][..2] == [a, b];
  }

  lemma TenthsDenote(d: nat)
    requires d < 1000 && d % 100 == 0
    ensures NumeralValue(Thousandths(d)) as real / Pow10(|Thousandths(d)|) as real == d as real / 1000.0
  {
    var h, t, u := d / 100, (d / 10) % 10, d % 10;
    PlacesOf(d);
    NumeralOfPlaces(h, t, u);
    assert Thousandths(d) == [DigitChar(h)];
    assert t == 0 && u == 0;
    assert Pow10(1) == 10;
  }

  lemma HundredthsDenote(d: nat)
    requires d < 1000 && d % 100 != 0 && d % 10 == 0
    ensures NumeralValue(Thousandths(d)) as real / Pow10(|Thousandths(d)|) as real == d as real / 1000.0
  {
    var h, t, u := d / 100, (d / 10) % 10, d % 10;
    PlacesOf(d);
    NumeralOfPlaces(h, t, u);
    assert Thousandths(d) == [DigitChar(h), DigitChar(t)];
    assert d == 10 * (10 * h + t);
    assert Pow10(2) == 100;
  }

  lemma ThreePlacesDenote(d: nat)
    requires d < 1000 && d % 10 != 0
    ensures NumeralValue(Thousandths(d)) as real / Pow10(|Thousandths(d)|) as real == d as real / 1000.0
  {
    var h, t, u := d / 100, (d / 10) % 10, d % 10;
    PlacesOf(d);
    NumeralOfPlaces(h, t, u);
    assert Thousandths(d) == [DigitChar(h), DigitChar(t), DigitChar(u)];
    assert d == 100 * h + 10 * t + u;
    assert Pow10(3) == 1000;
  }

  lemma Short3Parts(x: real)
    requires x >= 0.0
    ensures var n: nat := RoundHalfEven(x * 1000.0);
            var t, p := Short3(x), |NatToString(n / 1000)|;
            0 < p < |t| && t[p] == '.' && t[..p] == NatToString(n / 1000) && t[p + 1..] == Thousandths(n % 1000)
  {
  }

  lemma ThousandthsSum(c: int, f: real)
    requires c >= 0 && f == (c % 1000) as real / 1000.0
    ensures (c / 1000) as real + f == c as real / 1000.0
  {
  }

  lemma ThousandthsValue(t: string, p: nat, c: nat)
    requires 0 < p < |t| && t[p] == '.' && t[..p] == NatToString(c / 1000) && t[p + 1..] == Thousandths(c % 1000)
    ensures AllDigits(t[..p]) && AllDigits(t[p + 1..])
    ensures PointedValue(t, p) == c as real / 1000.0
  {
    NumeralOfNatToString(c / 1000);
    ThousandthsDenote(c % 1000);
    ThousandthsSum(c, NumeralValue(t[p + 1..]) as real / Pow10(|t[p + 1..]|) as real);
  }

  /** The three-place rendering denotes exactly `round(x, 3)` when read back as a Decimal. */
  lemma Short3Denotes(x: real)
    requires x >= 0.0
    ensures DecimalOf(Short3(x)) == Some(Round3(x))
  {
    var c := RoundHalfEven(x * 1000.0);
    assert c >= 0;
    Short3Parts(x);
    var t, p := Short3(x), |NatToString(c / 1000)|;
    ThousandthsValue(t, p, c);
    ReadPointed(t, p, Round3(x));
  }
}
