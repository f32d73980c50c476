/**
 * The passes that turn fractions into decimal numerals: the vulgar-fraction
 * glyph passes (`clean_unicode_fractions`, the same in both revisions, and
 * `clean_epi_unicode_fractions`) and both revisions of `merge_fractions`.
 * Each is a `findall` loop of idiom A or B (see module Loops); an exception
 * a replacement raises is not caught and ends the pass, except that
 * `clean_unicode_fractions` returns a NaN cell unchanged.
 */
module Fractions {
  import opened Wrappers
  import opened Strings
  import opened Numbers
  import opened Patterns
  import opened Regex
  import opened Loops
  import opened Record

  /**
   * `unicodedata.numeric(t)`: a text that is not a single character is a
   * TypeError, a character without a numeric value a ValueError.
   */
  function NumericOf(t: string): (r: Result<real>)
    ensures r.Ok? ==> 0.0 <= r.value < 10.0
  {
    if |t| != 1 then Raised(TypeError)
    else if IsGlyph(t[0]) then Ok(GlyphValue(t[0]))
    else if IsDigit(t[0]) then Ok(DigitValue(t[0]) as real)
    else Raised(ValueError)
  }

  predicate NotGlyph(c: char) { !IsGlyph(c) }

  predicate GlyphFree(s: string) {
    forall k :: 0 <= k < |s| ==> NotGlyph(s[k])
  }

  // ---------------------------------------------------------------------
  // clean_unicode_fractions
  // ---------------------------------------------------------------------

  /** `str(round(float(m[0]) + float(Fraction(numeric(m[1]))), 3))`. */
  function MixedGlyphShort(m: Match): Result<string> {
    match FloatOf(Group(m, 0))
    case Raised(e) => Raised(e)
    case Ok(a) =>
      match NumericOf(Group(m, 1))
      case Raised(e) => Raised(e)
      case Ok(b) => Ok(Short3(a + b))
  }

  /** `str(round(float(Fraction(numeric(m))), 3))`. */
  function GlyphShort(m: Match): Result<string> {
    match NumericOf(Group(m, 0))
    case Raised(e) => Raised(e)
    case Ok(b) => Ok(Short3(b))
  }

  /**
   * Mixed numbers first, then lone glyphs, both with idiom B: every match
   * of a loop gets the value of the first match of that loop. A NaN cell
   * makes `findall` raise the TypeError the pass catches, and comes back as it was.
   */
  function UnicodeFractionsCleaned(ingredient: Field): Result<Field> {
    match ingredient
    case Missing => Ok(Missing)
    case Text(s) =>
      match EachAllOf(MixedGlyph, MixedGlyph, s, MixedGlyphShort)
      case Raised(e) => Raised(e)
      case Ok(mixed) =>
        match EachAllOf(Glyph, Glyph, mixed, GlyphShort)
        case Raised(e) => Raised(e)
        case Ok(single) => Ok(Text(single))
  }

  method CleanUnicodeFractions(ingredient: Field) returns (r: Result<Field>)
    ensures r == UnicodeFractionsCleaned(ingredient)
  {
    if ingredient.Missing? {
      return Ok(Missing);
    }
    var mixed := SubEachAll(MixedGlyph, MixedGlyph, ingredient.s, MixedGlyphShort);
    if mixed.Raised? {
      return Raised(mixed.error);
    }
    var single := SubEachAll(Glyph, Glyph, mixed.value, GlyphShort);
    if single.Raised? {
      return Raised(single.error);
    }
    return Ok(Text(single.value));
  }

  // ---------------------------------------------------------------------
  // clean_epi_unicode_fractions
  // ---------------------------------------------------------------------

  /**
   * The value of one match of `(\d+\s?)?(glyph)` quantized to two places: the
   * glyph alone when the first group is empty, otherwise the whole number plus
   * the glyph.
   */
  function EpiGlyphFixed(m: Match): Result<string> {
    if Group(m, 0) == "" then
      match NumericOf(Group(m, 1))
      case Raised(e) => Raised(e)
      case Ok(b) => Quantize2(b)
    else
      match FloatOf(Group(m, 0))
      case Raised(e) => Raised(e)
      case Ok(a) =>
        match NumericOf(Group(m, 1))
        case Raised(e) => Raised(e)
        case Ok(b) => Quantize2(a + b)
  }

  /** Idiom A over `(\d+\s?)?(glyph)`; a NaN cell makes `findall` raise a TypeError. */
  function EpiUnicodeFractionsCleaned(ingredient: Field): Result<Field> {
    match ingredient
    case Missing => Raised(TypeError)
    case Text(s) =>
      match EachFirstOf(OptMixedGlyph, OptMixedGlyph, s, EpiGlyphFixed)
      case Raised(e) => Raised(e)
      case Ok(r) => Ok(Text(r))
  }

  method CleanEpiUnicodeFractions(ingredient: Field) returns (r: Result<Field>)
    ensures r == EpiUnicodeFractionsCleaned(ingredient)
  {
    if ingredient.Missing? {
      return Raised(TypeError);
    }
    var fixed := SubEachFirst(OptMixedGlyph, OptMixedGlyph, ingredient.s, EpiGlyphFixed);
    if fixed.Raised? {
      return Raised(fixed.error);
    }
    return Ok(Text(fixed.value));
  }

  // ---------------------------------------------------------------------
  // merge_fractions
  // ---------------------------------------------------------------------

  /** `round(Decimal(float(m[0]) + float(Fraction(m[1]))), 2)`, printed. */
  function MixedFractionFixed(m: Match): Result<string> {
    match FloatOf(Group(m, 0))
    case Raised(e) => Raised(e)
    case Ok(a) =>
      match FloatOfFraction(Group(m, 1))
      case Raised(e) => Raised(e)
      case Ok(b) => Quantize2(a + b)
  }

  /** `round(Decimal(float(Fraction(m))), 2)`, printed. */
  function FractionFixed(m: Match): Result<string> {
    match FloatOfFraction(Group(m, 0))
    case Raised(e) => Raised(e)
    case Ok(b) => Quantize2(b)
  }

  /**
   * Mixed fractions `(\d+)[\-\s]?(\d+\/\d+)`, then the fractions left,
   * `(\d+\/\d+)`, both with idiom A. Nothing is caught: a NaN cell raises
   * the TypeError of `findall`, a zero denominator a ZeroDivisionError.
   */
  function FractionsMerged(ingredient: Field): Result<Field> {
    match ingredient
    case Missing => Raised(TypeError)
    case Text(s) =>
      match EachFirstOf(MixedFraction, MixedFraction, s, MixedFractionFixed)
      case Raised(e) => Raised(e)
      case Ok(mixed) =>
        match EachFirstOf(Fraction, Fraction, mixed, FractionFixed)
        case Raised(e) => Raised(e)
        case Ok(single) => Ok(Text(single))
  }

  method MergeFractions(ingredient: Field) returns (r: Result<Field>)
    ensures r == FractionsMerged(ingredient)
  {
    if ingredient.Missing? {
      return Raised(TypeError);
    }
    var mixed := SubEachFirst(MixedFraction, MixedFraction, ingredient.s, MixedFractionFixed);
    if mixed.Raised? {
      return Raised(mixed.error);
    }
    var single := SubEachFirst(Fraction, Fraction, mixed.value, FractionFixed);
    if single.Raised? {
      return Raised(single.error);
    }
    return Ok(Text(single.value));
  }

  // ---------------------------------------------------------------------
  // merge_fractions, older revision
  // ---------------------------------------------------------------------

  /** `str(round(float(m[0]) + float(Fraction(m[1])), 3))`. */
  function SpacedFractionShort(m: Match): Result<string> {
    match FloatOf(Group(m, 0))
    case Raised(e) => Raised(e)
    case Ok(a) =>
      match FractionOf(Group(m, 1))
      case Raised(e) => Raised(e)
      case Ok(b) => Ok(Short3(a + b))
  }

  /** `str(round(float(Fraction(m)), 3))`. */
  function DigitFractionShort(m: Match): Result<string> {
    match FractionOf(Group(m, 0))
    case Raised(e) => Raised(e)
    case Ok(b) => Ok(Short3(b))
  }

  /**
   * `(\d+)\s+(\d\/\d)`, then `(\d\/\d)`, both with idiom B and three-place
   * rounding. Nothing is caught.
   */
  function TrainingFractionsMerged(s: Field): Result<Field> {
    match s
    case Missing => Raised(TypeError)
    case Text(t) =>
      match EachAllOf(SpacedFraction, SpacedFraction, t, SpacedFractionShort)
      case Raised(e) => Raised(e)
      case Ok(mixed) =>
        match EachAllOf(DigitFraction, DigitFraction, mixed, DigitFractionShort)
        case Raised(e) => Raised(e)
        case Ok(single) => Ok(Text(single))
  }

  method MergeTrainingFractions(s: Field) returns (r: Result<Field>)
    ensures r == TrainingFractionsMerged(s)
  {
    if s.Missing? {
      return Raised(TypeError);
    }
    var mixed := SubEachAll(SpacedFraction, SpacedFraction, s.s, SpacedFractionShort);
    if mixed.Raised? {
      return Raised(mixed.error);
    }
    var single := SubEachAll(DigitFraction, DigitFraction, mixed.value, DigitFractionShort);
    if single.Raised? {
      return Raised(single.error);
    }
    return Ok(Text(single.value));
  }

  // ---------------------------------------------------------------------
  // Reading the captured groups
  // ---------------------------------------------------------------------

  /** `float()` of a digit run is its value. */
  lemma FloatOfNumeral(t: string)
    requires |t| > 0 && AllDigits(t)
    ensures FloatOf(t) == Ok(NumeralValue(t) as real)
  {
    StripOfPlain(t);
    assert IndexOf(t, '.') == |t|;
  }

  /** `float()` ignores the whitespace the pattern takes after a digit run. */
  lemma FloatOfNumeralSpace(t: string, c: char)
    requires |t| > 0 && AllDigits(t) && IsSpace(c)
    ensures FloatOf(t + [c]) == Ok(NumeralValue(t) as real)
  {
    var u := t + [c];
    assert LeadingSpaceEnd(u, 0) == 0;
    assert TrailingSpaceStart(u, |t|, 0) == |t|;
    assert TrailingSpaceStart(u, |u|, 0) == |t|;
    assert u[0..|t|] == t;
    FloatOfNumeral(t);
  }

  lemma DigitsSlice(s: string, lo: nat, hi: nat)
    requires lo <= hi <= |s| && forall k :: lo <= k < hi ==> IsDigit(s[k])
    ensures AllDigits(s[lo..hi])
  {
  }

  /** A match `findall` reports is the pattern's match at its start. */
  lemma Found(p: Pattern, s: string, m: Match)
    requires m in FindAll(p, s)
    ensures m.start <= |s| && MatchObject(p, s, m.start) == Some(m)
  {
  }

  /** The groups of a mixed-glyph match: a digit run and one glyph. */
  lemma MixedGlyphGroups(s: string, m: Match)
    requires m.start <= |s| && MatchObject(MixedGlyph, s, m.start) == Some(m)
    ensures |Group(m, 0)| > 0 && AllDigits(Group(m, 0))
    ensures |Group(m, 1)| == 1 && IsGlyph(Group(m, 1)[0])
  {
    var k := m.start;
    var h := MixedGlyphAt(s, k).value;
    assert m.groups == Texts(s, h.spans);
    DigitsSlice(s, k, DigitEnd(s, k));
  }

  /** The group of a glyph match: the glyph. */
  lemma GlyphGroup(s: string, m: Match)
    requires m.start <= |s| && MatchObject(Glyph, s, m.start) == Some(m)
    ensures |Group(m, 0)| == 1 && IsGlyph(Group(m, 0)[0])
  {
  }

  /** The groups of an optional-mixed-glyph match: nothing or a digit run with at most one whitespace, then one glyph. */
  lemma OptMixedGlyphGroups(s: string, m: Match)
    requires m.start <= |s| && MatchObject(OptMixedGlyph, s, m.start) == Some(m)
    ensures Group(m, 0) == "" || FloatOf(Group(m, 0)).Ok?
    ensures |Group(m, 1)| == 1 && IsGlyph(Group(m, 1)[0])
  {
    var h := OptMixedGlyphAt(s, m.start).value;
    assert m.groups == Texts(s, h.spans);
    OptMixedGlyphTexts(s, m.start);
  }

  lemma OptMixedGlyphTexts(s: string, k: nat)
    requires k <= |s| && OptMixedGlyphAt(s, k).Some?
    ensures var g := Texts(s, OptMixedGlyphAt(s, k).value.spans);
            |g| == 2 && (g[0] == "" || FloatOf(g[0]).Ok?) && |g[1]| == 1 && IsGlyph(g[1][0])
  {
    if At(s, k, IsDigit) {
      var a := DigitEnd(s, k);
      if At(s, a, IsSpace) && At(s, a + 1, IsGlyph) {
        SpacedNumeralFloat(s, k, a);
        OptGroupTexts(s, k, a + 1);
      } else {
        DigitsSlice(s, k, a);
        FloatOfNumeral(s[k..a]);
        OptGroupTexts(s, k, a);
      }
    } else {
      OptGroupTexts(s, k, k);
    }
  }

  /** The two groups of a glyph at `mid` with an optional whole part from `lo`. */
  lemma OptGroupTexts(s: string, lo: nat, mid: nat)
    requires lo <= mid < |s| && IsGlyph(s[mid]) && (lo == mid || FloatOf(s[lo..mid]).Ok?)
    ensures var g := Texts(s, [Span(lo, mid), Span(mid, mid + 1)]);
            |g| == 2 && (g[0] == "" || FloatOf(g[0]).Ok?) && |g[1]| == 1 && IsGlyph(g[1][0])
  {
    TextsTwo(s, lo, mid, mid, mid + 1);
    assert s[mid..mid + 1] == [s[mid]];
  }


  /** A digit run with one trailing whitespace character reads as a float. */
  lemma SpacedNumeralFloat(s: string, k: nat, a: nat)
    requires k < |s| && a == DigitEnd(s, k) && k < a < |s| && IsSpace(s[a])
    ensures FloatOf(s[k..a + 1]).Ok?
  {
    DigitsSlice(s, k, a);
    assert s[k..a + 1] == s[k..a] + [s[a]];
    FloatOfNumeralSpace(s[k..a], s[a]);
  }

  /** The first group of a mixed-fraction match is a digit run. */
  lemma MixedFractionGroups(s: string, m: Match)
    requires m.start <= |s| && MatchObject(MixedFraction, s, m.start) == Some(m)
    ensures |Group(m, 0)| > 0 && AllDigits(Group(m, 0))
  {
    var k := m.start;
    var h := MixedFractionAt(s, k).value;
    assert m.groups == Texts(s, h.spans);
    DigitsSlice(s, k, DigitEnd(s, k));
  }

  /** The first group of a spaced-fraction match (older revision) is a digit run. */
  lemma SpacedFractionGroups(s: string, m: Match)
    requires m.start <= |s| && MatchObject(SpacedFraction, s, m.start) == Some(m)
    ensures |Group(m, 0)| > 0 && AllDigits(Group(m, 0))
  {
    var k := m.start;
    var h := SpacedFractionAt(s, k).value;
    assert m.groups == Texts(s, h.spans);
    DigitsSlice(s, k, DigitEnd(s, k));
  }

  // ---------------------------------------------------------------------
  // Rendered numbers hold no glyph
  // ---------------------------------------------------------------------

  lemma DigitsGlyphFree(t: string)
    requires AllDigits(t)
    ensures GlyphFree(t)
  {
  }

  lemma Short3GlyphFree(x: real)
    requires x >= 0.0
    ensures GlyphFree(Short3(x))
  {
    var n: nat := RoundHalfEven(x * 1000.0);
    DigitsGlyphFree(NatToString(n / 1000));
    DigitsGlyphFree(Thousandths(n % 1000));
  }

  lemma Fixed2GlyphFree(x: real)
    requires x >= 0.0
    ensures GlyphFree(Fixed2(x))
  {
    var c := (x * 100.0 + 0.5).Floor;
    DigitsGlyphFree(NatToString(c / 100));
  }

  // ---------------------------------------------------------------------
  // clean_unicode_fractions: no glyph survives
  // ---------------------------------------------------------------------

  /** No replacement of the mixed-number loop raises: its groups are a digit run and a glyph. */
  lemma MixedGlyphRepsOk(s: string)
    ensures RepsOf(MixedGlyphShort, FindAll(MixedGlyph, s)).Ok?
  {
    var ms := FindAll(MixedGlyph, s);
    forall j | 0 <= j < |ms| ensures MixedGlyphShort(ms[j]).Ok? {
      MixedGlyphGroups(s, ms[j]);
      FloatOfNumeral(Group(ms[j], 0));
    }
  }

  /** No replacement of the lone-glyph loop raises, and none holds a glyph. */
  lemma GlyphRepsFree(s: string)
    ensures RepsOf(GlyphShort, FindAll(Glyph, s)).Ok?
    ensures forall t :: t in RepsOf(GlyphShort, FindAll(Glyph, s)).value ==> GlyphFree(t)
  {
    var ms := FindAll(Glyph, s);
    forall j | 0 <= j < |ms| ensures GlyphShort(ms[j]).Ok? && GlyphFree(GlyphShort(ms[j]).value) {
      GlyphGroup(s, ms[j]);
      Short3GlyphFree(GlyphValue(Group(ms[j], 0)[0]));
    }
  }

  lemma NoGlyphMatch(s: string)
    requires NoMatchFrom(Glyph, s, 0)
    ensures GlyphFree(s)
  {
    forall k | 0 <= k < |s| ensures NotGlyph(s[k]) {
      assert MatchAt(Glyph, s, k).None?;
    }
  }

  /** Idiom B over lone glyphs, with texts that hold no glyph, leaves no glyph. */
  lemma EachAllGlyphFree(s: string, reps: seq<string>)
    requires |reps| == |FindAll(Glyph, s)| && forall t :: t in reps ==> GlyphFree(t)
    ensures GlyphFree(EachAll(Glyph, s, reps))
  {
    if |reps| == 0 {
      FindAllEmpty(Glyph, s);
      NoGlyphMatch(s);
    } else {
      assert reps[0] in reps;
      forall c | c in reps[0] ensures NotGlyph(c) {
        var j :| 0 <= j < |reps[0]| && reps[0][j] == c;
      }
      SubAllRemoves(Glyph, s, 0, reps[0], NotGlyph);
      var r1 := SubAll(Glyph, s, [Str(reps[0])]);
      forall k | 0 <= k <= |r1| ensures MatchAt(Glyph, r1, k).None? {
        if k < |r1| {
          assert r1[k] in r1;
        }
      }
      assert GlyphFree(r1) by {
        forall k | 0 <= k < |r1| ensures NotGlyph(r1[k]) {
          assert r1[k] in r1;
        }
      }
      EachAllSettles(Glyph, s, reps);
    }
  }

  /** `clean_unicode_fractions` never raises on a string and leaves no vulgar-fraction glyph in it. */
  lemma UnicodeFractionsClear(s: string)
    ensures UnicodeFractionsCleaned(Text(s)).Ok? && UnicodeFractionsCleaned(Text(s)).value.Text?
    ensures GlyphFree(UnicodeFractionsCleaned(Text(s)).value.s)
  {
    MixedGlyphRepsOk(s);
    var mixed := EachAll(MixedGlyph, s, RepsOf(MixedGlyphShort, FindAll(MixedGlyph, s)).value);
    assert EachAllOf(MixedGlyph, MixedGlyph, s, MixedGlyphShort) == Ok(mixed);
    GlyphRepsFree(mixed);
    EachAllGlyphFree(mixed, RepsOf(GlyphShort, FindAll(Glyph, mixed)).value);
  }

  // ---------------------------------------------------------------------
  // clean_epi_unicode_fractions: one glyph per round
  // ---------------------------------------------------------------------

  function GlyphCount(s: string): nat {
    if |s| == 0 then 0 else (if IsGlyph(s[0]) then 1 else 0) + GlyphCount(s[1..])
  }

  lemma {:induction false} GlyphCountConcat(a: string, b: string)
    ensures GlyphCount(a + b) == GlyphCount(a) + GlyphCount(b)
    decreases |a|
  {
    if |a| == 0 {
      assert a + b == b;
    } else {
      assert (a + b)[1..] == a[1..] + b;
      GlyphCountConcat(a[1..], b);
    }
  }

  lemma {:induction false} GlyphCountFree(s: string)
    ensures GlyphCount(s) == 0 <==> GlyphFree(s)
    decreases |s|
  {
    if |s| > 0 {
      GlyphCountFree(s[1..]);
      assert GlyphFree(s) <==> NotGlyph(s[0]) && GlyphFree(s[1..]) by {
        assert forall k :: 1 <= k < |s| ==> s[k] == s[1..][k - 1];
      }
    }
  }

  /** Counting glyphs across two cut points. */
  lemma CountAround(s: string, lo: nat, a: nat, b: nat)
    requires lo <= a <= b <= |s|
    ensures GlyphCount(s[lo..]) == GlyphCount(s[lo..a]) + GlyphCount(s[a..b]) + GlyphCount(s[b..])
  {
    assert s[lo..] == s[lo..a] + s[a..b] + s[b..];
    GlyphCountConcat(s[lo..a] + s[a..b], s[b..]);
    GlyphCountConcat(s[lo..a], s[a..b]);
  }

  lemma CountJoin(x: string, y: string, z: string)
    ensures GlyphCount(x + y + z) == GlyphCount(x) + GlyphCount(y) + GlyphCount(z)
  {
    GlyphCountConcat(x + y, z);
    GlyphCountConcat(x, y);
  }

  /** Where `(\d+\s?)?(glyph)` does not match, there is no glyph. */
  lemma NoGlyphBefore(s: string, lo: nat, hi: nat)
    requires lo <= hi <= |s| && forall k :: lo <= k < hi ==> MatchAt(OptMixedGlyph, s, k).None?
    ensures GlyphCount(s[lo..hi]) == 0
  {
    forall j | 0 <= j < hi - lo ensures NotGlyph(s[lo..hi][j]) {
      assert MatchAt(OptMixedGlyph, s, lo + j).None?;
    }
    GlyphCountFree(s[lo..hi]);
  }

  /** A match of `(\d+\s?)?(glyph)` holds exactly one glyph, its last character. */
  lemma OptMixedGlyphCount(s: string, k: nat)
    requires k <= |s| && MatchAt(OptMixedGlyph, s, k).Some?
    ensures GlyphCount(s[k..MatchAt(OptMixedGlyph, s, k).value.end]) == 1
  {
    var e := OptMixedGlyphAt(s, k).value.end;
    var t := s[k..e];
    assert forall j :: k <= j < e - 1 ==> IsDigit(s[j]) || IsSpace(s[j]);
    var u := t[..|t| - 1];
    forall j | 0 <= j < |u| ensures NotGlyph(u[j]) {
      assert u[j] == s[k + j];
    }
    GlyphCountFree(u);
    assert t == u + [s[e - 1]];
    GlyphCountConcat(u, [s[e - 1]]);
  }

  /** `findall` of `(\d+\s?)?(glyph)` finds one match per glyph. */
  lemma {:induction false} FoundCountsGlyphs(s: string, pos: nat)
    requires pos <= |s|
    ensures |FindAllFrom(OptMixedGlyph, s, pos)| == GlyphCount(s[pos..])
    decreases |s| - pos
  {
    match Search(OptMixedGlyph, s, pos)
    case None =>
      NoGlyphBefore(s, pos, |s|);
      assert s[pos..|s|] == s[pos..];
    case Some(m) =>
      assert FindAllFrom(OptMixedGlyph, s, pos) == [m] + FindAllFrom(OptMixedGlyph, s, m.end);
      FoundCountsGlyphs(s, m.end);
      NoGlyphBefore(s, pos, m.start);
      OptMixedGlyphCount(s, m.start);
      CountAround(s, pos, m.start, m.end);
  }

  /** One round of idiom A with a glyph-free text takes exactly one glyph away. */
  lemma SubFirstDropsGlyph(t: string, x: string)
    requires GlyphFree(x) && GlyphCount(t) > 0
    ensures GlyphCount(SubFirst(OptMixedGlyph, t, x)) == GlyphCount(t) - 1
  {
    GlyphCountFree(t);
    var k :| 0 <= k < |t| && !NotGlyph(t[k]);
    assert MatchAt(OptMixedGlyph, t, k).Some?;
    var m := Search(OptMixedGlyph, t, 0).value;
    NoGlyphBefore(t, 0, m.start);
    OptMixedGlyphCount(t, m.start);
    GlyphCountFree(x);
    CountAround(t, 0, m.start, m.end);
    assert t[0..] == t && t[0..m.start] == t[..m.start];
    CountJoin(t[..m.start], x, t[m.end..]);
  }

  lemma {:induction false} EachFirstCounts(s: string, reps: seq<string>)
    requires |reps| <= GlyphCount(s) && forall t :: t in reps ==> GlyphFree(t)
    ensures GlyphCount(EachFirst(OptMixedGlyph, s, reps)) == GlyphCount(s) - |reps|
    decreases |reps|
  {
    if |reps| > 0 {
      var n := |reps| - 1;
      assert forall t :: t in reps[..n] ==> t in reps;
      EachFirstCounts(s, reps[..n]);
      assert reps[n] in reps;
      SubFirstDropsGlyph(EachFirst(OptMixedGlyph, s, reps[..n]), reps[n]);
    }
  }

  /** A match's whole number, if any, leaves its sum with the glyph within `round`'s 28 digits. */
  predicate EpiFits(m: Match) {
    || Group(m, 0) == ""
    || (&& FloatOf(Group(m, 0)).Ok? && |Group(m, 1)| == 1 && IsGlyph(Group(m, 1)[0])
        && Fits2(FloatOf(Group(m, 0)).value + GlyphValue(Group(m, 1)[0])))
  }

  /**
   * The replacement for one Epicurious match is a glyph-free number; it
   * raises only when the sum does not fit `round`, and then InvalidOperation.
   */
  lemma EpiRepFree(m: Match)
    requires Group(m, 0) == "" || FloatOf(Group(m, 0)).Ok?
    requires |Group(m, 1)| == 1 && IsGlyph(Group(m, 1)[0])
    ensures EpiGlyphFixed(m).Ok? <==> EpiFits(m)
    ensures EpiGlyphFixed(m).Raised? ==> EpiGlyphFixed(m).error == InvalidOperation
    ensures EpiGlyphFixed(m).Ok? ==> GlyphFree(EpiGlyphFixed(m).value)
  {
    var b := GlyphValue(Group(m, 1)[0]);
    assert NumericOf(Group(m, 1)) == Ok(b);
    if Group(m, 0) == "" {
      QuantizeLimit(b);
      Fixed2GlyphFree(b);
    } else {
      Fixed2GlyphFree(FloatOf(Group(m, 0)).value + b);
    }
  }

  /** The Epicurious loop raises exactly when a match does not fit, and then InvalidOperation; its replacements are glyph-free. */
  lemma EpiRepsFree(s: string)
    ensures var ms := FindAll(OptMixedGlyph, s);
            RepsOf(EpiGlyphFixed, ms).Ok? <==> forall j :: 0 <= j < |ms| ==> EpiFits(ms[j])
    ensures RepsOf(EpiGlyphFixed, FindAll(OptMixedGlyph, s)).Raised? ==>
            RepsOf(EpiGlyphFixed, FindAll(OptMixedGlyph, s)).error == InvalidOperation
    ensures RepsOf(EpiGlyphFixed, FindAll(OptMixedGlyph, s)).Ok? ==>
            forall t :: t in RepsOf(EpiGlyphFixed, FindAll(OptMixedGlyph, s)).value ==> GlyphFree(t)
  {
    var ms := FindAll(OptMixedGlyph, s);
    forall j | 0 <= j < |ms|
      ensures EpiGlyphFixed(ms[j]).Ok? <==> EpiFits(ms[j])
      ensures EpiGlyphFixed(ms[j]).Raised? ==> EpiGlyphFixed(ms[j]).error == InvalidOperation
      ensures EpiGlyphFixed(ms[j]).Ok? ==> GlyphFree(EpiGlyphFixed(ms[j]).value)
    {
      OptMixedGlyphGroups(s, ms[j]);
      EpiRepFree(ms[j]);
    }
  }

  /**
   * `clean_epi_unicode_fractions` on a string raises exactly when one of
   * its numbers does not fit `round`, and then InvalidOperation; otherwise
   * it leaves no vulgar-fraction glyph: it finds one match per glyph, and
   * each round rewrites one glyph (with whatever number precedes it) into
   * digits.
   */
  lemma EpiUnicodeFractionsClear(s: string)
    ensures var ms := FindAll(OptMixedGlyph, s);
            EpiUnicodeFractionsCleaned(Text(s)).Ok? <==> forall j :: 0 <= j < |ms| ==> EpiFits(ms[j])
    ensures EpiUnicodeFractionsCleaned(Text(s)).Raised? ==> EpiUnicodeFractionsCleaned(Text(s)).error == InvalidOperation
    ensures EpiUnicodeFractionsCleaned(Text(s)).Ok? ==>
            EpiUnicodeFractionsCleaned(Text(s)).value.Text? && GlyphFree(EpiUnicodeFractionsCleaned(Text(s)).value.s)
  {
    EpiRepsFree(s);
    var r := RepsOf(EpiGlyphFixed, FindAll(OptMixedGlyph, s));
    if r.Ok? {
      var reps := r.value;
      FoundCountsGlyphs(s, 0);
      assert s[0..] == s;
      EachFirstCounts(s, reps);
      GlyphCountFree(EachFirst(OptMixedGlyph, s, reps));
    }
  }

  // ---------------------------------------------------------------------
  // merge_fractions: the exceptions
  // ---------------------------------------------------------------------

  /**
   * With a digit run before it, a mixed fraction's replacement raises
   * ZeroDivisionError exactly for a zero denominator, OverflowError exactly
   * for a quotient too large for a double, and InvalidOperation when the sum
   * does not fit `round`.
   */
  lemma MixedFractionFails(m: Match)
    requires |Group(m, 0)| > 0 && AllDigits(Group(m, 0))
    ensures MixedFractionFixed(m).Raised? <==>
            FractionOf(Group(m, 1)).Raised? || !Fits2(NumeralValue(Group(m, 0)) as real + FractionOf(Group(m, 1)).value)
    ensures MixedFractionFixed(m) == Raised(ZeroDivisionError) <==> FractionOf(Group(m, 1)).Raised?
    ensures MixedFractionFixed(m) == Raised(OverflowError) <==>
            FractionOf(Group(m, 1)).Ok? && FractionOf(Group(m, 1)).value >= FloatOverflow as real
    ensures MixedFractionFixed(m).Raised? ==>
            MixedFractionFixed(m).error in {ZeroDivisionError, OverflowError, InvalidOperation}
  {
    FloatOfNumeral(Group(m, 0));
    if FractionOf(Group(m, 1)).Ok? {
      QuantizeLimit(NumeralValue(Group(m, 0)) as real + FractionOf(Group(m, 1)).value);
    }
  }

  lemma SpacedFractionFails(m: Match)
    requires |Group(m, 0)| > 0 && AllDigits(Group(m, 0))
    ensures SpacedFractionShort(m).Raised? ==> SpacedFractionShort(m).error == ZeroDivisionError
  {
    FloatOfNumeral(Group(m, 0));
  }

  /** A bare fraction's replacement raises ZeroDivisionError exactly for a zero denominator. */
  lemma FractionFails(m: Match)
    ensures FractionFixed(m) == Raised(ZeroDivisionError) <==> FractionOf(Group(m, 0)).Raised?
    ensures FractionFixed(m).Raised? ==> FractionFixed(m).error in {ZeroDivisionError, OverflowError, InvalidOperation}
  {
  }

  /**
   * On a string `merge_fractions` raises only ZeroDivisionError,
   * OverflowError or InvalidOperation, and ZeroDivisionError only for a zero
   * denominator in one of the fractions its loops visit.
   */
  lemma MergeFractionsRaises(s: string)
    ensures FractionsMerged(Text(s)).Raised? ==>
            FractionsMerged(Text(s)).error in {ZeroDivisionError, OverflowError, InvalidOperation}
    ensures var ms := FindAll(MixedFraction, s);
            var mixed := EachFirstOf(MixedFraction, MixedFraction, s, MixedFractionFixed);
            FractionsMerged(Text(s)) == Raised(ZeroDivisionError) ==>
            || (exists j :: 0 <= j < |ms| && FractionOf(Group(ms[j], 1)).Raised?)
            || (mixed.Ok? && exists j :: 0 <= j < |FindAll(Fraction, mixed.value)| && FractionOf(Group(FindAll(Fraction, mixed.value)[j], 0)).Raised?)
  {
    var ms := FindAll(MixedFraction, s);
    forall j | 0 <= j < |ms|
      ensures MixedFractionFixed(ms[j]) == Raised(ZeroDivisionError) <==> FractionOf(Group(ms[j], 1)).Raised?
      ensures MixedFractionFixed(ms[j]).Raised? ==> MixedFractionFixed(ms[j]).error in {ZeroDivisionError, OverflowError, InvalidOperation}
    {
      MixedFractionGroups(s, ms[j]);
      MixedFractionFails(ms[j]);
    }
    var mixed := EachFirstOf(MixedFraction, MixedFraction, s, MixedFractionFixed);
    if mixed.Ok? {
      var bs := FindAll(Fraction, mixed.value);
      forall j | 0 <= j < |bs|
        ensures FractionFixed(bs[j]) == Raised(ZeroDivisionError) <==> FractionOf(Group(bs[j], 0)).Raised?
        ensures FractionFixed(bs[j]).Raised? ==> FractionFixed(bs[j]).error in {ZeroDivisionError, OverflowError, InvalidOperation}
      {
        FractionFails(bs[j]);
      }
    }
  }

  /**
   * A zero denominator in a mixed fraction of the text makes `merge_fractions`
   * raise, and the error is ZeroDivisionError when every mixed fraction
   * before it is replaced without raising.
   */
  lemma ZeroDenominatorRaises(s: string, j: nat)
    requires j < |FindAll(MixedFraction, s)| && FractionOf(Group(FindAll(MixedFraction, s)[j], 1)).Raised?
    ensures FractionsMerged(Text(s)).Raised?
    ensures var ms := FindAll(MixedFraction, s);
            (forall k :: 0 <= k < j ==> MixedFractionFixed(ms[k]).Ok?) ==> FractionsMerged(Text(s)) == Raised(ZeroDivisionError)
  {
    var ms := FindAll(MixedFraction, s);
    MixedZeroAt(s, j);
    if forall k :: 0 <= k < j ==> MixedFractionFixed(ms[k]).Ok? {
      FirstFailing(MixedFraction, MixedFraction, s, MixedFractionFixed, j);
    } else {
      AnyFailing(MixedFraction, MixedFraction, s, MixedFractionFixed, j);
    }
  }

  /** A zero denominator in a mixed-fraction match makes its replacement raise ZeroDivisionError. */
  lemma MixedZeroAt(s: string, j: nat)
    requires j < |FindAll(MixedFraction, s)| && FractionOf(Group(FindAll(MixedFraction, s)[j], 1)).Raised?
    ensures MixedFractionFixed(FindAll(MixedFraction, s)[j]) == Raised(ZeroDivisionError)
  {
    var m := FindAll(MixedFraction, s)[j];
    MixedFractionGroups(s, m);
    MixedFractionFails(m);
  }

  /** The older revision likewise raises only for a zero denominator. */
  lemma TrainingFractionsRaises(s: string)
    ensures TrainingFractionsMerged(Text(s)).Raised? ==> TrainingFractionsMerged(Text(s)).error == ZeroDivisionError
  {
    var ms := FindAll(SpacedFraction, s);
    forall j | 0 <= j < |ms| ensures SpacedFractionShort(ms[j]).Raised? ==> SpacedFractionShort(ms[j]).error == ZeroDivisionError {
      SpacedFractionGroups(s, ms[j]);
      SpacedFractionFails(ms[j]);
    }
  }

  /** In the older revision, a zero denominator in any spaced mixed fraction raises ZeroDivisionError. */
  lemma SpacedZeroRaises(s: string, j: nat)
    requires j < |FindAll(SpacedFraction, s)| && FractionOf(Group(FindAll(SpacedFraction, s)[j], 1)).Raised?
    ensures TrainingFractionsMerged(Text(s)) == Raised(ZeroDivisionError)
  {
    var ms := FindAll(SpacedFraction, s);
    SpacedFractionGroups(s, ms[j]);
    FloatOfNumeral(Group(ms[j], 0));
    assert SpacedFractionShort(ms[j]).Raised?;
    assert RepsOf(SpacedFractionShort, ms).Raised?;
    TrainingFractionsRaises(s);
  }

  /**
   * A zero denominator in any single fraction left after the first loop
   * raises ZeroDivisionError as well.
   */
  lemma DigitZeroRaises(s: string, j: nat)
    requires EachAllOf(SpacedFraction, SpacedFraction, s, SpacedFractionShort).Ok?
    requires var mixed := EachAllOf(SpacedFraction, SpacedFraction, s, SpacedFractionShort).value;
             j < |FindAll(DigitFraction, mixed)| && FractionOf(Group(FindAll(DigitFraction, mixed)[j], 0)).Raised?
    ensures TrainingFractionsMerged(Text(s)) == Raised(ZeroDivisionError)
  {
    var mixed := EachAllOf(SpacedFraction, SpacedFraction, s, SpacedFractionShort).value;
    var ms := FindAll(DigitFraction, mixed);
    assert DigitFractionShort(ms[j]).Raised?;
    assert RepsOf(DigitFractionShort, ms).Raised?;
    TrainingFractionsRaises(s);
  }

  // ---------------------------------------------------------------------
  // The numbers the passes write
  // ---------------------------------------------------------------------

  predicate NoDigit(t: string) {
    forall k :: 0 <= k < |t| ==> !IsDigit(t[k])
  }

  predicate NoSlash(t: string) {
    forall k :: 0 <= k < |t| ==> t[k] != '/'
  }

  /** A printed two-place number is digits and one point. */
  lemma Fixed2Plain(x: real)
    requires x >= 0.0
    ensures forall k :: 0 <= k < |Fixed2(x)| ==> IsDigit(Fixed2(x)[k]) || Fixed2(x)[k] == '.'
  {
  }

  /** A printed three-place number is digits and one point. */
  lemma Short3Plain(x: real)
    requires x >= 0.0
    ensures forall k :: 0 <= k < |Short3(x)| ==> IsDigit(Short3(x)[k]) || Short3(x)[k] == '.'
  {
  }

  /** `Fraction("n/d")` of two digit runs. */
  lemma FractionOfDigits(n: string, d: string, q: nat, r: nat)
    requires AllDigits(n) && NumeralValue(n) == q && NumeralValue(d) == r && r > 0
    ensures FractionOf(n + "/" + d) == Ok(q as real / r as real)
  {
    SlashAfterDigits(n, d);
  }

  /** In `n/d` with `n` all digits, the first '/' is the one after `n`. */
  lemma SlashAfterDigits(n: string, d: string)
    requires AllDigits(n)
    ensures IndexOf(n + "/" + d, '/') == |n|
    ensures (n + "/" + d)[..|n|] == n && (n + "/" + d)[|n| + 1..] == d
  {
    var t := n + "/" + d;
    assert forall j :: 0 <= j < |n| ==> t[j] == n[j];
    assert t[|n|] == '/';
  }

  /** A mixed-fraction match holds a slash. */
  lemma MixedFractionSlash(s: string, k: nat)
    requires k <= |s| && MatchAt(MixedFraction, s, k).Some?
    ensures exists j :: k <= j < |s| && s[j] == '/'
  {
    var a := DigitEnd(s, k);
    if At(s, a, IsDashOrSpace) {
      var b := DigitEnd(s, a + 1);
      assert CharAt(s, b, '/');
    } else {
      assert CharAt(s, a, '/');
    }
  }

  /** Without a slash from `k` on, no mixed fraction starts at `k`. */
  lemma MixedFractionNone(s: string, k: nat)
    requires k <= |s| && forall j :: k <= j < |s| ==> s[j] != '/'
    ensures MatchAt(MixedFraction, s, k).None?
  {
    if MatchAt(MixedFraction, s, k).Some? {
      MixedFractionSlash(s, k);
    }
  }

  /** A fraction match holds a slash. */
  lemma FractionSlash(s: string, k: nat)
    requires k <= |s| && MatchAt(Fraction, s, k).Some?
    ensures exists j :: k <= j < |s| && s[j] == '/'
  {
    assert CharAt(s, DigitEnd(s, k), '/');
  }

  /** A text without a slash holds no fraction. */
  lemma NoSlashNoFraction(s: string)
    requires NoSlash(s)
    ensures NoMatchFrom(Fraction, s, 0)
  {
    forall k | 0 <= k <= |s| ensures MatchAt(Fraction, s, k).None? {
      if MatchAt(Fraction, s, k).Some? {
        FractionSlash(s, k);
      }
    }
  }

  /** `(\d+)[\-\s]?(\d+\/\d+)` on a digit run, an optional dash or blank, a digit run, a slash and a digit run. */
  lemma MixedFractionHit(s: string, i: nat, a: nat, g: nat, sl: nat, c: nat)
    requires i < a <= g <= sl && sl + 1 < c <= |s|
    requires AllDigits(s[i..a]) && AllDigits(s[g..sl]) && AllDigits(s[sl + 1..c])
    requires (g == a && sl == a + 1) || (g == a + 1 && IsDashOrSpace(s[a]) && g < sl)
    requires s[sl] == '/' && (c < |s| ==> !IsDigit(s[c]))
    ensures MatchAt(MixedFraction, s, i) == Some(Hit(c, [Span(i, a), Span(g, c)]))
  {
    DigitRunEnd(s, sl + 1, c);
    assert !IsDigit(s[sl]);
    if g == a {
      assert s[a] == s[g..sl][0];
      DigitsExtend(s, i, a);
      DigitRunEnd(s, i, a + 1);
      JoinedFractionAt(s, i, a, c);
    } else {
      assert !IsDigit(s[a]) by { assert IsDashOrSpace(s[a]); }
      DigitRunEnd(s, i, a);
      DigitRunEnd(s, g, sl);
      SpacedMixedFractionAt(s, i, a, sl, c);
    }
  }

  lemma JoinedFractionAt(s: string, i: nat, a: nat, c: nat)
    requires i < a && a + 2 < c <= |s| && s[a + 1] == '/'
    requires DigitEnd(s, i) == a + 1 && DigitEnd(s, a + 2) == c
    ensures MixedFractionAt(s, i) == Some(Hit(c, [Span(i, a), Span(a, c)]))
  {
    assert !IsDashOrSpace(s[a + 1]);
  }

  lemma SpacedMixedFractionAt(s: string, i: nat, a: nat, sl: nat, c: nat)
    requires i < a && a + 1 < sl && sl + 1 < c <= |s| && IsDashOrSpace(s[a]) && s[sl] == '/'
    requires DigitEnd(s, i) == a && DigitEnd(s, a + 1) == sl && DigitEnd(s, sl + 1) == c
    ensures MixedFractionAt(s, i) == Some(Hit(c, [Span(i, a), Span(a + 1, c)]))
  {
    assert FractionEnd(s, a + 1) == Some(c);
  }

  /** A digit run that stops before a non-digit, or at the end, is where `\d+` stops. */
  lemma DigitRunEnd(s: string, i: nat, j: nat)
    requires i <= j <= |s| && (j < |s| ==> !IsDigit(s[j]))
    requires AllDigits(s[i..j])
    ensures DigitEnd(s, i) == j
  {
    assert forall k :: i <= k < j ==> s[k] == s[i..j][k - i];
    RunEndAt(s, i, j, IsDigit);
  }

  lemma DigitsExtend(s: string, i: nat, a: nat)
    requires i <= a < |s| && AllDigits(s[i..a]) && IsDigit(s[a])
    ensures AllDigits(s[i..a + 1])
  {
    assert forall k :: i <= k < a ==> s[k] == s[i..a][k - i];
  }

  /** The scan of the mixed-fraction loop finds one mixed fraction when no digit comes before it and no slash after it. */
  lemma MixedFractionOnly(s: string, i: nat, a: nat, g: nat, sl: nat, c: nat)
    requires i < a <= g <= sl && sl + 1 < c <= |s|
    requires AllDigits(s[i..a]) && AllDigits(s[g..sl]) && AllDigits(s[sl + 1..c])
    requires (g == a && sl == a + 1) || (g == a + 1 && IsDashOrSpace(s[a]) && g < sl)
    requires s[sl] == '/' && (c < |s| ==> !IsDigit(s[c]))
    requires NoDigit(s[..i]) && NoSlash(s[c..])
    ensures FindAll(MixedFraction, s) == [Match(i, c, [s[i..a], s[g..c]])]
  {
    MixedFractionHit(s, i, a, g, sl, c);
    MixedFractionNoneBefore(s, i);
    MixedFractionNoneAfter(s, c);
    FindsOnly(MixedFraction, s, i);
    assert Texts(s, [Span(i, a), Span(g, c)]) == [s[i..a], s[g..c]];
  }

  /** No mixed fraction starts in a stretch without digits. */
  lemma MixedFractionNoneBefore(s: string, i: nat)
    requires i <= |s| && NoDigit(s[..i])
    ensures forall k :: 0 <= k < i ==> MatchAt(MixedFraction, s, k).None?
  {
    forall k | 0 <= k < i ensures MatchAt(MixedFraction, s, k).None? {
      assert s[k] == s[..i][k];
    }
  }

  /** No mixed fraction starts where no slash follows. */
  lemma MixedFractionNoneAfter(s: string, c: nat)
    requires c <= |s| && NoSlash(s[c..])
    ensures forall k :: c <= k <= |s| ==> MatchAt(MixedFraction, s, k).None?
  {
    assert forall j :: c <= j < |s| ==> s[j] == s[c..][j - c];
    forall k | c <= k <= |s| ensures MatchAt(MixedFraction, s, k).None? {
      MixedFractionNone(s, k);
    }
  }

  /** `merge_fractions` where the scan finds one mixed fraction, stated on positions. */
  lemma MixedFractionMergedAt(s: string, i: nat, a: nat, g: nat, sl: nat, c: nat, w: string, n: string, d: string, p: nat, q: nat, r: nat)
    requires i < a <= g <= sl && sl + 1 < c <= |s|
    requires s[i..a] == w && s[g..sl] == n && s[sl + 1..c] == d
    requires AllDigits(w) && AllDigits(n) && AllDigits(d)
    requires NumeralValue(w) == p && NumeralValue(n) == q && NumeralValue(d) == r && r > 0
    requires (g == a && sl == a + 1) || (g == a + 1 && IsDashOrSpace(s[a]) && g < sl)
    requires s[sl] == '/' && (c < |s| ==> !IsDigit(s[c]))
    requires NoDigit(s[..i]) && NoSlash(s[..i]) && NoSlash(s[c..])
    ensures MixedOutcome(p, q, r).Ok? ==> FractionsMerged(Text(s)) == Ok(Text(s[..i] + MixedOutcome(p, q, r).value + s[c..]))
    ensures MixedOutcome(p, q, r).Raised? ==> FractionsMerged(Text(s)) == Raised(MixedOutcome(p, q, r).error)
  {
    MixedFractionStage(s, i, a, g, sl, c, w, n, d, p, q, r);
    if MixedOutcome(p, q, r).Ok? {
      Fixed2Plain(Mixed(p, q, r));
      SettledByFractions(s[..i], Fixed2(Mixed(p, q, r)), s[c..]);
    }
  }

  lemma MixedFractionStage(s: string, i: nat, a: nat, g: nat, sl: nat, c: nat, w: string, n: string, d: string, p: nat, q: nat, r: nat)
    requires i < a <= g <= sl && sl + 1 < c <= |s|
    requires s[i..a] == w && s[g..sl] == n && s[sl + 1..c] == d
    requires AllDigits(w) && AllDigits(n) && AllDigits(d)
    requires NumeralValue(w) == p && NumeralValue(n) == q && NumeralValue(d) == r && r > 0
    requires (g == a && sl == a + 1) || (g == a + 1 && IsDashOrSpace(s[a]) && g < sl)
    requires s[sl] == '/' && (c < |s| ==> !IsDigit(s[c]))
    requires NoDigit(s[..i]) && NoSlash(s[..i]) && NoSlash(s[c..])
    ensures MixedOutcome(p, q, r).Ok? ==>
            EachFirstOf(MixedFraction, MixedFraction, s, MixedFractionFixed) == Ok(s[..i] + MixedOutcome(p, q, r).value + s[c..])
    ensures MixedOutcome(p, q, r).Raised? ==>
            EachFirstOf(MixedFraction, MixedFraction, s, MixedFractionFixed) == Raised(MixedOutcome(p, q, r).error)
  {
    MixedFractionOnly(s, i, a, g, sl, c);
    var m := Match(i, c, [w, s[g..c]]);
    SlashSplits(s, g, sl, c);
    MixedFractionRep(m, w, n, d, p, q, r);
    if MixedOutcome(p, q, r).Ok? {
      OneAt(MixedFraction, s, MixedFractionFixed, m, i, c, MixedOutcome(p, q, r).value, s[..i], s[c..]);
    } else {
      OneRaised(MixedFraction, s, MixedFractionFixed, m, MixedOutcome(p, q, r).error);
    }
  }

  lemma SlashSplits(s: string, g: nat, sl: nat, c: nat)
    requires g <= sl < c <= |s| && s[sl] == '/'
    ensures s[g..c] == s[g..sl] + "/" + s[sl + 1..c]
  {
  }

  /** `float(Fraction(n/d))` for a numerator worth q and a denominator worth r. */
  function Quotient(q: nat, r: nat): (v: real)
    requires r > 0
    ensures v >= 0.0
  {
    q as real / r as real
  }

  /** The value of the mixed number `p q/r`. */
  function Mixed(p: nat, q: nat, r: nat): (v: real)
    requires r > 0
    ensures v >= p as real
  {
    p as real + q as real / r as real
  }

  /**
   * What the replacement of a mixed fraction worth `p q/r` comes to: the
   * OverflowError of `float(Fraction(...))` for a quotient too large for a
   * double, otherwise the sum quantized to two places.
   */
  function MixedOutcome(p: nat, q: nat, r: nat): Result<string>
    requires r > 0
  {
    if Quotient(q, r) >= FloatOverflow as real then Raised(OverflowError) else Quantize2(Mixed(p, q, r))
  }

  /** The three outcomes: the printed sum when it fits `round`, OverflowError for a huge quotient, InvalidOperation otherwise. */
  lemma MixedOutcomes(p: nat, q: nat, r: nat)
    requires r > 0
    ensures Fits2(Mixed(p, q, r)) ==> MixedOutcome(p, q, r) == Ok(Fixed2(Mixed(p, q, r)))
    ensures Quotient(q, r) >= FloatOverflow as real ==> MixedOutcome(p, q, r) == Raised(OverflowError)
    ensures !Fits2(Mixed(p, q, r)) && Quotient(q, r) < FloatOverflow as real ==> MixedOutcome(p, q, r) == Raised(InvalidOperation)
  {
    QuantizeLimit(Mixed(p, q, r));
  }

  /** After the mixed-fraction loop, a text whose only numeral is a printed one has no fraction left for the second loop. */
  lemma SettledByFractions(x: string, t: string, y: string)
    requires NoSlash(x) && NoSlash(y) && forall k :: 0 <= k < |t| ==> IsDigit(t[k]) || t[k] == '.'
    ensures EachFirstOf(Fraction, Fraction, x + t + y, FractionFixed) == Ok(x + t + y)
  {
    NoSlashJoin(x, t, y);
    NoSlashNoFraction(x + t + y);
    NoMatchLoops(Fraction, Fraction, x + t + y, FractionFixed);
  }

  /** The replacement for a mixed fraction of digit runs. */
  lemma MixedFractionRep(m: Match, w: string, n: string, d: string, p: nat, q: nat, r: nat)
    requires m.groups == [w, n + "/" + d] && |w| > 0 && AllDigits(w) && AllDigits(n) && AllDigits(d)
    requires NumeralValue(w) == p && NumeralValue(n) == q && NumeralValue(d) == r && r > 0
    ensures MixedFractionFixed(m) == MixedOutcome(p, q, r)
  {
    FloatOfNumeral(w);
    FractionOfDigits(n, d, q, r);
    MixedFractionReads(m, p, q, r);
  }

  lemma MixedFractionReads(m: Match, p: nat, q: nat, r: nat)
    requires r > 0 && FloatOf(Group(m, 0)) == Ok(p as real) && FractionOf(Group(m, 1)) == Ok(q as real / r as real)
    ensures MixedFractionFixed(m) == MixedOutcome(p, q, r)
  {
  }

  /** Where the pieces of a mixed fraction `w sep n/d` sit in `s`, between `x` and `y`. */
  predicate MixedAt(s: string, x: string, w: string, sep: string, n: string, d: string, y: string,
                    i: nat, a: nat, g: nat, sl: nat, c: nat) {
    i == |x| && a == i + |w| && g == a + |sep| && sl == g + |n| && c == sl + 1 + |d|
    && c <= |s| && s[..i] == x && s[i..a] == w && s[g..sl] == n && s[sl] == '/' && s[sl + 1..c] == d && s[c..] == y
    && (|sep| == 1 ==> s[a] == sep[0]) && (c < |s| ==> s[c] == y[0])
  }

  lemma MixedFractionPieces(x: string, w: string, sep: string, n: string, d: string, y: string)
    ensures MixedAt(x + w + sep + n + "/" + d + y, x, w, sep, n, d, y,
                    |x|, |x| + |w|, |x| + |w| + |sep|, |x| + |w| + |sep| + |n|, |x| + |w| + |sep| + |n| + 1 + |d|)
  {
  }

  /**
   * `merge_fractions` on a text with one mixed fraction and no other digit
   * before it or slash around it: the whole number plus the fraction,
   * rounded to two places, replaces it, and the rest of the text is kept.
   * Without a separator the engine gives the last digit of the run to the
   * fraction, so "12/3" is read as 1 and 2/3. Nothing is caught: a quotient
   * too large for a double raises OverflowError, a sum too large for `round`
   * to keep within 28 digits InvalidOperation.
   */
  lemma MixedFractionMerged(x: string, w: string, sep: string, n: string, d: string, y: string, p: nat, q: nat, r: nat)
    requires |w| > 0 && AllDigits(w) && |n| > 0 && AllDigits(n) && |d| > 0 && AllDigits(d)
    requires NumeralValue(w) == p && NumeralValue(n) == q && NumeralValue(d) == r && r > 0
    requires (sep == "" && |n| == 1) || (|sep| == 1 && IsDashOrSpace(sep[0]))
    requires NoDigit(x) && NoSlash(x) && NoSlash(y) && (|y| == 0 || !IsDigit(y[0]))
    ensures Fits2(Mixed(p, q, r)) ==> FractionsMerged(Text(x + w + sep + n + "/" + d + y)) == Ok(Text(x + Fixed2(Mixed(p, q, r)) + y))
    ensures Quotient(q, r) >= FloatOverflow as real ==> FractionsMerged(Text(x + w + sep + n + "/" + d + y)) == Raised(OverflowError)
    ensures !Fits2(Mixed(p, q, r)) && Quotient(q, r) < FloatOverflow as real ==>
            FractionsMerged(Text(x + w + sep + n + "/" + d + y)) == Raised(InvalidOperation)
  {
    MixedOutcomes(p, q, r);
    MixedFractionPieces(x, w, sep, n, d, y);
    assert MixedAt(x + w + sep + n + "/" + d + y, x, w, sep, n, d, y,
                            |x|, |x| + |w|, |x| + |w| + |sep|, |x| + |w| + |sep| + |n|, |x| + |w| + |sep| + |n| + 1 + |d|);
    assert (sep == "" && |n| == 1) || (|sep| == 1 && IsDashOrSpace(sep[0]));
    assert NoDigit(x) && NoSlash(x) && NoSlash(y) && (|y| == 0 || !IsDigit(y[0]));
    MixedFractionMergedFrom(x + w + sep + n + "/" + d + y, x, w, sep, n, d, y,
                            |x|, |x| + |w|, |x| + |w| + |sep|, |x| + |w| + |sep| + |n|, |x| + |w| + |sep| + |n| + 1 + |d|, p, q, r);
  }

  lemma MixedFractionMergedFrom(s: string, x: string, w: string, sep: string, n: string, d: string, y: string,
                                i: nat, a: nat, g: nat, sl: nat, c: nat, p: nat, q: nat, r: nat)
    requires |w| > 0 && AllDigits(w) && |n| > 0 && AllDigits(n) && |d| > 0 && AllDigits(d)
    requires NumeralValue(w) == p && NumeralValue(n) == q && NumeralValue(d) == r && r > 0
    requires (sep == "" && |n| == 1) || (|sep| == 1 && IsDashOrSpace(sep[0]))
    requires NoDigit(x) && NoSlash(x) && NoSlash(y) && (|y| == 0 || !IsDigit(y[0]))
    requires MixedAt(s, x, w, sep, n, d, y, i, a, g, sl, c)
    ensures MixedOutcome(p, q, r).Ok? ==> FractionsMerged(Text(s)) == Ok(Text(x + MixedOutcome(p, q, r).value + y))
    ensures MixedOutcome(p, q, r).Raised? ==> FractionsMerged(Text(s)) == Raised(MixedOutcome(p, q, r).error)
  {
    assert (g == a && sl == a + 1) || (g == a + 1 && IsDashOrSpace(s[a]) && g < sl);
    assert c < |s| ==> !IsDigit(s[c]);
    assert NoDigit(s[..i]) && NoSlash(s[..i]) && NoSlash(s[c..]);
    MixedFractionMergedAt(s, i, a, g, sl, c, w, n, d, p, q, r);
  }

  lemma NoSlashJoin(x: string, t: string, y: string)
    requires NoSlash(x) && NoSlash(y) && forall k :: 0 <= k < |t| ==> IsDigit(t[k]) || t[k] == '.'
    ensures NoSlash(x + t + y)
  {
    var r := x + t + y;
    forall k | 0 <= k < |r| ensures r[k] != '/' {
      if k < |x| {
        assert r[k] == x[k];
      } else if k < |x| + |t| {
        assert r[k] == t[k - |x|];
      } else {
        assert r[k] == y[k - |x| - |t|];
      }
    }
  }
  /** "1 1/2" becomes "1.50" wherever it stands alone, as in "1 1/2 cups flour". */
  lemma MergedOneAndAHalf(x: string, y: string)
    requires NoDigit(x) && NoSlash(x) && NoSlash(y) && (|y| == 0 || !IsDigit(y[0]))
    ensures FractionsMerged(Text(x + "1 1/2" + y)) == Ok(Text(x + "1.50" + y))
  {
    assert x + "1" + " " + "1" + "/" + "2" + y == x + "1 1/2" + y;
    Rendered(1, 1, 2, "1.50");
    QuantizeLimit(Mixed(1, 1, 2));
    assert IsDashOrSpace(" "[0]) && AllDigits("1") && AllDigits("2");
    assert NumeralValue("1") == 1 && NumeralValue("2") == 2;
    MixedFractionMerged(x, "1", " ", "1", "2", y, 1, 1, 2);
  }

  /** "12/3" is read as 1 and 2/3, so it becomes "1.67". */
  lemma MergedTwelveThirds(x: string, y: string)
    requires NoDigit(x) && NoSlash(x) && NoSlash(y) && (|y| == 0 || !IsDigit(y[0]))
    ensures FractionsMerged(Text(x + "12/3" + y)) == Ok(Text(x + "1.67" + y))
  {
    assert x + "1" + "" + "2" + "/" + "3" + y == x + "12/3" + y;
    Rendered(1, 2, 3, "1.67");
    QuantizeLimit(Mixed(1, 2, 3));
    assert AllDigits("1") && AllDigits("2") && AllDigits("3");
    assert NumeralValue("1") == 1 && NumeralValue("2") == 2 && NumeralValue("3") == 3;
    MixedFractionMerged(x, "1", "", "2", "3", y, 1, 2, 3);
  }

  /**
   * A whole number of 27 digits or more before "1/2", as in
   * "100000000000000000000000000 1/2", needs 29 digits or more for the
   * hundredths: `round` raises InvalidOperation and nothing catches it.
   */
  lemma HugeMixedRaises(x: string, n: nat, y: string)
    requires n >= 26 && NoDigit(x) && NoSlash(x) && NoSlash(y) && (|y| == 0 || !IsDigit(y[0]))
    ensures FractionsMerged(Text(x + PowerNumeral(n) + " 1/2" + y)) == Raised(InvalidOperation)
  {
    var w := PowerNumeral(n);
    assert x + w + " " + "1" + "/" + "2" + y == x + w + " 1/2" + y;
    assert IsDashOrSpace(" "[0]) && AllDigits("1") && AllDigits("2");
    assert NumeralValue("1") == 1 && NumeralValue("2") == 2;
    HugeMixed(n);
    MixedFractionMerged(x, w, " ", "1", "2", y, Pow10(n), 1, 2);
  }

  lemma HugeMixed(n: nat)
    requires n >= 26
    ensures !Fits2(Mixed(Pow10(n), 1, 2)) && Quotient(1, 2) < FloatOverflow as real
  {
    Pow10Grows(26, n);
    HundredSeptillion();
    QuantizeLimit(Mixed(Pow10(n), 1, 2));
  }

  /** The two-decimal rendering of the examples' mixed numbers. */
  lemma Rendered(p: nat, q: nat, r: nat, t: string)
    requires (p, q, r, t) == (1, 1, 2, "1.50") || (p, q, r, t) == (1, 2, 3, "1.67")
    ensures r > 0 && Fixed2(Mixed(p, q, r)) == t
  {
    if r == 2 {
      assert Mixed(p, q, r) == 1.5;
    } else {
      assert Mixed(p, q, r) == 5.0 / 3.0;
    }
  }


  /** A bare fraction with a one-digit numerator and no digit before it holds no mixed fraction: `\d+` takes a single digit, and every later start has no slash after it. */
  lemma BareNoMixed(s: string, i: nat, c: nat)
    requires i + 2 < c <= |s| && IsDigit(s[i]) && s[i + 1] == '/' && AllDigits(s[i + 2..c])
    requires NoDigit(s[..i]) && NoSlash(s[c..])
    ensures NoMatchFrom(MixedFraction, s, 0)
  {
    assert forall j :: i + 2 <= j < c ==> s[j] == s[i + 2..c][j - (i + 2)];
    assert forall j :: c <= j < |s| ==> s[j] == s[c..][j - c];
    forall k | 0 <= k <= |s| ensures MatchAt(MixedFraction, s, k).None? {
      if k < i {
        assert s[k] == s[..i][k];
      } else if k == i {
        DigitRunEnd(s, i, i + 1);
      } else if k > i + 1 {
        MixedFractionNone(s, k);
      }
    }
  }

  /** The scan of the second loop finds the bare fraction, and nothing else, when no digit comes before it and no slash after it. */
  lemma BareFractionOnly(s: string, i: nat, c: nat)
    requires i + 2 < c <= |s| && IsDigit(s[i]) && s[i + 1] == '/' && AllDigits(s[i + 2..c])
    requires (c < |s| ==> !IsDigit(s[c])) && NoDigit(s[..i]) && NoSlash(s[c..])
    ensures FindAll(Fraction, s) == [Match(i, c, [s[i..c]])]
  {
    DigitRunEnd(s, i, i + 1);
    DigitRunEnd(s, i + 2, c);
    assert MatchAt(Fraction, s, i) == Some(Hit(c, [Span(i, c)]));
    forall k | 0 <= k < i ensures MatchAt(Fraction, s, k).None? {
      assert s[k] == s[..i][k];
    }
    assert forall j :: c <= j < |s| ==> s[j] == s[c..][j - c];
    forall k | c <= k <= |s| ensures MatchAt(Fraction, s, k).None? {
      if MatchAt(Fraction, s, k).Some? {
        FractionSlash(s, k);
      }
    }
    FindsOnly(Fraction, s, i);
    assert Texts(s, [Span(i, c)]) == [s[i..c]];
  }

  /** Where the pieces of a bare fraction `n/d` sit in `s`, between `x` and `y`. */
  predicate BareAt(s: string, x: string, n: char, d: string, y: string, i: nat, c: nat) {
    i + 2 < c <= |s| && s[..i] == x && s[i] == n && s[i + 1] == '/' && s[i + 2..c] == d && s[c..] == y
    && s[i..c] == [n] + "/" + d && (c < |s| ==> s[c] == y[0])
  }

  lemma BareFractionPieces(x: string, n: char, d: string, y: string)
    requires |d| > 0
    ensures BareAt(x + [n] + "/" + d + y, x, n, d, y, |x|, |x| + 2 + |d|)
  {
    var s := x + [n] + "/" + d + y;
    var i, c := |x|, |x| + 2 + |d|;
    assert s[..i] == x && s[i..c] == [n] + "/" + d && s[c..] == y;
  }

  /**
   * `merge_fractions` on a text whose only fraction is a bare one with a
   * one-digit numerator, no digit before it and no slash after it: the
   * mixed loop finds nothing, and the second loop writes the fraction
   * rounded to two places in its place.
   */
  lemma BareFractionMerged(x: string, n: char, d: string, y: string, q: nat, r: nat)
    requires IsDigit(n) && NumeralValue([n]) == q && |d| > 0 && AllDigits(d) && NumeralValue(d) == r && r > 0
    requires NoDigit(x) && NoSlash(x) && NoSlash(y) && (|y| == 0 || !IsDigit(y[0]))
    ensures FractionsMerged(Text(x + [n] + "/" + d + y)) == Ok(Text(x + Fixed2(Quotient(q, r)) + y))
  {
    BareFractionPieces(x, n, d, y);
    BareFractionStage(x + [n] + "/" + d + y, x, n, d, y, q, r, |x|, |x| + 2 + |d|);
  }

  lemma BareFractionStage(s: string, x: string, n: char, d: string, y: string, q: nat, r: nat, i: nat, c: nat)
    requires IsDigit(n) && NumeralValue([n]) == q && AllDigits(d) && NumeralValue(d) == r && r > 0
    requires BareAt(s, x, n, d, y, i, c) && NoDigit(x) && NoSlash(y) && (|y| == 0 || !IsDigit(y[0]))
    ensures FractionsMerged(Text(s)) == Ok(Text(x + Fixed2(Quotient(q, r)) + y))
  {
    assert AllDigits(s[i + 2..c]) && NoDigit(s[..i]) && NoSlash(s[c..]);
    BareNoMixed(s, i, c);
    NoMatchLoops(MixedFraction, MixedFraction, s, MixedFractionFixed);
    BareFractionOnly(s, i, c);
    var m := Match(i, c, [s[i..c]]);
    BareFractionRep(m, n, d, q, r);
    OneAt(Fraction, s, FractionFixed, m, i, c, Fixed2(Quotient(q, r)), x, y);
  }

  /** A bare fraction with a one-digit numerator is small enough for `float` and for `round`. */
  lemma BareFractionRep(m: Match, n: char, d: string, q: nat, r: nat)
    requires m.groups == [[n] + "/" + d] && IsDigit(n) && NumeralValue([n]) == q && AllDigits(d) && NumeralValue(d) == r && r > 0
    ensures FractionFixed(m) == Ok(Fixed2(Quotient(q, r)))
  {
    var t := [n] + "/" + d;
    assert AllDigits([n]) && Group(m, 0) == t;
    FractionOfDigits([n], d, q, r);
    assert q < 10;
    QuotientAtMost(q, r);
    QuantizeLimit(Quotient(q, r));
    assert FloatOfFraction(t) == Ok(Quotient(q, r));
  }

  lemma QuotientAtMost(q: nat, r: nat)
    requires r > 0
    ensures Quotient(q, r) <= q as real
  {
    var v := Quotient(q, r);
    assert v * r as real == q as real;
    assert v * r as real >= v * 1.0;
  }

  /** "1/2" becomes "0.50", as in "1/2 cup sugar". */
  lemma MergedHalf(x: string, y: string)
    requires NoDigit(x) && NoSlash(x) && NoSlash(y) && (|y| == 0 || !IsDigit(y[0]))
    ensures FractionsMerged(Text(x + "1/2" + y)) == Ok(Text(x + "0.50" + y))
  {
    assert x + ['1'] + "/" + "2" + y == x + "1/2" + y;
    HalfRendered();
    BareFractionMerged(x, '1', "2", y, 1, 2);
  }

  lemma HalfRendered()
    ensures NumeralValue(['1']) == 1 && NumeralValue("2") == 2 && AllDigits("2")
    ensures Fixed2(Quotient(1, 2)) == "0.50"
  {
    assert Quotient(1, 2) == 0.5;
  }

  // ---------------------------------------------------------------------
  // The numbers the glyph passes write
  // ---------------------------------------------------------------------

  /** A match of a glyph pattern starts at a digit or a glyph (a digit for the mixed one) and holds a glyph. */
  lemma GlyphMatchShape(p: Pattern, s: string, k: nat)
    requires p == MixedGlyph || p == OptMixedGlyph || p == Glyph
    requires k <= |s| && MatchAt(p, s, k).Some?
    ensures k < |s| && (IsDigit(s[k]) || IsGlyph(s[k])) && (p == MixedGlyph ==> IsDigit(s[k]))
    ensures exists j :: k <= j < |s| && IsGlyph(s[j])
  {
    if p == Glyph || !At(s, k, IsDigit) {
      assert IsGlyph(s[k]);
    } else {
      var a := DigitEnd(s, k);
      if At(s, a, IsSpace) && At(s, a + 1, IsGlyph) {
        assert IsGlyph(s[a + 1]);
      } else {
        assert IsGlyph(s[a]);
      }
    }
  }

  /** No glyph pattern matches where no glyph follows, nor at a character that cannot start it. */
  lemma GlyphMatchNone(p: Pattern, s: string, k: nat)
    requires p == MixedGlyph || p == OptMixedGlyph || p == Glyph
    requires k <= |s|
    requires (forall j :: k <= j < |s| ==> NotGlyph(s[j])) || (k < |s| && !IsDigit(s[k]) && (p == MixedGlyph || NotGlyph(s[k])))
    ensures MatchAt(p, s, k).None?
  {
    if MatchAt(p, s, k).Some? {
      GlyphMatchShape(p, s, k);
    }
  }

  /** A text without a glyph holds no match of a glyph pattern. */
  lemma GlyphFreeNoMatch(p: Pattern, s: string)
    requires p == MixedGlyph || p == OptMixedGlyph || p == Glyph
    requires GlyphFree(s)
    ensures NoMatchFrom(p, s, 0)
  {
    forall k | 0 <= k <= |s| ensures MatchAt(p, s, k).None? {
      GlyphMatchNone(p, s, k);
    }
  }

  lemma GlyphFreeJoin(x: string, t: string, y: string)
    requires GlyphFree(x) && GlyphFree(t) && GlyphFree(y)
    ensures GlyphFree(x + t + y)
  {
    var r := x + t + y;
    forall k | 0 <= k < |r| ensures NotGlyph(r[k]) {
      if k < |x| {
        assert r[k] == x[k];
      } else if k < |x| + |t| {
        assert r[k] == t[k - |x|];
      } else {
        assert r[k] == y[k - |x| - |t|];
      }
    }
  }

  /** A digit run, at most one whitespace and a glyph: how `(\d+)\s?(glyph)` and `(\d+\s?)?(glyph)` take it. */
  lemma MixedGlyphHit(s: string, i: nat, a: nat, e: nat)
    requires i < a < e <= |s| && AllDigits(s[i..a]) && IsGlyph(s[e - 1])
    requires e == a + 1 || (e == a + 2 && IsSpace(s[a]))
    ensures MatchAt(MixedGlyph, s, i) == Some(Hit(e, [Span(i, a), Span(e - 1, e)]))
    ensures MatchAt(OptMixedGlyph, s, i) == Some(Hit(e, [Span(i, e - 1), Span(e - 1, e)]))
  {
    assert !IsDigit(s[a]);
    DigitRunEnd(s, i, a);
    assert IsDigit(s[i]) by {
      assert s[i] == s[i..a][0];
    }
  }

  /** The scan of a glyph pattern finds one match when no digit or glyph comes before it and no glyph after it. */
  lemma GlyphOnly(p: Pattern, s: string, i: nat)
    requires p == MixedGlyph || p == OptMixedGlyph || p == Glyph
    requires i <= |s| && MatchAt(p, s, i).Some?
    requires NoDigit(s[..i]) && GlyphFree(s[..i]) && GlyphFree(s[MatchAt(p, s, i).value.end..])
    ensures FindAll(p, s) == [MatchObject(p, s, i).value]
  {
    var e := MatchAt(p, s, i).value.end;
    forall k | 0 <= k < i ensures MatchAt(p, s, k).None? {
      assert s[k] == s[..i][k];
      GlyphMatchNone(p, s, k);
    }
    forall k | e <= k <= |s| ensures MatchAt(p, s, k).None? {
      assert forall j :: k <= j < |s| ==> s[j] == s[e..][j - e];
      GlyphMatchNone(p, s, k);
    }
    FindsOnly(p, s, i);
  }

  /** The replacement of `clean_unicode_fractions` for a digit run and a glyph. */
  lemma MixedGlyphValue(m: Match, w: string, g: char, p: nat)
    requires m.groups == [w, [g]] && |w| > 0 && AllDigits(w) && NumeralValue(w) == p && IsGlyph(g)
    ensures MixedGlyphShort(m) == Ok(Short3(MixedValue(p, g)))
  {
    FloatOfNumeral(w);
    MixedGlyphReads(m, p, g);
  }

  lemma MixedGlyphReads(m: Match, p: nat, g: char)
    requires FloatOf(Group(m, 0)) == Ok(p as real) && Group(m, 1) == [g] && IsGlyph(g)
    ensures MixedGlyphShort(m) == Ok(Short3(MixedValue(p, g)))
  {
    assert NumericOf([g]) == Ok(GlyphValue(g));
  }

  /** The replacement of `clean_unicode_fractions` for a lone glyph. */
  lemma GlyphValueShort(m: Match, g: char)
    requires m.groups == [[g]] && IsGlyph(g)
    ensures GlyphShort(m) == Ok(Short3(GlyphValue(g)))
  {
    assert NumericOf([g]) == Ok(GlyphValue(g));
  }

  /** The replacement of `clean_epi_unicode_fractions` for a digit run, at most one whitespace and a glyph. */
  lemma EpiMixedValue(m: Match, w: string, sp: string, g: char, p: nat)
    requires m.groups == [w + sp, [g]] && |w| > 0 && AllDigits(w) && NumeralValue(w) == p && IsGlyph(g)
    requires sp == "" || (|sp| == 1 && IsSpace(sp[0]))
    ensures EpiGlyphFixed(m) == Quantize2(MixedValue(p, g))
  {
    FloatOfDigitsSpace(w, sp);
    EpiMixedReads(m, p, g);
  }

  /** A digit run followed by at most one whitespace reads as its numeral. */
  lemma FloatOfDigitsSpace(w: string, sp: string)
    requires |w| > 0 && AllDigits(w) && (sp == "" || (|sp| == 1 && IsSpace(sp[0])))
    ensures w + sp != "" && FloatOf(w + sp) == Ok(NumeralValue(w) as real)
  {
    if sp == "" {
      assert w + sp == w;
      FloatOfNumeral(w);
    } else {
      assert sp == [sp[0]];
      FloatOfNumeralSpace(w, sp[0]);
    }
  }

  lemma EpiMixedReads(m: Match, p: nat, g: char)
    requires Group(m, 0) != "" && FloatOf(Group(m, 0)) == Ok(p as real) && Group(m, 1) == [g] && IsGlyph(g)
    ensures EpiGlyphFixed(m) == Quantize2(MixedValue(p, g))
  {
    assert NumericOf([g]) == Ok(GlyphValue(g));
  }

  /** The replacement of `clean_epi_unicode_fractions` for a glyph that stands alone. */
  lemma EpiLoneValue(m: Match, g: char)
    requires m.groups == ["", [g]] && IsGlyph(g)
    ensures EpiGlyphFixed(m) == Ok(Fixed2(GlyphValue(g)))
  {
    assert NumericOf([g]) == Ok(GlyphValue(g));
    QuantizeLimit(GlyphValue(g));
  }


  /** The texts of two spans. */
  lemma TextsTwo(s: string, lo: nat, hi: nat, lo2: nat, hi2: nat)
    requires lo <= hi <= |s| && lo2 <= hi2 <= |s|
    ensures Texts(s, [Span(lo, hi), Span(lo2, hi2)]) == [s[lo..hi], s[lo2..hi2]]
  {
  }

  /** The scans of both mixed-glyph patterns find the one mixed number of such a text. */
  lemma MixedGlyphFound(s: string, i: nat, a: nat, e: nat, w: string, g: char)
    requires i < a < e <= |s| && (e == a + 1 || (e == a + 2 && IsSpace(s[a])))
    requires s[i..a] == w && AllDigits(w) && s[e - 1] == g && IsGlyph(g)
    requires NoDigit(s[..i]) && GlyphFree(s[..i]) && GlyphFree(s[e..])
    ensures FindAll(MixedGlyph, s) == [Match(i, e, [w, [g]])]
    ensures FindAll(OptMixedGlyph, s) == [Match(i, e, [s[i..e - 1], [g]])]
  {
    MixedGlyphHit(s, i, a, e);
    assert s[e - 1..e] == [g];
    MixedGlyphOnly(s, i, a, e, w, g);
    OptMixedGlyphOnly(s, i, e, g);
  }

  lemma MixedGlyphOnly(s: string, i: nat, a: nat, e: nat, w: string, g: char)
    requires i < a < e <= |s| && s[i..a] == w && s[e - 1..e] == [g]
    requires MatchAt(MixedGlyph, s, i) == Some(Hit(e, [Span(i, a), Span(e - 1, e)]))
    requires NoDigit(s[..i]) && GlyphFree(s[..i]) && GlyphFree(s[e..])
    ensures FindAll(MixedGlyph, s) == [Match(i, e, [w, [g]])]
  {
    GlyphFindsHit(MixedGlyph, s, i, e, [Span(i, a), Span(e - 1, e)]);
    GlyphTexts(s, i, a, e, w, g);
  }

  lemma OptMixedGlyphOnly(s: string, i: nat, e: nat, g: char)
    requires i < e <= |s| && s[e - 1..e] == [g]
    requires MatchAt(OptMixedGlyph, s, i) == Some(Hit(e, [Span(i, e - 1), Span(e - 1, e)]))
    requires NoDigit(s[..i]) && GlyphFree(s[..i]) && GlyphFree(s[e..])
    ensures FindAll(OptMixedGlyph, s) == [Match(i, e, [s[i..e - 1], [g]])]
  {
    var spans := [Span(i, e - 1), Span(e - 1, e)];
    GlyphTexts(s, i, e - 1, e, s[i..e - 1], g);
    GlyphFindsHit(OptMixedGlyph, s, i, e, spans);
  }

  /** `GlyphOnly` for a hit whose end and spans are known. */
  lemma GlyphFindsHit(p: Pattern, s: string, i: nat, e: nat, spans: seq<Span>)
    requires p == MixedGlyph || p == OptMixedGlyph || p == Glyph
    requires i <= |s| && MatchAt(p, s, i) == Some(Hit(e, spans))
    requires NoDigit(s[..i]) && GlyphFree(s[..i]) && GlyphFree(s[e..])
    ensures FindAll(p, s) == [Match(i, e, Texts(s, spans))]
  {
    GlyphOnly(p, s, i);
  }

  /** The group texts of a two-group hit whose second group is the glyph alone. */
  lemma GlyphTexts(s: string, i: nat, a: nat, e: nat, w: string, g: char)
    requires i <= a < e <= |s| && s[i..a] == w && s[e - 1..e] == [g]
    ensures Texts(s, [Span(i, a), Span(e - 1, e)]) == [w, [g]]
  {
    TextsTwo(s, i, a, e - 1, e);
  }

  /** `clean_unicode_fractions` on a text holding one mixed number: it becomes its three-place value. */
  lemma UnicodeMixedAt(s: string, x: string, i: nat, a: nat, e: nat, w: string, g: char, y: string, p: nat)
    requires i < a < e <= |s| && (e == a + 1 || (e == a + 2 && IsSpace(s[a])))
    requires s[i..a] == w && AllDigits(w) && NumeralValue(w) == p && s[e - 1] == g && IsGlyph(g)
    requires s[..i] == x && s[e..] == y && NoDigit(x) && GlyphFree(x) && GlyphFree(y)
    ensures UnicodeFractionsCleaned(Text(s)) == Ok(Text(x + Short3(MixedValue(p, g)) + y))
  {
    MixedGlyphStage(s, x, i, a, e, w, g, y, p);
    UnicodeStages(s, x, MixedValue(p, g), y);
  }

  /** The mixed-glyph loop prints the one mixed glyph number's value in its place. */
  lemma MixedGlyphStage(s: string, x: string, i: nat, a: nat, e: nat, w: string, g: char, y: string, p: nat)
    requires i < a < e <= |s| && (e == a + 1 || (e == a + 2 && IsSpace(s[a])))
    requires s[i..a] == w && AllDigits(w) && NumeralValue(w) == p && s[e - 1] == g && IsGlyph(g)
    requires s[..i] == x && s[e..] == y && NoDigit(x) && GlyphFree(x) && GlyphFree(y)
    ensures EachAllOf(MixedGlyph, MixedGlyph, s, MixedGlyphShort) == Ok(x + Short3(MixedValue(p, g)) + y)
  {
    MixedGlyphFound(s, i, a, e, w, g);
    var m := Match(i, e, [w, [g]]);
    MixedGlyphValue(m, w, g, p);
    OneOf(MixedGlyph, s, MixedGlyphShort, m, Short3(MixedValue(p, g)));
  }

  /** `clean_unicode_fractions` from what each of its two loops computes. */
  lemma UnicodeStages(s: string, x: string, v: real, y: string)
    requires v >= 0.0 && GlyphFree(x) && GlyphFree(y)
    requires EachAllOf(MixedGlyph, MixedGlyph, s, MixedGlyphShort) == Ok(x + Short3(v) + y)
    ensures UnicodeFractionsCleaned(Text(s)) == Ok(Text(x + Short3(v) + y))
  {
    ShortLeft(x, v, y);
  }

  /** After a glyph's value is printed in its place, the lone-glyph loop finds nothing. */
  lemma ShortLeft(x: string, v: real, y: string)
    requires GlyphFree(x) && GlyphFree(y) && v >= 0.0
    ensures EachAllOf(Glyph, Glyph, x + Short3(v) + y, GlyphShort) == Ok(x + Short3(v) + y)
  {
    Short3GlyphFree(v);
    GlyphLeft(x, Short3(v), y, GlyphShort);
  }

  /** Without a glyph left, the lone-glyph loops change nothing. */
  lemma GlyphLeft(x: string, t: string, y: string, f: Match -> Result<string>)
    requires GlyphFree(x) && GlyphFree(t) && GlyphFree(y)
    ensures EachAllOf(Glyph, Glyph, x + t + y, f) == Ok(x + t + y)
    ensures EachFirstOf(OptMixedGlyph, OptMixedGlyph, x + t + y, f) == Ok(x + t + y)
  {
    GlyphFreeJoin(x, t, y);
    GlyphFreeNoMatch(Glyph, x + t + y);
    NoMatchLoops(Glyph, Glyph, x + t + y, f);
    GlyphFreeNoMatch(OptMixedGlyph, x + t + y);
    NoMatchLoops(OptMixedGlyph, OptMixedGlyph, x + t + y, f);
  }

  /** A glyph that no digit precedes is no mixed number: only the lone-glyph scans find it. */
  lemma LoneGlyphFound(s: string, i: nat, g: char)
    requires i < |s| && s[i] == g && IsGlyph(g)
    requires NoDigit(s[..i]) && GlyphFree(s[..i]) && GlyphFree(s[i + 1..])
    ensures NoMatchFrom(MixedGlyph, s, 0)
    ensures FindAll(Glyph, s) == [Match(i, i + 1, [[g]])]
    ensures FindAll(OptMixedGlyph, s) == [Match(i, i + 1, ["", [g]])]
  {
    forall k | 0 <= k <= |s| ensures MatchAt(MixedGlyph, s, k).None? {
      if k < i {
        assert s[k] == s[..i][k];
      } else if k > i {
        assert forall j :: k <= j < |s| ==> s[j] == s[i + 1..][j - i - 1];
      }
      GlyphMatchNone(MixedGlyph, s, k);
    }
    assert s[i..i + 1] == [g] && s[i..i] == "";
    LoneGlyphOnly(s, i, g);
    LoneOptGlyphOnly(s, i, g);
  }

  lemma LoneGlyphOnly(s: string, i: nat, g: char)
    requires i < |s| && s[i..i + 1] == [g] && IsGlyph(g)
    requires NoDigit(s[..i]) && GlyphFree(s[..i]) && GlyphFree(s[i + 1..])
    ensures FindAll(Glyph, s) == [Match(i, i + 1, [[g]])]
  {
    assert s[i] == g;
    GlyphOnly(Glyph, s, i);
    assert Texts(s, [Span(i, i + 1)]) == [s[i..i + 1]];
  }

  lemma LoneOptGlyphOnly(s: string, i: nat, g: char)
    requires i < |s| && s[i..i + 1] == [g] && IsGlyph(g)
    requires NoDigit(s[..i]) && GlyphFree(s[..i]) && GlyphFree(s[i + 1..])
    ensures FindAll(OptMixedGlyph, s) == [Match(i, i + 1, ["", [g]])]
  {
    assert s[i] == g;
    GlyphOnly(OptMixedGlyph, s, i);
    TextsTwo(s, i, i, i, i + 1);
  }

  /** `clean_unicode_fractions` on a text holding one glyph that no digit precedes: it becomes its three-place value. */
  lemma UnicodeLoneAt(s: string, i: nat, g: char)
    requires i < |s| && s[i] == g && IsGlyph(g)
    requires NoDigit(s[..i]) && GlyphFree(s[..i]) && GlyphFree(s[i + 1..])
    ensures UnicodeFractionsCleaned(Text(s)) == Ok(Text(s[..i] + Short3(GlyphValue(g)) + s[i + 1..]))
  {
    LoneGlyphFound(s, i, g);
    NoMatchLoops(MixedGlyph, MixedGlyph, s, MixedGlyphShort);
    var m := Match(i, i + 1, [[g]]);
    GlyphValueShort(m, g);
    OneOf(Glyph, s, GlyphShort, m, Short3(GlyphValue(g)));
  }

  /**
   * `clean_epi_unicode_fractions` on a text holding one mixed number: it
   * becomes its two-place value, or raises InvalidOperation when that value
   * needs more than 28 digits.
   */
  lemma EpiMixedAt(s: string, i: nat, a: nat, e: nat, w: string, g: char, p: nat)
    requires i < a < e <= |s| && (e == a + 1 || (e == a + 2 && IsSpace(s[a])))
    requires s[i..a] == w && AllDigits(w) && NumeralValue(w) == p && s[e - 1] == g && IsGlyph(g)
    requires NoDigit(s[..i]) && GlyphFree(s[..i]) && GlyphFree(s[e..])
    ensures Fits2(MixedValue(p, g)) ==> EpiUnicodeFractionsCleaned(Text(s)) == Ok(Text(s[..i] + Fixed2(MixedValue(p, g)) + s[e..]))
    ensures !Fits2(MixedValue(p, g)) ==> EpiUnicodeFractionsCleaned(Text(s)) == Raised(InvalidOperation)
  {
    MixedGlyphFound(s, i, a, e, w, g);
    var sp := s[a..e - 1];
    WholeAndSpace(s, i, a, e, w);
    var m := Match(i, e, [w + sp, [g]]);
    EpiMixedValue(m, w, sp, g, p);
    if Fits2(MixedValue(p, g)) {
      OneOf(OptMixedGlyph, s, EpiGlyphFixed, m, Fixed2(MixedValue(p, g)));
    } else {
      OneRaised(OptMixedGlyph, s, EpiGlyphFixed, m, InvalidOperation);
    }
  }

  /** The first group of the optional-whole pattern: the digits and the one blank after them, if any. */
  lemma WholeAndSpace(s: string, i: nat, a: nat, e: nat, w: string)
    requires i < a < e <= |s| && (e == a + 1 || (e == a + 2 && IsSpace(s[a])))
    requires s[i..a] == w
    ensures s[i..e - 1] == w + s[a..e - 1]
    ensures s[a..e - 1] == "" || (|s[a..e - 1]| == 1 && IsSpace(s[a..e - 1][0]))
  {
    assert s[i..e - 1] == s[i..a] + s[a..e - 1];
  }

  /** `clean_epi_unicode_fractions` on a text holding one glyph that no digit precedes: it becomes its two-place value. */
  lemma EpiLoneAt(s: string, i: nat, g: char)
    requires i < |s| && s[i] == g && IsGlyph(g)
    requires NoDigit(s[..i]) && GlyphFree(s[..i]) && GlyphFree(s[i + 1..])
    ensures EpiUnicodeFractionsCleaned(Text(s)) == Ok(Text(s[..i] + Fixed2(GlyphValue(g)) + s[i + 1..]))
  {
    LoneGlyphFound(s, i, g);
    var m := Match(i, i + 1, ["", [g]]);
    EpiLoneValue(m, g);
    OneOf(OptMixedGlyph, s, EpiGlyphFixed, m, Fixed2(GlyphValue(g)));
  }


  /** Around and between two mixed numbers with nothing numeric there, no mixed number starts. */
  lemma MixedGlyphGaps(s: string, i: nat, e: nat, i2: nat, e2: nat)
    requires i < e <= i2 < e2 <= |s|
    requires NoDigit(s[..i]) && GlyphFree(s[..i]) && NoDigit(s[e..i2]) && GlyphFree(s[e..i2]) && GlyphFree(s[e2..])
    ensures forall k :: 0 <= k < i ==> MatchAt(MixedGlyph, s, k).None?
    ensures forall k :: e <= k < i2 ==> MatchAt(MixedGlyph, s, k).None?
    ensures NoMatchFrom(MixedGlyph, s, e2)
  {
    forall k | 0 <= k < i ensures MatchAt(MixedGlyph, s, k).None? {
      assert s[k] == s[..i][k];
      GlyphMatchNone(MixedGlyph, s, k);
    }
    forall k | e <= k < i2 ensures MatchAt(MixedGlyph, s, k).None? {
      assert s[k] == s[e..i2][k - e];
      GlyphMatchNone(MixedGlyph, s, k);
    }
    forall k | e2 <= k <= |s| ensures MatchAt(MixedGlyph, s, k).None? {
      assert forall j :: k <= j < |s| ==> s[j] == s[e2..][j - e2];
      GlyphMatchNone(MixedGlyph, s, k);
    }
  }

  /** Two mixed glyph numbers, at `i` and `i2`: digits up to `a` (`a2`), at most one blank, a glyph ending at `e` (`e2`). */
  predicate TwoMixedAt(s: string, i: nat, a: nat, e: nat, i2: nat, a2: nat, e2: nat) {
    i < a < e <= i2 < a2 < e2 <= |s|
    && AllDigits(s[i..a]) && IsGlyph(s[e - 1]) && (e == a + 1 || (e == a + 2 && IsSpace(s[a])))
    && AllDigits(s[i2..a2]) && IsGlyph(s[e2 - 1]) && (e2 == a2 + 1 || (e2 == a2 + 2 && IsSpace(s[a2])))
  }

  /** Two mixed numbers with nothing numeric between or around them: the scan finds both. */
  lemma MixedGlyphsFound(s: string, i: nat, a: nat, e: nat, i2: nat, a2: nat, e2: nat)
    requires TwoMixedAt(s, i, a, e, i2, a2, e2)
    requires NoDigit(s[..i]) && GlyphFree(s[..i]) && NoDigit(s[e..i2]) && GlyphFree(s[e..i2]) && GlyphFree(s[e2..])
    ensures FindAll(MixedGlyph, s) == [Match(i, e, [s[i..a], [s[e - 1]]]), Match(i2, e2, [s[i2..a2], [s[e2 - 1]]])]
  {
    MixedGlyphHit(s, i, a, e);
    MixedGlyphHit(s, i2, a2, e2);
    MixedGlyphGaps(s, i, e, i2, e2);
    FindsTwo(MixedGlyph, s, i, i2);
    MixedGlyphTexts(s, i, a, e);
    MixedGlyphTexts(s, i2, a2, e2);
  }

  lemma MixedGlyphTexts(s: string, i: nat, a: nat, e: nat)
    requires i <= a < e <= |s| && MatchAt(MixedGlyph, s, i) == Some(Hit(e, [Span(i, a), Span(e - 1, e)]))
    ensures MatchObject(MixedGlyph, s, i) == Some(Match(i, e, [s[i..a], [s[e - 1]]]))
  {
    SliceOne(s, e - 1);
    TextsTwo(s, i, a, e - 1, e);
  }

  lemma SliceOne(s: string, k: nat)
    requires k < |s|
    ensures s[k..k + 1] == [s[k]]
  {
  }

  /**
   * `clean_unicode_fractions` on two mixed numbers: loop idiom B writes the
   * value of the first one over both.
   */
  lemma UnicodeOverwriteAt(s: string, i: nat, a: nat, e: nat, i2: nat, a2: nat, e2: nat, w: string, g: char, p: nat, x: string, z: string, y: string)
    requires TwoMixedAt(s, i, a, e, i2, a2, e2)
    requires s[..i] == x && s[e..i2] == z && s[e2..] == y
    requires NoDigit(x) && GlyphFree(x) && NoDigit(z) && GlyphFree(z) && GlyphFree(y)
    requires s[i..a] == w && NumeralValue(w) == p && s[e - 1] == g
    ensures UnicodeFractionsCleaned(Text(s)) == Ok(Text(x + Short3(MixedValue(p, g)) + z + Short3(MixedValue(p, g)) + y))
  {
    MixedGlyphsFound(s, i, a, e, i2, a2, e2);
    var m := Match(i, e, [w, [g]]);
    var n := Match(i2, e2, [s[i2..a2], [s[e2 - 1]]]);
    MixedGlyphRepsOk(s);
    MixedGlyphValue(m, w, g, p);
    var t := Short3(MixedValue(p, g));
    Short3Plain(MixedValue(p, g));
    SubAllTwo(MixedGlyph, s, [Str(t)], m, n);
    OverwriteLeft(x, t, z, y, Expand([Str(t)], m.groups), Expand([Str(t)], n.groups));
    FirstOverwrites(MixedGlyph, s, MixedGlyphShort, t);
  }

  /** The text idiom B leaves after writing `t` over two mixed numbers holds no glyph. */
  lemma OverwriteLeft(x: string, t: string, z: string, y: string, u: string, v: string)
    requires GlyphFree(x) && GlyphFree(z) && GlyphFree(y) && u == t && v == t
    requires forall k :: 0 <= k < |t| ==> IsDigit(t[k]) || t[k] == '.'
    ensures x + u + z + v + y == x + t + z + t + y
    ensures NoMatchFrom(MixedGlyph, x + u + z + v + y, 0)
    ensures EachAllOf(Glyph, Glyph, x + t + z + t + y, GlyphShort) == Ok(x + t + z + t + y)
  {
    assert GlyphFree(t);
    GlyphFreeJoin(x, t, z);
    GlyphFreeJoin(x + t + z, t, y);
    GlyphFreeNoMatch(MixedGlyph, x + t + z + t + y);
    GlyphFreeNoMatch(Glyph, x + t + z + t + y);
    NoMatchLoops(Glyph, Glyph, x + t + z + t + y, GlyphShort);
  }


  lemma GlyphPieces(x: string, w: string, sp: string, g: char, y: string)
    ensures var s := x + w + sp + [g] + y;
            var i, a := |x|, |x| + |w|;
            var e := a + |sp| + 1;
            e <= |s| && s[..i] == x && s[i..a] == w && s[e - 1] == g && s[e..] == y
            && (|sp| == 1 ==> s[a] == sp[0])
  {
  }

  /**
   * `clean_unicode_fractions` writes a mixed number `w` `sp` `g` (a digit run,
   * at most one whitespace, a glyph) as `str(round(w + numeric(g), 3))`, and
   * keeps the text around it.
   */
  lemma UnicodeMixedCleaned(x: string, w: string, sp: string, g: char, y: string, p: nat)
    requires NoDigit(x) && GlyphFree(x) && GlyphFree(y) && IsGlyph(g)
    requires |w| > 0 && AllDigits(w) && NumeralValue(w) == p && (sp == "" || (|sp| == 1 && IsSpace(sp[0])))
    ensures UnicodeFractionsCleaned(Text(x + w + sp + [g] + y)) == Ok(Text(x + Short3(MixedValue(p, g)) + y))
  {
    var s := x + w + sp + [g] + y;
    var i, a := |x|, |x| + |w|;
    var e := a + |sp| + 1;
    GlyphPieces(x, w, sp, g, y);
    assert e == a + 1 || (e == a + 2 && IsSpace(s[a]));
    UnicodeMixedAt(s, x, i, a, e, w, g, y, p);
  }

  /** `clean_unicode_fractions` writes a glyph that no digit precedes as `str(round(numeric(g), 3))`. */
  lemma UnicodeLoneCleaned(x: string, g: char, y: string)
    requires NoDigit(x) && GlyphFree(x) && GlyphFree(y) && IsGlyph(g)
    ensures UnicodeFractionsCleaned(Text(x + [g] + y)) == Ok(Text(x + Short3(GlyphValue(g)) + y))
  {
    GlyphPieces(x, "", "", g, y);
    assert x + "" + "" + [g] + y == x + [g] + y;
    UnicodeLoneAt(x + [g] + y, |x|, g);
  }

  /**
   * `clean_epi_unicode_fractions` writes a mixed number as
   * `str(round(Decimal(w + numeric(g)), 2))`, and raises InvalidOperation,
   * which is not caught, when the sum needs more than 28 digits there.
   */
  lemma EpiMixedCleaned(x: string, w: string, sp: string, g: char, y: string, p: nat)
    requires NoDigit(x) && GlyphFree(x) && GlyphFree(y) && IsGlyph(g)
    requires |w| > 0 && AllDigits(w) && NumeralValue(w) == p && (sp == "" || (|sp| == 1 && IsSpace(sp[0])))
    ensures Fits2(MixedValue(p, g)) ==> EpiUnicodeFractionsCleaned(Text(x + w + sp + [g] + y)) == Ok(Text(x + Fixed2(MixedValue(p, g)) + y))
    ensures !Fits2(MixedValue(p, g)) ==> EpiUnicodeFractionsCleaned(Text(x + w + sp + [g] + y)) == Raised(InvalidOperation)
  {
    var s := x + w + sp + [g] + y;
    var i, a := |x|, |x| + |w|;
    var e := a + |sp| + 1;
    GlyphPieces(x, w, sp, g, y);
    assert e == a + 1 || (e == a + 2 && IsSpace(s[a]));
    EpiMixedAt(s, i, a, e, w, g, p);
  }

  /** `clean_epi_unicode_fractions` writes a glyph that no digit precedes as `str(round(Decimal(numeric(g)), 2))`. */
  lemma EpiLoneCleaned(x: string, g: char, y: string)
    requires NoDigit(x) && GlyphFree(x) && GlyphFree(y) && IsGlyph(g)
    ensures EpiUnicodeFractionsCleaned(Text(x + [g] + y)) == Ok(Text(x + Fixed2(GlyphValue(g)) + y))
  {
    GlyphPieces(x, "", "", g, y);
    assert x + "" + "" + [g] + y == x + [g] + y;
    EpiLoneAt(x + [g] + y, |x|, g);
  }

  /**
   * Loop idiom B in `clean_unicode_fractions`: of two mixed numbers, both
   * become the value of the first.
   */
  lemma UnicodeOverwrite(x: string, w: string, g: char, z: string, w2: string, g2: char, y: string, p: nat)
    requires NoDigit(x) && GlyphFree(x) && NoDigit(z) && GlyphFree(z) && GlyphFree(y) && IsGlyph(g) && IsGlyph(g2)
    requires |w| > 0 && AllDigits(w) && NumeralValue(w) == p && |w2| > 0 && AllDigits(w2)
    ensures UnicodeFractionsCleaned(Text(x + w + [g] + z + w2 + [g2] + y))
            == Ok(Text(x + Short3(MixedValue(p, g)) + z + Short3(MixedValue(p, g)) + y))
  {
    var s := x + w + [g] + z + w2 + [g2] + y;
    var i, a, i2, a2 := |x|, |x| + |w|, |x| + |w| + 1 + |z|, |x| + |w| + 1 + |z| + |w2|;
    TwoGlyphPieces(s, x, w, g, z, w2, g2, y, i, a, a + 1, i2, a2, a2 + 1);
    UnicodeOverwriteAt(s, i, a, a + 1, i2, a2, a2 + 1, w, g, p, x, z, y);
  }

  lemma TwoGlyphPieces(s: string, x: string, w: string, g: char, z: string, w2: string, g2: char, y: string,
                       i: nat, a: nat, e: nat, i2: nat, a2: nat, e2: nat)
    requires s == x + w + [g] + z + w2 + [g2] + y
    requires i == |x| && a == i + |w| && e == a + 1 && i2 == e + |z| && a2 == i2 + |w2| && e2 == a2 + 1
    requires IsGlyph(g) && IsGlyph(g2)
    requires |w| > 0 && AllDigits(w) && |w2| > 0 && AllDigits(w2)
    ensures TwoMixedAt(s, i, a, e, i2, a2, e2)
    ensures s[..i] == x && s[e..i2] == z && s[e2..] == y
    ensures s[i..a] == w && s[e - 1] == g
  {
    assert s[i2..a2] == w2 && s[a2] == g2;
  }


  /** The strings the glyph passes write for the glyphs of the examples below. */
  lemma GlyphRendered(p: nat, g: char, t: string, u: string)
    requires (p, g, t, u) == (1, '\U{BE}', "1.75", "1.75") || (p, g, t, u) == (0, '\U{BC}', "0.25", "0.25")
             || (p, g, t, u) == (1, '\U{BC}', "1.25", "1.25") || (p, g, t, u) == (0, '\U{BD}', "0.5", "0.50")
    ensures IsGlyph(g) && Short3(MixedValue(p, g)) == t && Fixed2(MixedValue(p, g)) == u
  {
    var v := MixedValue(p, g);
    if g == '\U{BE}' {
      assert v == 1.75;
      DecimalsRendered(v, t, u);
    } else if g == '\U{BD}' {
      assert v == 0.5;
      DecimalsRendered(v, t, u);
    } else if p == 0 {
      assert v == 0.25;
      DecimalsRendered(v, t, u);
    } else {
      assert v == 1.25;
      DecimalsRendered(v, t, u);
    }
  }

  lemma DecimalsRendered(v: real, t: string, u: string)
    requires (v, t, u) == (1.75, "1.75", "1.75") || (v, t, u) == (0.25, "0.25", "0.25")
             || (v, t, u) == (1.25, "1.25", "1.25") || (v, t, u) == (0.5, "0.5", "0.50")
    ensures Short3(v) == t && Fixed2(v) == u
  {
    if v == 1.75 {
      OneSeventyFive();
    } else if v == 0.25 {
      QuarterRendered();
    } else if v == 1.25 {
      OneTwentyFive();
    } else {
      HalfPrinted();
    }
  }

  lemma OneSeventyFive()
    ensures Short3(1.75) == "1.75" && Fixed2(1.75) == "1.75"
  {
    CentsRendered(1.75, 1, 75);
    assert DigitChar(1) == '1' && DigitChar(7) == '7' && DigitChar(5) == '5';
  }

  lemma QuarterRendered()
    ensures Short3(0.25) == "0.25" && Fixed2(0.25) == "0.25"
  {
    CentsRendered(0.25, 0, 25);
    assert DigitChar(0) == '0' && DigitChar(2) == '2' && DigitChar(5) == '5';
  }

  lemma OneTwentyFive()
    ensures Short3(1.25) == "1.25" && Fixed2(1.25) == "1.25"
  {
    CentsRendered(1.25, 1, 25);
    assert DigitChar(1) == '1' && DigitChar(2) == '2' && DigitChar(5) == '5';
  }

  lemma HalfPrinted()
    ensures Short3(0.5) == "0.5" && Fixed2(0.5) == "0.50"
  {
    CentsRendered(0.5, 0, 50);
    assert DigitChar(0) == '0' && DigitChar(5) == '5';
  }

  /** A one-digit whole part and whole hundredths print the same way in both renderings, but `str(round(x, 3))` drops a trailing zero. */
  lemma CentsRendered(v: real, w: nat, c: nat)
    requires w < 10 && c < 100 && v == w as real + c as real / 100.0
    ensures Fixed2(v) == [DigitChar(w), '.', DigitChar(c / 10), DigitChar(c % 10)]
    ensures c % 10 == 0 ==> Short3(v) == [DigitChar(w), '.', DigitChar(c / 10)]
    ensures c % 10 != 0 ==> Short3(v) == [DigitChar(w), '.', DigitChar(c / 10), DigitChar(c % 10)]
  {
    CentsFixed(v, w, c);
    CentsShort(v, w, c);
  }

  lemma CentsFixed(v: real, w: nat, c: nat)
    requires w < 10 && c < 100 && v == w as real + c as real / 100.0
    ensures Fixed2(v) == [DigitChar(w), '.', DigitChar(c / 10), DigitChar(c % 10)]
  {
    var n := (v * 100.0 + 0.5).Floor;
    assert n == w * 100 + c;
    assert n / 100 == w && n % 100 == c;
    assert NatToString(w) == [DigitChar(w)];
    var r := [DigitChar(w)] + "." + [DigitChar(c / 10), DigitChar(c % 10)];
    assert Fixed2(v) == r;
  }

  lemma CentsShort(v: real, w: nat, c: nat)
    requires w < 10 && c < 100 && v == w as real + c as real / 100.0
    ensures c % 10 == 0 ==> Short3(v) == [DigitChar(w), '.', DigitChar(c / 10)]
    ensures c % 10 != 0 ==> Short3(v) == [DigitChar(w), '.', DigitChar(c / 10), DigitChar(c % 10)]
  {
    CentsRounded(v, w, c);
    CentsDigits(w, c);
  }

  /** A value of whole hundredths is a whole number of thousandths. */
  lemma CentsRounded(v: real, w: nat, c: nat)
    requires v == w as real + c as real / 100.0
    ensures RoundHalfEven(v * 1000.0) == w * 1000 + c * 10
  {
    assert v * 1000.0 == (w * 1000 + c * 10) as real;
  }

  /** The digits `str` prints for a thousandth count of whole hundredths. */
  lemma CentsDigits(w: nat, c: nat)
    requires w < 10 && c < 100
    ensures (w * 1000 + c * 10) / 1000 == w && (w * 1000 + c * 10) % 1000 == c * 10
    ensures NatToString(w) == [DigitChar(w)]
    ensures Thousandths(c * 10) == if c % 10 == 0 then [DigitChar(c / 10)] else [DigitChar(c / 10), DigitChar(c % 10)]
  {
  }

  /** "1¾" becomes "1.75", as in "1¾ cups flour". */
  lemma UnicodeOneThreeQuarters(x: string, y: string)
    requires NoDigit(x) && GlyphFree(x) && GlyphFree(y)
    ensures UnicodeFractionsCleaned(Text(x + "1\U{BE}" + y)) == Ok(Text(x + "1.75" + y))
  {
    assert x + "1" + "" + ['\U{BE}'] + y == x + "1\U{BE}" + y;
    GlyphRendered(1, '\U{BE}', "1.75", "1.75");
    assert AllDigits("1") && NumeralValue("1") == 1;
    UnicodeMixedCleaned(x, "1", "", '\U{BE}', y, 1);
  }

  /** A lone "¼" becomes "0.25". */
  lemma UnicodeQuarter(x: string, y: string)
    requires NoDigit(x) && GlyphFree(x) && GlyphFree(y)
    ensures UnicodeFractionsCleaned(Text(x + "\U{BC}" + y)) == Ok(Text(x + "0.25" + y))
  {
    GlyphRendered(0, '\U{BC}', "0.25", "0.25");
    UnicodeLoneCleaned(x, '\U{BC}', y);
  }

  /** Loop idiom B: "1¼ and 2½" becomes "1.25 and 1.25". */
  lemma UnicodeOverwriteExample(x: string, y: string)
    requires NoDigit(x) && GlyphFree(x) && GlyphFree(y)
    ensures UnicodeFractionsCleaned(Text(x + "1\U{BC} and 2\U{BD}" + y)) == Ok(Text(x + "1.25 and 1.25" + y))
  {
    assert x + "1" + ['\U{BC}'] + " and " + "2" + ['\U{BD}'] + y == x + "1\U{BC} and 2\U{BD}" + y;
    assert x + "1.25" + " and " + "1.25" + y == x + "1.25 and 1.25" + y;
    GlyphRendered(1, '\U{BC}', "1.25", "1.25");
    assert IsGlyph('\U{BD}') && NoDigit(" and ") && GlyphFree(" and ");
    assert AllDigits("1") && AllDigits("2") && NumeralValue("1") == 1;
    UnicodeOverwrite(x, "1", '\U{BC}', " and ", "2", '\U{BD}', y, 1);
  }

  /** In the Epicurious pass a lone "½" becomes "0.50", two places always. */
  lemma EpiHalf(x: string, y: string)
    requires NoDigit(x) && GlyphFree(x) && GlyphFree(y)
    ensures EpiUnicodeFractionsCleaned(Text(x + "\U{BD}" + y)) == Ok(Text(x + "0.50" + y))
  {
    GlyphRendered(0, '\U{BD}', "0.5", "0.50");
    EpiLoneCleaned(x, '\U{BD}', y);
  }

  /** In the Epicurious pass "1¾" becomes "1.75". */
  lemma EpiOneThreeQuarters(x: string, y: string)
    requires NoDigit(x) && GlyphFree(x) && GlyphFree(y)
    ensures EpiUnicodeFractionsCleaned(Text(x + "1\U{BE}" + y)) == Ok(Text(x + "1.75" + y))
  {
    assert x + "1" + "" + ['\U{BE}'] + y == x + "1\U{BE}" + y;
    GlyphRendered(1, '\U{BE}', "1.75", "1.75");
    assert AllDigits("1") && NumeralValue("1") == 1;
    QuantizeLimit(MixedValue(1, '\U{BE}'));
    EpiMixedCleaned(x, "1", "", '\U{BE}', y, 1);
  }


  // ---------------------------------------------------------------------
  // The numbers the older merge_fractions writes
  // ---------------------------------------------------------------------

  predicate AllSpaces(t: string) {
    forall k :: 0 <= k < |t| ==> IsSpace(t[k])
  }

  /** `(\d+)\s+(\d\/\d)` on a digit run, a whitespace run, a digit, a slash and a digit. */
  lemma SpacedFractionHit(s: string, i: nat, a: nat, b: nat)
    requires i < a < b && b + 3 <= |s|
    requires AllDigits(s[i..a]) && AllSpaces(s[a..b])
    requires IsDigit(s[b]) && s[b + 1] == '/' && IsDigit(s[b + 2])
    ensures MatchAt(SpacedFraction, s, i) == Some(Hit(b + 3, [Span(i, a), Span(b, b + 3)]))
  {
    DigitRunEnd(s, i, a);
    assert !IsSpace(s[b]);
    SpaceRunEnd(s, a, b);
    SpacedFractionEnds(s, i, a, b);
  }

  /** A run of white space that stops before a non-space is where `\s+` stops. */
  lemma SpaceRunEnd(s: string, a: nat, b: nat)
    requires a < b <= |s| && AllSpaces(s[a..b]) && (b < |s| ==> !IsSpace(s[b]))
    ensures SpaceEnd(s, a) == b
  {
    assert forall k :: a <= k < b ==> s[k] == s[a..b][k - a];
    RunEndAt(s, a, b, IsSpace);
  }

  lemma SpacedFractionEnds(s: string, i: nat, a: nat, b: nat)
    requires i < a < b && b + 3 <= |s| && DigitEnd(s, i) == a && SpaceEnd(s, a) == b
    requires IsDigit(s[b]) && s[b + 1] == '/' && IsDigit(s[b + 2])
    ensures MatchAt(SpacedFraction, s, i) == Some(Hit(b + 3, [Span(i, a), Span(b, b + 3)]))
  {
  }

  /** Both patterns of the older revision need a slash. */
  lemma SpacedFractionNone(s: string, k: nat)
    requires k <= |s| && forall j :: k <= j < |s| ==> s[j] != '/'
    ensures MatchAt(SpacedFraction, s, k).None? && MatchAt(DigitFraction, s, k).None?
  {
    var b := SpaceEnd(s, DigitEnd(s, k));
    assert !CharAt(s, b + 1, '/') && !CharAt(s, k + 1, '/');
  }

  /** The scan of the spaced-fraction loop finds one when no digit comes before it and no slash after it. */
  lemma SpacedFractionOnly(s: string, i: nat, a: nat, b: nat)
    requires i < a < b && b + 3 <= |s|
    requires AllDigits(s[i..a]) && AllSpaces(s[a..b])
    requires IsDigit(s[b]) && s[b + 1] == '/' && IsDigit(s[b + 2])
    requires NoDigit(s[..i]) && NoSlash(s[b + 3..])
    ensures FindAll(SpacedFraction, s) == [Match(i, b + 3, [s[i..a], s[b..b + 3]])]
  {
    SpacedFractionHit(s, i, a, b);
    SpacedNoneBefore(s, i);
    SpacedNoneAfter(s, b + 3);
    FindsOnlyHit(SpacedFraction, s, i, b + 3, [Span(i, a), Span(b, b + 3)]);
    TextsTwo(s, i, a, b, b + 3);
  }

  /** No spaced fraction starts before the first digit. */
  lemma SpacedNoneBefore(s: string, i: nat)
    requires i <= |s| && NoDigit(s[..i])
    ensures forall k :: 0 <= k < i ==> MatchAt(SpacedFraction, s, k).None?
  {
    forall k | 0 <= k < i ensures MatchAt(SpacedFraction, s, k).None? {
      assert s[k] == s[..i][k];
    }
  }

  /** No spaced fraction starts where no slash follows. */
  lemma SpacedNoneAfter(s: string, e: nat)
    requires e <= |s| && NoSlash(s[e..])
    ensures NoMatchFrom(SpacedFraction, s, e)
  {
    assert forall j :: e <= j < |s| ==> s[j] == s[e..][j - e];
    forall k | e <= k <= |s| ensures MatchAt(SpacedFraction, s, k).None? {
      SpacedFractionNone(s, k);
    }
  }

  lemma SpacedFractionFound(s: string, i: nat, a: nat, b: nat, w: string, n: string, d: string)
    requires i < a < b && b + 3 <= |s|
    requires s[i..a] == w && s[b..b + 1] == n && s[b + 2..b + 3] == d && s[b + 1] == '/'
    requires AllDigits(w) && AllDigits(n) && AllDigits(d) && AllSpaces(s[a..b])
    requires NoDigit(s[..i]) && NoSlash(s[b + 3..])
    ensures FindAll(SpacedFraction, s) == [Match(i, b + 3, [w, n + "/" + d])]
  {
    OneDigitEach(s, b, n, d);
    SpacedFractionOnly(s, i, a, b);
  }

  /** The three characters of a one-digit fraction. */
  lemma OneDigitEach(s: string, b: nat, n: string, d: string)
    requires b + 3 <= |s| && s[b..b + 1] == n && s[b + 1] == '/' && s[b + 2..b + 3] == d && AllDigits(n) && AllDigits(d)
    ensures IsDigit(s[b]) && IsDigit(s[b + 2]) && s[b..b + 3] == n + "/" + d
  {
    assert s[b] == n[0] && s[b + 2] == d[0];
    assert s[b..b + 3] == s[b..b + 1] + [s[b + 1]] + s[b + 2..b + 3];
  }

  /** The replacement for a spaced fraction of digit runs. */
  lemma SpacedFractionRep(m: Match, w: string, n: string, d: string, p: nat, q: nat, r: nat)
    requires m.groups == [w, n + "/" + d] && |w| > 0 && AllDigits(w) && AllDigits(n)
    requires NumeralValue(w) == p && NumeralValue(n) == q && NumeralValue(d) == r && r > 0
    ensures SpacedFractionShort(m) == Ok(Short3(Mixed(p, q, r)))
  {
    FloatOfNumeral(w);
    FractionOfDigits(n, d, q, r);
    SpacedFractionReads(m, p, q, r);
  }

  lemma SpacedFractionReads(m: Match, p: nat, q: nat, r: nat)
    requires r > 0 && FloatOf(Group(m, 0)) == Ok(p as real) && FractionOf(Group(m, 1)) == Ok(q as real / r as real)
    ensures SpacedFractionShort(m) == Ok(Short3(Mixed(p, q, r)))
  {
  }

  /** After the spaced-fraction loop, a text whose only numeral is a printed one has no fraction left for the second loop. */
  lemma SettledByDigitFractions(x: string, t: string, y: string, p: nat, q: nat, r: nat)
    requires NoSlash(x) && NoSlash(y) && r > 0 && t == Short3(Mixed(p, q, r))
    ensures EachAllOf(DigitFraction, DigitFraction, x + t + y, DigitFractionShort) == Ok(x + t + y)
  {
    Short3Plain(Mixed(p, q, r));
    NoSlashJoin(x, t, y);
    forall k | 0 <= k <= |x + t + y| ensures MatchAt(DigitFraction, x + t + y, k).None? {
      SpacedFractionNone(x + t + y, k);
    }
    NoMatchLoops(DigitFraction, DigitFraction, x + t + y, DigitFractionShort);
  }

  /** The older `merge_fractions` where the scan finds one spaced fraction, stated on positions. */
  lemma TrainingFractionMergedAt(s: string, i: nat, a: nat, b: nat, w: string, n: string, d: string, p: nat, q: nat, r: nat, x: string, y: string)
    requires i < a < b && b + 3 <= |s|
    requires s[i..a] == w && s[b..b + 1] == n && s[b + 2..b + 3] == d && s[b + 1] == '/'
    requires AllDigits(w) && AllDigits(n) && AllDigits(d) && AllSpaces(s[a..b])
    requires NumeralValue(w) == p && NumeralValue(n) == q && NumeralValue(d) == r && r > 0
    requires s[..i] == x && s[b + 3..] == y && NoDigit(x) && NoSlash(x) && NoSlash(y)
    ensures TrainingFractionsMerged(Text(s)) == Ok(Text(x + Short3(Mixed(p, q, r)) + y))
  {
    SpacedFractionStage(s, i, a, b, w, n, d, p, q, r, x, y);
    SettledByDigitFractions(x, Short3(Mixed(p, q, r)), y, p, q, r);
  }

  /** The first loop of the older `merge_fractions` writes the one mixed fraction's value in its place. */
  lemma SpacedFractionStage(s: string, i: nat, a: nat, b: nat, w: string, n: string, d: string, p: nat, q: nat, r: nat, x: string, y: string)
    requires i < a < b && b + 3 <= |s|
    requires s[i..a] == w && s[b..b + 1] == n && s[b + 2..b + 3] == d && s[b + 1] == '/'
    requires AllDigits(w) && AllDigits(n) && AllDigits(d) && AllSpaces(s[a..b])
    requires NumeralValue(w) == p && NumeralValue(n) == q && NumeralValue(d) == r && r > 0
    requires s[..i] == x && s[b + 3..] == y && NoDigit(x) && NoSlash(y)
    ensures EachAllOf(SpacedFraction, SpacedFraction, s, SpacedFractionShort) == Ok(x + Short3(Mixed(p, q, r)) + y)
  {
    var m := Match(i, b + 3, [w, n + "/" + d]);
    assert m.start <= m.end <= |s| && s[..m.start] == x && s[m.end..] == y && |w| > 0;
    SpacedFractionFound(s, i, a, b, w, n, d);
    SpacedFractionReplaced(s, m, w, n, d, p, q, r, x, y);
  }

  lemma SpacedFractionReplaced(s: string, m: Match, w: string, n: string, d: string, p: nat, q: nat, r: nat, x: string, y: string)
    requires FindAll(SpacedFraction, s) == [m] && m.groups == [w, n + "/" + d]
    requires m.start <= m.end <= |s| && s[..m.start] == x && s[m.end..] == y
    requires |w| > 0 && AllDigits(w) && AllDigits(n)
    requires NumeralValue(w) == p && NumeralValue(n) == q && NumeralValue(d) == r && r > 0
    ensures EachAllOf(SpacedFraction, SpacedFraction, s, SpacedFractionShort) == Ok(x + Short3(Mixed(p, q, r)) + y)
  {
    SpacedFractionRep(m, w, n, d, p, q, r);
    OneAt(SpacedFraction, s, SpacedFractionShort, m, m.start, m.end, Short3(Mixed(p, q, r)), x, y);
  }

  lemma TrainingFractionPieces(s: string, x: string, w: string, sp: string, n: string, d: string, y: string, i: nat, a: nat, b: nat)
    requires s == x + w + sp + n + "/" + d + y && |n| == 1 && |d| == 1
    requires i == |x| && a == i + |w| && b == a + |sp|
    ensures b + 3 <= |s| && s[i..a] == w && s[a..b] == sp && s[b..b + 1] == n && s[b + 1] == '/' && s[b + 2..b + 3] == d
    ensures s[..i] == x && s[b + 3..] == y
  {
  }

  /**
   * The older `merge_fractions` on a text with one whole number, whitespace
   * and a one-digit fraction, no digit before it and no slash around it:
   * their sum, rounded to three places, replaces them, and the rest of the
   * text is kept.
   */
  lemma TrainingFractionMerged(x: string, w: string, sp: string, n: string, d: string, y: string, p: nat, q: nat, r: nat)
    requires |w| > 0 && AllDigits(w) && |n| == 1 && AllDigits(n) && |d| == 1 && AllDigits(d)
    requires NumeralValue(w) == p && NumeralValue(n) == q && NumeralValue(d) == r && r > 0
    requires |sp| > 0 && AllSpaces(sp)
    requires NoDigit(x) && NoSlash(x) && NoSlash(y)
    ensures TrainingFractionsMerged(Text(x + w + sp + n + "/" + d + y)) == Ok(Text(x + Short3(Mixed(p, q, r)) + y))
  {
    var s := x + w + sp + n + "/" + d + y;
    var i, a, b := |x|, |x| + |w|, |x| + |w| + |sp|;
    TrainingFractionPieces(s, x, w, sp, n, d, y, i, a, b);
    TrainingFractionMergedAt(s, i, a, b, w, n, d, p, q, r, x, y);
  }

  /** "1 1/2" becomes "1.5" in the older revision, which rounds to three places and drops trailing zeros. */
  lemma TrainingOneAndAHalf(x: string, y: string)
    requires NoDigit(x) && NoSlash(x) && NoSlash(y)
    ensures TrainingFractionsMerged(Text(x + "1 1/2" + y)) == Ok(Text(x + "1.5" + y))
  {
    assert x + "1" + " " + "1" + "/" + "2" + y == x + "1 1/2" + y;
    OneAndAHalfShort();
    assert AllDigits("1") && AllDigits("2") && AllSpaces(" ");
    assert NumeralValue("1") == 1 && NumeralValue("2") == 2;
    TrainingFractionMerged(x, "1", " ", "1", "2", y, 1, 1, 2);
  }

  /** `1 1/2` written with `str(round(v, 3))`. */
  lemma OneAndAHalfShort()
    ensures Short3(Mixed(1, 1, 2)) == "1.5"
  {
    assert Mixed(1, 1, 2) == 1.5;
    CentsShort(1.5, 1, 50);
    assert DigitChar(1) == '1' && DigitChar(5) == '5';
  }

  /** Two spaced fractions with no digit before or between them and no slash after: the scan finds both. */
  lemma SpacedFractionsFound(s: string, i: nat, a: nat, b: nat, i2: nat, a2: nat, b2: nat)
    requires i < a < b && b + 3 <= i2 < a2 < b2 && b2 + 3 <= |s|
    requires AllDigits(s[i..a]) && AllSpaces(s[a..b]) && IsDigit(s[b]) && s[b + 1] == '/' && IsDigit(s[b + 2])
    requires AllDigits(s[i2..a2]) && AllSpaces(s[a2..b2]) && IsDigit(s[b2]) && s[b2 + 1] == '/' && IsDigit(s[b2 + 2])
    requires NoDigit(s[..i]) && NoDigit(s[b + 3..i2]) && NoSlash(s[b2 + 3..])
    ensures FindAll(SpacedFraction, s) == [Match(i, b + 3, [s[i..a], s[b..b + 3]]), Match(i2, b2 + 3, [s[i2..a2], s[b2..b2 + 3]])]
  {
    SpacedFractionHit(s, i, a, b);
    SpacedFractionHit(s, i2, a2, b2);
    forall k | 0 <= k < i ensures MatchAt(SpacedFraction, s, k).None? {
      assert s[k] == s[..i][k];
    }
    forall k | b + 3 <= k < i2 ensures MatchAt(SpacedFraction, s, k).None? {
      assert s[k] == s[b + 3..i2][k - b - 3];
    }
    assert forall j :: b2 + 3 <= j < |s| ==> s[j] == s[b2 + 3..][j - b2 - 3];
    forall k | b2 + 3 <= k <= |s| ensures MatchAt(SpacedFraction, s, k).None? {
      SpacedFractionNone(s, k);
    }
    FindsTwo(SpacedFraction, s, i, i2);
    SpacedFractionTexts(s, i, a, b);
    SpacedFractionTexts(s, i2, a2, b2);
  }

  lemma SpacedFractionTexts(s: string, i: nat, a: nat, b: nat)
    requires i <= a <= b && b + 3 <= |s| && MatchAt(SpacedFraction, s, i) == Some(Hit(b + 3, [Span(i, a), Span(b, b + 3)]))
    ensures MatchObject(SpacedFraction, s, i) == Some(Match(i, b + 3, [s[i..a], s[b..b + 3]]))
  {
    TextsTwo(s, i, a, b, b + 3);
  }

  /** The same two matches, with the groups of each named by their pieces. */
  lemma SpacedFractionsMatched(s: string, i: nat, a: nat, b: nat, i2: nat, a2: nat, b2: nat,
                               w: string, n: string, d: string, w2: string, n2: string, d2: string)
    requires i < a < b && b + 3 <= i2 < a2 < b2 && b2 + 3 <= |s|
    requires s[i..a] == w && s[b..b + 1] == n && s[b + 2..b + 3] == d && s[b + 1] == '/'
    requires s[i2..a2] == w2 && s[b2..b2 + 1] == n2 && s[b2 + 2..b2 + 3] == d2 && s[b2 + 1] == '/'
    requires AllDigits(w) && AllDigits(n) && AllDigits(d) && AllSpaces(s[a..b])
    requires AllDigits(w2) && AllDigits(n2) && AllDigits(d2) && AllSpaces(s[a2..b2])
    requires NoDigit(s[..i]) && NoDigit(s[b + 3..i2]) && NoSlash(s[b2 + 3..])
    ensures FindAll(SpacedFraction, s) == [Match(i, b + 3, [w, n + "/" + d]), Match(i2, b2 + 3, [w2, n2 + "/" + d2])]
  {
    assert IsDigit(s[b]) && IsDigit(s[b + 2]) by { assert s[b] == n[0] && s[b + 2] == d[0]; }
    assert IsDigit(s[b2]) && IsDigit(s[b2 + 2]) by { assert s[b2] == n2[0] && s[b2 + 2] == d2[0]; }
    SlashSplits(s, b, b + 1, b + 3);
    SlashSplits(s, b2, b2 + 1, b2 + 3);
    SpacedFractionsFound(s, i, a, b, i2, a2, b2);
  }

  /** The text idiom B leaves after writing `t` over two spaced fractions holds no slash. */
  lemma TrainingOverwriteLeft(x: string, t: string, z: string, y: string, u: string, v: string, p: nat, q: nat, r: nat)
    requires NoSlash(x) && NoSlash(z) && NoSlash(y) && u == t && v == t
    requires r > 0 && t == Short3(Mixed(p, q, r))
    ensures x + u + z + v + y == x + t + z + t + y
    ensures NoMatchFrom(SpacedFraction, x + u + z + v + y, 0)
    ensures EachAllOf(DigitFraction, DigitFraction, x + t + z + t + y, DigitFractionShort) == Ok(x + t + z + t + y)
  {
    Short3Plain(Mixed(p, q, r));
    NoSlashJoin(x, t, z);
    NoSlashJoin(x + t + z, t, y);
    var o := x + t + z + t + y;
    forall k | 0 <= k <= |o| ensures MatchAt(SpacedFraction, o, k).None? && MatchAt(DigitFraction, o, k).None? {
      SpacedFractionNone(o, k);
    }
    NoMatchLoops(DigitFraction, DigitFraction, o, DigitFractionShort);
  }

  lemma SpacedFractionsRep(m: Match, m2: Match, w: string, n: string, d: string, w2: string, n2: string, d2: string, p: nat, q: nat, r: nat)
    requires m.groups == [w, n + "/" + d] && m2.groups == [w2, n2 + "/" + d2]
    requires |w| > 0 && AllDigits(w) && AllDigits(n) && AllDigits(d) && |w2| > 0 && AllDigits(w2) && AllDigits(n2) && AllDigits(d2)
    requires NumeralValue(w) == p && NumeralValue(n) == q && NumeralValue(d) == r && r > 0 && NumeralValue(d2) > 0
    ensures RepsOf(SpacedFractionShort, [m, m2]).Ok?
    ensures SpacedFractionShort(m) == Ok(Short3(Mixed(p, q, r)))
  {
    SpacedFractionRep(m, w, n, d, p, q, r);
    SpacedFractionOk(m2, w2, n2, d2);
    TwoReps(SpacedFractionShort, m, m2);
  }

  lemma SpacedFractionOk(m: Match, w: string, n: string, d: string)
    requires m.groups == [w, n + "/" + d] && |w| > 0 && AllDigits(w) && AllDigits(n) && AllDigits(d) && NumeralValue(d) > 0
    ensures SpacedFractionShort(m).Ok?
  {
    SpacedFractionRep(m, w, n, d, NumeralValue(w), NumeralValue(n), NumeralValue(d));
  }

  /** Idiom B's rewrite of two found spaced fractions, given where they sit. */
  lemma TrainingOverwriteFound(s: string, m: Match, m2: Match, i: nat, e: nat, i2: nat, e2: nat, x: string, z: string, y: string,
                               w: string, n: string, d: string, w2: string, n2: string, d2: string, p: nat, q: nat, r: nat)
    requires FindAll(SpacedFraction, s) == [m, m2] && Around(s, i, e, i2, e2, x, z, y)
    requires m == Match(i, e, [w, n + "/" + d]) && m2 == Match(i2, e2, [w2, n2 + "/" + d2])
    requires |w| > 0 && AllDigits(w) && AllDigits(n) && AllDigits(d) && |w2| > 0 && AllDigits(w2) && AllDigits(n2) && AllDigits(d2)
    requires NumeralValue(w) == p && NumeralValue(n) == q && NumeralValue(d) == r && r > 0 && NumeralValue(d2) > 0
    requires NoSlash(x) && NoSlash(z) && NoSlash(y)
    ensures TrainingFractionsMerged(Text(s)) == Ok(Text(x + Short3(Mixed(p, q, r)) + z + Short3(Mixed(p, q, r)) + y))
  {
    SpacedFractionsRep(m, m2, w, n, d, w2, n2, d2, p, q, r);
    TrainingOverwriteSub(s, m, m2, i, e, i2, e2, x, z, y, p, q, r);
  }

  lemma TrainingOverwriteSub(s: string, m: Match, m2: Match, i: nat, e: nat, i2: nat, e2: nat, x: string, z: string, y: string, p: nat, q: nat, r: nat)
    requires FindAll(SpacedFraction, s) == [m, m2] && RepsOf(SpacedFractionShort, [m, m2]).Ok?
    requires r > 0 && SpacedFractionShort(m) == Ok(Short3(Mixed(p, q, r)))
    requires m.start == i && m.end == e && m2.start == i2 && m2.end == e2
    requires Around(s, i, e, i2, e2, x, z, y)
    requires NoSlash(x) && NoSlash(z) && NoSlash(y)
    ensures TrainingFractionsMerged(Text(s)) == Ok(Text(x + Short3(Mixed(p, q, r)) + z + Short3(Mixed(p, q, r)) + y))
  {
    var t := Short3(Mixed(p, q, r));
    SubAllTwo(SpacedFraction, s, [Str(t)], m, m2);
    TrainingOverwriteLeft(x, t, z, y, Expand([Str(t)], m.groups), Expand([Str(t)], m2.groups), p, q, r);
    FirstOverwrites(SpacedFraction, s, SpacedFractionShort, t);
  }

  lemma TwoFractionPieces(s: string, x: string, w: string, sp: string, n: string, d: string, z: string,
                          w2: string, sp2: string, n2: string, d2: string, y: string, i: nat, a: nat, b: nat, i2: nat, a2: nat, b2: nat)
    requires s == x + w + sp + n + "/" + d + z + w2 + sp2 + n2 + "/" + d2 + y
    requires |n| == 1 && |d| == 1 && |n2| == 1 && |d2| == 1
    requires i == |x| && a == i + |w| && b == a + |sp| && i2 == b + 3 + |z| && a2 == i2 + |w2| && b2 == a2 + |sp2|
    ensures b2 + 3 <= |s|
    ensures s[i..a] == w && s[a..b] == sp && s[b..b + 1] == n && s[b + 1] == '/' && s[b + 2..b + 3] == d
    ensures s[i2..a2] == w2 && s[a2..b2] == sp2 && s[b2..b2 + 1] == n2 && s[b2 + 1] == '/' && s[b2 + 2..b2 + 3] == d2
    ensures s[..i] == x && s[b + 3..i2] == z && s[b2 + 3..] == y
    ensures Around(s, i, b + 3, i2, b2 + 3, x, z, y)
  {
    assert TwoFractionsLaid(s, x, w, sp, n, d, z, w2, sp2, n2, d2, y, i, a, b, i2, a2, b2);
    FirstFractionLaid(s, x, w, sp, n, d, z, w2, sp2, n2, d2, y, i, a, b, i2, a2, b2);
    SecondFractionLaid(s, x, w, sp, n, d, z, w2, sp2, n2, d2, y, i, a, b, i2, a2, b2);
    FractionGapLaid(s, x, w, sp, n, d, z, w2, sp2, n2, d2, y, i, a, b, i2, a2, b2);
  }

  /** Two spaced fractions laid out in `s`, with their positions. */
  predicate TwoFractionsLaid(s: string, x: string, w: string, sp: string, n: string, d: string, z: string,
                             w2: string, sp2: string, n2: string, d2: string, y: string, i: nat, a: nat, b: nat, i2: nat, a2: nat, b2: nat) {
    s == x + w + sp + n + "/" + d + z + w2 + sp2 + n2 + "/" + d2 + y
    && |n| == 1 && |d| == 1 && |n2| == 1 && |d2| == 1
    && i == |x| && a == i + |w| && b == a + |sp| && i2 == b + 3 + |z| && a2 == i2 + |w2| && b2 == a2 + |sp2|
  }

  lemma FirstFractionLaid(s: string, x: string, w: string, sp: string, n: string, d: string, z: string,
                          w2: string, sp2: string, n2: string, d2: string, y: string, i: nat, a: nat, b: nat, i2: nat, a2: nat, b2: nat)
    requires TwoFractionsLaid(s, x, w, sp, n, d, z, w2, sp2, n2, d2, y, i, a, b, i2, a2, b2)
    ensures b + 3 <= i2 <= |s|
    ensures s[..i] == x && s[i..a] == w && s[a..b] == sp && s[b..b + 1] == n && s[b + 1] == '/' && s[b + 2..b + 3] == d
  {
  }

  lemma SecondFractionLaid(s: string, x: string, w: string, sp: string, n: string, d: string, z: string,
                           w2: string, sp2: string, n2: string, d2: string, y: string, i: nat, a: nat, b: nat, i2: nat, a2: nat, b2: nat)
    requires TwoFractionsLaid(s, x, w, sp, n, d, z, w2, sp2, n2, d2, y, i, a, b, i2, a2, b2)
    ensures i2 <= b2 + 3 <= |s|
    ensures s[i2..a2] == w2 && s[a2..b2] == sp2 && s[b2..b2 + 1] == n2 && s[b2 + 1] == '/' && s[b2 + 2..b2 + 3] == d2
    ensures s[b2 + 3..] == y
  {
  }

  lemma FractionGapLaid(s: string, x: string, w: string, sp: string, n: string, d: string, z: string,
                        w2: string, sp2: string, n2: string, d2: string, y: string, i: nat, a: nat, b: nat, i2: nat, a2: nat, b2: nat)
    requires TwoFractionsLaid(s, x, w, sp, n, d, z, w2, sp2, n2, d2, y, i, a, b, i2, a2, b2)
    ensures b + 3 <= i2 <= |s| && s[b + 3..i2] == z
  {
  }

  /** The text outside two matches `[i, e)` and `[i2, e2)` of `s`. */
  predicate Around(s: string, i: nat, e: nat, i2: nat, e2: nat, x: string, z: string, y: string) {
    i <= e <= i2 <= e2 <= |s| && s[..i] == x && s[e..i2] == z && s[e2..] == y
  }

  /**
   * Loop idiom B in the older `merge_fractions`: of two spaced fractions,
   * both become the value of the first.
   */
  lemma TrainingOverwrite(x: string, w: string, sp: string, n: string, d: string, z: string,
                          w2: string, sp2: string, n2: string, d2: string, y: string, p: nat, q: nat, r: nat)
    requires |w| > 0 && AllDigits(w) && |n| == 1 && AllDigits(n) && |d| == 1 && AllDigits(d)
    requires |w2| > 0 && AllDigits(w2) && |n2| == 1 && AllDigits(n2) && |d2| == 1 && AllDigits(d2)
    requires NumeralValue(w) == p && NumeralValue(n) == q && NumeralValue(d) == r && r > 0 && NumeralValue(d2) > 0
    requires |sp| > 0 && AllSpaces(sp) && |sp2| > 0 && AllSpaces(sp2)
    requires NoDigit(x) && NoSlash(x) && NoDigit(z) && NoSlash(z) && NoSlash(y)
    ensures TrainingFractionsMerged(Text(x + w + sp + n + "/" + d + z + w2 + sp2 + n2 + "/" + d2 + y))
            == Ok(Text(x + Short3(Mixed(p, q, r)) + z + Short3(Mixed(p, q, r)) + y))
  {
    var s := x + w + sp + n + "/" + d + z + w2 + sp2 + n2 + "/" + d2 + y;
    var i, a, b := |x|, |x| + |w|, |x| + |w| + |sp|;
    var i2 := b + 3 + |z|;
    var a2, b2 := i2 + |w2|, i2 + |w2| + |sp2|;
    var m := Match(i, b + 3, [w, n + "/" + d]);
    var m2 := Match(i2, b2 + 3, [w2, n2 + "/" + d2]);
    assert FindAll(SpacedFraction, s) == [m, m2] && Around(s, i, b + 3, i2, b2 + 3, x, z, y) by {
      TwoFractionPieces(s, x, w, sp, n, d, z, w2, sp2, n2, d2, y, i, a, b, i2, a2, b2);
      SpacedFractionsMatched(s, i, a, b, i2, a2, b2, w, n, d, w2, n2, d2);
    }
    TrainingOverwriteFound(s, m, m2, i, b + 3, i2, b2 + 3, x, z, y, w, n, d, w2, n2, d2, p, q, r);
  }

  /** Loop idiom B: "1 1/2 to 2 1/4" becomes "1.5 to 1.5". */
  lemma TrainingOverwriteExample(x: string, y: string)
    requires NoDigit(x) && NoSlash(x) && NoSlash(y)
    ensures TrainingFractionsMerged(Text(x + "1 1/2 to 2 1/4" + y)) == Ok(Text(x + "1.5 to 1.5" + y))
  {
    OverwriteExampleTexts(x, y);
    OneAndAHalfShort();
    assert AllDigits("1") && AllDigits("2") && AllDigits("4") && AllSpaces(" ");
    assert NoDigit(" to ") && NoSlash(" to ");
    assert NumeralValue("1") == 1 && NumeralValue("2") == 2 && NumeralValue("4") == 4;
    TrainingOverwrite(x, "1", " ", "1", "2", " to ", "2", " ", "1", "4", y, 1, 1, 2);
  }

  lemma OverwriteExampleTexts(x: string, y: string)
    ensures x + "1" + " " + "1" + "/" + "2" + " to " + "2" + " " + "1" + "/" + "4" + y == x + "1 1/2 to 2 1/4" + y
    ensures x + "1.5" + " to " + "1.5" + y == x + "1.5 to 1.5" + y
  {
  }

}
