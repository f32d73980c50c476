/**
 * `merge_quantities`: number ranges become their average, then a count
 * followed by a size becomes their product, both printed with two decimals
 * half up. Only the text is rewritten; the row's quantity cell is not
 * passed to the function and does not change.
 */
module Quantities {
  import opened Wrappers
  import opened Strings
  import opened Numbers
  import opened Patterns
  import opened Regex
  import opened Loops
  import opened Record
  import opened Fractions

  /** `str(round(Decimal((float(m[0]) + float(m[1])) / 2), 2))`. */
  function RangeFixed(m: Match): Result<string> {
    match FloatOf(Group(m, 0))
    case Raised(e) => Raised(e)
    case Ok(a) =>
      match FloatOf(Group(m, 1))
      case Raised(e) => Raised(e)
      case Ok(b) => Quantize2((a + b) / 2.0)
  }

  /** `str(round(Decimal(float(m[0]) * float(m[1])), 2))`. */
  function MultiplierFixed(m: Match): Result<string> {
    match FloatOf(Group(m, 0))
    case Raised(e) => Raised(e)
    case Ok(a) =>
      match FloatOf(Group(m, 1))
      case Raised(e) => Raised(e)
      case Ok(b) => Quantize2(Product(a, b))
  }

  function Product(a: real, b: real): (v: real)
    requires a >= 0.0 && b >= 0.0
    ensures v >= 0.0
  {
    a * b
  }

  /**
   * Ranges, then multipliers, both with idiom A. A NaN cell makes `findall`
   * raise the TypeError the pass catches and comes back as it was; a size
   * with two points in a row ("8..5") makes `float` raise a ValueError,
   * which is not caught.
   */
  function QuantitiesMerged(ingredient: Field): Result<Field> {
    match ingredient
    case Missing => Ok(Missing)
    case Text(s) =>
      match EachFirstOf(Range, Range, s, RangeFixed)
      case Raised(e) => Raised(e)
      case Ok(ranged) =>
        match EachFirstOf(Multiplier, Multiplier, ranged, MultiplierFixed)
        case Raised(e) => Raised(e)
        case Ok(folded) => Ok(Text(folded))
  }

  method MergeQuantities(ingredient: Field) returns (r: Result<Field>)
    ensures r == QuantitiesMerged(ingredient)
  {
    if ingredient.Missing? {
      return Ok(Missing);
    }
    var ranged := SubEachFirst(Range, Range, ingredient.s, RangeFixed);
    if ranged.Raised? {
      return Raised(ranged.error);
    }
    var folded := SubEachFirst(Multiplier, Multiplier, ranged.value, MultiplierFixed);
    if folded.Raised? {
      return Raised(folded.error);
    }
    return Ok(Text(folded.value));
  }

  // ---------------------------------------------------------------------
  // Reading `\d+`, points, `\d*`
  // ---------------------------------------------------------------------

  /** No two points: what `float` accepts among texts of digits and points. */
  predicate OnePointAtMost(t: string) {
    forall j, k :: 0 <= j < k < |t| && t[j] == '.' ==> t[k] != '.'
  }

  /** `s[b..e]` is a digit run `s[b..c]`, a run of points `s[c..d]` and a digit run `s[d..e]`. */
  predicate PointedRun(s: string, b: nat, c: nat, d: nat, e: nat) {
    && b < c <= d <= e <= |s|
    && (forall k :: b <= k < c ==> IsDigit(s[k]))
    && (forall k :: c <= k < d ==> s[k] == '.')
    && (forall k :: d <= k < e ==> IsDigit(s[k]))
  }

  /** Such a run reads as `float` exactly when there is at most one point. */
  lemma FloatOfPoints(s: string, b: nat, c: nat, d: nat, e: nat)
    requires PointedRun(s, b, c, d, e)
    ensures FloatOf(s[b..e]).Raised? <==> d - c >= 2
    ensures FloatOf(s[b..e]).Raised? ==> FloatOf(s[b..e]).error == ValueError
    ensures OnePointAtMost(s[b..e]) <==> d - c < 2
  {
    var t := s[b..e];
    assert t[0] == s[b];
    assert t[|t| - 1] == s[e - 1];
    StripOfPlain(t);
    if c == d {
      NoPoint(s, b, c, d, e);
    } else if d - c == 1 {
      OnePoint(s, b, c, d, e);
    } else {
      TwoPoints(s, b, c, d, e);
    }
  }

  lemma NoPoint(s: string, b: nat, c: nat, d: nat, e: nat)
    requires PointedRun(s, b, c, d, e) && c == d && Strip(s[b..e]) == s[b..e]
    ensures FloatOf(s[b..e]).Ok? && OnePointAtMost(s[b..e])
  {
    var t := s[b..e];
    assert forall k :: 0 <= k < |t| ==> t[k] == s[b + k];
    assert IndexOf(t, '.') == |t|;
  }

  lemma OnePoint(s: string, b: nat, c: nat, d: nat, e: nat)
    requires PointedRun(s, b, c, d, e) && d == c + 1 && Strip(s[b..e]) == s[b..e]
    ensures FloatOf(s[b..e]).Ok? && OnePointAtMost(s[b..e])
  {
    var t := s[b..e];
    var p := c - b;
    assert t[p] == '.';
    assert forall k :: 0 <= k < |t| ==> t[k] == s[b + k];
    assert IndexOf(t, '.') == p;
    assert AllDigits(t[..p]);
    var u := t[p + 1..];
    assert forall k :: 0 <= k < |u| ==> u[k] == s[d + k];
  }

  lemma TwoPoints(s: string, b: nat, c: nat, d: nat, e: nat)
    requires PointedRun(s, b, c, d, e) && d >= c + 2 && Strip(s[b..e]) == s[b..e]
    ensures FloatOf(s[b..e]) == Raised(ValueError) && !OnePointAtMost(s[b..e])
  {
    var t := s[b..e];
    var p := c - b;
    DoublePoint(s, b, c, d, e);
    assert t[p + 1..][0] == '.';
  }

  /** In a run with two points or more, the first point is followed by another. */
  lemma DoublePoint(s: string, b: nat, c: nat, d: nat, e: nat)
    requires PointedRun(s, b, c, d, e) && d >= c + 2
    ensures s[b..e][c - b] == '.' && s[b..e][c - b + 1] == '.' && IndexOf(s[b..e], '.') == c - b
  {
    var t := s[b..e];
    assert s[c] == '.' && s[c + 1] == '.';
    assert t[c - b] == s[c] && t[c - b + 1] == s[c + 1];
    assert forall k :: 0 <= k < c - b ==> t[k] == s[b + k];
  }

  /** `\d+\.?\d*` at a digit: `float` always reads it. */
  lemma NumberReads(s: string, i: nat)
    requires At(s, i, IsDigit)
    ensures FloatOf(s[i..NumberEnd(s, i)]).Ok?
  {
    var a := DigitEnd(s, i);
    if CharAt(s, a, '.') {
      FloatOfPoints(s, i, a, a + 1, DigitEnd(s, a + 1));
    } else {
      FloatOfPoints(s, i, a, a, a);
    }
  }

  // ---------------------------------------------------------------------
  // Properties
  // ---------------------------------------------------------------------

  /** The mean of a range's two ends is read, and `round` keeps it within 28 digits. */
  predicate RangeFits(m: Match) {
    && FloatOf(Group(m, 0)).Ok? && FloatOf(Group(m, 1)).Ok?
    && Fits2((FloatOf(Group(m, 0)).value + FloatOf(Group(m, 1)).value) / 2.0)
  }

  /**
   * Both ends of a range are numerals `float` reads, so averaging raises
   * only when `round` cannot keep the mean within 28 digits, and then
   * InvalidOperation.
   */
  lemma RangeRepFails(s: string, m: Match)
    requires m.start <= |s| && MatchObject(Range, s, m.start) == Some(m)
    ensures FloatOf(Group(m, 0)).Ok? && FloatOf(Group(m, 1)).Ok?
    ensures RangeFixed(m).Ok? <==> RangeFits(m)
    ensures RangeFixed(m).Raised? ==> RangeFixed(m).error == InvalidOperation
  {
    var i := m.start;
    var h := RangeAt(s, i).value;
    assert m.groups == Texts(s, h.spans);
    NumberReads(s, i);
    var e := h.spans[1].lo;
    NumberReads(s, e);
  }

  /** The range loop raises exactly when one of its means does not fit `round`, and then InvalidOperation. */
  lemma RangesRaise(s: string)
    ensures var ms := FindAll(Range, s);
            EachFirstOf(Range, Range, s, RangeFixed).Ok? <==> forall j :: 0 <= j < |ms| ==> RangeFits(ms[j])
    ensures EachFirstOf(Range, Range, s, RangeFixed).Raised? ==> EachFirstOf(Range, Range, s, RangeFixed).error == InvalidOperation
  {
    var ms := FindAll(Range, s);
    forall j | 0 <= j < |ms|
      ensures RangeFixed(ms[j]).Ok? <==> RangeFits(ms[j])
      ensures RangeFixed(ms[j]).Raised? ==> RangeFixed(ms[j]).error == InvalidOperation
    {
      RangeRepFails(s, ms[j]);
    }
  }

  /**
   * A range needs a `t`, `o` or `r` between its numbers: without one the
   * range loop leaves the text as it is ("3-4" is not averaged).
   */
  lemma RangeNeedsWord(s: string)
    requires forall k :: 0 <= k < |s| ==> !IsTor(s[k])
    ensures EachFirstOf(Range, Range, s, RangeFixed) == Ok(s)
  {
    forall k | 0 <= k <= |s| ensures MatchAt(Range, s, k).None? {
      if At(s, k, IsDigit) {
        var c := RunEnd(s, NumberEnd(s, k), IsDashOrSpace);
        assert RunEnd(s, c, IsTor) == c;
      }
    }
    NoMatchLoops(Range, Range, s, RangeFixed);
  }

  /** Count and size are read, and `round` keeps their product within 28 digits. */
  predicate MultiplierFits(m: Match) {
    && FloatOf(Group(m, 0)).Ok? && FloatOf(Group(m, 1)).Ok?
    && Fits2(Product(FloatOf(Group(m, 0)).value, FloatOf(Group(m, 1)).value))
  }

  /**
   * A multiplier's product raises ValueError exactly when its size has two
   * points or more; otherwise it raises only when `round` cannot keep the
   * product within 28 digits, and then InvalidOperation.
   */
  lemma MultiplierFails(s: string, m: Match)
    requires m.start <= |s| && MatchObject(Multiplier, s, m.start) == Some(m)
    ensures MultiplierFixed(m).Ok? <==> MultiplierFits(m)
    ensures MultiplierFixed(m) == Raised(ValueError) <==> !OnePointAtMost(Group(m, 1))
    ensures MultiplierFixed(m).Raised? ==> MultiplierFixed(m).error == ValueError || MultiplierFixed(m).error == InvalidOperation
  {
    var i := m.start;
    var h := MultiplierAt(s, i).value;
    assert m.groups == Texts(s, h.spans);
    var a := DigitEnd(s, i);
    FloatOfPoints(s, i, a, a, a);
    var b := SpaceEnd(s, a);
    var c := DigitEnd(s, b);
    var d := RunEnd(s, c, IsDot);
    FloatOfPoints(s, b, c, d, DigitEnd(s, d));
  }

  /**
   * The multiplier loop raises exactly when one of its multipliers does not
   * fit, ValueError only for a size with two points or more, and nothing else
   * when every product with a one-point size fits.
   */
  lemma MultipliersRaise(t: string)
    ensures var r, ms := EachFirstOf(Multiplier, Multiplier, t, MultiplierFixed), FindAll(Multiplier, t);
            && (r.Raised? <==> exists j :: 0 <= j < |ms| && !MultiplierFits(ms[j]))
            && (r.Raised? ==> r.error == ValueError || r.error == InvalidOperation)
            && (r == Raised(ValueError) ==> exists j :: 0 <= j < |ms| && !OnePointAtMost(Group(ms[j], 1)))
            && ((forall j :: 0 <= j < |ms| && OnePointAtMost(Group(ms[j], 1)) ==> MultiplierFits(ms[j])) ==>
                (r.Raised? ==> r.error == ValueError))
  {
    var ms := FindAll(Multiplier, t);
    forall j | 0 <= j < |ms|
      ensures MultiplierFixed(ms[j]).Ok? <==> MultiplierFits(ms[j])
      ensures MultiplierFixed(ms[j]) == Raised(ValueError) <==> !OnePointAtMost(Group(ms[j], 1))
      ensures MultiplierFixed(ms[j]).Raised? ==> MultiplierFixed(ms[j]).error == ValueError || MultiplierFixed(ms[j]).error == InvalidOperation
    {
      MultiplierFails(t, ms[j]);
    }
  }

  /**
   * On a string the pass raises only InvalidOperation or ValueError. A range
   * whose mean does not fit `round` raises the first; otherwise it raises
   * exactly when a multiplier of the averaged text does not fit, ValueError
   * only for a size with two points or more, and nothing else when every
   * product with a one-point size fits.
   */
  lemma QuantitiesRaise(s: string)
    ensures QuantitiesMerged(Text(s)).Raised? ==>
            QuantitiesMerged(Text(s)).error == ValueError || QuantitiesMerged(Text(s)).error == InvalidOperation
    ensures EachFirstOf(Range, Range, s, RangeFixed).Raised? ==> QuantitiesMerged(Text(s)) == Raised(InvalidOperation)
    ensures EachFirstOf(Range, Range, s, RangeFixed).Ok? ==>
            var ms := FindAll(Multiplier, EachFirstOf(Range, Range, s, RangeFixed).value);
            && (QuantitiesMerged(Text(s)).Raised? <==> exists j :: 0 <= j < |ms| && !MultiplierFits(ms[j]))
            && (QuantitiesMerged(Text(s)) == Raised(ValueError) ==> exists j :: 0 <= j < |ms| && !OnePointAtMost(Group(ms[j], 1)))
            && ((forall j :: 0 <= j < |ms| && OnePointAtMost(Group(ms[j], 1)) ==> MultiplierFits(ms[j])) ==>
                (QuantitiesMerged(Text(s)).Raised? ==> QuantitiesMerged(Text(s)).error == ValueError))
  {
    RangesRaise(s);
    var rs := EachFirstOf(Range, Range, s, RangeFixed);
    if rs.Ok? {
      MultipliersRaise(rs.value);
    }
  }

  /**
   * `merge_ranges` of the training-data script: the ranges it finds are
   * bound to a local and dropped, and the function falls off its end, so
   * every row, text or NaN, comes back as None. A NaN cell only changes
   * what is printed.
   */
  function MergeRanges(row: Cells): (r: Option<Cells>)
    ensures r == None
  {
    None
  }

  // ---------------------------------------------------------------------
  // The numbers the pass writes
  // ---------------------------------------------------------------------

  /** The mean of two whole numbers. */
  function Average(p: nat, q: nat): (v: real)
    ensures v >= 0.0
  {
    (p as real + q as real) / 2.0
  }

  /** The value of a whole part `q` and `n` decimals reading `r`. */
  function Decimal(q: nat, r: nat, n: nat): (v: real)
    ensures v >= q as real
  {
    q as real + r as real / Pow10(n) as real
  }

  lemma DecimalWhole(q: nat)
    ensures Decimal(q, 0, 0) == q as real
  {
    assert Pow10(0) == 1;
  }

  /** Every character of `t` is in the class. */
  predicate Every(t: string, cls: char -> bool) {
    forall k :: 0 <= k < |t| ==> cls(t[k])
  }

  /** No character of `t` is in the class. */
  predicate Excludes(t: string, cls: char -> bool) {
    forall k :: 0 <= k < |t| ==> !cls(t[k])
  }

  /** Every digit of `s` lies in `[lo, hi)`, and no character there is in the class. */
  predicate Confined(s: string, lo: nat, hi: nat, cls: char -> bool) {
    && (forall j :: 0 <= j < |s| && IsDigit(s[j]) ==> lo <= j < hi)
    && (forall j :: lo <= j < hi && j < |s| ==> !cls(s[j]))
  }

  /** A range starts at a digit and has a `t`, `o` or `r` and then a digit after it. */
  lemma RangeWitness(s: string, k: nat)
    requires k <= |s| && RangeAt(s, k).Some?
    ensures exists c, e :: k < c < e < |s| && IsDigit(s[k]) && IsTor(s[c]) && IsDigit(s[e])
  {
    var b := NumberEnd(s, k);
    var c := RunEnd(s, b, IsDashOrSpace);
    var d := RunEnd(s, c, IsTor);
    var e := RunEnd(s, d, IsDashOrSpace);
    assert DigitEnd(s, k) > k;
    assert IsTor(s[c]) && IsDigit(s[e]);
  }

  /** A multiplier starts at a digit and has a whitespace and then a digit after it. */
  lemma MultiplierWitness(s: string, k: nat)
    requires k <= |s| && MultiplierAt(s, k).Some?
    ensures exists a, b :: k < a < b < |s| && IsDigit(s[k]) && IsSpace(s[a]) && IsDigit(s[b])
  {
    var a := DigitEnd(s, k);
    var b := SpaceEnd(s, a);
    assert IsDigit(s[k]) && IsSpace(s[a]) && IsDigit(s[b]);
  }

  /** Digits confined to a stretch without `t`, `o` or `r`: no range. */
  lemma ConfinedNoRange(s: string, lo: nat, hi: nat)
    requires Confined(s, lo, hi, IsTor)
    ensures NoMatchFrom(Range, s, 0)
  {
    forall k | 0 <= k <= |s| ensures MatchAt(Range, s, k).None? {
      if RangeAt(s, k).Some? {
        RangeWitness(s, k);
      }
    }
  }

  /** Digits confined to a stretch without whitespace: no multiplier. */
  lemma ConfinedNoMultiplier(s: string, lo: nat, hi: nat)
    requires Confined(s, lo, hi, IsSpace)
    ensures NoMatchFrom(Multiplier, s, 0)
  {
    forall k | 0 <= k <= |s| ensures MatchAt(Multiplier, s, k).None? {
      if MultiplierAt(s, k).Some? {
        MultiplierWitness(s, k);
      }
    }
  }

  lemma ConfinedJoin(x: string, t: string, y: string, cls: char -> bool)
    requires NoDigit(x) && NoDigit(y) && Excludes(t, cls)
    ensures Confined(x + t + y, |x|, |x| + |t|, cls)
  {
    var s := x + t + y;
    forall j | 0 <= j < |s| && (j < |x| || j >= |x| + |t|) ensures !IsDigit(s[j]) {
      if j < |x| {
        assert s[j] == x[j];
      } else {
        assert s[j] == y[j - |x| - |t|];
      }
    }
    forall j | |x| <= j < |x| + |t| ensures !cls(s[j]) {
      assert s[j] == t[j - |x|];
    }
  }

  /** A printed number holds no whitespace. */
  lemma Fixed2NoSpace(v: real)
    requires v >= 0.0
    ensures Excludes(Fixed2(v), IsSpace)
  {
    Fixed2Plain(v);
  }

  /** `(\d+\.?\d*)[\s\-]*[tor]+[\s\-]*(\d+\.?\d*)` on two digit runs around a word of `t`, `o` and `r`. */
  lemma RangeHit(s: string, i: nat, b: nat, c: nat, d: nat, e: nat, g: nat)
    requires i < b <= c < d <= e < g <= |s|
    requires AllDigits(s[i..b]) && AllDigits(s[e..g])
    requires Every(s[b..c], IsDashOrSpace) && Every(s[c..d], IsTor) && Every(s[d..e], IsDashOrSpace)
    requires g < |s| ==> !IsDigit(s[g]) && s[g] != '.'
    ensures MatchAt(Range, s, i) == Some(Hit(g, [Span(i, b), Span(e, g)]))
  {
    assert s[e] == s[e..g][0] && s[i] == s[i..b][0];
    SeparatorsAt(s, b, c, d, e);
    NumberEndAt(s, i, b);
    NumberEndAt(s, e, g);
    RangeFromEnds(s, i, b, c, d, e, g);
  }

  lemma RangeFromEnds(s: string, i: nat, b: nat, c: nat, d: nat, e: nat, g: nat)
    requires i < b <= c < d <= e < g <= |s| && IsDigit(s[i]) && IsDigit(s[e])
    requires NumberEnd(s, i) == b && NumberEnd(s, e) == g
    requires RunEnd(s, b, IsDashOrSpace) == c && RunEnd(s, c, IsTor) == d && RunEnd(s, d, IsDashOrSpace) == e
    ensures MatchAt(Range, s, i) == Some(Hit(g, [Span(i, b), Span(e, g)]))
  {
  }

  /** A digit run followed by neither a digit nor a point is what `\d+\.?\d*` reads. */
  lemma NumberEndAt(s: string, i: nat, b: nat)
    requires i < b <= |s| && AllDigits(s[i..b])
    requires b < |s| ==> !IsDigit(s[b]) && s[b] != '.'
    ensures NumberEnd(s, i) == b
  {
    DigitRunEnd(s, i, b);
  }

  /** `[\s\-]*[tor]+[\s\-]*` before a digit. */
  lemma SeparatorsAt(s: string, b: nat, c: nat, d: nat, e: nat)
    requires b <= c < d <= e < |s| && IsDigit(s[e])
    requires Every(s[b..c], IsDashOrSpace) && Every(s[c..d], IsTor) && Every(s[d..e], IsDashOrSpace)
    ensures !IsDigit(s[b]) && s[b] != '.'
    ensures RunEnd(s, b, IsDashOrSpace) == c && RunEnd(s, c, IsTor) == d && RunEnd(s, d, IsDashOrSpace) == e
  {
    assert forall k :: b <= k < c ==> s[k] == s[b..c][k - b];
    assert forall k :: c <= k < d ==> s[k] == s[c..d][k - c];
    assert forall k :: d <= k < e ==> s[k] == s[d..e][k - d];
    RunEndAt(s, b, c, IsDashOrSpace);
    RunEndAt(s, c, d, IsTor);
    RunEndAt(s, d, e, IsDashOrSpace);
  }

  /** The range scan finds one range when no digit comes before or after it. */
  lemma RangeOnly(s: string, i: nat, b: nat, c: nat, d: nat, e: nat, g: nat)
    requires i < b <= c < d <= e < g <= |s|
    requires AllDigits(s[i..b]) && AllDigits(s[e..g])
    requires Every(s[b..c], IsDashOrSpace) && Every(s[c..d], IsTor) && Every(s[d..e], IsDashOrSpace)
    requires g < |s| ==> s[g] != '.'
    requires NoDigit(s[..i]) && NoDigit(s[g..])
    ensures FindAll(Range, s) == [Match(i, g, [s[i..b], s[e..g]])]
  {
    assert g < |s| ==> s[g] == s[g..][0];
    RangeHit(s, i, b, c, d, e, g);
    RangeNoneBefore(s, i);
    RangeNoneAfter(s, g);
    FindsOnlyHit(Range, s, i, g, [Span(i, b), Span(e, g)]);
    TextsTwo(s, i, b, e, g);
  }

  /** No range starts before the first digit. */
  lemma RangeNoneBefore(s: string, i: nat)
    requires i <= |s| && NoDigit(s[..i])
    ensures forall k :: 0 <= k < i ==> MatchAt(Range, s, k).None?
  {
    forall k | 0 <= k < i ensures MatchAt(Range, s, k).None? {
      assert s[k] == s[..i][k];
    }
  }

  /** No range starts after the last digit. */
  lemma RangeNoneAfter(s: string, g: nat)
    requires g <= |s| && NoDigit(s[g..])
    ensures NoMatchFrom(Range, s, g)
  {
    forall k | g <= k <= |s| ensures MatchAt(Range, s, k).None? {
      if k < |s| {
        assert s[k] == s[g..][k - g];
      }
    }
  }

  /** The replacement for a range of two digit runs. */
  lemma RangeRep(m: Match, a: string, b: string, p: nat, q: nat)
    requires m.groups == [a, b] && |a| > 0 && AllDigits(a) && |b| > 0 && AllDigits(b)
    requires NumeralValue(a) == p && NumeralValue(b) == q
    ensures RangeFixed(m) == Quantize2(Average(p, q))
  {
    FloatOfNumeral(a);
    FloatOfNumeral(b);
    RangeReads(m, p, q);
  }

  lemma RangeReads(m: Match, p: nat, q: nat)
    requires FloatOf(Group(m, 0)) == Ok(p as real) && FloatOf(Group(m, 1)) == Ok(q as real)
    ensures RangeFixed(m) == Quantize2(Average(p, q))
  {
  }

  /** `merge_quantities` on a text whose one range is its only number, stated on positions. */
  lemma RangeMergedAt(s: string, i: nat, b: nat, c: nat, d: nat, e: nat, g: nat, a: string, a2: string, p: nat, q: nat, x: string, y: string)
    requires i < b <= c < d <= e < g <= |s|
    requires s[i..b] == a && s[e..g] == a2 && s[..i] == x && s[g..] == y
    requires |a| > 0 && AllDigits(a) && |a2| > 0 && AllDigits(a2) && NumeralValue(a) == p && NumeralValue(a2) == q
    requires Every(s[b..c], IsDashOrSpace) && Every(s[c..d], IsTor) && Every(s[d..e], IsDashOrSpace)
    requires g < |s| ==> s[g] != '.'
    requires NoDigit(x) && NoDigit(y)
    ensures Fits2(Average(p, q)) ==> QuantitiesMerged(Text(s)) == Ok(Text(x + Fixed2(Average(p, q)) + y))
    ensures !Fits2(Average(p, q)) ==> QuantitiesMerged(Text(s)) == Raised(InvalidOperation)
  {
    RangeStage(s, i, b, c, d, e, g, a, a2, p, q, x, y);
    if Fits2(Average(p, q)) {
      var t := Fixed2(Average(p, q));
      Fixed2NoSpace(Average(p, q));
      ConfinedJoin(x, t, y, IsSpace);
      ConfinedNoMultiplier(x + t + y, |x|, |x| + |t|);
      NoMatchLoops(Multiplier, Multiplier, x + t + y, MultiplierFixed);
    }
  }

  /** The range loop writes the one range's average in its place. */
  lemma RangeStage(s: string, i: nat, b: nat, c: nat, d: nat, e: nat, g: nat, a: string, a2: string, p: nat, q: nat, x: string, y: string)
    requires i < b <= c < d <= e < g <= |s|
    requires s[i..b] == a && s[e..g] == a2 && s[..i] == x && s[g..] == y
    requires |a| > 0 && AllDigits(a) && |a2| > 0 && AllDigits(a2) && NumeralValue(a) == p && NumeralValue(a2) == q
    requires Every(s[b..c], IsDashOrSpace) && Every(s[c..d], IsTor) && Every(s[d..e], IsDashOrSpace)
    requires g < |s| ==> s[g] != '.'
    requires NoDigit(x) && NoDigit(y)
    ensures Fits2(Average(p, q)) ==> EachFirstOf(Range, Range, s, RangeFixed) == Ok(x + Fixed2(Average(p, q)) + y)
    ensures !Fits2(Average(p, q)) ==> EachFirstOf(Range, Range, s, RangeFixed) == Raised(InvalidOperation)
  {
    RangeOnly(s, i, b, c, d, e, g);
    var m := Match(i, g, [a, a2]);
    RangeRep(m, a, a2, p, q);
    if Fits2(Average(p, q)) {
      OneOf(Range, s, RangeFixed, m, Fixed2(Average(p, q)));
    } else {
      OneRaised(Range, s, RangeFixed, m, InvalidOperation);
    }
  }

  /** Where the pieces of a range sit in the text. */
  lemma RangePieces(s: string, x: string, a: string, sep: string, tor: string, sep2: string, a2: string, y: string,
                    i: nat, b: nat, c: nat, d: nat, e: nat, g: nat)
    requires s == x + a + sep + tor + sep2 + a2 + y
    requires i == |x| && b == i + |a| && c == b + |sep| && d == c + |tor| && e == d + |sep2| && g == e + |a2|
    ensures g <= |s| && s[..i] == x && s[i..b] == a && s[b..c] == sep && s[c..d] == tor && s[d..e] == sep2
    ensures s[e..g] == a2 && s[g..] == y && (g < |s| ==> s[g] == y[0])
  {
  }

  /**
   * `merge_quantities` on a text whose one number is a range of whole
   * numbers: the mean, printed with two decimals, replaces the range and
   * the rest of the text is kept; a mean too large for `round` to keep
   * within 28 digits raises InvalidOperation, which is not caught.
   */
  lemma RangeMerged(x: string, a: string, sep: string, tor: string, sep2: string, a2: string, y: string, p: nat, q: nat)
    requires |a| > 0 && AllDigits(a) && |a2| > 0 && AllDigits(a2) && NumeralValue(a) == p && NumeralValue(a2) == q
    requires Every(sep, IsDashOrSpace) && |tor| > 0 && Every(tor, IsTor) && Every(sep2, IsDashOrSpace)
    requires NoDigit(x) && NoDigit(y) && (|y| == 0 || y[0] != '.')
    ensures Fits2(Average(p, q)) ==> QuantitiesMerged(Text(x + a + sep + tor + sep2 + a2 + y)) == Ok(Text(x + Fixed2(Average(p, q)) + y))
    ensures !Fits2(Average(p, q)) ==> QuantitiesMerged(Text(x + a + sep + tor + sep2 + a2 + y)) == Raised(InvalidOperation)
  {
    var s := x + a + sep + tor + sep2 + a2 + y;
    var i := |x|;
    var b := i + |a|;
    var c := b + |sep|;
    var d := c + |tor|;
    var e := d + |sep2|;
    var g := e + |a2|;
    RangePieces(s, x, a, sep, tor, sep2, a2, y, i, b, c, d, e, g);
    RangeMergedAt(s, i, b, c, d, e, g, a, a2, p, q, x, y);
  }

  /** The product of a count and a size. */
  function Times(p: nat, q: nat, r: nat, n: nat): (v: real)
    ensures v >= 0.0
  {
    Product(p as real, Decimal(q, r, n))
  }

  /** `(\d+)\s+(\d+\.*\d*)` on a count, whitespace and a size of digits with at most one point. */
  lemma MultiplierHit(s: string, i: nat, a: nat, b: nat, c: nat, e: nat)
    requires i < a < b < c <= e <= |s|
    requires AllDigits(s[i..a]) && AllSpaces(s[a..b]) && AllDigits(s[b..c])
    requires e == c || (c < e && s[c] == '.' && AllDigits(s[c + 1..e]))
    requires e < |s| ==> !IsDigit(s[e]) && s[e] != '.'
    ensures MatchAt(Multiplier, s, i) == Some(Hit(e, [Span(i, a), Span(b, e)]))
  {
    assert s[a] == s[a..b][0] && s[b] == s[b..c][0];
    assert forall k :: a <= k < b ==> s[k] == s[a..b][k - a];
    DigitRunEnd(s, i, a);
    RunEndAt(s, a, b, IsSpace);
    DigitRunEnd(s, b, c);
    if e == c {
      RunEndAt(s, c, c, IsDot);
    } else {
      assert c + 1 < e ==> s[c + 1] == s[c + 1..e][0];
      RunEndAt(s, c, c + 1, IsDot);
      DigitRunEnd(s, c + 1, e);
    }
    MultiplierFromEnds(s, i, a, b, c, e);
  }

  lemma MultiplierFromEnds(s: string, i: nat, a: nat, b: nat, c: nat, e: nat)
    requires i < a < b < c <= e <= |s|
    requires DigitEnd(s, i) == a && SpaceEnd(s, a) == b && DigitEnd(s, b) == c && DigitEnd(s, RunEnd(s, c, IsDot)) == e
    ensures MatchAt(Multiplier, s, i) == Some(Hit(e, [Span(i, a), Span(b, e)]))
  {
  }

  /** The multiplier scan finds one multiplier when no digit comes before or after it. */
  lemma MultiplierOnly(s: string, i: nat, a: nat, b: nat, c: nat, e: nat)
    requires i < a < b < c <= e <= |s|
    requires AllDigits(s[i..a]) && AllSpaces(s[a..b]) && AllDigits(s[b..c])
    requires e == c || (c < e && s[c] == '.' && AllDigits(s[c + 1..e]))
    requires e < |s| ==> s[e] != '.'
    requires NoDigit(s[..i]) && NoDigit(s[e..])
    ensures FindAll(Multiplier, s) == [Match(i, e, [s[i..a], s[b..e]])]
  {
    assert e < |s| ==> s[e] == s[e..][0];
    MultiplierHit(s, i, a, b, c, e);
    NoMultiplierOutside(s, i, e);
    FindsOnly(Multiplier, s, i);
    assert Texts(s, [Span(i, a), Span(b, e)]) == [s[i..a], s[b..e]];
  }

  /** No multiplier starts where there is no digit. */
  lemma NoMultiplierOutside(s: string, i: nat, e: nat)
    requires i <= e <= |s| && NoDigit(s[..i]) && NoDigit(s[e..])
    ensures forall k :: 0 <= k < i ==> MatchAt(Multiplier, s, k).None?
    ensures NoMatchFrom(Multiplier, s, e)
  {
    forall k | 0 <= k <= |s| && (k < i || e <= k) ensures MatchAt(Multiplier, s, k).None? {
      if k < i {
        assert s[k] == s[..i][k];
      } else if k < |s| {
        assert s[k] == s[e..][k - e];
      }
      if MultiplierAt(s, k).Some? {
        MultiplierWitness(s, k);
      }
    }
  }

  /** In `u.f` with `u` all digits, the first point is the one after `u`. */
  lemma PointAfterDigits(u: string, f: string)
    requires AllDigits(u)
    ensures IndexOf(u + "." + f, '.') == |u|
    ensures (u + "." + f)[..|u|] == u && (u + "." + f)[|u| + 1..] == f
  {
    var t := u + "." + f;
    assert forall j :: 0 <= j < |u| ==> t[j] == u[j];
    assert t[|u|] == '.';
  }

  /** What `float` reads from a size of digits with at most one point. */
  lemma SizeValue(u: string, pt: string, f: string, q: nat, r: nat)
    requires |u| > 0 && AllDigits(u) && NumeralValue(u) == q
    requires (pt == "" && f == "") || (pt == "." && AllDigits(f))
    requires NumeralValue(f) == r
    ensures FloatOf(u + pt + f).Ok? && FloatOf(u + pt + f).value == Decimal(q, r, |f|)
  {
    if pt == "" {
      assert u + pt + f == u && NumeralValue(f) == 0 && |f| == 0;
      SizeWithoutPoint(u);
    } else {
      SizeWithPoint(u, f);
    }
  }

  lemma SizeWithoutPoint(u: string)
    requires |u| > 0 && AllDigits(u)
    ensures FloatOf(u).Ok? && FloatOf(u).value == Decimal(NumeralValue(u), 0, 0)
  {
    FloatOfNumeral(u);
    DecimalWhole(NumeralValue(u));
  }

  lemma SizeWithPoint(u: string, f: string)
    requires |u| > 0 && AllDigits(u) && AllDigits(f)
    ensures FloatOf(u + "." + f).Ok? && FloatOf(u + "." + f).value == Decimal(NumeralValue(u), NumeralValue(f), |f|)
  {
    PointedStrip(u, f);
    PointAfterDigits(u, f);
    PointedReads(u + "." + f, u, f);
  }

  lemma PointedStrip(u: string, f: string)
    requires |u| > 0 && AllDigits(u) && AllDigits(f)
    ensures Strip(u + "." + f) == u + "." + f
  {
    var t := u + "." + f;
    assert t[0] == u[0];
    assert t[|t| - 1] == '.' || t[|t| - 1] == f[|f| - 1];
    StripOfPlain(t);
  }

  lemma PointedReads(t: string, u: string, f: string)
    requires Strip(t) == t && IndexOf(t, '.') == |u| < |t| && t[..|u|] == u && t[|u| + 1..] == f
    requires |u| > 0 && AllDigits(u) && AllDigits(f)
    ensures FloatOf(t).Ok? && FloatOf(t).value == Decimal(NumeralValue(u), NumeralValue(f), |f|)
  {
    FloatOfPointed(t, |u|);
    PointedParts(t, |u|, NumeralValue(u), NumeralValue(f), Pow10(|f|));
  }

  /** The replacement for a count and a size whose values are known. */
  lemma MultiplierReads(m: Match, p: nat, q: nat, r: nat, n: nat)
    requires FloatOf(Group(m, 0)) == Ok(p as real) && FloatOf(Group(m, 1)).Ok? && FloatOf(Group(m, 1)).value == Decimal(q, r, n)
    ensures MultiplierFixed(m) == Quantize2(Times(p, q, r, n))
  {
  }

  /** `merge_quantities` on a text whose one number is a multiplier, stated on positions. */
  lemma MultiplierMergedAt(s: string, i: nat, a: nat, b: nat, c: nat, e: nat, w: string, z: string,
                           p: nat, q: nat, r: nat, n: nat, x: string, y: string)
    requires i < a < b < c <= e <= |s|
    requires s[i..a] == w && s[b..e] == z && s[..i] == x && s[e..] == y
    requires |w| > 0 && AllDigits(w) && NumeralValue(w) == p && FloatOf(z).Ok? && FloatOf(z).value == Decimal(q, r, n)
    requires AllSpaces(s[a..b]) && AllDigits(s[b..c])
    requires e == c || (c < e && s[c] == '.' && AllDigits(s[c + 1..e]))
    requires e < |s| ==> s[e] != '.'
    requires NoDigit(x) && NoDigit(y) && Confined(s, i, e, IsTor)
    ensures Fits2(Times(p, q, r, n)) ==> QuantitiesMerged(Text(s)) == Ok(Text(x + Fixed2(Times(p, q, r, n)) + y))
    ensures !Fits2(Times(p, q, r, n)) ==> QuantitiesMerged(Text(s)) == Raised(InvalidOperation)
  {
    ConfinedNoRange(s, i, e);
    NoMatchLoops(Range, Range, s, RangeFixed);
    MultiplierStage(s, i, a, b, c, e, w, z, p, q, r, n, x, y);
  }

  /** The multiplier loop writes the one product in its place. */
  lemma MultiplierStage(s: string, i: nat, a: nat, b: nat, c: nat, e: nat, w: string, z: string,
                        p: nat, q: nat, r: nat, n: nat, x: string, y: string)
    requires i < a < b < c <= e <= |s|
    requires s[i..a] == w && s[b..e] == z && s[..i] == x && s[e..] == y
    requires |w| > 0 && AllDigits(w) && NumeralValue(w) == p && FloatOf(z).Ok? && FloatOf(z).value == Decimal(q, r, n)
    requires AllSpaces(s[a..b]) && AllDigits(s[b..c])
    requires e == c || (c < e && s[c] == '.' && AllDigits(s[c + 1..e]))
    requires e < |s| ==> s[e] != '.'
    requires NoDigit(x) && NoDigit(y)
    ensures Fits2(Times(p, q, r, n)) ==> EachFirstOf(Multiplier, Multiplier, s, MultiplierFixed) == Ok(x + Fixed2(Times(p, q, r, n)) + y)
    ensures !Fits2(Times(p, q, r, n)) ==> EachFirstOf(Multiplier, Multiplier, s, MultiplierFixed) == Raised(InvalidOperation)
  {
    MultiplierOnly(s, i, a, b, c, e);
    var m := Match(i, e, [w, z]);
    FloatOfNumeral(w);
    MultiplierReads(m, p, q, r, n);
    if Fits2(Times(p, q, r, n)) {
      OneOf(Multiplier, s, MultiplierFixed, m, Fixed2(Times(p, q, r, n)));
    } else {
      OneRaised(Multiplier, s, MultiplierFixed, m, InvalidOperation);
    }
  }

  /** A count, whitespace and a size hold no `t`, `o` or `r`. */
  lemma MultiplierNoTor(w: string, sp: string, u: string, pt: string, f: string)
    requires AllDigits(w) && AllSpaces(sp) && AllDigits(u) && (pt == "" || pt == ".") && AllDigits(f)
    ensures Excludes(w + sp + u + pt + f, IsTor)
  {
    var t := w + sp + u + pt + f;
    forall k | 0 <= k < |t| ensures !IsTor(t[k]) {
      if k < |w| {
        assert t[k] == w[k];
      } else if k < |w| + |sp| {
        assert t[k] == sp[k - |w|];
      } else if k < |w| + |sp| + |u| {
        assert t[k] == u[k - |w| - |sp|];
      } else if k < |w| + |sp| + |u| + |pt| {
        assert t[k] == pt[k - |w| - |sp| - |u|];
      } else {
        assert t[k] == f[k - |w| - |sp| - |u| - |pt|];
      }
    }
  }

  /** Where the pieces of a multiplier sit in the text. */
  lemma MultiplierPieces(s: string, x: string, w: string, sp: string, u: string, pt: string, f: string, y: string,
                         i: nat, a: nat, b: nat, c: nat, e: nat)
    requires s == x + w + sp + u + pt + f + y
    requires i == |x| && a == i + |w| && b == a + |sp| && c == b + |u| && e == c + |pt| + |f| && |pt| <= 1
    ensures e <= |s| && s[..i] == x && s[i..a] == w && s[a..b] == sp && s[b..c] == u && s[b..e] == u + pt + f
    ensures s[e..] == y && (e < |s| ==> s[e] == y[0]) && (|pt| == 1 ==> s[c] == pt[0] && s[c + 1..e] == f)
    ensures s == x + (w + sp + u + pt + f) + y
  {
    assert x + w + sp == x + (w + sp);
    assert x + (w + sp) + u == x + (w + sp + u);
    assert x + (w + sp + u) + pt == x + (w + sp + u + pt);
    assert x + (w + sp + u + pt) + f == x + (w + sp + u + pt + f);
  }

  /**
   * `merge_quantities` on a text whose one number is a count followed by a
   * size: the product, printed with two decimals, replaces both and the
   * rest of the text is kept; a product too large for `round` to keep
   * within 28 digits raises InvalidOperation, which is not caught.
   */
  lemma MultiplierMerged(x: string, w: string, sp: string, u: string, pt: string, f: string, y: string, p: nat, q: nat, r: nat)
    requires |w| > 0 && AllDigits(w) && NumeralValue(w) == p && |sp| > 0 && AllSpaces(sp)
    requires |u| > 0 && AllDigits(u) && NumeralValue(u) == q
    requires (pt == "" && f == "") || (pt == "." && AllDigits(f))
    requires NumeralValue(f) == r
    requires NoDigit(x) && NoDigit(y) && (|y| == 0 || y[0] != '.')
    ensures Fits2(Times(p, q, r, |f|)) ==> QuantitiesMerged(Text(x + w + sp + u + pt + f + y)) == Ok(Text(x + Fixed2(Times(p, q, r, |f|)) + y))
    ensures !Fits2(Times(p, q, r, |f|)) ==> QuantitiesMerged(Text(x + w + sp + u + pt + f + y)) == Raised(InvalidOperation)
  {
    var s := x + w + sp + u + pt + f + y;
    var i := |x|;
    var a := i + |w|;
    var b := a + |sp|;
    var c := b + |u|;
    var e := c + |pt| + |f|;
    MultiplierPieces(s, x, w, sp, u, pt, f, y, i, a, b, c, e);
    SizeValue(u, pt, f, q, r);
    MultiplierNoTor(w, sp, u, pt, f);
    ConfinedJoin(x, w + sp + u + pt + f, y, IsTor);
    MultiplierMergedAt(s, i, a, b, c, e, w, u + pt + f, p, q, r, |f|, x, y);
  }

  /** "3 to 4 pounds" becomes "3.50 pounds". */
  lemma ThreeToFourPounds(x: string, y: string)
    requires NoDigit(x) && NoDigit(y)
    ensures QuantitiesMerged(Text(x + "3 to 4 pounds" + y)) == Ok(Text(x + "3.50 pounds" + y))
  {
    var rest := " pounds" + y;
    assert NoDigit(rest) by {
      forall k | 0 <= k < |rest| ensures !IsDigit(rest[k]) {
        if k >= 7 {
          assert rest[k] == y[k - 7];
        }
      }
    }
    assert x + "3" + " " + "to" + " " + "4" + rest == x + "3 to 4 pounds" + y;
    assert x + "3.50" + rest == x + "3.50 pounds" + y;
    assert AllDigits("3") && AllDigits("4") && NumeralValue("3") == 3 && NumeralValue("4") == 4;
    assert Every(" ", IsDashOrSpace) && Every("to", IsTor);
    assert Average(3, 4) == 3.0 + 50.0 / 100.0;
    CentsFixed(Average(3, 4), 3, 50);
    QuantizeLimit(Average(3, 4));
    assert DigitChar(3) == '3' && DigitChar(5) == '5' && DigitChar(0) == '0';
    RangeMerged(x, "3", " ", "to", " ", "4", rest, 3, 4);
  }

  /** "2 8.5-ounce" becomes "17.00-ounce". */
  lemma TwoEightAndAHalfOunce(x: string, y: string)
    requires NoDigit(x) && NoDigit(y)
    ensures QuantitiesMerged(Text(x + "2 8.5-ounce" + y)) == Ok(Text(x + "17.00-ounce" + y))
  {
    var rest := "-ounce" + y;
    assert NoDigit(rest) by {
      forall k | 0 <= k < |rest| ensures !IsDigit(rest[k]) {
        if k >= 6 {
          assert rest[k] == y[k - 6];
        }
      }
    }
    assert x + "2" + " " + "8" + "." + "5" + rest == x + "2 8.5-ounce" + y;
    assert x + "17.00" + rest == x + "17.00-ounce" + y;
    assert AllDigits("2") && AllDigits("8") && AllDigits("5") && AllSpaces(" ");
    assert NumeralValue("2") == 2 && NumeralValue("8") == 8 && NumeralValue("5") == 5;
    SeventeenFixed();
    QuantizeLimit(Times(2, 8, 5, 1));
    MultiplierMerged(x, "2", " ", "8", ".", "5", rest, 2, 8, 5);
  }

  /**
   * A count and a size of 14 digits or more, as in
   * "10000000000000 10000000000000", multiply to 10^26 or more, whose
   * hundredths need 29 digits: `round` raises InvalidOperation and the pass
   * lets it through.
   */
  lemma HugeProductRaises(x: string, n: nat, y: string)
    requires n >= 13 && NoDigit(x) && NoDigit(y) && (|y| == 0 || y[0] != '.')
    ensures QuantitiesMerged(Text(x + PowerNumeral(n) + " " + PowerNumeral(n) + y)) == Raised(InvalidOperation)
  {
    var w := PowerNumeral(n);
    assert x + w + " " + w + "" + "" + y == x + w + " " + w + y;
    assert AllSpaces(" ") && AllDigits("") && NumeralValue("") == 0 && |""| == 0;
    HugeProduct(n);
    MultiplierMerged(x, w, " ", w, "", "", y, Pow10(n), Pow10(n), 0);
  }

  lemma HugeProduct(n: nat)
    requires n >= 13
    ensures !Fits2(Times(Pow10(n), Pow10(n), 0, 0))
  {
    var t := Pow10(n);
    Pow10Grows(13, n);
    assert Pow10(13) == 10_000_000_000_000;
    DecimalWhole(t);
    AtLeastSquare(t as real, 10_000_000_000_000.0);
    assert Times(t, t, 0, 0) == t as real * t as real;
  }

  lemma AtLeastSquare(v: real, m: real)
    requires 0.0 <= m <= v
    ensures m * m <= v * v
  {
    assert m * m <= m * v <= v * v;
  }

  lemma SeventeenFixed()
    ensures Fixed2(Times(2, 8, 5, 1)) == "17.00"
  {
    assert Pow10(1) == 10;
    assert Times(2, 8, 5, 1) == 17.0;
    var c := (17.0 * 100.0 + 0.5).Floor;
    assert c == 1700;
    assert NatToString(17) == "17" by {
      assert NatToString(1) == "1";
    }
    assert DigitChar(0) == '0';
  }
}
