/**
 * The regular expressions of the cleaning passes, one hand-written matcher
 * each. `MatchAt(p, s, i)` answers what Python's `re` engine answers for
 * `p.match(s, i)`: the end of the match it commits to and the spans of its
 * groups, following the engine's backtracking order (greedy quantifiers try
 * the longest candidate first, lazy ones the shortest; `.` stops at a
 * newline while `\s` does not). No pattern of the core looks behind, so a
 * match at `i` only reads `s[i..]`.
 */
module Patterns {
  import opened Wrappers
  import opened Strings
  import opened Numbers

  /** A captured group: the text `s[lo..hi]`; an unmatched optional group is an empty span. */
  datatype Span = Span(lo: nat, hi: nat)

  /** Where a match that starts at `i` ends, and its groups. */
  datatype Hit = Hit(end: nat, spans: seq<Span>)

  /** One element of a fixed-text pattern: a choice of literal texts, tried in order, or `\s`. */
  datatype Atom = Alts(options: seq<string>) | Blank

  datatype Pattern =
    | AnyOf(chars: set<char>)        // `a|b|c` over single characters
    | Literal(text: string)          // a fixed text
    | Atoms(atoms: seq<Atom>)        // alternations of fixed texts and `\s`, each atom one group
    | Glyph                          // ([⅐-⅞¼-¾])
    | Pluses                         // \+{2,}
    | DigitsHyphenWord               // (\d+)\-(\w)
    | SeeRecipe(leadingSpace: bool)  // \(?<.*see\s*recipe.*>\)?  (with a leading \s* when flagged)
    | SeeAnchor                      // \(?\s*(see)\s*?<.*recipe.*>\)?
    | Tag                            // <.*?>
    | SpacedEscape                   // \s*\\n\s*
    | RecipeLink                     // epi\:recipeLink id\=\"\"\d+\"\"<
    | MixedGlyph                     // (\d+)\s?([⅐-⅞¼-¾])
    | OptMixedGlyph                  // (\d+\s?)?([⅐-⅞¼-¾])
    | MixedFraction                  // (\d+)[\-\s]?(\d+\/\d+)
    | Fraction                       // (\d+\/\d+)
    | Range                          // (\d+\.?\d*)[\s\-]*[tor]+[\s\-]*(\d+\.?\d*)
    | Multiplier                     // (\d+)\s+(\d+\.*\d*)
    | AbbrevFind(abbr: string)       // ([^\w])abbr\.?([^\w])?
    | AbbrevSub(abbr: string)        // ([^\w])abbr\.?([^\w])
    | Gram                           // (\d+)\s?g\.?([^\w])
    | Spoon(body: string)            // [Tt]body\.*
    | Sprig                          // (\w+)\s(sprigs?)
    | SpacedFraction                 // (\d+)\s+(\d\/\d)
    | DigitFraction                  // (\d\/\d)
    | DigitOunce                     // ([0-9])\s*oz\.*
    | DigitGram                      // ([0-9])\s*g([^a-z])

  predicate SpansIn(spans: seq<Span>, lo: nat, hi: nat) {
    forall g :: g in spans ==> lo <= g.lo <= g.hi <= hi
  }

  // ---------------------------------------------------------------------
  // Character classes and runs
  // ---------------------------------------------------------------------

  predicate NotNewline(c: char) { c != '\n' }
  predicate NotWord(c: char) { !IsWord(c) }
  predicate NotLower(c: char) { !('a' <= c <= 'z') }
  predicate IsDot(c: char) { c == '.' }
  predicate IsPlus(c: char) { c == '+' }
  predicate IsDashOrSpace(c: char) { c == '-' || IsSpace(c) }
  predicate IsTor(c: char) { c == 't' || c == 'o' || c == 'r' }

  /** `s[i]` exists and is in the class. */
  predicate At(s: string, i: nat, cls: char -> bool) { i < |s| && cls(s[i]) }

  predicate CharAt(s: string, i: nat, c: char) { i < |s| && s[i] == c }

  /** The end of the longest run of class members starting at `i` (a greedy `*`). */
  function RunEnd(s: string, i: nat, cls: char -> bool): (j: nat)
    requires i <= |s|
    ensures i <= j <= |s|
    ensures forall k :: i <= k < j ==> cls(s[k])
    ensures j < |s| ==> !cls(s[j])
    decreases |s| - i
  {
    if i < |s| && cls(s[i]) then RunEnd(s, i + 1, cls) else i
  }

  /** A run of class members ending before a non-member, or at the end, is the whole run. */
  lemma {:induction false} RunEndAt(s: string, i: nat, j: nat, cls: char -> bool)
    requires i <= j <= |s|
    requires forall k :: i <= k < j ==> cls(s[k])
    requires j < |s| ==> !cls(s[j])
    ensures RunEnd(s, i, cls) == j
    decreases j - i
  {
    if i < j {
      RunEndAt(s, i + 1, j, cls);
    }
  }

  function DigitEnd(s: string, i: nat): (j: nat)
    requires i <= |s|
    ensures i <= j <= |s|
  {
    RunEnd(s, i, IsDigit)
  }

  function SpaceEnd(s: string, i: nat): (j: nat)
    requires i <= |s|
    ensures i <= j <= |s|
  {
    RunEnd(s, i, IsSpace)
  }

  /** Where the line holding position `i` ends: how far `.*` can reach. */
  function LineEnd(s: string, i: nat): (j: nat)
    requires i <= |s|
    ensures i <= j <= |s|
    ensures forall k :: i <= k < j ==> s[k] != '\n'
    ensures j < |s| ==> s[j] == '\n'
  {
    RunEnd(s, i, NotNewline)
  }

  /** The first `c` in `s[lo..hi]` (where a lazy `.*?c` stops). */
  function FirstIndex(s: string, c: char, lo: nat, hi: nat): (r: Option<nat>)
    requires lo <= hi <= |s|
    ensures r.Some? ==> lo <= r.value < hi && s[r.value] == c
    ensures r.Some? ==> forall k :: lo <= k < r.value ==> s[k] != c
    ensures r.None? ==> forall k :: lo <= k < hi ==> s[k] != c
    decreases hi - lo
  {
    if lo == hi then None else if s[lo] == c then Some(lo) else FirstIndex(s, c, lo + 1, hi)
  }

  /** The last `c` in `s[lo..hi]` (where a greedy `.*c` stops). */
  function LastIndex(s: string, c: char, lo: nat, hi: nat): (r: Option<nat>)
    requires lo <= hi <= |s|
    ensures r.Some? ==> lo <= r.value < hi && s[r.value] == c
    ensures r.Some? ==> forall k :: r.value < k < hi ==> s[k] != c
    ensures r.None? ==> forall k :: lo <= k < hi ==> s[k] != c
    decreases hi - lo
  {
    if lo == hi then None else if s[hi - 1] == c then Some(hi - 1) else LastIndex(s, c, lo, hi - 1)
  }

  // ---------------------------------------------------------------------
  // Alternations of fixed texts, with backtracking
  // ---------------------------------------------------------------------

  function MinLength(options: seq<string>): nat {
    if |options| == 0 then 0
    else if |options| == 1 then |options[0]|
    else var m := MinLength(options[1..]); if |options[0]| < m then |options[0]| else m
  }

  /** The fewest characters a match of the atoms can consume. */
  function MinLen(atoms: seq<Atom>): nat {
    if |atoms| == 0 then 0
    else (match atoms[0] case Blank => 1 case Alts(o) => MinLength(o)) + MinLen(atoms[1..])
  }

  /** The atoms in order, each one a group. */
  function AtomsAt(atoms: seq<Atom>, s: string, i: nat): (r: Option<Hit>)
    requires i <= |s|
    ensures r.Some? ==> i + MinLen(atoms) <= r.value.end <= |s|
    ensures r.Some? ==> |r.value.spans| == |atoms| && SpansIn(r.value.spans, i, r.value.end)
    decreases |atoms|, 1, 0
  {
    if |atoms| == 0 then Some(Hit(i, []))
    else match atoms[0]
      case Blank =>
        if At(s, i, IsSpace) then
          match AtomsAt(atoms[1..], s, i + 1)
          case Some(h) => Some(Hit(h.end, [Span(i, i + 1)] + h.spans))
          case None => None
        else None
      case Alts(options) => AltsAt(options, atoms[1..], s, i)
  }

  /** The first option, in order, after which the remaining atoms match. */
  function AltsAt(options: seq<string>, rest: seq<Atom>, s: string, i: nat): (r: Option<Hit>)
    requires i <= |s|
    ensures r.Some? ==> i + MinLength(options) + MinLen(rest) <= r.value.end <= |s|
    ensures r.Some? ==> |r.value.spans| == |rest| + 1 && SpansIn(r.value.spans, i, r.value.end)
    decreases |rest| + 1, 0, |options|
  {
    if |options| == 0 then None
    else
      var first :=
        if StartsWith(s, i, options[0]) then
          match AtomsAt(rest, s, i + |options[0]|)
          case Some(h) => Some(Hit(h.end, [Span(i, i + |options[0]|)] + h.spans))
          case None => None
        else None;
      if first.Some? then first else AltsAt(options[1..], rest, s, i)
  }

  // ---------------------------------------------------------------------
  // Anchor debris
  // ---------------------------------------------------------------------

  /** Consume an optional `)` at `e`. */
  function CloseParen(s: string, e: nat): (f: nat)
    requires e <= |s|
    ensures e <= f <= |s|
  {
    if CharAt(s, e, ')') then e + 1 else e
  }

  /** The greedy `.*>` after position `r`: just past the last `>` on that line. */
  function ToLastAngle(s: string, r: nat): (e: Option<nat>)
    requires r <= |s|
    ensures e.Some? ==> r < e.value <= |s|
  {
    match LastIndex(s, '>', r, LineEnd(s, r))
    case Some(t) => Some(t + 1)
    case None => None
  }

  /** `see\s*recipe.*>` at `q`. */
  function SeeRecipeFrom(s: string, q: nat): (e: Option<nat>)
    requires q <= |s|
    ensures e.Some? ==> q < e.value <= |s|
  {
    if StartsWith(s, q, "see") then
      var r := SpaceEnd(s, q + 3);
      if StartsWith(s, r, "recipe") then ToLastAngle(s, r + 6) else None
    else None
  }

  /** `recipe.*>` at `q`. */
  function RecipeFrom(s: string, q: nat): (e: Option<nat>)
    requires q <= |s|
    ensures e.Some? ==> q < e.value <= |s|
  {
    if StartsWith(s, q, "recipe") then ToLastAngle(s, q + 6) else None
  }

  /**
   * A greedy `.*` over `s[lo..q]` followed by `tail`: the candidates are tried
   * from the longest down, and the first one after which the tail matches wins.
   */
  function LastSeeRecipe(s: string, lo: nat, q: nat): (e: Option<nat>)
    requires lo <= q <= |s|
    ensures e.Some? ==> lo < e.value <= |s|
    decreases q - lo
  {
    match SeeRecipeFrom(s, q)
    case Some(e) => Some(e)
    case None => if q == lo then None else LastSeeRecipe(s, lo, q - 1)
  }

  function LastRecipe(s: string, lo: nat, q: nat): (e: Option<nat>)
    requires lo <= q <= |s|
    ensures e.Some? ==> lo < e.value <= |s|
    decreases q - lo
  {
    match RecipeFrom(s, q)
    case Some(e) => Some(e)
    case None => if q == lo then None else LastRecipe(s, lo, q - 1)
  }

  /**
   * `\(?<.*see\s*recipe.*>\)?`. Giving back the `(` never helps (a `<` must
   * follow), nor does giving back leading whitespace when `\s*` comes first.
   */
  function SeeRecipeAt(s: string, i: nat, leadingSpace: bool): (r: Option<Hit>)
    requires i <= |s|
    ensures r.Some? ==> i < r.value.end <= |s| && r.value.spans == []
  {
    var i0 := if leadingSpace then SpaceEnd(s, i) else i;
    var j := if CharAt(s, i0, '(') then i0 + 1 else i0;
    if CharAt(s, j, '<') then
      match LastSeeRecipe(s, j + 1, LineEnd(s, j + 1))
      case Some(e) => Some(Hit(CloseParen(s, e), []))
      case None => None
    else None
  }

  /** `\(?\s*(see)\s*?<.*recipe.*>\)?`: the lazy `\s*?` can only stop where the `<` is. */
  function SeeAnchorAt(s: string, i: nat): (r: Option<Hit>)
    requires i <= |s|
    ensures r.Some? ==> i < r.value.end <= |s| && SpansIn(r.value.spans, i, r.value.end)
  {
    var j := if CharAt(s, i, '(') then i + 1 else i;
    var w := SpaceEnd(s, j);
    if StartsWith(s, w, "see") then
      var k := SpaceEnd(s, w + 3);
      if CharAt(s, k, '<') then
        match LastRecipe(s, k + 1, LineEnd(s, k + 1))
        case Some(e) => Some(Hit(CloseParen(s, e), [Span(w, w + 3)]))
        case None => None
      else None
    else None
  }

  /** `<.*?>`: up to the first `>` on the same line. */
  function TagAt(s: string, i: nat): (r: Option<Hit>)
    requires i <= |s|
    ensures r.Some? ==> i < r.value.end <= |s| && r.value.spans == []
    ensures r.Some? <==> CharAt(s, i, '<') && FirstIndex(s, '>', i + 1, LineEnd(s, i + 1)).Some?
  {
    if CharAt(s, i, '<') then
      match FirstIndex(s, '>', i + 1, LineEnd(s, i + 1))
      case Some(t) => Some(Hit(t + 1, []))
      case None => None
    else None
  }

  function SpacedEscapeAt(s: string, i: nat): (r: Option<Hit>)
    requires i <= |s|
    ensures r.Some? ==> i < r.value.end <= |s| && r.value.spans == []
  {
    var w := SpaceEnd(s, i);
    if StartsWith(s, w, "\\n") then Some(Hit(SpaceEnd(s, w + 2), [])) else None
  }

  const LinkHead: string := "epi:recipeLink id=\"\""

  function RecipeLinkAt(s: string, i: nat): (r: Option<Hit>)
    requires i <= |s|
    ensures r.Some? ==> i < r.value.end <= |s| && r.value.spans == []
  {
    if StartsWith(s, i, LinkHead) then
      var a := i + |LinkHead|;
      var d := DigitEnd(s, a);
      if d > a && StartsWith(s, d, "\"\"<") then Some(Hit(d + 3, [])) else None
    else None
  }

  // ---------------------------------------------------------------------
  // Numbers
  // ---------------------------------------------------------------------

  /** `(\d+)\s?(glyph)`: a whitespace is taken only if a glyph follows it. */
  function MixedGlyphAt(s: string, i: nat): (r: Option<Hit>)
    requires i <= |s|
    ensures r.Some? ==> i < r.value.end <= |s| && SpansIn(r.value.spans, i, r.value.end)
  {
    var a := DigitEnd(s, i);
    if a == i then None
    else if At(s, a, IsSpace) && At(s, a + 1, IsGlyph) then Some(Hit(a + 2, [Span(i, a), Span(a + 1, a + 2)]))
    else if At(s, a, IsGlyph) then Some(Hit(a + 1, [Span(i, a), Span(a, a + 1)]))
    else None
  }

  /** `(\d+\s?)?(glyph)`: the optional group is empty when the glyph stands alone. */
  function OptMixedGlyphAt(s: string, i: nat): (r: Option<Hit>)
    requires i <= |s|
    ensures r.Some? ==> i < r.value.end <= |s| && SpansIn(r.value.spans, i, r.value.end)
  {
    if At(s, i, IsDigit) then
      var a := DigitEnd(s, i);
      if At(s, a, IsSpace) && At(s, a + 1, IsGlyph) then Some(Hit(a + 2, [Span(i, a + 1), Span(a + 1, a + 2)]))
      else if At(s, a, IsGlyph) then Some(Hit(a + 1, [Span(i, a), Span(a, a + 1)]))
      else None
    else if At(s, i, IsGlyph) then Some(Hit(i + 1, [Span(i, i), Span(i, i + 1)]))
    else None
  }

  /** `digits/digits` at `a`, as the end of the fraction. */
  function FractionEnd(s: string, a: nat): (c: Option<nat>)
    requires a <= |s|
    ensures c.Some? ==> a + 3 <= c.value <= |s|
  {
    var b := DigitEnd(s, a);
    if b > a && CharAt(s, b, '/') then
      var c := DigitEnd(s, b + 1);
      if c > b + 1 then Some(c) else None
    else None
  }

  /**
   * `(\d+)[\-\s]?(\d+\/\d+)`. With a dash or whitespace after the whole digit
   * run the fraction must follow it; otherwise the engine gives back one
   * digit to the second group, so "12/3" reads as 1 and 2/3.
   */
  function MixedFractionAt(s: string, i: nat): (r: Option<Hit>)
    requires i <= |s|
    ensures r.Some? ==> i < r.value.end <= |s| && SpansIn(r.value.spans, i, r.value.end)
    ensures r.Some? ==> |r.value.spans| == 2
  {
    var a := DigitEnd(s, i);
    if a == i then None
    else if At(s, a, IsDashOrSpace) then
      match FractionEnd(s, a + 1)
      case Some(c) => Some(Hit(c, [Span(i, a), Span(a + 1, c)]))
      case None => None
    else if a - i >= 2 && CharAt(s, a, '/') then
      var c := DigitEnd(s, a + 1);
      if c > a + 1 then Some(Hit(c, [Span(i, a - 1), Span(a - 1, c)])) else None
    else None
  }

  function FractionAt(s: string, i: nat): (r: Option<Hit>)
    requires i <= |s|
    ensures r.Some? ==> i < r.value.end <= |s| && SpansIn(r.value.spans, i, r.value.end)
    ensures r.Some? ==> |r.value.spans| == 1
  {
    match FractionEnd(s, i)
    case Some(c) => Some(Hit(c, [Span(i, c)]))
    case None => None
  }

  /** `\d+\.?\d*` at `i` (a digit is there): its end. */
  function NumberEnd(s: string, i: nat): (j: nat)
    requires i <= |s|
    ensures i <= j <= |s|
  {
    var a := DigitEnd(s, i);
    if CharAt(s, a, '.') then DigitEnd(s, a + 1) else a
  }

  /**
   * `(\d+\.?\d*)[\s\-]*[tor]+[\s\-]*(\d+\.?\d*)`. Every quantifier can only
   * succeed at its longest extent, because each next piece starts with a
   * character the previous one cannot consume.
   */
  function RangeAt(s: string, i: nat): (r: Option<Hit>)
    requires i <= |s|
    ensures r.Some? ==> i < r.value.end <= |s| && SpansIn(r.value.spans, i, r.value.end)
    ensures r.Some? ==> |r.value.spans| == 2
  {
    if !At(s, i, IsDigit) then None
    else
      var b := NumberEnd(s, i);
      var c := RunEnd(s, b, IsDashOrSpace);
      var d := RunEnd(s, c, IsTor);
      var e := RunEnd(s, d, IsDashOrSpace);
      if d > c && At(s, e, IsDigit) then
        var g := NumberEnd(s, e);
        Some(Hit(g, [Span(i, b), Span(e, g)]))
      else None
  }

  /** `(\d+)\s+(\d+\.*\d*)`. */
  function MultiplierAt(s: string, i: nat): (r: Option<Hit>)
    requires i <= |s|
    ensures r.Some? ==> i < r.value.end <= |s| && SpansIn(r.value.spans, i, r.value.end)
    ensures r.Some? ==> |r.value.spans| == 2
  {
    var a := DigitEnd(s, i);
    var b := SpaceEnd(s, a);
    var c := DigitEnd(s, b);
    if a > i && b > a && c > b then
      var e := DigitEnd(s, RunEnd(s, c, IsDot));
      Some(Hit(e, [Span(i, a), Span(b, e)]))
    else None
  }

  // ---------------------------------------------------------------------
  // Units
  // ---------------------------------------------------------------------

  /** `([^\w])abbr\.?([^\w])?`: the second group is empty when nothing follows. */
  function AbbrevFindAt(abbr: string, s: string, i: nat): (r: Option<Hit>)
    requires i <= |s|
    ensures r.Some? ==> i < r.value.end <= |s| && SpansIn(r.value.spans, i, r.value.end)
    ensures r.Some? ==> |r.value.spans| == 2
  {
    if At(s, i, NotWord) && StartsWith(s, i + 1, abbr) then
      var k0 := i + 1 + |abbr|;
      var k := if CharAt(s, k0, '.') then k0 + 1 else k0;
      if At(s, k, NotWord) then Some(Hit(k + 1, [Span(i, i + 1), Span(k, k + 1)]))
      else Some(Hit(k, [Span(i, i + 1), Span(k, k)]))
    else None
  }

  /**
   * The end of `\.?([^\w])` at `k0` and its group: when the point is not
   * followed by a non-word character the engine gives it back, and the point
   * itself is the group.
   */
  function PointThenNonWord(s: string, k0: nat): (r: Option<nat>)
    requires k0 <= |s|
    ensures r.Some? ==> k0 <= r.value < |s|
  {
    if CharAt(s, k0, '.') && At(s, k0 + 1, NotWord) then Some(k0 + 1)
    else if At(s, k0, NotWord) then Some(k0)
    else None
  }

  /** `([^\w])abbr\.?([^\w])`. */
  function AbbrevSubAt(abbr: string, s: string, i: nat): (r: Option<Hit>)
    requires i <= |s|
    ensures r.Some? ==> i < r.value.end <= |s| && SpansIn(r.value.spans, i, r.value.end)
    ensures r.Some? ==> |r.value.spans| == 2
  {
    if At(s, i, NotWord) && StartsWith(s, i + 1, abbr) then
      match PointThenNonWord(s, i + 1 + |abbr|)
      case Some(k) => Some(Hit(k + 1, [Span(i, i + 1), Span(k, k + 1)]))
      case None => None
    else None
  }

  /** `(\d+)\s?g\.?([^\w])`. */
  function GramAt(s: string, i: nat): (r: Option<Hit>)
    requires i <= |s|
    ensures r.Some? ==> i < r.value.end <= |s| && SpansIn(r.value.spans, i, r.value.end)
    ensures r.Some? ==> |r.value.spans| == 2
  {
    var a := DigitEnd(s, i);
    var gp := if At(s, a, IsSpace) then a + 1 else a;
    if a > i && CharAt(s, gp, 'g') then
      match PointThenNonWord(s, gp + 1)
      case Some(k) => Some(Hit(k + 1, [Span(i, a), Span(k, k + 1)]))
      case None => None
    else None
  }

  /** `[Tt]body\.*`. */
  function SpoonAt(body: string, s: string, i: nat): (r: Option<Hit>)
    requires i <= |s|
    ensures r.Some? ==> i < r.value.end <= |s| && r.value.spans == []
  {
    if (CharAt(s, i, 'T') || CharAt(s, i, 't')) && StartsWith(s, i + 1, body) then
      Some(Hit(RunEnd(s, i + 1 + |body|, IsDot), []))
    else None
  }

  /** `(\w+)\s(sprigs?)`. */
  function SprigAt(s: string, i: nat): (r: Option<Hit>)
    requires i <= |s|
    ensures r.Some? ==> i < r.value.end <= |s| && SpansIn(r.value.spans, i, r.value.end)
    ensures r.Some? ==> |r.value.spans| == 2
  {
    var a := RunEnd(s, i, IsWord);
    if a > i && At(s, a, IsSpace) && StartsWith(s, a + 1, "sprig") then
      var e := if CharAt(s, a + 6, 's') then a + 7 else a + 6;
      Some(Hit(e, [Span(i, a), Span(a + 1, e)]))
    else None
  }

  // ---------------------------------------------------------------------
  // The older revision's patterns
  // ---------------------------------------------------------------------

  /** `(\d+)\s+(\d\/\d)`. */
  function SpacedFractionAt(s: string, i: nat): (r: Option<Hit>)
    requires i <= |s|
    ensures r.Some? ==> i < r.value.end <= |s| && SpansIn(r.value.spans, i, r.value.end)
    ensures r.Some? ==> |r.value.spans| == 2
  {
    var a := DigitEnd(s, i);
    var b := SpaceEnd(s, a);
    if a > i && b > a && At(s, b, IsDigit) && CharAt(s, b + 1, '/') && At(s, b + 2, IsDigit) then
      Some(Hit(b + 3, [Span(i, a), Span(b, b + 3)]))
    else None
  }

  /** `(\d\/\d)`. */
  function DigitFractionAt(s: string, i: nat): (r: Option<Hit>)
    requires i <= |s|
    ensures r.Some? ==> i < r.value.end <= |s| && SpansIn(r.value.spans, i, r.value.end)
    ensures r.Some? ==> |r.value.spans| == 1
  {
    if At(s, i, IsDigit) && CharAt(s, i + 1, '/') && At(s, i + 2, IsDigit) then Some(Hit(i + 3, [Span(i, i + 3)]))
    else None
  }

  /** `([0-9])\s*oz\.*`. */
  function DigitOunceAt(s: string, i: nat): (r: Option<Hit>)
    requires i <= |s|
    ensures r.Some? ==> i < r.value.end <= |s| && SpansIn(r.value.spans, i, r.value.end)
    ensures r.Some? ==> |r.value.spans| == 1
  {
    if At(s, i, IsDigit) then
      var b := SpaceEnd(s, i + 1);
      if StartsWith(s, b, "oz") then Some(Hit(RunEnd(s, b + 2, IsDot), [Span(i, i + 1)])) else None
    else None
  }

  /** `([0-9])\s*g([^a-z])`. */
  function DigitGramAt(s: string, i: nat): (r: Option<Hit>)
    requires i <= |s|
    ensures r.Some? ==> i < r.value.end <= |s| && SpansIn(r.value.spans, i, r.value.end)
    ensures r.Some? ==> |r.value.spans| == 2
  {
    if At(s, i, IsDigit) then
      var b := SpaceEnd(s, i + 1);
      if CharAt(s, b, 'g') && At(s, b + 1, NotLower) then Some(Hit(b + 2, [Span(i, i + 1), Span(b + 1, b + 2)]))
      else None
    else None
  }

  // ---------------------------------------------------------------------
  // Dispatch
  // ---------------------------------------------------------------------

  /** `p.match(s, i)`. Every pattern of the core consumes at least one character. */
  function MatchAt(p: Pattern, s: string, i: nat): (r: Option<Hit>)
    requires i <= |s|
    ensures r.Some? ==> i < r.value.end <= |s| && SpansIn(r.value.spans, i, r.value.end)
  {
    match p
    case AnyOf(cs) => if i < |s| && s[i] in cs then Some(Hit(i + 1, [])) else None
    case Literal(t) => if |t| > 0 && StartsWith(s, i, t) then Some(Hit(i + |t|, [])) else None
    case Atoms(atoms) => if MinLen(atoms) > 0 then AtomsAt(atoms, s, i) else None
    case Glyph => if At(s, i, IsGlyph) then Some(Hit(i + 1, [Span(i, i + 1)])) else None
    case Pluses => var e := RunEnd(s, i, IsPlus); if e >= i + 2 then Some(Hit(e, [])) else None
    case DigitsHyphenWord =>
      var a := DigitEnd(s, i);
      if a > i && CharAt(s, a, '-') && At(s, a + 1, IsWord) then Some(Hit(a + 2, [Span(i, a), Span(a + 1, a + 2)]))
      else None
    case SeeRecipe(lead) => SeeRecipeAt(s, i, lead)
    case SeeAnchor => SeeAnchorAt(s, i)
    case Tag => TagAt(s, i)
    case SpacedEscape => SpacedEscapeAt(s, i)
    case RecipeLink => RecipeLinkAt(s, i)
    case MixedGlyph => MixedGlyphAt(s, i)
    case OptMixedGlyph => OptMixedGlyphAt(s, i)
    case MixedFraction => MixedFractionAt(s, i)
    case Fraction => FractionAt(s, i)
    case Range => RangeAt(s, i)
    case Multiplier => MultiplierAt(s, i)
    case AbbrevFind(abbr) => AbbrevFindAt(abbr, s, i)
    case AbbrevSub(abbr) => AbbrevSubAt(abbr, s, i)
    case Gram => GramAt(s, i)
    case Spoon(body) => SpoonAt(body, s, i)
    case Sprig => SprigAt(s, i)
    case SpacedFraction => SpacedFractionAt(s, i)
    case DigitFraction => DigitFractionAt(s, i)
    case DigitOunce => DigitOunceAt(s, i)
    case DigitGram => DigitGramAt(s, i)
  }
}
