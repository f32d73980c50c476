/**
 * `fix_numeric_words`: five spelled-out mixed numbers become decimals, then
 * the words one to ten standing between blanks become numerals, with loop
 * idiom B (every round rewrites every current match with one numeral).
 */
module Words {
  import opened Wrappers
  import opened Strings
  import opened Patterns
  import opened Regex
  import opened Loops

  /** The `numbers` table. */
  const NumberValues: map<string, nat> := map[
    "one" := 1, "two" := 2, "three" := 3, "four" := 4, "five" := 5,
    "six" := 6, "seven" := 7, "eight" := 8, "nine" := 9, "ten" := 10]

  /** The alternatives of the number-word pattern, in the order they are tried. */
  const NumberNames: seq<string> := ["one", "two", "three", "four", "five", "six", "seven", "eight", "nine", "ten"]

  /** `\s(one|two|…|ten)\s`: each atom is a group here, so the word is group 1. */
  const NumberWord: Pattern := Atoms([Blank, Alts(NumberNames), Blank])

  /** `(\sone and a half|\sone and one-half)`. */
  const HalfWords: Pattern := Atoms([Blank, Alts(["one and a half", "one and one-half"])])

  /** The five literal rewrites, in order. */
  function MixedWordsFixed(s: string): string {
    var a := SubAll(HalfWords, s, [Str(" 1.5")]);
    var b := SubAll(Literal("one and one-quarter"), a, [Str("1.25")]);
    var c := SubAll(Literal("two and one-quarter"), b, [Str("2.25")]);
    var d := SubAll(Literal("two and one-half"), c, [Str("2.5")]);
    SubAll(Literal("three and a half"), d, [Str("3.5")])
  }

  /** `" " + str(numbers[m]) + " "`, where a word missing from the table would raise. */
  function NumeralOf(m: Match): Result<string> {
    var w := Group(m, 1);
    if w in NumberValues then Ok(" " + NatToString(NumberValues[w]) + " ") else Raised(KeyError)
  }

  function NumericWordsFixed(ingredient: string): Result<string> {
    EachAllOf(NumberWord, NumberWord, MixedWordsFixed(ingredient), NumeralOf)
  }

  method FixNumericWords(ingredient: string) returns (r: Result<string>)
    ensures r == NumericWordsFixed(ingredient)
  {
    var s := SubAll(HalfWords, ingredient, [Str(" 1.5")]);
    s := SubAll(Literal("one and one-quarter"), s, [Str("1.25")]);
    s := SubAll(Literal("two and one-quarter"), s, [Str("2.25")]);
    s := SubAll(Literal("two and one-half"), s, [Str("2.5")]);
    s := SubAll(Literal("three and a half"), s, [Str("3.5")]);
    r := SubEachAll(NumberWord, NumberWord, s, NumeralOf);
  }

  // ---------------------------------------------------------------------
  // Reading an alternation
  // ---------------------------------------------------------------------

  /** An alternation that matches chose one option, which the text spells out at `i`. */
  lemma {:induction false} AltsChosen(options: seq<string>, rest: seq<Atom>, s: string, i: nat) returns (j: nat)
    requires i <= |s| && AltsAt(options, rest, s, i).Some?
    ensures j < |options| && StartsWith(s, i, options[j])
    ensures AltsAt(options, rest, s, i).value.spans[0] == Span(i, i + |options[j]|)
    ensures AtomsAt(rest, s, i + |options[j]|).Some?
    ensures AltsAt(options, rest, s, i).value.end == AtomsAt(rest, s, i + |options[j]|).value.end
    decreases |options|
  {
    if StartsWith(s, i, options[0]) && AtomsAt(rest, s, i + |options[0]|).Some? {
      j := 0;
      var h := AtomsAt(rest, s, i + |options[0]|).value;
      assert AltsAt(options, rest, s, i) == Some(Hit(h.end, [Span(i, i + |options[0]|)] + h.spans));
    } else {
      assert AltsAt(options, rest, s, i) == AltsAt(options[1..], rest, s, i);
      var k := AltsChosen(options[1..], rest, s, i);
      assert options[1..][k] == options[k + 1];
      j := k + 1;
    }
  }

  /** `\s(a|b|…)\s` matched at `k`: a blank, option `j` spelled out as group 1, a blank. */
  lemma BlankAltsBlank(options: seq<string>, s: string, k: nat) returns (j: nat)
    requires k <= |s| && AtomsAt([Blank, Alts(options), Blank], s, k).Some?
    ensures j < |options| && At(s, k, IsSpace) && StartsWith(s, k + 1, options[j])
    ensures AtomsAt([Blank, Alts(options), Blank], s, k).value.spans[1] == Span(k + 1, k + 1 + |options[j]|)
    ensures At(s, k + 1 + |options[j]|, IsSpace)
    ensures AtomsAt([Blank, Alts(options), Blank], s, k).value.end == k + 2 + |options[j]|
  {
    var atoms := [Blank, Alts(options), Blank];
    assert atoms[1..] == [Alts(options), Blank];
    assert [Alts(options), Blank][1..] == [Blank];
    j := AltsChosen(options, [Blank], s, k + 1);
  }

  /** An option the text spells out, followed by the rest, makes the alternation match. */
  lemma {:induction false} AltsFinds(options: seq<string>, rest: seq<Atom>, s: string, i: nat, j: nat)
    requires i <= |s| && j < |options| && StartsWith(s, i, options[j]) && AtomsAt(rest, s, i + |options[j]|).Some?
    ensures AltsAt(options, rest, s, i).Some?
    decreases j
  {
    if j > 0 && !(StartsWith(s, i, options[0]) && AtomsAt(rest, s, i + |options[0]|).Some?) {
      assert options[1..][j - 1] == options[j];
      AltsFinds(options[1..], rest, s, i, j - 1);
    }
  }

  /** A blank, a word of the table and a blank make a number-word match. */
  lemma NumberWordMatches(s: string, k: nat, j: nat)
    requires j < |NumberNames| && At(s, k, IsSpace) && StartsWith(s, k + 1, NumberNames[j])
    requires At(s, k + 1 + |NumberNames[j]|, IsSpace)
    ensures MatchAt(NumberWord, s, k).Some?
  {
    BlankAltsBlankFinds(NumberNames, s, k, j);
    assert MinLen([Blank, Alts(NumberNames), Blank]) > 0;
  }

  lemma BlankAltsBlankFinds(options: seq<string>, s: string, k: nat, j: nat)
    requires j < |options| && At(s, k, IsSpace) && StartsWith(s, k + 1, options[j])
    requires At(s, k + 1 + |options[j]|, IsSpace)
    ensures AtomsAt([Blank, Alts(options), Blank], s, k).Some?
  {
    var atoms := [Blank, Alts(options), Blank];
    assert atoms[1..] == [Alts(options), Blank];
    assert [Alts(options), Blank][1..] == [Blank];
    assert AtomsAt([Blank], s, k + 1 + |options[j]|).Some?;
    AltsFinds(options, [Blank], s, k + 1, j);
  }

  /** `\s(a|b|…)` matched at `k`: a blank, then option `j` spelled out. */
  lemma BlankAlts(options: seq<string>, s: string, k: nat) returns (j: nat)
    requires k <= |s| && AtomsAt([Blank, Alts(options)], s, k).Some?
    ensures j < |options| && StartsWith(s, k + 1, options[j])
  {
    assert [Blank, Alts(options)][1..] == [Alts(options)];
    j := AltsChosen(options, [], s, k + 1);
  }

  /** A number-word match is a blank, one of the ten words, and a blank. */
  lemma NumberWordShape(s: string, k: nat) returns (j: nat)
    requires k <= |s| && MatchAt(NumberWord, s, k).Some?
    ensures j < |NumberNames| && At(s, k, IsSpace) && StartsWith(s, k + 1, NumberNames[j])
    ensures MatchAt(NumberWord, s, k).value.spans[1] == Span(k + 1, k + 1 + |NumberNames[j]|)
    ensures At(s, k + 1 + |NumberNames[j]|, IsSpace)
    ensures MatchAt(NumberWord, s, k).value.end == k + 2 + |NumberNames[j]|
  {
    assert MinLen([Blank, Alts(NumberNames), Blank]) > 0;
    j := BlankAltsBlank(NumberNames, s, k);
  }

  // ---------------------------------------------------------------------
  // Properties
  // ---------------------------------------------------------------------

  /** Every word the pattern captures is a key of the table, so the lookup never raises. */
  lemma NumeralKnown(s: string, m: Match)
    requires m.start <= |s| && MatchObject(NumberWord, s, m.start) == Some(m)
    ensures NumeralOf(m).Ok?
    ensures Group(m, 1) in NumberNames
  {
    var h := MatchAt(NumberWord, s, m.start).value;
    assert m.groups == Texts(s, h.spans);
    var j := NumberWordShape(s, m.start);
    assert Group(m, 1) == NumberNames[j];
  }

  lemma NumericWordsNeverRaise(ingredient: string)
    ensures NumericWordsFixed(ingredient).Ok?
  {
    var t := MixedWordsFixed(ingredient);
    var ms := FindAll(NumberWord, t);
    forall j | 0 <= j < |ms| ensures NumeralOf(ms[j]).Ok? {
      NumeralKnown(t, ms[j]);
    }
  }

  /** A text spelling out `t` at `k` holds every character of `t`. */
  lemma Spelled(t: string, c: char, s: string, k: nat)
    requires StartsWith(s, k, t) && c in t
    ensures c in s
  {
    var j :| 0 <= j < |t| && t[j] == c;
    assert s[k + j] == s[k..k + |t|][j];
  }

  /** A fixed text with a character the text lacks never matches. */
  lemma LiteralAbsent(t: string, c: char, s: string)
    requires c in t && c !in s
    ensures NoMatchFrom(Literal(t), s, 0)
  {
    forall k | 0 <= k <= |s| ensures MatchAt(Literal(t), s, k).None? {
      if StartsWith(s, k, t) {
        Spelled(t, c, s, k);
      }
    }
  }

  lemma HalfSpelled(s: string, k: nat)
    requires k <= |s| && MatchAt(HalfWords, s, k).Some?
    ensures 'f' in s && 'd' in s
  {
    var halves := ["one and a half", "one and one-half"];
    assert MinLen([Blank, Alts(halves)]) > 0;
    var j := BlankAlts(halves, s, k);
    assert halves[j][|halves[j]| - 1] == 'f' && halves[j][6] == 'd';
    Spelled(halves[j], 'f', s, k + 1);
    Spelled(halves[j], 'd', s, k + 1);
  }

  /** Every spelled-out mixed number has an `f` or a `q`: without them the five rewrites change nothing. */
  lemma MixedWordsNeedLetters(s: string)
    requires 'f' !in s && 'q' !in s
    ensures MixedWordsFixed(s) == s
  {
    forall k | 0 <= k <= |s| ensures MatchAt(HalfWords, s, k).None? {
      if MatchAt(HalfWords, s, k).Some? {
        HalfSpelled(s, k);
      }
    }
    NoMatchKeeps(HalfWords, s, [Str(" 1.5")], "");
    assert "one and one-quarter"[12] == 'q';
    LiteralAbsent("one and one-quarter", 'q', s);
    NoMatchKeeps(Literal("one and one-quarter"), s, [Str("1.25")], "");
    assert "two and one-quarter"[12] == 'q';
    LiteralAbsent("two and one-quarter", 'q', s);
    NoMatchKeeps(Literal("two and one-quarter"), s, [Str("2.25")], "");
    assert "two and one-half"[15] == 'f';
    LiteralAbsent("two and one-half", 'f', s);
    NoMatchKeeps(Literal("two and one-half"), s, [Str("2.5")], "");
    assert "three and a half"[15] == 'f';
    LiteralAbsent("three and a half", 'f', s);
    NoMatchKeeps(Literal("three and a half"), s, [Str("3.5")], "");
  }

  /** The first two letters of one of the ten words. */
  predicate Opening(a: char, b: char) {
    || (a == 'o' && b == 'n')
    || (a == 't' && (b == 'w' || b == 'h' || b == 'e'))
    || (a == 'f' && (b == 'o' || b == 'i'))
    || (a == 's' && (b == 'i' || b == 'e'))
    || (a == 'e' && b == 'i')
    || (a == 'n' && b == 'i')
  }

  /** A number-word match starts with a blank and the opening of a word. */
  lemma NumberWordOpening(s: string, k: nat)
    requires k <= |s| && MatchAt(NumberWord, s, k).Some?
    ensures k + 3 <= |s| && IsSpace(s[k]) && Opening(s[k + 1], s[k + 2])
  {
    var j := NumberWordShape(s, k);
    var w := NumberNames[j];
    NamesOpen(j);
    assert s[k + 1] == s[k + 1..k + 1 + |w|][0] && s[k + 2] == s[k + 1..k + 1 + |w|][1];
  }

  lemma NamesOpen(j: nat)
    requires j < |NumberNames|
    ensures |NumberNames[j]| >= 3 && Opening(NumberNames[j][0], NumberNames[j][1])
  {
  }

  /** A text where no blank is followed by the opening of a word has no number word. */
  lemma NoOpening(s: string)
    requires forall k :: 0 <= k < |s| - 2 && IsSpace(s[k]) ==> !Opening(s[k + 1], s[k + 2])
    ensures NoMatchFrom(NumberWord, s, 0)
  {
    forall k | 0 <= k <= |s| ensures MatchAt(NumberWord, s, k).None? {
      if MatchAt(NumberWord, s, k).Some? {
        NumberWordOpening(s, k);
      }
    }
  }

  /** The word at a match that the text spells out. */
  lemma NumberWordAt(s: string, k: nat, w: string)
    requires k <= |s| && MatchAt(NumberWord, s, k).Some? && w in NumberNames && StartsWith(s, k + 1, w)
    ensures MatchAt(NumberWord, s, k).value.end == k + 2 + |w|
    ensures Group(MatchObject(NumberWord, s, k).value, 1) == w
  {
    var j := NumberWordShape(s, k);
    var h := MatchAt(NumberWord, s, k).value;
    assert Texts(s, h.spans)[1] == s[k + 1..k + 1 + |NumberNames[j]|];
    WordsUnambiguous(s, k + 1, w, NumberNames[j]);
  }

  /** No word of the table is a prefix of another, so at most one is spelled out at a position. */
  lemma WordsUnambiguous(s: string, i: nat, v: string, w: string)
    requires v in NumberNames && w in NumberNames && StartsWith(s, i, v) && StartsWith(s, i, w)
    ensures v == w
  {
    assert s[i] == s[i..i + |v|][0] == s[i..i + |w|][0];
    assert s[i + 1] == s[i..i + |v|][1] == s[i..i + |w|][1];
    assert s[i + 2] == s[i..i + |v|][2] == s[i..i + |w|][2];
  }

  // ---------------------------------------------------------------------
  // The numerals the pass writes
  // ---------------------------------------------------------------------

  /** The numeral `" " + str(numbers[w]) + " "` written for a word of the table. */
  function Numeral(w: string): (n: string)
    requires w in NumberNames
    ensures |n| >= 3 && n[0] == ' ' && n[|n| - 1] == ' '
    ensures forall k :: 0 < k < |n| - 1 ==> IsDigit(n[k])
  {
    var d := NatToString(NumberValues[w]);
    assert forall k :: 0 < k < |d| + 1 ==> (" " + d + " ")[k] == d[k - 1];
    " " + d + " "
  }

  /** No word of the table has a `d`, which each of the five literal rewrites needs. */
  lemma NamesLackD(w: string)
    requires w in NumberNames
    ensures 'd' !in w
  {
  }

  /** No blank of `t` is followed by the first two letters of a word. */
  predicate Unopened(t: string) {
    forall k :: 0 <= k < |t| - 2 && IsSpace(t[k]) ==> !Opening(t[k + 1], t[k + 2])
  }

  /** `t` does not itself start with the first two letters of a word. */
  predicate Closed(t: string) {
    |t| < 2 || !Opening(t[0], t[1])
  }

  /** No blank at a position in [lo, hi) of `s` is followed by the opening of a word. */
  predicate UnopenedIn(s: string, lo: nat, hi: nat) {
    forall k :: lo <= k < hi && k + 2 < |s| && IsSpace(s[k]) ==> !Opening(s[k + 1], s[k + 2])
  }

  lemma NoWordIn(s: string, lo: nat, hi: nat)
    requires UnopenedIn(s, lo, hi)
    ensures forall k :: lo <= k < hi && k <= |s| ==> MatchAt(NumberWord, s, k).None?
  {
    forall k | lo <= k < hi && k <= |s| ensures MatchAt(NumberWord, s, k).None? {
      if MatchAt(NumberWord, s, k).Some? {
        NumberWordOpening(s, k);
      }
    }
  }

  /** An unopened text before a blank leaves no opening before that blank. */
  lemma UnopenedBefore(s: string, i: nat, lo: nat, x: string)
    requires lo <= i < |s| && s[lo..i] == x && Unopened(x) && IsSpace(s[i])
    ensures UnopenedIn(s, lo, i)
  {
    forall k | lo <= k < i && k + 2 < |s| && IsSpace(s[k]) ensures !Opening(s[k + 1], s[k + 2]) {
      if k + 2 < i {
        assert s[k] == x[k - lo] && s[k + 1] == x[k + 1 - lo] && s[k + 2] == x[k + 2 - lo];
      } else {
        assert s[k + 1] == s[i] || s[k + 2] == s[i];
      }
    }
  }

  lemma UnopenedAfter(s: string, e: nat, y: string)
    requires e <= |s| && s[e..] == y && Unopened(y)
    ensures UnopenedIn(s, e, |s| + 1)
  {
    forall k | e <= k < |s| + 1 && k + 2 < |s| && IsSpace(s[k]) ensures !Opening(s[k + 1], s[k + 2]) {
      assert s[k] == y[k - e] && s[k + 1] == y[k + 1 - e] && s[k + 2] == y[k + 2 - e];
    }
  }

  /** Around a numeral, unopened texts stay unopened, and the numeral opens nothing. */
  lemma NumeralJoin(a: string, n: string, b: string)
    requires |n| >= 3 && n[0] == ' ' && n[|n| - 1] == ' ' && forall k :: 0 < k < |n| - 1 ==> IsDigit(n[k])
    requires Unopened(a) && Unopened(b) && Closed(b)
    ensures Unopened(a + n + b) && Closed(a + n + b) == Closed(a + n)
  {
    var t := a + n + b;
    forall k | |a| < k < |a| + |n| - 1 ensures !IsSpace(t[k]) {
      assert t[k] == n[k - |a|];
    }
    forall k | 0 <= k < |t| - 2 && IsSpace(t[k]) && !(|a| < k < |a| + |n| - 1) ensures !Opening(t[k + 1], t[k + 2]) {
      if k + 2 < |a| {
        assert t[k] == a[k] && t[k + 1] == a[k + 1] && t[k + 2] == a[k + 2];
      } else if k + 2 == |a| {
        assert t[k + 2] == n[0];
      } else if k + 1 == |a| {
        assert t[k + 1] == n[0];
      } else if k == |a| {
        assert t[k + 1] == n[1];
      } else if k == |a| + |n| - 1 {
        assert t[k + 1] == b[0] && t[k + 2] == b[1];
      } else {
        var j := k - |a| - |n|;
        assert t[k] == b[j] && t[k + 1] == b[j + 1] && t[k + 2] == b[j + 2];
      }
    }
    if |a| >= 2 {
      assert t[0] == (a + n)[0] && t[1] == (a + n)[1];
    } else if |a| == 1 {
      assert t[1] == n[0] && (a + n)[1] == n[0];
    } else {
      assert t[1] == n[1] && (a + n)[1] == n[1];
    }
  }

  /** Word `w` of the table stands between blanks at `i`. */
  predicate WordAt(s: string, i: nat, w: string) {
    w in NumberNames && i + 2 + |w| <= |s| && IsSpace(s[i]) && StartsWith(s, i + 1, w) && IsSpace(s[i + 1 + |w|])
  }

  lemma WordFound(s: string, i: nat, w: string)
    requires WordAt(s, i, w)
    ensures MatchObject(NumberWord, s, i).Some? && MatchObject(NumberWord, s, i).value.end == i + 2 + |w|
    ensures Group(MatchObject(NumberWord, s, i).value, 1) == w
  {
    var j :| 0 <= j < |NumberNames| && NumberNames[j] == w;
    WordIn(s, i, j);
  }

  /** The numeral the lookup gives for a word of the table. */
  lemma NumeralOfWord(m: Match, w: string)
    requires w in NumberNames && Group(m, 1) == w
    ensures NumeralOf(m) == Ok(Numeral(w))
  {
  }

  /** A word of the table between blanks at `i`, with unopened text around it, is the scan's only match. */
  lemma NumberWordOnly(s: string, i: nat, w: string)
    requires WordAt(s, i, w) && Unopened(s[..i]) && Unopened(s[i + 2 + |w|..])
    ensures MatchObject(NumberWord, s, i).Some?
    ensures FindAll(NumberWord, s) == [MatchObject(NumberWord, s, i).value]
    ensures MatchObject(NumberWord, s, i).value.end == i + 2 + |w| && Group(MatchObject(NumberWord, s, i).value, 1) == w
  {
    WordFound(s, i, w);
    UnopenedBefore(s, i, 0, s[..i]);
    UnopenedAfter(s, i + 2 + |w|, s[i + 2 + |w|..]);
    NoWordIn(s, 0, i);
    NoWordIn(s, i + 2 + |w|, |s| + 1);
    FindsOnly(NumberWord, s, i);
  }

  /** Two words of the table between blanks at `i` and `i2`, with unopened text around them, are the scan's two matches. */
  lemma NumberWordsTwo(s: string, i: nat, w: string, i2: nat, w2: string)
    requires WordAt(s, i, w) && WordAt(s, i2, w2) && i + 2 + |w| <= i2
    requires Unopened(s[..i]) && Unopened(s[i + 2 + |w|..i2]) && Unopened(s[i2 + 2 + |w2|..])
    ensures MatchObject(NumberWord, s, i).Some? && MatchObject(NumberWord, s, i2).Some?
    ensures FindAll(NumberWord, s) == [MatchObject(NumberWord, s, i).value, MatchObject(NumberWord, s, i2).value]
    ensures MatchObject(NumberWord, s, i).value.end == i + 2 + |w| && MatchObject(NumberWord, s, i2).value.end == i2 + 2 + |w2|
    ensures Group(MatchObject(NumberWord, s, i).value, 1) == w && Group(MatchObject(NumberWord, s, i2).value, 1) == w2
  {
    WordFound(s, i, w);
    WordFound(s, i2, w2);
    GapsClear(s, i, i + 2 + |w|, i2, i2 + 2 + |w2|);
    FindsTwo(NumberWord, s, i, i2);
  }

  lemma GapsClear(s: string, i: nat, e: nat, i2: nat, e2: nat)
    requires i < e <= i2 < e2 <= |s| && IsSpace(s[i]) && IsSpace(s[i2])
    requires Unopened(s[..i]) && Unopened(s[e..i2]) && Unopened(s[e2..])
    ensures forall k :: 0 <= k < i ==> MatchAt(NumberWord, s, k).None?
    ensures forall k :: e <= k < i2 ==> MatchAt(NumberWord, s, k).None?
    ensures NoMatchFrom(NumberWord, s, e2)
  {
    UnopenedBefore(s, i, 0, s[..i]);
    UnopenedBefore(s, i2, e, s[e..i2]);
    UnopenedAfter(s, e2, s[e2..]);
    NoWordIn(s, 0, i);
    NoWordIn(s, e, i2);
    NoWordIn(s, e2, |s| + 1);
  }

  /** The five literal rewrites keep a text without the given letter of their words. */
  lemma LiteralKeeps(t: string, c: char, s: string, r: seq<Piece>)
    requires c in t && c !in s
    ensures SubAll(Literal(t), s, r) == s
  {
    LiteralAbsent(t, c, s);
    NoMatchKeeps(Literal(t), s, r, "");
  }

  /** Without a `d`, none of the five spelled-out mixed numbers is there. */
  lemma MixedWordsNeedD(s: string)
    requires 'd' !in s
    ensures MixedWordsFixed(s) == s
  {
    forall k | 0 <= k <= |s| ensures MatchAt(HalfWords, s, k).None? {
      if MatchAt(HalfWords, s, k).Some? {
        HalfSpelled(s, k);
      }
    }
    NoMatchKeeps(HalfWords, s, [Str(" 1.5")], "");
    assert "one and one-quarter"[6] == 'd' && "two and one-quarter"[6] == 'd';
    assert "two and one-half"[6] == 'd' && "three and a half"[8] == 'd';
    LiteralKeeps("one and one-quarter", 'd', s, [Str("1.25")]);
    LiteralKeeps("two and one-quarter", 'd', s, [Str("2.25")]);
    LiteralKeeps("two and one-half", 'd', s, [Str("2.5")]);
    LiteralKeeps("three and a half", 'd', s, [Str("3.5")]);
  }

  /** A lone word of the table between blanks becomes its numeral, between single spaces. */
  lemma NumberWordAlone(x: string, b: char, w: string, b2: char, y: string)
    requires w in NumberNames && IsSpace(b) && IsSpace(b2)
    requires Unopened(x) && Unopened(y) && 'd' !in x && 'd' !in y
    ensures NumericWordsFixed(x + [b] + w + [b2] + y) == Ok(x + Numeral(w) + y)
  {
    var s := x + [b] + w + [b2] + y;
    NamesLackD(w);
    MixedWordsNeedD(s);
    AloneAt(s, x, b, w, b2, y);
    NumberWordOnly(s, |x|, w);
    var m := MatchObject(NumberWord, s, |x|).value;
    NumeralOfWord(m, w);
    OneOf(NumberWord, s, NumeralOf, m, Numeral(w));
  }

  lemma AloneAt(s: string, x: string, b: char, w: string, b2: char, y: string)
    requires s == x + [b] + w + [b2] + y && w in NumberNames && IsSpace(b) && IsSpace(b2)
    ensures WordAt(s, |x|, w) && s[..|x|] == x && s[|x| + 2 + |w|..] == y
  {
    var i := |x|;
    assert s[i] == b && s[i + 1 + |w|] == b2;
    assert s[i + 1..i + 1 + |w|] == w;
    assert s[..i] == x && s[i + 2 + |w|..] == y;
  }

  /**
   * Two words of the table between blanks: the loop writes the FIRST word's
   * numeral over both, then finds nothing more (loop idiom B).
   */
  lemma NumberWordsOverwrite(x: string, b: char, w: string, b2: char, z: string, b3: char, w2: string, b4: char, y: string)
    requires w in NumberNames && w2 in NumberNames && IsSpace(b) && IsSpace(b2) && IsSpace(b3) && IsSpace(b4)
    requires Unopened(x) && Unopened(z) && Closed(z) && Unopened(y) && Closed(y)
    requires 'd' !in x && 'd' !in z && 'd' !in y
    ensures NumericWordsFixed(x + [b] + w + [b2] + z + [b3] + w2 + [b4] + y) == Ok(x + Numeral(w) + z + Numeral(w) + y)
  {
    var s := x + [b] + w + [b2] + z + [b3] + w2 + [b4] + y;
    NamesLackD(w);
    NamesLackD(w2);
    MixedWordsNeedD(s);
    OverwriteLoop(s, x, b, w, b2, z, b3, w2, b4, y);
  }

  lemma OverwriteLoop(s: string, x: string, b: char, w: string, b2: char, z: string, b3: char, w2: string, b4: char, y: string)
    requires s == x + [b] + w + [b2] + z + [b3] + w2 + [b4] + y
    requires w in NumberNames && w2 in NumberNames && IsSpace(b) && IsSpace(b2) && IsSpace(b3) && IsSpace(b4)
    requires Unopened(x) && Unopened(z) && Closed(z) && Unopened(y) && Closed(y)
    ensures EachAllOf(NumberWord, NumberWord, s, NumeralOf) == Ok(x + Numeral(w) + z + Numeral(w) + y)
  {
    PairAt(s, x, b, w, b2, z, b3, w2, b4, y);
    OverwriteAt(s, |x|, w, |x| + 2 + |w| + |z|, w2, x, z, y);
  }

  lemma OverwriteAt(s: string, i: nat, w: string, i2: nat, w2: string, x: string, z: string, y: string)
    requires WordAt(s, i, w) && WordAt(s, i2, w2) && i + 2 + |w| <= i2
    requires s[..i] == x && s[i + 2 + |w|..i2] == z && s[i2 + 2 + |w2|..] == y
    requires Unopened(x) && Unopened(z) && Closed(z) && Unopened(y) && Closed(y)
    ensures EachAllOf(NumberWord, NumberWord, s, NumeralOf) == Ok(x + Numeral(w) + z + Numeral(w) + y)
  {
    NumberWordsTwo(s, i, w, i2, w2);
    var m, m2 := MatchObject(NumberWord, s, i).value, MatchObject(NumberWord, s, i2).value;
    OverwriteSettles(x, Numeral(w), z, y);
    OverwritePieces(s, m, m2, w, i, i2, i2 + 2 + |w2|, x, z, y);
  }

  /** `OverwriteFound` with the pieces around the two matches named. */
  lemma OverwritePieces(s: string, m: Match, m2: Match, w: string, i: nat, i2: nat, e2: nat, x: string, z: string, y: string)
    requires FindAll(NumberWord, s) == [m, m2] && w in NumberNames && Group(m, 1) == w
    requires m == Match(i, i + 2 + |w|, m.groups) && m2 == Match(i2, e2, m2.groups) && i + 2 + |w| <= i2 < e2 <= |s|
    requires s[..i] == x && s[i + 2 + |w|..i2] == z && s[e2..] == y
    requires NoMatchFrom(NumberWord, x + Numeral(w) + z + Numeral(w) + y, 0)
    ensures EachAllOf(NumberWord, NumberWord, s, NumeralOf) == Ok(x + Numeral(w) + z + Numeral(w) + y)
  {
    assert m.start == i && m.end == i + 2 + |w| && m2.start == i2 && m2.end == e2;
    assert s[..m.start] == x;
    assert s[m.end..m2.start] == z;
    assert s[m2.end..] == y;
    OverwriteFound(s, m, m2, w);
  }

  lemma PairAt(s: string, x: string, b: char, w: string, b2: char, z: string, b3: char, w2: string, b4: char, y: string)
    requires s == x + [b] + w + [b2] + z + [b3] + w2 + [b4] + y
    requires w in NumberNames && w2 in NumberNames && IsSpace(b) && IsSpace(b2) && IsSpace(b3) && IsSpace(b4)
    ensures WordAt(s, |x|, w) && WordAt(s, |x| + 2 + |w| + |z|, w2)
    ensures s[..|x|] == x && s[|x| + 2 + |w|..|x| + 2 + |w| + |z|] == z && s[|x| + 2 + |w| + |z| + 2 + |w2|..] == y
  {
    var v := z + [b3] + w2 + [b4] + y;
    Regroup(x + [b] + w + [b2], z, [b3], w2, [b4], y);
    AloneAt(s, x, b, w, b2, v);
    SecondAt(s, |x| + 2 + |w|, z, b3, w2, b4, y);
  }

  lemma Regroup(p: string, a: string, b: string, c: string, d: string, e: string)
    ensures p + a + b + c + d + e == p + (a + b + c + d + e)
  {
    assert p + a + b == p + (a + b);
    assert p + (a + b) + c == p + (a + b + c);
    assert p + (a + b + c) + d == p + (a + b + c + d);
    assert p + (a + b + c + d) + e == p + (a + b + c + d + e);
  }

  lemma SecondAt(s: string, off: nat, z: string, b3: char, w2: string, b4: char, y: string)
    requires off <= |s| && s[off..] == z + [b3] + w2 + [b4] + y && w2 in NumberNames && IsSpace(b3) && IsSpace(b4)
    ensures WordAt(s, off + |z|, w2) && s[off..off + |z|] == z && s[off + |z| + 2 + |w2|..] == y
  {
    AloneAt(s[off..], z, b3, w2, b4, y);
    WordAtShift(s, off, |z|, w2);
    assert s[off..][..|z|] == s[off..off + |z|];
    assert s[off..][|z| + 2 + |w2|..] == s[off + |z| + 2 + |w2|..];
  }

  /** A word found in a suffix of the text is found in the text, further on. */
  lemma WordAtShift(s: string, off: nat, i: nat, w: string)
    requires off <= |s| && WordAt(s[off..], i, w)
    ensures WordAt(s, off + i, w)
  {
    var t := s[off..];
    assert t[i] == s[off + i] && t[i + 1 + |w|] == s[off + i + 1 + |w|];
    assert t[i + 1..i + 1 + |w|] == s[off + i + 1..off + i + 1 + |w|];
  }

  /** The scan's two words: both are rewritten with the first one's numeral, and the loop stops once nothing is left. */
  lemma OverwriteFound(s: string, m: Match, m2: Match, w: string)
    requires FindAll(NumberWord, s) == [m, m2] && w in NumberNames && Group(m, 1) == w
    requires m.start < m.end <= m2.start < m2.end <= |s|
    requires NoMatchFrom(NumberWord, s[..m.start] + Numeral(w) + s[m.end..m2.start] + Numeral(w) + s[m2.end..], 0)
    ensures EachAllOf(NumberWord, NumberWord, s, NumeralOf) == Ok(s[..m.start] + Numeral(w) + s[m.end..m2.start] + Numeral(w) + s[m2.end..])
  {
    NumeralOfWord(m, w);
    FirstFound(NumberWord, s);
    assert FindAll(NumberWord, s)[1] == m2;
    NumeralKnown(s, m2);
    TwoReps(NumeralOf, m, m2);
    var n := Numeral(w);
    SubAllTwo(NumberWord, s, [Str(n)], m, m2);
    assert Expand([Str(n)], m.groups) == n + Expand([], m.groups) == n;
    assert Expand([Str(n)], m2.groups) == n + Expand([], m2.groups) == n;
    assert SubAll(NumberWord, s, [Str(n)]) == s[..m.start] + n + s[m.end..m2.start] + n + s[m2.end..];
    assert NumeralOf(FindAll(NumberWord, s)[0]) == Ok(n);
    FirstOverwrites(NumberWord, s, NumeralOf, n);
  }

  /** A text of unopened pieces and numerals has no number word. */
  lemma OverwriteSettles(x: string, n: string, z: string, y: string)
    requires |n| >= 3 && n[0] == ' ' && n[|n| - 1] == ' ' && forall k :: 0 < k < |n| - 1 ==> IsDigit(n[k])
    requires Unopened(x) && Unopened(z) && Closed(z) && Unopened(y) && Closed(y)
    ensures NoMatchFrom(NumberWord, x + n + z + n + y, 0)
  {
    NumeralJoin(z, n, y);
    NumeralJoin(x, n, z + n + y);
    assert x + n + (z + n + y) == x + n + z + n + y;
    NoOpening(x + n + z + n + y);
  }

  // ---------------------------------------------------------------------
  // Idiom B on an example: the first numeral overwrites every word
  // ---------------------------------------------------------------------

  const Eggs: string := "add two eggs and three yolks"

  lemma EggsMisses()
    ensures forall k :: 0 <= k < 3 || 8 <= k < 16 || 23 <= k <= |Eggs| ==> MatchAt(NumberWord, Eggs, k).None?
  {
    forall k | 0 <= k < 3 || 8 <= k < 16 || 23 <= k <= |Eggs| ensures MatchAt(NumberWord, Eggs, k).None? {
      if MatchAt(NumberWord, Eggs, k).Some? {
        NumberWordOpening(Eggs, k);
      }
    }
  }

  lemma EggsWords()
    ensures MatchAt(NumberWord, Eggs, 3).Some? && MatchAt(NumberWord, Eggs, 16).Some?
    ensures MatchAt(NumberWord, Eggs, 3).value.end == 8 && Group(MatchObject(NumberWord, Eggs, 3).value, 1) == "two"
    ensures MatchAt(NumberWord, Eggs, 16).value.end == 23 && Group(MatchObject(NumberWord, Eggs, 16).value, 1) == "three"
  {
    EggsTwo();
    EggsThree();
  }

  lemma EggsTwo()
    ensures MatchAt(NumberWord, Eggs, 3).Some? && MatchAt(NumberWord, Eggs, 3).value.end == 8
    ensures Group(MatchObject(NumberWord, Eggs, 3).value, 1) == "two"
  {
    var s, w := Eggs, NumberNames[1];
    assert w == "two";
    assert s[4] == 't' && s[5] == 'w' && s[6] == 'o';
    assert s[4..7] == w;
    WordIn(s, 3, 1);
  }

  lemma EggsThree()
    ensures MatchAt(NumberWord, Eggs, 16).Some? && MatchAt(NumberWord, Eggs, 16).value.end == 23
    ensures Group(MatchObject(NumberWord, Eggs, 16).value, 1) == "three"
  {
    var s, w := Eggs, NumberNames[2];
    assert w == "three";
    assert s[17] == 't' && s[18] == 'h' && s[19] == 'r' && s[20] == 'e' && s[21] == 'e';
    assert s[17..22] == w;
    WordIn(s, 16, 2);
  }

  /** Word `j` of the table between blanks at `k` is a match that captures it. */
  lemma WordIn(s: string, k: nat, j: nat)
    requires j < |NumberNames| && At(s, k, IsSpace) && StartsWith(s, k + 1, NumberNames[j])
    requires At(s, k + 1 + |NumberNames[j]|, IsSpace)
    ensures MatchAt(NumberWord, s, k).Some? && MatchAt(NumberWord, s, k).value.end == k + 2 + |NumberNames[j]|
    ensures Group(MatchObject(NumberWord, s, k).value, 1) == NumberNames[j]
  {
    NumberWordMatches(s, k, j);
    NumberWordAt(s, k, NumberNames[j]);
  }

  /** The scan finds "two" at 3 and "three" at 16. */
  lemma EggsScan()
    ensures var ms := FindAll(NumberWord, Eggs);
            |ms| == 2 && ms[0].start == 3 && ms[0].end == 8 && ms[1].start == 16 && ms[1].end == 23
            && Group(ms[0], 1) == "two" && Group(ms[1], 1) == "three"
  {
    var s, p := Eggs, NumberWord;
    EggsMisses();
    EggsWords();
    var m1, m2 := MatchObject(p, s, 3).value, MatchObject(p, s, 16).value;
    assert Search(p, s, 0) == Some(m1);
    assert Search(p, s, 8) == Some(m2);
    assert Search(p, s, 23) == None;
    assert FindAll(p, s) == [m1, m2];
  }

  const EggsNumbered: string := "add 2 eggs and 2 yolks"

  /** The first round writes the first word's numeral over both words. */
  lemma EggsFirstRound()
    ensures SubAll(NumberWord, Eggs, [Str(" 2 ")]) == EggsNumbered
  {
    EggsRoundShape();
    EggsPieces();
  }

  lemma EggsRoundShape()
    ensures SubAll(NumberWord, Eggs, [Str(" 2 ")]) == Eggs[0..3] + " 2 " + Eggs[8..16] + " 2 " + Eggs[23..]
  {
    var s, p, t := Eggs, NumberWord, [Str(" 2 ")];
    EggsScan();
    var ms := FindAll(p, s);
    assert Search(p, s, 0) == Some(ms[0]);
    assert Expand(t, ms[0].groups) == " 2 ";
    EggsRoundTail();
  }

  lemma EggsRoundTail()
    ensures SubAllFrom(NumberWord, Eggs, 8, [Str(" 2 ")]) == Eggs[8..16] + " 2 " + Eggs[23..]
  {
    var s, p, t := Eggs, NumberWord, [Str(" 2 ")];
    EggsScan();
    var ms := FindAll(p, s);
    assert Search(p, s, 8) == Some(ms[1]);
    assert Search(p, s, 23) == None;
    assert Expand(t, ms[1].groups) == " 2 ";
  }

  lemma EggsPieces()
    ensures Eggs[0..3] + " 2 " + Eggs[8..16] + " 2 " + Eggs[23..] == EggsNumbered
  {
    EggsHead();
    EggsMiddle();
    EggsTail();
  }

  lemma EggsHead()
    ensures Eggs[0..3] == "add"
  {
    assert Eggs[0] == 'a' && Eggs[1] == 'd' && Eggs[2] == 'd';
  }

  lemma EggsMiddle()
    ensures Eggs[8..16] == "eggs and"
  {
    forall i | 8 <= i < 16 ensures Eggs[i] == "eggs and"[i - 8] {
    }
  }

  lemma EggsTail()
    ensures Eggs[23..] == "yolks"
  {
    forall i | 23 <= i < 28 ensures Eggs[i] == "yolks"[i - 23] {
    }
  }

  /** After that round no number word is left, so the second round changes nothing. */
  lemma EggsSettled()
    ensures NoMatchFrom(NumberWord, EggsNumbered, 0)
  {
    var s := EggsNumbered;
    forall k | 0 <= k < |s| - 2 && IsSpace(s[k]) ensures !Opening(s[k + 1], s[k + 2]) {
      assert k == 3 || k == 5 || k == 10 || k == 14 || k == 16;
    }
    NoOpening(s);
  }

  /** "add two eggs and three yolks" becomes "add 2 eggs and 2 yolks": the "three" is overwritten with the first word's 2. */
  lemma NumericWordsExample()
    ensures NumericWordsFixed(Eggs) == Ok(EggsNumbered)
  {
    EggsUnmixed();
    EggsLoop();
  }

  lemma EggsUnmixed()
    ensures MixedWordsFixed(Eggs) == Eggs
  {
    assert forall i :: 0 <= i < |Eggs| ==> Eggs[i] != 'f' && Eggs[i] != 'q';
    MixedWordsNeedLetters(Eggs);
  }

  lemma EggsLoop()
    ensures EachAllOf(NumberWord, NumberWord, Eggs, NumeralOf) == Ok(EggsNumbered)
  {
    var s, p := Eggs, NumberWord;
    EggsScan();
    var ms := FindAll(p, s);
    NumericWordsNeverRaise(s);
    EggsUnmixed();
    var reps := RepsOf(NumeralOf, ms).value;
    NumeralTwo(ms[0]);
    EggsFirstRound();
    EggsSettled();
    EachAllSettles(p, s, reps);
  }

  lemma NumeralTwo(m: Match)
    requires Group(m, 1) == "two"
    ensures NumeralOf(m) == Ok(" 2 ")
  {
    var w := Group(m, 1);
    assert w in NumberValues && NumberValues[w] == 2;
    assert DigitChar(2) == '2';
    assert NatToString(2) == "2";
    assert " " + NatToString(2) + " " == " 2 ";
  }

  // ---------------------------------------------------------------------
  // Both stages on one example: a spelled-out mixed number
  // ---------------------------------------------------------------------

  const Cups: string := "add one and a half cups"

  const CupsFixed: string := "add 1.5 cups"

  /** "add one and a half cups" becomes "add 1.5 cups": the first literal rewrite takes the words, and no number word is left for the loop. */
  lemma NumericWordsHalfExample()
    ensures NumericWordsFixed(Cups) == Ok(CupsFixed)
  {
    CupsHalfRewritten();
    CupsLiteralsKeep();
    CupsSettled();
    NoMatchLoops(NumberWord, NumberWord, CupsFixed, NumeralOf);
  }

  lemma CupsLiteralsKeep()
    ensures SubAll(Literal("one and one-quarter"), CupsFixed, [Str("1.25")]) == CupsFixed
    ensures SubAll(Literal("two and one-quarter"), CupsFixed, [Str("2.25")]) == CupsFixed
    ensures SubAll(Literal("two and one-half"), CupsFixed, [Str("2.5")]) == CupsFixed
    ensures SubAll(Literal("three and a half"), CupsFixed, [Str("3.5")]) == CupsFixed
  {
    var s := CupsFixed;
    assert forall i :: 0 <= i < |s| ==> s[i] != 'f' && s[i] != 'q';
    assert "one and one-quarter"[12] == 'q' && "two and one-quarter"[12] == 'q';
    assert "two and one-half"[15] == 'f' && "three and a half"[15] == 'f';
    LiteralKeeps("one and one-quarter", 'q', s, [Str("1.25")]);
    LiteralKeeps("two and one-quarter", 'q', s, [Str("2.25")]);
    LiteralKeeps("two and one-half", 'f', s, [Str("2.5")]);
    LiteralKeeps("three and a half", 'f', s, [Str("3.5")]);
  }

  lemma CupsSettled()
    ensures NoMatchFrom(NumberWord, CupsFixed, 0)
  {
    var s := CupsFixed;
    forall k | 0 <= k < |s| - 2 && IsSpace(s[k]) ensures !Opening(s[k + 1], s[k + 2]) {
      assert k == 3 || k == 7;
    }
    NoOpening(s);
  }

  /** `(\sone and a half|\sone and one-half)` matches once, at the blank before "one". */
  lemma CupsHalfRewritten()
    ensures SubAll(HalfWords, Cups, [Str(" 1.5")]) == CupsFixed
  {
    var s := Cups;
    CupsHalfOnly();
    var m := MatchObject(HalfWords, s, 3).value;
    SubAllOne(HalfWords, s, [Str(" 1.5")], m);
    assert Expand([Str(" 1.5")], m.groups) == " 1.5" + Expand([], m.groups) == " 1.5";
    CupsEnds();
  }

  lemma CupsEnds()
    ensures Cups[..3] + " 1.5" + Cups[18..] == CupsFixed
  {
    var s := Cups;
    assert s[..3] == "add" by {
      assert s[0] == 'a' && s[1] == 'd' && s[2] == 'd';
    }
    assert s[18..] == " cups" by {
      forall i | 18 <= i < |s| ensures s[i] == " cups"[i - 18] {
      }
    }
    assert "add" + " 1.5" + " cups" == CupsFixed;
  }

  lemma CupsHalfOnly()
    ensures MatchObject(HalfWords, Cups, 3).Some? && MatchObject(HalfWords, Cups, 3).value.end == 18
    ensures FindAll(HalfWords, Cups) == [MatchObject(HalfWords, Cups, 3).value]
  {
    CupsHalfAt();
    CupsHalfNowhereElse();
    FindsOnly(HalfWords, Cups, 3);
  }

  lemma CupsHalfNowhereElse()
    ensures forall k :: 0 <= k <= |Cups| && k != 3 ==> MatchAt(HalfWords, Cups, k).None?
  {
    forall k | 0 <= k <= |Cups| && k != 3 ensures MatchAt(HalfWords, Cups, k).None? {
      if MatchAt(HalfWords, Cups, k).Some? {
        HalfOpens(Cups, k);
      }
    }
  }

  lemma CupsHalfAt()
    ensures MatchAt(HalfWords, Cups, 3).Some? && MatchAt(HalfWords, Cups, 3).value.end == 18
  {
    var s := Cups;
    var halves := ["one and a half", "one and one-half"];
    CupsHalfText();
    assert MinLen([Blank, Alts(halves)]) > 0;
    assert [Blank, Alts(halves)][1..] == [Alts(halves)];
    AltsFinds(halves, [], s, 4, 0);
    var j := AltsChosen(halves, [], s, 4);
  }

  lemma CupsHalfText()
    ensures Cups[4..18] == "one and a half"
  {
    forall i | 0 <= i < 14 ensures Cups[4 + i] == "one and a half"[i] {
    }
  }

  /** A match of the spelled-out halves starts with a blank and an `o`. */
  lemma HalfOpens(s: string, k: nat)
    requires k <= |s| && MatchAt(HalfWords, s, k).Some?
    ensures k + 1 < |s| && s[k + 1] == 'o'
  {
    var halves := ["one and a half", "one and one-half"];
    assert MinLen([Blank, Alts(halves)]) > 0;
    var j := BlankAlts(halves, s, k);
    assert s[k + 1] == s[k + 1..k + 1 + |halves[j]|][0] == halves[j][0];
  }

  // ---------------------------------------------------------------------
  // The loop as evidently intended: one match per round
  // ---------------------------------------------------------------------

  /**
   * `fix_numeric_words` with `count=1` on the rewrite inside the loop, as
   * the other `findall` loops of the same file have it (idiom A): round i
   * rewrites the leftmost word still spelled out with the numeral of the
   * i-th word of the scan.
   */
  function NumericWordsIntended(ingredient: string): Result<string> {
    EachFirstOf(NumberWord, NumberWord, MixedWordsFixed(ingredient), NumeralOf)
  }

  /**
   * Two words of the table between blanks, with one match per round: each
   * word gets its own numeral, where the loop as written writes the first
   * word's numeral over both (`NumberWordsOverwrite`).
   */
  lemma NumberWordsIntended(x: string, b: char, w: string, b2: char, z: string, b3: char, w2: string, b4: char, y: string)
    requires w in NumberNames && w2 in NumberNames && IsSpace(b) && IsSpace(b2) && IsSpace(b3) && IsSpace(b4)
    requires Unopened(x) && Unopened(z) && Closed(z) && Unopened(y) && Closed(y)
    requires 'd' !in x && 'd' !in z && 'd' !in y
    ensures NumericWordsIntended(x + [b] + w + [b2] + z + [b3] + w2 + [b4] + y) == Ok(x + Numeral(w) + z + Numeral(w2) + y)
  {
    var s := x + [b] + w + [b2] + z + [b3] + w2 + [b4] + y;
    NamesLackD(w);
    NamesLackD(w2);
    MixedWordsNeedD(s);
    IntendedTwoRounds(s, x, b, w, b2, z, b3, w2, b4, y);
  }

  /** Idiom A over the two words: the first round writes the first numeral, the second the second. */
  lemma IntendedTwoRounds(s: string, x: string, b: char, w: string, b2: char, z: string, b3: char, w2: string, b4: char, y: string)
    requires s == x + [b] + w + [b2] + z + [b3] + w2 + [b4] + y
    requires w in NumberNames && w2 in NumberNames && IsSpace(b) && IsSpace(b2) && IsSpace(b3) && IsSpace(b4)
    requires Unopened(x) && Unopened(z) && Closed(z) && Unopened(y) && Closed(y)
    ensures EachFirstOf(NumberWord, NumberWord, s, NumeralOf) == Ok(x + Numeral(w) + z + Numeral(w2) + y)
  {
    PairAt(s, x, b, w, b2, z, b3, w2, b4, y);
    var m := IntendedScan(s, |x|, w, |x| + 2 + |w| + |z|, w2);
    FirstOfTwo(s, m, x, b, w, b2, z, b3, w2, b4, y);
    SecondOfTwo(x, w, z, b3, w2, b4, y);
    EachFirstTwo(NumberWord, s, Numeral(w), Numeral(w2));
  }

  /** The first round writes the first word's numeral and leaves the second word. */
  lemma FirstOfTwo(s: string, m: Match, x: string, b: char, w: string, b2: char, z: string, b3: char, w2: string, b4: char, y: string)
    requires s == x + [b] + w + [b2] + z + [b3] + w2 + [b4] + y && w in NumberNames && IsSpace(b) && IsSpace(b2)
    requires Search(NumberWord, s, 0) == Some(m) && m.start == |x| && m.end == |x| + 2 + |w|
    ensures SubFirst(NumberWord, s, Numeral(w)) == x + Numeral(w) + z + [b3] + w2 + [b4] + y
  {
    var rest := z + [b3] + w2 + [b4] + y;
    Regroup(x + [b] + w + [b2], z, [b3], w2, [b4], y);
    AloneAt(s, x, b, w, b2, rest);
    IntendedFirstWord(s, m, x, Numeral(w), rest);
    Regroup(x + Numeral(w), z, [b3], w2, [b4], y);
  }

  /** The second round, after the first numeral, writes the second word's numeral. */
  lemma SecondOfTwo(x: string, w: string, z: string, b3: char, w2: string, b4: char, y: string)
    requires w in NumberNames && w2 in NumberNames && IsSpace(b3) && IsSpace(b4)
    requires Unopened(x) && Unopened(z) && Closed(z) && Unopened(y)
    ensures SubFirst(NumberWord, x + Numeral(w) + z + [b3] + w2 + [b4] + y, Numeral(w2)) == x + Numeral(w) + z + Numeral(w2) + y
  {
    NumeralJoin(x, Numeral(w), z);
    IntendedSecondWord(x + Numeral(w) + z, b3, w2, b4, y);
  }

  lemma EachFirstTwo(p: Pattern, s: string, x: string, y: string)
    ensures EachFirst(p, s, [x, y]) == SubFirst(p, SubFirst(p, s, x), y)
  {
    assert [x, y][..1] == [x] && [x][..0] == [];
    assert EachFirst(p, s, [x]) == SubFirst(p, EachFirst(p, s, []), x);
  }

  /** The scan of two words gives their own numerals, and idiom A applies them in turn; the first match is the first word. */
  lemma IntendedScan(s: string, i: nat, w: string, i2: nat, w2: string) returns (m: Match)
    requires WordAt(s, i, w) && WordAt(s, i2, w2) && i + 2 + |w| <= i2
    requires Unopened(s[..i]) && Unopened(s[i + 2 + |w|..i2]) && Unopened(s[i2 + 2 + |w2|..])
    ensures EachFirstOf(NumberWord, NumberWord, s, NumeralOf) == Ok(EachFirst(NumberWord, s, [Numeral(w), Numeral(w2)]))
    ensures Search(NumberWord, s, 0) == Some(m) && m.start == i && m.end == i + 2 + |w|
  {
    NumberWordsTwo(s, i, w, i2, w2);
    var ms := FindAll(NumberWord, s);
    NumeralOfWord(ms[0], w);
    NumeralOfWord(ms[1], w2);
    RepsOfPair(NumeralOf, ms, Numeral(w), Numeral(w2));
    FirstFound(NumberWord, s);
    m := ms[0];
  }

  /** The first round rewrites the leftmost word only. */
  lemma IntendedFirstWord(s: string, m: Match, x: string, n: string, rest: string)
    requires Search(NumberWord, s, 0) == Some(m) && m.start == |x| && m.end <= |s|
    requires s[..|x|] == x && s[m.end..] == rest
    ensures SubFirst(NumberWord, s, n) == x + n + rest
  {
  }

  /** The second round finds the word left, now the only one, and writes its numeral. */
  lemma IntendedSecondWord(x: string, b: char, w: string, b2: char, y: string)
    requires w in NumberNames && IsSpace(b) && IsSpace(b2) && Unopened(x) && Unopened(y)
    ensures SubFirst(NumberWord, x + [b] + w + [b2] + y, Numeral(w)) == x + Numeral(w) + y
  {
    var t := x + [b] + w + [b2] + y;
    AloneAt(t, x, b, w, b2, y);
    NumberWordOnly(t, |x|, w);
    OneFirst(NumberWord, t, MatchObject(NumberWord, t, |x|).value, Numeral(w));
    assert [Numeral(w)][..0] == [];
  }

  const EggsHalfway: string := "add 2 eggs and three yolks"

  const EggsIntended: string := "add 2 eggs and 3 yolks"

  /** With one match per round, "add two eggs and three yolks" becomes "add 2 eggs and 3 yolks". */
  lemma NumericWordsIntendedExample()
    ensures NumericWordsIntended(Eggs) == Ok(EggsIntended)
  {
    EggsUnmixed();
    IntendedReps();
    IntendedRounds();
    IntendedFirstRound();
    IntendedSecondRound();
  }

  /** The scan's words are "two" and "three", whose numerals are 2 and 3. */
  lemma IntendedReps()
    ensures RepsOf(NumeralOf, FindAll(NumberWord, Eggs)) == Ok([" 2 ", " 3 "])
  {
    EggsScan();
    var ms := FindAll(NumberWord, Eggs);
    NumeralTwo(ms[0]);
    NumeralThree(ms[1]);
    RepsOfPair(NumeralOf, ms, " 2 ", " 3 ");
  }

  lemma IntendedRounds()
    ensures EachFirst(NumberWord, Eggs, [" 2 ", " 3 "]) == SubFirst(NumberWord, SubFirst(NumberWord, Eggs, " 2 "), " 3 ")
  {
    var reps := [" 2 ", " 3 "];
    assert reps[..1] == [" 2 "] && reps[..1][..0] == [];
  }

  /** The first round rewrites only "two". */
  lemma IntendedFirstRound()
    ensures SubFirst(NumberWord, Eggs, " 2 ") == EggsHalfway
  {
    IntendedFirstShape();
    IntendedFirstPieces();
  }

  lemma IntendedFirstPieces()
    ensures Eggs[0..3] + " 2 " + Eggs[8..] == EggsHalfway
  {
    EggsHead();
    IntendedFirstTail();
    assert "add" + " 2 " == "add 2 ";
    assert "add 2 " + "eggs and three yolks" == EggsHalfway;
  }

  lemma IntendedFirstShape()
    ensures SubFirst(NumberWord, Eggs, " 2 ") == Eggs[0..3] + " 2 " + Eggs[8..]
  {
    EggsScan();
    var ms := FindAll(NumberWord, Eggs);
    assert Search(NumberWord, Eggs, 0) == Some(ms[0]);
  }

  lemma IntendedFirstTail()
    ensures Eggs[8..] == "eggs and three yolks"
  {
    forall i | 8 <= i < |Eggs| ensures Eggs[i] == "eggs and three yolks"[i - 8] {
    }
  }

  /** The second round finds "three" as the leftmost word and writes its own numeral. */
  lemma IntendedSecondRound()
    ensures SubFirst(NumberWord, EggsHalfway, " 3 ") == EggsIntended
  {
    IntendedSecondShape();
    HalfwayPieces();
  }

  lemma IntendedSecondShape()
    ensures SubFirst(NumberWord, EggsHalfway, " 3 ") == EggsHalfway[..14] + " 3 " + EggsHalfway[21..]
  {
    HalfwayMisses();
    HalfwayWord();
    SearchFinds(NumberWord, EggsHalfway, 14);
  }

  lemma HalfwayMisses()
    ensures forall k :: 0 <= k < 14 ==> MatchAt(NumberWord, EggsHalfway, k).None?
  {
    var s := EggsHalfway;
    forall k | 0 <= k < 14 && IsSpace(s[k]) ensures !Opening(s[k + 1], s[k + 2]) {
      assert k == 3 || k == 5 || k == 10;
    }
    forall k | 0 <= k < 14 ensures MatchAt(NumberWord, s, k).None? {
      if MatchAt(NumberWord, s, k).Some? {
        NumberWordOpening(s, k);
      }
    }
  }

  lemma HalfwayWord()
    ensures MatchAt(NumberWord, EggsHalfway, 14).Some? && MatchAt(NumberWord, EggsHalfway, 14).value.end == 21
  {
    var s := EggsHalfway;
    var w := NumberNames[2];
    assert w == "three";
    forall i | 0 <= i < 5 ensures s[15 + i] == w[i] {
    }
    assert s[15..20] == w;
    WordIn(s, 14, 2);
  }

  lemma HalfwayPieces()
    ensures EggsHalfway[..14] + " 3 " + EggsHalfway[21..] == EggsIntended
  {
    var s := EggsHalfway;
    forall i | 0 <= i < 14 ensures s[i] == "add 2 eggs and"[i] {
    }
    forall i | 21 <= i < |s| ensures s[i] == "yolks"[i - 21] {
    }
    assert s[..14] == "add 2 eggs and" && s[21..] == "yolks";
  }

  lemma NumeralThree(m: Match)
    requires Group(m, 1) == "three"
    ensures NumeralOf(m) == Ok(" 3 ")
  {
    var w := Group(m, 1);
    assert w in NumberValues && NumberValues[w] == 3;
    assert DigitChar(3) == '3';
    assert NatToString(3) == "3";
    assert " " + NatToString(3) + " " == " 3 ";
  }
}
