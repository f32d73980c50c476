/**
 * The two character-level passes of data_cleaning_util.py. Both are a fixed
 * list of rewriting steps applied in order: `fix_characters` folds
 * typographic characters to ASCII and deletes rare debris; `fix_spelling`
 * applies a table of misspellings and HTML entities.
 */
module Characters {
  import opened Wrappers
  import opened Strings
  import opened Patterns
  import opened Regex
  import opened Record

  /** One rewriting step of a pass. */
  datatype Step =
    | Swap(test: char, c: char, rep: string)         // if test in s: s = s.replace(c, rep)
    | Sub(p: Pattern, t: seq<Piece>)                  // s = re.sub(p, t, s)
    | SubIf(test: char, p: Pattern, t: seq<Piece>)    // if test in s: s = re.sub(p, t, s)

  function Apply(step: Step, s: string): string {
    match step
    case Swap(test, c, rep) => if test in s then Replace(s, [c], rep) else s
    case Sub(p, t) => SubAll(p, s, t)
    case SubIf(test, p, t) => if test in s then SubAll(p, s, t) else s
  }

  /** The steps applied in order. */
  function Run(steps: seq<Step>, s: string): string
    decreases |steps|
  {
    if |steps| == 0 then s else Run(steps[1..], Apply(steps[0], s))
  }

  /** The characters a step guarantees are gone afterwards. */
  function Removes(step: Step): set<char> {
    match step
    case Swap(test, c, rep) => if test == c then {c} else {}
    case Sub(p, t) => if p.AnyOf? && |t| == 1 && t[0].Str? then p.chars else {}
    case SubIf(_, _, _) => {}
  }

  /** The characters a step writes itself (group references copy existing text). */
  function Output(step: Step): string {
    match step
    case Swap(_, _, rep) => rep
    case Sub(_, t) => Literals(t)
    case SubIf(_, _, t) => Literals(t)
  }

  predicate Avoids(s: string, bad: set<char>) {
    forall c :: c in s ==> c !in bad
  }

  const Dashes: set<char> := {'\U{2013}', '\U{2014}', '\U{2010}', '\U{2011}'}
  const Quotes: set<char> := {'\U{201C}', '\U{201D}', '\U{2033}', '\U{201F}'}

  /** U+FFFD, the replacement character. */
  const Replacement: char := '\U{FFFD}'
  const TradeMark: char := '\U{2122}'

  /** The first steps of `fix_characters`: spaces, dashes, quotes and the multiplication sign. */
  const FoldSteps: seq<Step> := [
    Swap('\U{A0}', '\U{A0}', " "),
    Swap('\U{90}', '\U{90}', ""),
    Swap('\U{D7}', '\U{D7}', "x"),
    Sub(AnyOf(Dashes), [Str("-")]),
    Swap('\U{2018}', '\U{2018}', "'"),
    Swap('\U{2019}', '\U{2019}', "'"),
    Sub(AnyOf(Quotes), [Str("\"")])
  ]

  /** Then the line separator, the fraction slash, and debris that is deleted. */
  const DebrisSteps: seq<Step> := [
    Swap('\U{2028}', '\U{2028}', ""),
    Swap('\U{2044}', '\U{2044}', "/"),
    Swap('|', '|', ""),
    Swap('!', '!', ""),
    Swap('`', '`', ""),
    Swap('@', '@', ""),
    SubIf('+', Pluses, []),
    Swap('[', '[', ""),
    Swap(']', ']', ""),
    Swap('?', '?', "")
  ]

  /** The steps after the U+FFFD test, ending with the spaced hyphen between a number and a word. */
  const TailSteps: seq<Step> := [
    Swap(TradeMark, TradeMark, ""),
    Swap('\U{203F}', '\U{203F}', ""),
    Swap('\U{2031}', '\U{2031}', "n"),
    Swap('\U{2022}', '\U{2022}', ""),
    Swap('\U{AE}', '\U{AE}', ""),
    Swap('\U{A7}', '\U{A7}', ""),
    Swap('\U{A4}', '\U{A4}', ""),
    SubIf('-', DigitsHyphenWord, [Ref(0), Str(" - "), Ref(1)])
  ]

  /** The steps of `fix_characters` in source order, with `guard` the step that tests for U+FFFD. */
  function CharacterSteps(guard: Step): seq<Step> {
    FoldSteps + DebrisSteps + [guard] + TailSteps
  }

  /** As written, the U+FFFD test guards a second deletion of the trade mark sign. */
  const WrittenGuard: Step := Swap(Replacement, TradeMark, "")

  /** The deletion the U+FFFD test evidently stands for. */
  const IntendedGuard: Step := Swap(Replacement, Replacement, "")

  /** `fix_characters`, as written: away from `+` and digits, the table `Folded`. */
  function FixCharacters(s: string): (r: string)
    ensures Calm(s) ==> r == MapText(s, Folded)
  {
    CalmFolds(s);
    Run(CharacterSteps(WrittenGuard), s)
  }

  /** `fix_characters` with the U+FFFD deletion: the same table, deleting U+FFFD too. */
  function FixCharactersIntended(s: string): (r: string)
    ensures Calm(s) ==> r == MapText(s, FoldedIntended)
  {
    CalmFoldsIntended(s);
    Run(CharacterSteps(IntendedGuard), s)
  }

  // ---------------------------------------------------------------------
  // Spelling
  // ---------------------------------------------------------------------

  function Cap(upper: char, lower: char): Atom { Alts([[upper], [lower]]) }
  function Word(w: string): Atom { Alts([w]) }
  const Amp: Atom := Alts(["&amp;", "&"])

  /** The first rule of the table: `([Cc])(hipolte|hipottle)`, rewritten to `\1hipotle`. */
  const ChipotleRule: Pattern := Atoms([Cap('C', 'c'), Alts(["hipolte", "hipottle"])])

  /** The table in the order of the calls; each atom is one group, so `Ref(0)` is the case-keeping `\1`. */
  const SpellingSteps: seq<Step> := [
    Sub(ChipotleRule, [Ref(0), Str("hipotle")]),
    Sub(Atoms([Cap('F', 'f'), Alts(["ritata", "rittatta", "ritatta", "ritartar"])]), [Ref(0), Str("rittata")]),
    Sub(Atoms([Cap('C', 'c'), Word("reme"), Blank, Cap('F', 'f'), Alts(["resh", "raishe"])]), [Ref(0), Str("reme fraiche")]),
    Sub(Atoms([Cap('M', 'm'), Alts(["ascapone", "ascaprone"])]), [Ref(0), Str("ascarpone")]),
    Sub(Atoms([Cap('B', 'b'), Alts(["russel", "russle"]), Blank, Cap('S', 's'), Word("prout")]), [Ref(0), Str("russels sprout")]),
    Sub(Atoms([Cap('G', 'g'), Word("nocci")]), [Ref(0), Str("nocchi")]),
    Sub(Atoms([Cap('M', 'm'), Alts(["accaroni", "acarroni"])]), [Ref(0), Str("acaroni")]),
    Sub(Atoms([Cap('M', 'm'), Alts(["acaroon", "accaron", "acarron"])]), [Ref(0), Str("acaron")]),
    Sub(Atoms([Cap('F', 'f'), Alts(["ettuccini", "ettucine", "ettucchine"])]), [Ref(0), Str("ettuccine")]),
    Sub(Atoms([Cap('E', 'e'), Word("xpresso")]), [Ref(0), Str("spresso")]),
    Sub(Atoms([Cap('M', 'm'), Alts(["ozzarrella", "ozarela", "ozzarela "])]), [Ref(0), Str("ozzarella")]),
    Sub(Atoms([Cap('S', 's'), Word("herbert")]), [Ref(0), Str("herbet")]),
    Sub(Atoms([Cap('C', 'c'), Word("ardamon")]), [Ref(0), Str("ardamom")]),
    Sub(Atoms([Cap('L', 'l'), Word("inguini")]), [Ref(0), Str("inguine")]),
    Sub(Atoms([Cap('L', 'l'), Word("iquer")]), [Ref(0), Str("iqueur")]),
    Sub(Atoms([Cap('W', 'w'), Word("on"), Blank, Word("ton")]), [Ref(0), Str("onton")]),
    Sub(Atoms([Cap('C', 'c'), Word("hile")]), [Ref(0), Str("hili")]),
    Sub(Atoms([Cap('C', 'c'), Word("hilies")]), [Ref(0), Str("hilis")]),
    Sub(Atoms([Amp, Word("e"), Alts(["acute", "grave"]), Word(";")]), [Str("e")]),
    Sub(Atoms([Amp, Word("icirc;")]), [Str("i")]),
    Sub(Atoms([Amp, Word("ucirc;")]), [Str("u")]),
    Sub(Atoms([Amp, Word("#231;")]), [Str("c")]),
    Sub(Atoms([Amp, Word("rsquo;")]), [Str("'")]),
    Sub(Atoms([Alts(["&amp;", "&;", "&"]), Alts(["e", ""]), Word("ntilde"), Alts([";", ""])]), [Str("n")]),
    Sub(Literal("1#3"), [Str("1/3")]),
    Sub(Literal("1#12"), [Str("1 12")])
  ]

  /** `fix_spelling`: a missing cell is passed through. */
  function FixSpelling(f: Field): (r: Field)
    ensures f.Missing? <==> r.Missing?
  {
    match f
    case Missing => Missing
    case Text(s) => Text(Run(SpellingSteps, s))
  }

  // ---------------------------------------------------------------------
  // Properties of step lists
  // ---------------------------------------------------------------------

  /** A step writes only characters of its input and of its own output text. */
  lemma ApplyKeeps(step: Step, s: string, P: char -> bool)
    requires forall c :: c in s ==> P(c)
    requires forall c :: c in Output(step) ==> P(c)
    ensures forall c :: c in Apply(step, s) ==> P(c)
  {
    match step
    case Swap(test, c, rep) => ReplaceChar(s, c, rep);
    case Sub(p, t) =>
      forall k | 0 <= k < |s| ensures P(s[k]) { assert s[k] in s; }
      SubAllChars(p, s, 0, t, P);
    case SubIf(test, p, t) =>
      forall k | 0 <= k < |s| ensures P(s[k]) { assert s[k] in s; }
      SubAllChars(p, s, 0, t, P);
  }

  /** A step whose own output avoids what it removes leaves none of it behind. */
  lemma ApplyRemoves(step: Step, s: string)
    requires Avoids(Output(step), Removes(step))
    ensures Avoids(Apply(step, s), Removes(step))
  {
    match step
    case Swap(test, c, rep) =>
      if test == c { ReplaceChar(s, c, rep); }
    case Sub(p, t) =>
      if p.AnyOf? && |t| == 1 && t[0].Str? {
        assert t == [Str(t[0].text)];
        assert Literals(t) == t[0].text + Literals([]);
        SubAllRemoves(p, s, 0, t[0].text, c => c !in p.chars);
      }
    case SubIf(_, _, _) =>
  }

  lemma {:induction false} RunKeeps(steps: seq<Step>, s: string, P: char -> bool)
    requires forall c :: c in s ==> P(c)
    requires forall step, c :: step in steps && c in Output(step) ==> P(c)
    ensures forall c :: c in Run(steps, s) ==> P(c)
    decreases |steps|
  {
    if |steps| > 0 {
      ApplyKeeps(steps[0], s, P);
      RunKeeps(steps[1..], Apply(steps[0], s), P);
    }
  }

  /** A step that writes only characters of `Safe` and removes only characters outside it. */
  predicate SafeStep(step: Step, Safe: char -> bool) {
    (forall c :: c in Output(step) ==> Safe(c)) && (forall c :: c in Removes(step) ==> !Safe(c))
  }

  /**
   * When every step writes only characters of a class `Safe` and removes
   * only characters outside it, no character removed by any step survives
   * the whole list: a later step cannot bring one back.
   */
  lemma {:induction false} RunRemoves(steps: seq<Step>, s: string, Safe: char -> bool)
    requires forall step :: step in steps ==> SafeStep(step, Safe)
    ensures forall step :: step in steps ==> Avoids(Run(steps, s), Removes(step))
    decreases |steps|
  {
    if |steps| > 0 {
      var s1 := Apply(steps[0], s);
      assert SafeStep(steps[0], Safe);
      ApplyRemoves(steps[0], s);
      var gone := Removes(steps[0]);
      forall step, c | step in steps[1..] && c in Output(step) ensures c !in gone {
        assert SafeStep(step, Safe);
      }
      RunKeeps(steps[1..], s1, c => c !in gone);
      RunRemoves(steps[1..], s1, Safe);
      forall step | step in steps ensures Avoids(Run(steps, s), Removes(step)) {
        if step != steps[0] {
          var k :| 0 <= k < |steps| && steps[k] == step;
          assert steps[1..][k - 1] == step;
        }
      }
    }
  }

  /** A step with nothing to act on. */
  predicate Inert(step: Step, s: string) {
    match step
    case Swap(test, c, _) => test !in s || c !in s
    case Sub(p, _) => Search(p, s, 0).None?
    case SubIf(test, p, _) => test !in s || Search(p, s, 0).None?
  }

  lemma InertKeeps(step: Step, s: string)
    requires Inert(step, s)
    ensures Apply(step, s) == s
  {
    match step {
      case Swap(test, c, rep) => if test in s { ReplaceAbsent(s, c, rep); }
      case Sub(p, t) => NoMatchKeeps(p, s, t, "");
      case SubIf(test, p, t) => if test in s { NoMatchKeeps(p, s, t, ""); }
    }
  }

  lemma {:induction false} RunInert(steps: seq<Step>, s: string)
    requires forall step :: step in steps ==> Inert(step, s)
    ensures Run(steps, s) == s
    decreases |steps|
  {
    if |steps| > 0 {
      InertKeeps(steps[0], s);
      RunInert(steps[1..], s);
    }
  }

  // ---------------------------------------------------------------------
  // Properties of the two passes
  // ---------------------------------------------------------------------

  /** What the character passes write: ASCII letters, space and a little punctuation. */
  predicate Plain(c: char) {
    IsAsciiLetter(c) || c == ' ' || c == '-' || c == '\'' || c == '"' || c == '/'
  }

  /** A step of the character pass that writes only plain characters and removes only others. */
  predicate PlainStep(step: Step) {
    (forall c :: c in Output(step) ==> Plain(c)) && (forall c :: c in Removes(step) ==> !Plain(c))
  }

  /** A swap that deletes a character that is not plain, writing plain text in its place. */
  lemma SwapPlain(c: char, rep: string)
    requires !Plain(c) && forall k :: 0 <= k < |rep| ==> Plain(rep[k])
    ensures PlainStep(Swap(c, c, rep))
  {
  }

  /** A list whose every position holds a plain step. */
  lemma PlainAt(steps: seq<Step>)
    requires forall i :: 0 <= i < |steps| ==> PlainStep(steps[i])
    ensures forall step :: step in steps ==> PlainStep(step)
  {
  }

  lemma FoldStepsSafe()
    ensures forall step :: step in FoldSteps ==> PlainStep(step)
  {
    FoldHeadSafe();
    FoldTailSafe();
    PlainAt(FoldSteps);
  }

  lemma FoldHeadSafe()
    ensures forall i :: 0 <= i < 4 ==> PlainStep(FoldSteps[i])
  {
    SwapPlain('\U{A0}', " ");
    SwapPlain('\U{90}', "");
    SwapPlain('\U{D7}', "x");
    assert Literals([Str("-")]) == "-";
  }

  lemma FoldTailSafe()
    ensures forall i :: 4 <= i < |FoldSteps| ==> PlainStep(FoldSteps[i])
  {
    SwapPlain('\U{2018}', "'");
    SwapPlain('\U{2019}', "'");
    assert Literals([Str("\"")]) == "\"";
  }

  lemma DebrisStepsSafe()
    ensures forall step :: step in DebrisSteps ==> PlainStep(step)
  {
    DebrisHeadSafe();
    DebrisTailSafe();
    PlainAt(DebrisSteps);
  }

  lemma DebrisHeadSafe()
    ensures forall i :: 0 <= i < 5 ==> PlainStep(DebrisSteps[i])
  {
    SwapPlain('\U{2028}', "");
    SwapPlain('\U{2044}', "/");
    SwapPlain('|', "");
    SwapPlain('!', "");
    SwapPlain('`', "");
  }

  lemma DebrisTailSafe()
    ensures forall i :: 5 <= i < |DebrisSteps| ==> PlainStep(DebrisSteps[i])
  {
    SwapPlain('@', "");
    assert Literals([]) == "";
    SwapPlain('[', "");
    SwapPlain(']', "");
    SwapPlain('?', "");
  }

  lemma TailStepsSafe()
    ensures forall step :: step in TailSteps ==> PlainStep(step)
  {
    TailHeadSafe();
    TailTailSafe();
    PlainAt(TailSteps);
  }

  lemma TailHeadSafe()
    ensures forall i :: 0 <= i < 4 ==> PlainStep(TailSteps[i])
  {
    SwapPlain(TradeMark, "");
    SwapPlain('\U{203F}', "");
    SwapPlain('\U{2031}', "n");
    SwapPlain('\U{2022}', "");
  }

  lemma TailTailSafe()
    ensures forall i :: 4 <= i < |TailSteps| ==> PlainStep(TailSteps[i])
  {
    forall i | 4 <= i < |TailSteps| ensures PlainStep(TailSteps[i]) {
      if i == 4 {
        SwapPlain('\U{AE}', "");
      } else if i == 5 {
        SwapPlain('\U{A7}', "");
      } else if i == 6 {
        SwapPlain('\U{A4}', "");
      } else {
        HyphenStepPlain([Ref(0), Str(" - "), Ref(1)]);
      }
    }
  }

  /** The digit-hyphen step removes nothing itself and writes a spaced hyphen. */
  lemma HyphenStepPlain(t: seq<Piece>)
    requires t == [Ref(0), Str(" - "), Ref(1)]
    ensures PlainStep(SubIf('-', DigitsHyphenWord, t))
  {
    assert Literals(t) == " - " by {
      assert Literals(t[2..]) == "";
      assert Literals(t[1..]) == " - " + Literals(t[2..]);
    }
  }

  lemma CharacterStepsSafe(guard: Step)
    requires PlainStep(guard)
    ensures forall step :: step in CharacterSteps(guard) ==> SafeStep(step, Plain)
  {
    FoldStepsSafe();
    DebrisStepsSafe();
    TailStepsSafe();
    forall step | step in CharacterSteps(guard) ensures SafeStep(step, Plain) {
      assert step in FoldSteps || step in DebrisSteps || step == guard || step in TailSteps;
      assert PlainStep(step);
    }
  }

  /**
   * No character that a step of `fix_characters` folds or deletes survives
   * the pass: each is replaced by plain ASCII, and no later step brings one
   * back.
   */
  lemma FixCharactersRemoves(s: string)
    ensures forall step :: step in CharacterSteps(WrittenGuard) ==> Avoids(FixCharacters(s), Removes(step))
  {
    CharacterStepsSafe(WrittenGuard);
    RunRemoves(CharacterSteps(WrittenGuard), s, Plain);
  }

  /** The folded characters in particular: no dash, curly quote, no-break space or trade mark sign is left. */
  lemma FixCharactersFolds(s: string)
    ensures Avoids(FixCharacters(s), Dashes) && Avoids(FixCharacters(s), Quotes)
    ensures '\U{A0}' !in FixCharacters(s) && '\U{2018}' !in FixCharacters(s) && '\U{2019}' !in FixCharacters(s)
    ensures TradeMark !in FixCharacters(s)
  {
    FixCharactersRemoves(s);
    var steps := CharacterSteps(WrittenGuard);
    assert steps[3] == FoldSteps[3] && steps[6] == FoldSteps[6];
    assert steps[0] == FoldSteps[0] && steps[4] == FoldSteps[4] && steps[5] == FoldSteps[5];
    assert steps[18] == TailSteps[0];
    assert steps[0] in steps && steps[3] in steps && steps[4] in steps;
    assert steps[5] in steps && steps[6] in steps && steps[18] in steps;
    assert Removes(steps[3]) == Dashes && Removes(steps[6]) == Quotes;
  }

  /** The corrected pass also deletes U+FFFD. */
  lemma FixCharactersIntendedRemoves(s: string)
    ensures forall step :: step in CharacterSteps(IntendedGuard) ==> Avoids(FixCharactersIntended(s), Removes(step))
    ensures Replacement !in FixCharactersIntended(s)
  {
    var steps := CharacterSteps(IntendedGuard);
    CharacterStepsSafe(IntendedGuard);
    RunRemoves(steps, s, Plain);
    assert IntendedGuard in steps;
    assert Removes(IntendedGuard) == {Replacement};
  }

  /**
   * A text without any character the pass tests for comes out unchanged;
   * in particular a lone U+FFFD is kept by the pass as written.
   */
  lemma ReplacementCharacterSurvives()
    ensures FixCharacters([Replacement]) == [Replacement]
  {
    var s := [Replacement];
    FoldStepsInert();
    DebrisStepsInert();
    TailStepsInert();
    assert Inert(WrittenGuard, s);
    RunInert(CharacterSteps(WrittenGuard), s);
  }

  lemma DebrisStepsInert()
    ensures forall step :: step in DebrisSteps ==> Inert(step, [Replacement])
  {
  }

  lemma TailStepsInert()
    ensures forall step :: step in TailSteps ==> Inert(step, [Replacement])
  {
  }

  lemma FoldStepsInert()
    ensures forall step :: step in FoldSteps ==> Inert(step, [Replacement])
  {
    var s := [Replacement];
    assert forall c :: c in s ==> c == Replacement;
    assert MatchAt(AnyOf(Dashes), s, 0).None? && MatchAt(AnyOf(Dashes), s, 1).None?;
    assert MatchAt(AnyOf(Quotes), s, 0).None? && MatchAt(AnyOf(Quotes), s, 1).None?;
  }

  /** A text in which no rule of the spelling table matches is left as it is. */
  lemma FixSpellingUnmatched(s: string)
    requires forall step :: step in SpellingSteps ==> Inert(step, s)
    ensures FixSpelling(Text(s)) == Text(s)
  {
    RunInert(SpellingSteps, s);
  }

  // ---------------------------------------------------------------------
  // What a spelling rule does
  // ---------------------------------------------------------------------

  /** When only step `j` finds anything, the list does what that step does. */
  lemma {:induction false} RunOnly(steps: seq<Step>, j: nat, s: string)
    requires j < |steps|
    requires forall i :: 0 <= i < j ==> Inert(steps[i], s)
    requires forall i :: j < i < |steps| ==> Inert(steps[i], Apply(steps[j], s))
    ensures Run(steps, s) == Apply(steps[j], s)
    decreases |steps|
  {
    var rest := steps[1..];
    if j == 0 {
      var t := Apply(steps[0], s);
      forall step | step in rest ensures Inert(step, t) {
        var k :| 0 <= k < |rest| && rest[k] == step;
        assert steps[k + 1] == step;
      }
      RunInert(rest, t);
    } else {
      InertKeeps(steps[0], s);
      forall i | 0 <= i < j - 1 ensures Inert(rest[i], s) {
        assert rest[i] == steps[i + 1];
      }
      forall i | j - 1 < i < |rest| ensures Inert(rest[i], Apply(rest[j - 1], s)) {
        assert rest[i] == steps[i + 1];
      }
      RunOnly(rest, j - 1, s);
    }
  }

  /**
   * A text on which only rule `j` of the table has anything to rewrite,
   * before and after that rule: `fix_spelling` is that rule's `re.sub`.
   */
  lemma FixSpellingRule(s: string, j: nat)
    requires j < |SpellingSteps|
    requires forall i :: 0 <= i < j ==> Inert(SpellingSteps[i], s)
    requires forall i :: j < i < |SpellingSteps| ==> Inert(SpellingSteps[i], Apply(SpellingSteps[j], s))
    ensures SpellingSteps[j].Sub?
    ensures FixSpelling(Text(s)) == Text(SubAll(SpellingSteps[j].p, s, SpellingSteps[j].t))
  {
    assert forall i :: 0 <= i < |SpellingSteps| ==> SpellingSteps[i].Sub?;
    RunOnly(SpellingSteps, j, s);
  }

  /** An alternation that matches starts with one of its options. */
  lemma {:induction false} AltsStarts(options: seq<string>, rest: seq<Atom>, s: string, i: nat)
    requires i <= |s|
    ensures AltsAt(options, rest, s, i).Some? ==>
              exists o :: o in options && StartsWith(s, i, o) && AtomsAt(rest, s, i + |o|).Some?
    decreases |options|
  {
    if |options| > 0 && AltsAt(options, rest, s, i).Some? {
      if StartsWith(s, i, options[0]) && AtomsAt(rest, s, i + |options[0]|).Some? {
        assert options[0] in options;
      } else {
        AltsStarts(options[1..], rest, s, i);
        var o :| o in options[1..] && StartsWith(s, i, o) && AtomsAt(rest, s, i + |o|).Some?;
        assert o in options;
      }
    }
  }

  /** Matching the atoms at `i` is matching the first one, then the rest after it. */
  lemma AtomsFirst(atoms: seq<Atom>, s: string, i: nat)
    requires i <= |s| && |atoms| > 0
    ensures atoms[0].Blank? && AtomsAt(atoms, s, i).Some? ==> i < |s| && AtomsAt(atoms[1..], s, i + 1).Some?
    ensures atoms[0].Alts? ==> AtomsAt(atoms, s, i) == AltsAt(atoms[0].options, atoms[1..], s, i)
  {
  }

  /** A rule that starts with a capital-or-small letter matches only at one of the two. */
  lemma CapLead(upper: char, lower: char, rest: seq<Atom>, s: string, k: nat)
    requires k <= |s|
    ensures MatchAt(Atoms([Cap(upper, lower)] + rest), s, k).Some? ==> k < |s| && (s[k] == upper || s[k] == lower)
  {
    var atoms := [Cap(upper, lower)] + rest;
    if MatchAt(Atoms(atoms), s, k).Some? {
      assert atoms[0] == Alts([[upper], [lower]]) && atoms[1..] == rest;
      AtomsFirst(atoms, s, k);
      CapStarts(upper, lower, rest, s, k);
    }
  }

  lemma CapStarts(upper: char, lower: char, rest: seq<Atom>, s: string, k: nat)
    requires k <= |s|
    ensures AltsAt([[upper], [lower]], rest, s, k).Some? ==> k < |s| && (s[k] == upper || s[k] == lower)
  {
    if AltsAt([[upper], [lower]], rest, s, k).Some? {
      if StartsWith(s, k, [upper]) {
        assert s[k..k + 1][0] == s[k];
      } else {
        assert [[upper], [lower]][1..] == [[lower]];
        assert AltsAt([[lower]], rest, s, k).Some?;
        assert [[lower]][1..] == [];
        assert StartsWith(s, k, [lower]);
        assert s[k..k + 1][0] == s[k];
      }
    }
  }

  /**
   * A match of a two-atom rule `[Uu](option|...)`: its first group is the
   * one letter, and the rest of the match is one of the options.
   */
  lemma CapHit(upper: char, lower: char, options: seq<string>, s: string, k: nat)
    requires k <= |s|
    ensures var r := MatchAt(Atoms([Cap(upper, lower), Alts(options)]), s, k);
            r.Some? ==> k < |s| && (s[k] == upper || s[k] == lower)
                        && r.value.spans == [Span(k, k + 1), Span(k + 1, r.value.end)] && s[k + 1..r.value.end] in options
  {
    var atoms := [Cap(upper, lower), Alts(options)];
    var rest := [Alts(options)];
    assert atoms[1..] == rest;
    var r := MatchAt(Atoms(atoms), s, k);
    if r.Some? {
      AtomsFirst(atoms, s, k);
      CapLead(upper, lower, rest, s, k);
      AtomsFirst(rest, s, k + 1);
      assert rest[1..] == [];
      var tail := AtomsAt(rest, s, k + 1);
      assert tail == AltsAt(options, [], s, k + 1);
      AltsShape(options, s, k + 1);
      CapPair(upper, lower, rest, s, k);
    }
  }

  /** The two one-letter options: whichever letter is there, the rest must match after it. */
  lemma CapPair(upper: char, lower: char, rest: seq<Atom>, s: string, k: nat)
    requires k <= |s|
    ensures var r := AltsAt([[upper], [lower]], rest, s, k);
            r.Some? ==> k < |s| && AtomsAt(rest, s, k + 1).Some?
                        && r.value == Hit(AtomsAt(rest, s, k + 1).value.end, [Span(k, k + 1)] + AtomsAt(rest, s, k + 1).value.spans)
  {
    var r := AltsAt([[upper], [lower]], rest, s, k);
    if r.Some? {
      assert [[upper], [lower]][1..] == [[lower]];
      if !(StartsWith(s, k, [upper]) && AtomsAt(rest, s, k + 1).Some?) {
        var r2 := AltsAt([[lower]], rest, s, k);
        assert r == r2;
        assert [[lower]][0] == [lower] && [[lower]][1..] == [];
        assert AltsAt([], rest, s, k).None?;
        assert StartsWith(s, k, [lower]) && AtomsAt(rest, s, k + 1).Some?;
      }
    }
  }

  /** A single alternation spans from where it starts to where its option ends. */
  lemma {:induction false} AltsShape(options: seq<string>, s: string, i: nat)
    requires i <= |s|
    ensures var r := AltsAt(options, [], s, i);
            r.Some? ==> r.value.spans == [Span(i, r.value.end)] && s[i..r.value.end] in options
    decreases |options|
  {
    if |options| > 0 {
      if StartsWith(s, i, options[0]) {
        assert options[0] in options;
      } else {
        AltsShape(options[1..], s, i);
        var r := AltsAt(options, [], s, i);
        if r.Some? {
          assert s[i..r.value.end] in options[1..];
        }
      }
    }
  }

  /**
   * `re.sub` of a case-keeping rule `([Uu])(misspelling|...)` by `\1` + fix
   * where the scan finds a single misspelling: the letter is kept as it
   * was, capital or not, and the rest of the misspelling becomes the fix.
   */
  lemma CapRuleSub(upper: char, lower: char, options: seq<string>, fix: string, s: string, m: Match)
    requires FindAll(Atoms([Cap(upper, lower), Alts(options)]), s) == [m]
    ensures m.start < m.end <= |s| && (s[m.start] == upper || s[m.start] == lower)
    ensures s[m.start + 1..m.end] in options
    ensures SubAll(Atoms([Cap(upper, lower), Alts(options)]), s, [Ref(0), Str(fix)]) == s[..m.start] + [s[m.start]] + fix + s[m.end..]
  {
    var p := Atoms([Cap(upper, lower), Alts(options)]);
    SubAllOne(p, s, [Ref(0), Str(fix)], m);
    CapHit(upper, lower, options, s, m.start);
    assert |m.groups| == 2 && m.groups[0] == s[m.start..m.start + 1] == [s[m.start]];
    CapTemplate(fix, m.groups);
  }

  /** The template `\1fix`: the first group, then the fix. */
  lemma CapTemplate(fix: string, groups: seq<string>)
    requires |groups| > 0
    ensures Expand([Ref(0), Str(fix)], groups) == groups[0] + fix
  {
    assert [Ref(0), Str(fix)][1..] == [Str(fix)] && [Str(fix)][1..] == [];
    assert Expand([Str(fix)], groups) == fix;
  }

  /**
   * `fix_spelling` where only a case-keeping rule has anything to rewrite
   * and it finds a single misspelling: that misspelling is corrected with
   * its first letter's case kept, and nothing else changes.
   */
  lemma FixSpellingCap(s: string, j: nat, upper: char, lower: char, options: seq<string>, fix: string, m: Match)
    requires j < |SpellingSteps|
    requires SpellingSteps[j] == Sub(Atoms([Cap(upper, lower), Alts(options)]), [Ref(0), Str(fix)])
    requires forall i :: 0 <= i < j ==> Inert(SpellingSteps[i], s)
    requires forall i :: j < i < |SpellingSteps| ==> Inert(SpellingSteps[i], Apply(SpellingSteps[j], s))
    requires FindAll(SpellingSteps[j].p, s) == [m]
    ensures m.start < m.end <= |s| && (s[m.start] == upper || s[m.start] == lower)
    ensures s[m.start + 1..m.end] in options
    ensures FixSpelling(Text(s)) == Text(s[..m.start] + [s[m.start]] + fix + s[m.end..])
  {
    FixSpellingRule(s, j);
    CapRuleSub(upper, lower, options, fix, s, m);
  }

  /** A case-keeping rule can only match where one of its two letters is. */
  lemma LeadAbsent(upper: char, lower: char, rest: seq<Atom>, s: string)
    requires |s| > 0 && upper !in s[1..] && lower !in s[1..]
    requires MatchAt(Atoms([Cap(upper, lower)] + rest), s, 0).None?
    ensures NoMatchFrom(Atoms([Cap(upper, lower)] + rest), s, 0)
  {
    forall k | 1 <= k <= |s| ensures MatchAt(Atoms([Cap(upper, lower)] + rest), s, k).None? {
      CapLead(upper, lower, rest, s, k);
      if k < |s| {
        assert s[k] == s[1..][k - 1];
      }
    }
  }

  /** At its only C, "Chipotle" has "hipotle", not "hipolte", and is too short for "hipottle". */
  lemma ChipotleStart()
    ensures MatchAt(ChipotleRule, "Chipotle", 0).None?
  {
    assert !StartsWith("Chipotle", 1, "hipolte") by {
      assert "Chipotle"[5] != "hipolte"[4];
    }
  }

  /** The rule matches all of "Chipolte". */
  lemma ChipolteHit()
    ensures MatchAt(ChipotleRule, "Chipolte", 0).Some?
    ensures MatchAt(ChipotleRule, "Chipolte", 0).value == Hit(8, [Span(0, 1), Span(1, 8)])
  {
    var s := "Chipolte";
    var rest := [Alts(["hipolte", "hipottle"])];
    assert StartsWith(s, 1, "hipolte") by {
      assert s[1..8] == "hipolte";
    }
    var words := ["hipolte", "hipottle"];
    assert words[0] == "hipolte" && |words[0]| == 7;
    assert AtomsAt([], s, 1 + |words[0]|) == Some(Hit(8, []));
    assert [Span(1, 8)] + [] == [Span(1, 8)];
    assert AltsAt(words, [], s, 1) == Some(Hit(8, [Span(1, 8)]));
    assert AtomsAt(rest, s, 1) == Some(Hit(8, [Span(1, 8)]));
    var caps := ["C", "c"];
    assert caps[0] == "C" && |caps[0]| == 1;
    assert StartsWith(s, 0, caps[0]) by {
      assert s[0..1] == "C";
    }
    assert [Span(0, 1)] + [Span(1, 8)] == [Span(0, 1), Span(1, 8)];
    assert AltsAt(caps, rest, s, 0) == Some(Hit(8, [Span(0, 1), Span(1, 8)]));
    assert ChipotleRule == Atoms([Alts(caps)] + rest);
  }

  /** The scan finds "Chipolte" whole, with its capital as the first group. */
  lemma ChipolteFound()
    ensures FindAll(ChipotleRule, "Chipolte") == [Match(0, 8, ["C", "hipolte"])]
  {
    var s := "Chipolte";
    ChipolteHit();
    assert s[0..1] == "C" && s[1..8] == "hipolte";
    assert Texts(s, [Span(0, 1), Span(1, 8)]) == ["C", "hipolte"];
    assert MatchObject(ChipotleRule, s, 0) == Some(Match(0, 8, ["C", "hipolte"]));
    assert MatchAt(ChipotleRule, s, 8).None?;
    assert FindAllFrom(ChipotleRule, s, 8) == [];
  }

  /** The rule turns "Chipolte" into "Chipotle", keeping the capital. */
  lemma ChipolteRewritten(s: string, t: seq<Piece>)
    requires s == "Chipolte" && t == [Ref(0), Str("hipotle")]
    ensures SubAll(ChipotleRule, s, t) == "Chipotle"
  {
    var m := Match(0, 8, ["C", "hipolte"]);
    ChipolteFound();
    assert ChipotleRule == Atoms([Cap('C', 'c'), Alts(["hipolte", "hipottle"])]);
    CapRuleSub('C', 'c', ["hipolte", "hipottle"], "hipotle", s, m);
    assert s[..m.start] == [] && s[m.end..] == [] && s[m.start] == 'C';
    ChipotleSpelled();
  }

  lemma ChipotleSpelled()
    ensures [] + ['C'] + "hipotle" + [] == "Chipotle"
  {
    assert "Chipotle"[1..] == "hipotle";
  }

  /** The rule finds no misspelling left in "Chipotle". */
  lemma ChipotleSettled()
    ensures NoMatchFrom(ChipotleRule, "Chipotle", 0)
  {
    assert ChipotleRule == Atoms([Cap('C', 'c')] + [Alts(["hipolte", "hipottle"])]);
    assert "Chipotle"[1..] == "hipotle";
    ChipotleStart();
    LeadAbsent('C', 'c', [Alts(["hipolte", "hipottle"])], "Chipotle");
  }

  /**
   * The first step of `fix_spelling` turns "Chipolte" into "Chipotle",
   * keeping the capital, and finds no misspelling left in the result.
   */
  lemma ChipolteFixed()
    ensures Apply(SpellingSteps[0], "Chipolte") == "Chipotle"
    ensures NoMatchFrom(SpellingSteps[0].p, "Chipotle", 0)
  {
    assert SpellingSteps[0] == Sub(ChipotleRule, [Ref(0), Str("hipotle")]);
    ChipolteRewritten("Chipolte", SpellingSteps[0].t);
    ChipotleSettled();
  }

  // ---------------------------------------------------------------------
  // The character table of `fix_characters`
  // ---------------------------------------------------------------------

  /** The characters `fix_characters` deletes outright. */
  const Deleted: set<char> := {
    '\U{90}', '\U{2028}', '|', '!', '`', '@', '[', ']', '?',
    TradeMark, '\U{203F}', '\U{2022}', '\U{AE}', '\U{A7}', '\U{A4}'
  }

  /** What `fix_characters` writes for one character, away from `+` and digits. */
  function Folded(c: char): string {
    if c == '\U{A0}' then " "
    else if c == '\U{D7}' then "x"
    else if c in Dashes then "-"
    else if c == '\U{2018}' || c == '\U{2019}' then "'"
    else if c in Quotes then "\""
    else if c == '\U{2044}' then "/"
    else if c == '\U{2031}' then "n"
    else if c in Deleted then ""
    else [c]
  }

  /** The same table with U+FFFD deleted, as the guard evidently intends. */
  function FoldedIntended(c: char): string {
    if c == Replacement then "" else Folded(c)
  }

  /** A text rewritten character by character. */
  function MapText(s: string, f: char -> string): string {
    if |s| == 0 then "" else f(s[0]) + MapText(s[1..], f)
  }

  /** Neither `+` nor a digit: every step then acts on each character alone. */
  predicate Calm(s: string) {
    forall c :: c in s ==> c != '+' && !IsDigit(c)
  }

  /** A step that, on a calm text, rewrites each character on its own. */
  predicate CharStep(step: Step) {
    match step
    case Swap(test, c, _) => test == c
    case Sub(p, t) => p.AnyOf? && |t| == 1 && t[0].Str?
    case SubIf(test, p, _) => (test == '+' && p == Pluses) || (test == '-' && p == DigitsHyphenWord)
  }

  /** One step on one character. */
  function StepChar(step: Step, x: char): string {
    if x in Removes(step) then Output(step) else [x]
  }

  /** One step applied to each character of a text. */
  function MapStep(step: Step, s: string): string {
    if |s| == 0 then "" else StepChar(step, s[0]) + MapStep(step, s[1..])
  }

  /** The output of the first step of `steps[i..]` that removes `x`, or `d` when none does. */
  function Look(steps: seq<Step>, i: nat, x: char, d: string): string
    requires i <= |steps|
    decreases |steps| - i
  {
    if i == |steps| then d
    else if x in Removes(steps[i]) then Output(steps[i])
    else Look(steps, i + 1, x, d)
  }

  /** Each character replaced by what the first step that removes it writes. */
  function LookText(steps: seq<Step>, s: string): string {
    if |s| == 0 then "" else Look(steps, 0, s[0], [s[0]]) + LookText(steps, s[1..])
  }

  lemma {:induction false} MapTextAppend(a: string, b: string, f: char -> string)
    ensures MapText(a + b, f) == MapText(a, f) + MapText(b, f)
    decreases |a|
  {
    if |a| == 0 {
      assert a + b == b;
    } else {
      assert (a + b)[1..] == a[1..] + b;
      MapTextAppend(a[1..], b, f);
    }
  }

  lemma {:induction false} LookTextAppend(steps: seq<Step>, a: string, b: string)
    ensures LookText(steps, a + b) == LookText(steps, a) + LookText(steps, b)
    decreases |a|
  {
    if |a| == 0 {
      assert a + b == b;
    } else {
      assert (a + b)[1..] == a[1..] + b;
      LookTextAppend(steps, a[1..], b);
    }
  }

  /** What one step writes is what its input held or its own output. */
  lemma {:induction false} MapStepChars(step: Step, s: string)
    ensures forall c :: c in MapStep(step, s) ==> c in s || c in Output(step)
    decreases |s|
  {
    if |s| > 0 {
      MapStepChars(step, s[1..]);
      assert forall c :: c in s[1..] ==> c in s;
    }
  }

  lemma {:induction false} MapStepKeeps(step: Step, s: string)
    requires forall c :: c in s ==> c !in Removes(step)
    ensures MapStep(step, s) == s
    decreases |s|
  {
    if |s| > 0 {
      assert s[0] in s;
      assert StepChar(step, s[0]) == [s[0]];
      assert forall c :: c in s[1..] ==> c in s;
      MapStepKeeps(step, s[1..]);
      assert [s[0]] + s[1..] == s;
    }
  }

  /** `str.replace` of one character is that character's swap, one character at a time. */
  lemma {:induction false} SwapMaps(s: string, c: char, rep: string)
    ensures Replace(s, [c], rep) == MapStep(Swap(c, c, rep), s)
    decreases |s|
  {
    if |s| > 0 {
      SwapMaps(s[1..], c, rep);
      if s[0] == c {
        assert s[..1] == [c];
        assert s[|[c]|..] == s[1..];
      } else {
        assert s[..1] != [c];
      }
    }
  }

  /** `re.sub` over a class of single characters with a literal: that swap, one character at a time. */
  lemma {:induction false} SubAllMaps(cs: set<char>, r: string, s: string, pos: nat)
    requires pos <= |s|
    ensures SubAllFrom(AnyOf(cs), s, pos, [Str(r)]) == MapStep(Sub(AnyOf(cs), [Str(r)]), s[pos..])
    decreases |s| - pos
  {
    var step := Sub(AnyOf(cs), [Str(r)]);
    if pos < |s| {
      SubAllMaps(cs, r, s, pos + 1);
      assert MapStep(step, s[pos..]) == StepChar(step, s[pos]) + MapStep(step, s[pos + 1..]) by {
        assert s[pos..][1..] == s[pos + 1..];
      }
      if s[pos] in cs {
        AnyOfHit(cs, r, s, pos);
        assert StepChar(step, s[pos]) == r by {
          assert Literals([Str(r)]) == r + Literals([]);
        }
      } else {
        AnyOfMiss(cs, r, s, pos);
        assert StepChar(step, s[pos]) == [s[pos]];
      }
    } else {
      assert s[pos..] == [];
    }
  }

  lemma AnyOfMiss(cs: set<char>, r: string, s: string, pos: nat)
    requires pos < |s| && s[pos] !in cs
    ensures SubAllFrom(AnyOf(cs), s, pos, [Str(r)]) == [s[pos]] + SubAllFrom(AnyOf(cs), s, pos + 1, [Str(r)])
  {
    var p := AnyOf(cs);
    assert Search(p, s, pos) == Search(p, s, pos + 1);
    var h := Search(p, s, pos + 1);
    if h.Some? {
      assert s[pos..h.value.start] == [s[pos]] + s[pos + 1..h.value.start];
    } else {
      assert s[pos..] == [s[pos]] + s[pos + 1..];
    }
  }

  lemma AnyOfHit(cs: set<char>, r: string, s: string, pos: nat)
    requires pos < |s| && s[pos] in cs
    ensures SubAllFrom(AnyOf(cs), s, pos, [Str(r)]) == r + SubAllFrom(AnyOf(cs), s, pos + 1, [Str(r)])
  {
    var p := AnyOf(cs);
    var m := Match(pos, pos + 1, []);
    assert MatchAt(p, s, pos) == Some(Hit(pos + 1, []));
    assert Texts(s, []) == [];
    assert Search(p, s, pos) == Some(m);
    assert Expand([Str(r)], []) == r + Expand([], []);
    assert s[pos..pos] == [];
  }

  lemma CalmNoHyphenWord(s: string)
    requires Calm(s)
    ensures NoMatchFrom(DigitsHyphenWord, s, 0)
  {
    forall k | 0 <= k <= |s| ensures MatchAt(DigitsHyphenWord, s, k).None? {
      if k < |s| {
        assert s[k] in s;
      }
    }
  }

  /** On a calm text a character step acts on each character alone. */
  lemma StepMaps(step: Step, s: string)
    requires CharStep(step) && Calm(s)
    ensures Apply(step, s) == MapStep(step, s)
  {
    match step
    case Swap(test, c, rep) =>
      if c in s {
        SwapMaps(s, c, rep);
      } else {
        MapStepKeeps(step, s);
      }
    case Sub(p, t) =>
      assert t == [Str(t[0].text)];
      SubAllMaps(p.chars, t[0].text, s, 0);
      assert s[0..] == s;
    case SubIf(test, p, t) =>
      MapStepKeeps(step, s);
      if test == '-' && test in s {
        CalmNoHyphenWord(s);
        NoMatchKeeps(p, s, t, "");
      }
  }

  lemma MapStepCalm(step: Step, s: string)
    requires PlainStep(step) && Calm(s)
    ensures Calm(MapStep(step, s))
  {
    MapStepChars(step, s);
  }

  lemma {:induction false} LookMiss(steps: seq<Step>, i: nat, x: char, d: string)
    requires i <= |steps|
    requires forall j :: i <= j < |steps| ==> x !in Removes(steps[j])
    ensures Look(steps, i, x, d) == d
    decreases |steps| - i
  {
    if i < |steps| {
      LookMiss(steps, i + 1, x, d);
    }
  }

  /** Characters no step removes are kept. */
  lemma {:induction false} LookKeeps(steps: seq<Step>, u: string)
    requires forall j, c :: 0 <= j < |steps| && c in u ==> c !in Removes(steps[j])
    ensures LookText(steps, u) == u
    decreases |u|
  {
    if |u| > 0 {
      assert u[0] in u;
      LookMiss(steps, 0, u[0], [u[0]]);
      assert forall c :: c in u[1..] ==> c in u;
      LookKeeps(steps, u[1..]);
      assert [u[0]] + u[1..] == u;
    }
  }

  lemma {:induction false} LookShift(steps: seq<Step>, i: nat, x: char, d: string)
    requires 1 <= i <= |steps|
    ensures Look(steps, i, x, d) == Look(steps[1..], i - 1, x, d)
    decreases |steps| - i
  {
    if i < |steps| {
      assert steps[1..][i - 1] == steps[i];
      LookShift(steps, i + 1, x, d);
    }
  }

  /** The first step, then the lookup in the rest, is the lookup in the whole list. */
  lemma {:induction false} LookCompose(steps: seq<Step>, s: string)
    requires |steps| > 0
    requires forall j :: 1 <= j < |steps| ==> PlainStep(steps[j])
    requires PlainStep(steps[0])
    ensures LookText(steps[1..], MapStep(steps[0], s)) == LookText(steps, s)
    decreases |s|
  {
    if |s| > 0 {
      var rest := steps[1..];
      var x := s[0];
      LookTextAppend(rest, StepChar(steps[0], x), MapStep(steps[0], s[1..]));
      LookCompose(steps, s[1..]);
      LookShift(steps, 1, x, [x]);
      if x in Removes(steps[0]) {
        forall j, c | 0 <= j < |rest| && c in Output(steps[0]) ensures c !in Removes(rest[j]) {
          assert PlainStep(steps[j + 1]);
        }
        LookKeeps(rest, Output(steps[0]));
      } else {
        assert LookText(rest, [x]) == Look(rest, 0, x, [x]) + LookText(rest, []);
      }
    }
  }

  /** On a calm text a list of character steps is its lookup table, character by character. */
  lemma {:induction false} RunLooks(steps: seq<Step>, s: string)
    requires forall j :: 0 <= j < |steps| ==> CharStep(steps[j]) && PlainStep(steps[j])
    requires Calm(s)
    ensures Run(steps, s) == LookText(steps, s)
    decreases |steps|
  {
    if |steps| == 0 {
      LookKeeps(steps, s);
    } else {
      StepMaps(steps[0], s);
      MapStepCalm(steps[0], s);
      RunLooks(steps[1..], MapStep(steps[0], s));
      LookCompose(steps, s);
    }
  }

  lemma {:induction false} LookOffset(a: seq<Step>, b: seq<Step>, j: nat, x: char, d: string)
    requires j <= |b|
    ensures Look(a + b, |a| + j, x, d) == Look(b, j, x, d)
    decreases |b| - j
  {
    if j < |b| {
      assert (a + b)[|a| + j] == b[j];
      LookOffset(a, b, j + 1, x, d);
    }
  }

  /** Looking through two lists is looking through the first with the second as its default. */
  lemma {:induction false} LookAppend(a: seq<Step>, b: seq<Step>, i: nat, x: char, d: string)
    requires i <= |a|
    ensures Look(a + b, i, x, d) == Look(a, i, x, Look(b, 0, x, d))
    decreases |a| - i
  {
    if i == |a| {
      LookOffset(a, b, 0, x, d);
    } else {
      assert (a + b)[i] == a[i];
      LookAppend(a, b, i + 1, x, d);
    }
  }

  lemma FoldLook(x: char, d: string)
    ensures Look(FoldSteps, 0, x, d) ==
      if x == '\U{A0}' then " "
      else if x == '\U{90}' then ""
      else if x == '\U{D7}' then "x"
      else if x in Dashes then "-"
      else if x == '\U{2018}' || x == '\U{2019}' then "'"
      else if x in Quotes then "\""
      else d
  {
    assert Literals([Str("-")]) == "-" + Literals([]);
    assert Literals([Str("\"")]) == "\"" + Literals([]);
    assert Look(FoldSteps, 7, x, d) == d;
    assert Look(FoldSteps, 6, x, d) == if x in Quotes then "\"" else d;
    assert Look(FoldSteps, 5, x, d) == if x == '\U{2019}' then "'" else Look(FoldSteps, 6, x, d);
    assert Look(FoldSteps, 4, x, d) == if x == '\U{2018}' then "'" else Look(FoldSteps, 5, x, d);
    assert Look(FoldSteps, 3, x, d) == if x in Dashes then "-" else Look(FoldSteps, 4, x, d);
    assert Look(FoldSteps, 2, x, d) == if x == '\U{D7}' then "x" else Look(FoldSteps, 3, x, d);
    assert Look(FoldSteps, 1, x, d) == if x == '\U{90}' then "" else Look(FoldSteps, 2, x, d);
  }

  lemma DebrisLook(x: char, d: string)
    ensures Look(DebrisSteps, 0, x, d) ==
      if x == '\U{2044}' then "/"
      else if x in {'\U{2028}', '|', '!', '`', '@', '[', ']', '?'} then ""
      else d
  {
    assert Look(DebrisSteps, 10, x, d) == d;
    assert Look(DebrisSteps, 9, x, d) == if x == '?' then "" else d;
    assert Look(DebrisSteps, 8, x, d) == if x == ']' then "" else Look(DebrisSteps, 9, x, d);
    assert Look(DebrisSteps, 7, x, d) == if x == '[' then "" else Look(DebrisSteps, 8, x, d);
    assert Look(DebrisSteps, 6, x, d) == Look(DebrisSteps, 7, x, d);
    assert Look(DebrisSteps, 5, x, d) == if x == '@' then "" else Look(DebrisSteps, 6, x, d);
    assert Look(DebrisSteps, 4, x, d) == if x == '`' then "" else Look(DebrisSteps, 5, x, d);
    assert Look(DebrisSteps, 3, x, d) == if x == '!' then "" else Look(DebrisSteps, 4, x, d);
    assert Look(DebrisSteps, 2, x, d) == if x == '|' then "" else Look(DebrisSteps, 3, x, d);
    assert Look(DebrisSteps, 1, x, d) == if x == '\U{2044}' then "/" else Look(DebrisSteps, 2, x, d);
  }

  lemma TailLook(x: char, d: string)
    ensures Look(TailSteps, 0, x, d) ==
      if x == '\U{2031}' then "n"
      else if x in {TradeMark, '\U{203F}', '\U{2022}', '\U{AE}', '\U{A7}', '\U{A4}'} then ""
      else d
  {
    assert Look(TailSteps, 8, x, d) == d;
    assert Look(TailSteps, 7, x, d) == d;
    assert Look(TailSteps, 6, x, d) == if x == '\U{A4}' then "" else d;
    assert Look(TailSteps, 5, x, d) == if x == '\U{A7}' then "" else Look(TailSteps, 6, x, d);
    assert Look(TailSteps, 4, x, d) == if x == '\U{AE}' then "" else Look(TailSteps, 5, x, d);
    assert Look(TailSteps, 3, x, d) == if x == '\U{2022}' then "" else Look(TailSteps, 4, x, d);
    assert Look(TailSteps, 2, x, d) == if x == '\U{2031}' then "n" else Look(TailSteps, 3, x, d);
    assert Look(TailSteps, 1, x, d) == if x == '\U{203F}' then "" else Look(TailSteps, 2, x, d);
  }

  /** The folding steps without the U+FFFD test. */
  const FoldingSteps: seq<Step> := FoldSteps + DebrisSteps + TailSteps

  lemma {:induction false} RunAppend(a: seq<Step>, b: seq<Step>, s: string)
    ensures Run(a + b, s) == Run(b, Run(a, s))
    decreases |a|
  {
    if |a| == 0 {
      assert a + b == b;
    } else {
      assert (a + b)[1..] == a[1..] + b;
      RunAppend(a[1..], b, Apply(a[0], s));
    }
  }

  /** The guard's deletion of the trade mark sign is repeated by the step after it. */
  lemma WrittenGuardRedundant(s: string)
    ensures Run(CharacterSteps(WrittenGuard), s) == Run(FoldingSteps, s)
  {
    var u := Run(FoldSteps + DebrisSteps, s);
    RunAppend(FoldSteps + DebrisSteps + [WrittenGuard], TailSteps, s);
    RunAppend(FoldSteps + DebrisSteps, [WrittenGuard], s);
    RunAppend(FoldSteps + DebrisSteps, TailSteps, s);
    assert Run([WrittenGuard], u) == Apply(WrittenGuard, u);
    var v := Apply(WrittenGuard, u);
    assert TailSteps[0] == Swap(TradeMark, TradeMark, "");
    if v != u {
      ReplaceChar(u, TradeMark, "");
      if TradeMark !in u {
        ReplaceAbsent(u, TradeMark, "");
      }
    }
    assert Apply(TailSteps[0], v) == Apply(TailSteps[0], u);
  }

  lemma FoldingStepsCharwise()
    ensures forall j :: 0 <= j < |FoldingSteps| ==> CharStep(FoldingSteps[j]) && PlainStep(FoldingSteps[j])
  {
    FoldCharwise();
    DebrisCharwise();
    TailCharwise();
    forall j | 0 <= j < |FoldingSteps| ensures CharStep(FoldingSteps[j]) && PlainStep(FoldingSteps[j]) {
      var n := |FoldSteps| + |DebrisSteps|;
      if j < |FoldSteps| {
        assert FoldingSteps[j] == FoldSteps[j];
      } else if j < n {
        assert FoldingSteps[j] == DebrisSteps[j - |FoldSteps|];
      } else {
        assert FoldingSteps[j] == TailSteps[j - n];
      }
    }
  }

  lemma FoldCharwise()
    ensures forall step :: step in FoldSteps ==> CharStep(step) && PlainStep(step)
  {
    FoldStepsSafe();
  }

  lemma DebrisCharwise()
    ensures forall step :: step in DebrisSteps ==> CharStep(step) && PlainStep(step)
  {
    DebrisStepsSafe();
  }

  lemma TailCharwise()
    ensures forall step :: step in TailSteps ==> CharStep(step) && PlainStep(step)
  {
    TailStepsSafe();
  }

  lemma IntendedStepsCharwise()
    ensures forall j :: 0 <= j < |CharacterSteps(IntendedGuard)| ==>
      CharStep(CharacterSteps(IntendedGuard)[j]) && PlainStep(CharacterSteps(IntendedGuard)[j])
  {
    FoldingStepsCharwise();
    SwapPlain(Replacement, "");
    forall j | 0 <= j < |CharacterSteps(IntendedGuard)|
      ensures CharStep(CharacterSteps(IntendedGuard)[j]) && PlainStep(CharacterSteps(IntendedGuard)[j])
    {
      var step := CharacterSteps(IntendedGuard)[j];
      assert step in FoldingSteps || step == IntendedGuard by {
        if step != IntendedGuard {
          assert step in FoldSteps || step in DebrisSteps || step in TailSteps;
        }
      }
      if step != IntendedGuard {
        var k :| 0 <= k < |FoldingSteps| && FoldingSteps[k] == step;
      }
    }
  }

  lemma FoldingTable(x: char)
    ensures Look(FoldingSteps, 0, x, [x]) == Folded(x)
  {
    var d := Look(TailSteps, 0, x, [x]);
    LookAppend(FoldSteps + DebrisSteps, TailSteps, 0, x, [x]);
    LookAppend(FoldSteps, DebrisSteps, 0, x, d);
    FoldLook(x, Look(DebrisSteps, 0, x, d));
    DebrisLook(x, d);
    TailLook(x, [x]);
  }

  lemma GuardLook(x: char, d: string)
    ensures Look([IntendedGuard], 0, x, d) == if x == Replacement then "" else d
  {
    assert Look([IntendedGuard], 1, x, d) == d;
  }

  lemma IntendedTable(x: char)
    ensures Look(CharacterSteps(IntendedGuard), 0, x, [x]) == FoldedIntended(x)
  {
    var d := Look(TailSteps, 0, x, [x]);
    var g := Look([IntendedGuard], 0, x, d);
    LookAppend(FoldSteps + DebrisSteps + [IntendedGuard], TailSteps, 0, x, [x]);
    LookAppend(FoldSteps + DebrisSteps, [IntendedGuard], 0, x, d);
    LookAppend(FoldSteps, DebrisSteps, 0, x, g);
    GuardLook(x, d);
    if x == Replacement {
      FoldLook(x, Look(DebrisSteps, 0, x, g));
      DebrisLook(x, g);
    } else {
      LookAppend(FoldSteps + DebrisSteps, TailSteps, 0, x, [x]);
      LookAppend(FoldSteps, DebrisSteps, 0, x, d);
      FoldingTable(x);
    }
  }

  lemma {:induction false} LookTable(steps: seq<Step>, s: string, f: char -> string)
    requires forall x :: Look(steps, 0, x, [x]) == f(x)
    ensures LookText(steps, s) == MapText(s, f)
    decreases |s|
  {
    if |s| > 0 {
      LookTable(steps, s[1..], f);
    }
  }

  /**
   * On a text without `+` or digits, `fix_characters` rewrites each
   * character on its own, by the table `Folded`.
   */
  lemma CalmFolds(s: string)
    ensures Calm(s) ==> Run(CharacterSteps(WrittenGuard), s) == MapText(s, Folded)
  {
    if Calm(s) {
      WrittenGuardRedundant(s);
      FoldingStepsCharwise();
      RunLooks(FoldingSteps, s);
      forall x ensures Look(FoldingSteps, 0, x, [x]) == Folded(x) {
        FoldingTable(x);
      }
      LookTable(FoldingSteps, s, Folded);
    }
  }

  lemma CalmFoldsIntended(s: string)
    ensures Calm(s) ==> Run(CharacterSteps(IntendedGuard), s) == MapText(s, FoldedIntended)
  {
    if Calm(s) {
      IntendedStepsCharwise();
      RunLooks(CharacterSteps(IntendedGuard), s);
      forall x ensures Look(CharacterSteps(IntendedGuard), 0, x, [x]) == FoldedIntended(x) {
        IntendedTable(x);
      }
      LookTable(CharacterSteps(IntendedGuard), s, FoldedIntended);
    }
  }

  // ---------------------------------------------------------------------
  // The two steps that look at neighbours
  // ---------------------------------------------------------------------

  /** `\+{2,}` deletes runs only: a `+` with no `+` beside it is kept. */
  lemma LonePlusKept(s: string)
    requires forall k :: 0 <= k < |s| - 1 ==> !(s[k] == '+' && s[k + 1] == '+')
    ensures Apply(DebrisSteps[6], s) == s
  {
    forall k | 0 <= k <= |s| ensures MatchAt(Pluses, s, k).None? {
      var e := RunEnd(s, k, IsPlus);
      if k + 1 < |s| {
        assert !(IsPlus(s[k]) && IsPlus(s[k + 1]));
      }
    }
    NoMatchKeeps(Pluses, s, [], "");
  }

  /** A single run of two or more `+` is deleted whole and nothing else changes. */
  lemma PlusRunDeleted(s: string, m: Match)
    requires FindAll(Pluses, s) == [m]
    ensures m.start + 2 <= m.end <= |s|
    ensures forall k :: m.start <= k < m.end ==> s[k] == '+'
    ensures m.end < |s| ==> s[m.end] != '+'
    ensures Apply(DebrisSteps[6], s) == s[..m.start] + s[m.end..]
  {
    SubAllOne(Pluses, s, [], m);
    assert FindAll(Pluses, s)[0] == m;
    assert MatchObject(Pluses, s, m.start) == Some(m);
    assert s[m.start] in s;
    assert Expand([], m.groups) == "";
  }

  /** What a match of `(\d+)\-(\w)` captures. */
  lemma HyphenHit(s: string, m: Match)
    requires m.start <= |s| && MatchObject(DigitsHyphenWord, s, m.start) == Some(m)
    ensures |m.groups| == 2 && m.start < m.end <= |s|
    ensures |m.groups[0]| > 0 && forall k :: 0 <= k < |m.groups[0]| ==> IsDigit(m.groups[0][k])
    ensures |m.groups[1]| == 1 && IsWord(m.groups[1][0])
    ensures s[m.start..m.end] == m.groups[0] + "-" + m.groups[1]
    ensures m.start + |m.groups[0]| < |s| && s[m.start + |m.groups[0]|] == '-'
  {
    var a := DigitEnd(s, m.start);
    assert m.groups == [s[m.start..a], s[a + 1..a + 2]];
    assert m.end == a + 2 && s[a] == '-';
    assert s[m.start..m.end] == s[m.start..a] + [s[a]] + s[a + 1..a + 2];
  }

  lemma SpacedTemplate(gs: seq<string>)
    requires |gs| == 2
    ensures Expand([Ref(0), Str(" - "), Ref(1)], gs) == gs[0] + " - " + gs[1]
  {
    var t := [Ref(0), Str(" - "), Ref(1)];
    assert t[1..] == [Str(" - "), Ref(1)] && t[1..][1..] == [Ref(1)] && t[1..][1..][1..] == [];
    assert Expand([Ref(1)], gs) == gs[1] + Expand([], gs);
    assert Expand([Str(" - "), Ref(1)], gs) == " - " + Expand([Ref(1)], gs);
    assert Expand(t, gs) == gs[0] + Expand([Str(" - "), Ref(1)], gs);
  }

  lemma HyphenSub(s: string, m: Match, t: seq<Piece>)
    requires t == [Ref(0), Str(" - "), Ref(1)]
    requires FindAll(DigitsHyphenWord, s) == [m]
    ensures |m.groups| == 2 && m.start < m.end <= |s|
    ensures s[m.start..m.end] == m.groups[0] + "-" + m.groups[1]
    ensures m.start + |m.groups[0]| < |s| && s[m.start + |m.groups[0]|] == '-'
    ensures SubAll(DigitsHyphenWord, s, t) == s[..m.start] + m.groups[0] + " - " + m.groups[1] + s[m.end..]
  {
    SubAllOne(DigitsHyphenWord, s, t, m);
    HyphenHit(s, m);
    SpacedTemplate(m.groups);
  }

  /** A single number directly followed by `-` and a word character gets the hyphen spaced. */
  lemma HyphenSpaced(s: string, m: Match)
    requires FindAll(DigitsHyphenWord, s) == [m]
    ensures |m.groups| == 2 && m.start < m.end <= |s|
    ensures |m.groups[0]| > 0 && forall k :: 0 <= k < |m.groups[0]| ==> IsDigit(m.groups[0][k])
    ensures |m.groups[1]| == 1 && IsWord(m.groups[1][0])
    ensures s[m.start..m.end] == m.groups[0] + "-" + m.groups[1]
    ensures Apply(TailSteps[7], s) == s[..m.start] + m.groups[0] + " - " + m.groups[1] + s[m.end..]
  {
    HyphenSub(s, m, TailSteps[7].t);
    SubAllOne(DigitsHyphenWord, s, [], m);
    HyphenHit(s, m);
    assert s[m.start + |m.groups[0]|] in s;
  }
}
