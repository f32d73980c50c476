/**
 * The two ways the cleaning passes loop over `re.findall` results. Both
 * compute one replacement text per match of the original scan (computing it
 * may raise, which ends the pass with that exception):
 *
 *  A. `for m in findall(p, s): s = re.sub(p, rep(m), s, 1)`: round i rewrites
 *     whatever match is leftmost at that moment;
 *  B. `for m in findall(find, s): s = re.sub(sub, rep(m), s)`: round i rewrites
 *     every current match of `sub`.
 */
module Loops {
  import opened Wrappers
  import opened Patterns
  import opened Regex

  /** Group `k` of a match (every pattern used with it has that group). */
  function Group(m: Match, k: nat): string {
    if k < |m.groups| then m.groups[k] else ""
  }

  /** The replacement texts, one per match in order, or the first exception. */
  function RepsOf(f: Match -> Result<string>, ms: seq<Match>): (r: Result<seq<string>>)
    ensures r.Ok? ==> |r.value| == |ms| && forall j :: 0 <= j < |ms| ==> f(ms[j]) == Ok(r.value[j])
    ensures r.Raised? ==> exists j :: 0 <= j < |ms| && f(ms[j]) == Raised(r.error)
    decreases |ms|
  {
    if |ms| == 0 then Ok([])
    else
      var n := |ms| - 1;
      match RepsOf(f, ms[..n])
      case Raised(e) => assert ms[..n][0] == ms[0]; Raised(e)
      case Ok(rs) =>
        match f(ms[n])
        case Raised(e) => Raised(e)
        case Ok(x) =>
          assert forall j :: 0 <= j < n ==> ms[..n][j] == ms[j];
          Ok(rs + [x])
  }

  /** Idiom A (the pattern `findall` scans with and the one `sub` rewrites with may differ). */
  function EachFirstOf(find: Pattern, sub: Pattern, s: string, f: Match -> Result<string>): Result<string> {
    match RepsOf(f, FindAll(find, s))
    case Ok(reps) => Ok(EachFirst(sub, s, reps))
    case Raised(e) => Raised(e)
  }

  /** Idiom B. */
  function EachAllOf(find: Pattern, sub: Pattern, s: string, f: Match -> Result<string>): Result<string> {
    match RepsOf(f, FindAll(find, s))
    case Ok(reps) => Ok(EachAll(sub, s, reps))
    case Raised(e) => Raised(e)
  }

  /** Two matches whose texts are both computed give exactly those two texts. */
  lemma RepsOfPair(f: Match -> Result<string>, ms: seq<Match>, x: string, y: string)
    requires |ms| == 2 && f(ms[0]) == Ok(x) && f(ms[1]) == Ok(y)
    ensures RepsOf(f, ms) == Ok([x, y])
  {
    var r := RepsOf(f, ms);
    assert r.value[0] == x && r.value[1] == y;
    assert r.value == [x, y];
  }

  /** An exception in a prefix of the rounds is the exception of the whole loop. */
  lemma {:induction false} RaisedPrefix(f: Match -> Result<string>, ms: seq<Match>, i: nat)
    requires i <= |ms| && RepsOf(f, ms[..i]).Raised?
    ensures RepsOf(f, ms) == RepsOf(f, ms[..i])
    decreases |ms|
  {
    if i == |ms| {
      assert ms[..i] == ms;
    } else {
      var n := |ms| - 1;
      assert ms[..n][..i] == ms[..i];
      RaisedPrefix(f, ms[..n], i);
    }
  }

  /** A round whose replacement raises ends the loop with that exception. */
  lemma RaisedRound(f: Match -> Result<string>, ms: seq<Match>, i: nat)
    requires i < |ms| && RepsOf(f, ms[..i]).Ok? && f(ms[i]).Raised?
    ensures RepsOf(f, ms) == Raised(f(ms[i]).error)
  {
    assert ms[..i + 1][..i] == ms[..i];
    RaisedPrefix(f, ms, i + 1);
  }

  lemma AllRaised(find: Pattern, sub: Pattern, s: string, f: Match -> Result<string>, i: nat)
    requires i < |FindAll(find, s)| && RepsOf(f, FindAll(find, s)[..i]).Ok? && f(FindAll(find, s)[i]).Raised?
    ensures EachAllOf(find, sub, s, f) == Raised(f(FindAll(find, s)[i]).error)
  {
    RaisedRound(f, FindAll(find, s), i);
  }

  lemma AllDone(find: Pattern, sub: Pattern, s: string, f: Match -> Result<string>, reps: seq<string>)
    requires RepsOf(f, FindAll(find, s)[..|FindAll(find, s)|]) == Ok(reps)
    ensures EachAllOf(find, sub, s, f) == Ok(EachAll(sub, s, reps))
  {
    assert FindAll(find, s)[..|FindAll(find, s)|] == FindAll(find, s);
  }

  lemma FirstRaised(find: Pattern, sub: Pattern, s: string, f: Match -> Result<string>, i: nat)
    requires i < |FindAll(find, s)| && RepsOf(f, FindAll(find, s)[..i]).Ok? && f(FindAll(find, s)[i]).Raised?
    ensures EachFirstOf(find, sub, s, f) == Raised(f(FindAll(find, s)[i]).error)
  {
    RaisedRound(f, FindAll(find, s), i);
  }

  /** Idiom A raises the error of the first replacement that raises. */
  /** A replacement that raises in any round makes the loop raise. */
  lemma AnyFailing(find: Pattern, sub: Pattern, s: string, f: Match -> Result<string>, i: nat)
    requires i < |FindAll(find, s)| && f(FindAll(find, s)[i]).Raised?
    ensures EachFirstOf(find, sub, s, f).Raised?
  {
    var ms := FindAll(find, s);
    if RepsOf(f, ms[..i]).Raised? {
      RaisedPrefix(f, ms, i);
    } else {
      RaisedRound(f, ms, i);
    }
  }

  lemma FirstFailing(find: Pattern, sub: Pattern, s: string, f: Match -> Result<string>, i: nat)
    requires i < |FindAll(find, s)| && f(FindAll(find, s)[i]).Raised?
    requires forall k :: 0 <= k < i ==> f(FindAll(find, s)[k]).Ok?
    ensures EachFirstOf(find, sub, s, f) == Raised(f(FindAll(find, s)[i]).error)
  {
    FirstRaised(find, sub, s, f, i);
  }

  lemma FirstDone(find: Pattern, sub: Pattern, s: string, f: Match -> Result<string>, reps: seq<string>)
    requires RepsOf(f, FindAll(find, s)[..|FindAll(find, s)|]) == Ok(reps)
    ensures EachFirstOf(find, sub, s, f) == Ok(EachFirst(sub, s, reps))
  {
    assert FindAll(find, s)[..|FindAll(find, s)|] == FindAll(find, s);
  }

  /** A round of idiom A. */
  lemma FirstRound(p: Pattern, s: string, f: Match -> Result<string>, ms: seq<Match>, i: nat, reps: seq<string>, x: string)
    requires i < |ms| && RepsOf(f, ms[..i]) == Ok(reps) && f(ms[i]) == Ok(x)
    ensures RepsOf(f, ms[..i + 1]) == Ok(reps + [x])
    ensures EachFirst(p, s, reps + [x]) == SubFirst(p, EachFirst(p, s, reps), x)
  {
    assert ms[..i + 1][..i] == ms[..i];
    assert (reps + [x])[..|reps|] == reps;
  }

  /** A round of idiom B. */
  lemma AllRound(sub: Pattern, s: string, f: Match -> Result<string>, ms: seq<Match>, i: nat, reps: seq<string>, x: string)
    requires i < |ms| && RepsOf(f, ms[..i]) == Ok(reps) && f(ms[i]) == Ok(x)
    ensures RepsOf(f, ms[..i + 1]) == Ok(reps + [x])
    ensures EachAll(sub, s, reps + [x]) == SubAll(sub, EachAll(sub, s, reps), [Str(x)])
  {
    assert ms[..i + 1][..i] == ms[..i];
    assert (reps + [x])[..|reps|] == reps;
  }

  /** The loop of idiom A. */
  method SubEachFirst(find: Pattern, sub: Pattern, s: string, f: Match -> Result<string>) returns (r: Result<string>)
    ensures r == EachFirstOf(find, sub, s, f)
  {
    var ms := FindAll(find, s);
    var cur, reps, i := s, [], 0;
    while i < |ms|
      invariant 0 <= i <= |ms|
      invariant RepsOf(f, ms[..i]) == Ok(reps) && cur == EachFirst(sub, s, reps)
    {
      var rep := f(ms[i]);
      if rep.Raised? {
        FirstRaised(find, sub, s, f, i);
        return Raised(rep.error);
      }
      FirstRound(sub, s, f, ms, i, reps, rep.value);
      cur, reps, i := SubFirst(sub, cur, rep.value), reps + [rep.value], i + 1;
    }
    FirstDone(find, sub, s, f, reps);
    return Ok(cur);
  }

  /** The loop of idiom B. */
  method SubEachAll(find: Pattern, sub: Pattern, s: string, f: Match -> Result<string>) returns (r: Result<string>)
    ensures r == EachAllOf(find, sub, s, f)
  {
    var ms := FindAll(find, s);
    var cur, reps, i := s, [], 0;
    while i < |ms|
      invariant 0 <= i <= |ms|
      invariant RepsOf(f, ms[..i]) == Ok(reps) && cur == EachAll(sub, s, reps)
    {
      var rep := f(ms[i]);
      if rep.Raised? {
        AllRaised(find, sub, s, f, i);
        return Raised(rep.error);
      }
      AllRound(sub, s, f, ms, i, reps, rep.value);
      cur, reps, i := SubAll(sub, cur, [Str(rep.value)]), reps + [rep.value], i + 1;
    }
    AllDone(find, sub, s, f, reps);
    return Ok(cur);
  }

  /** The replacement texts, one per match in order, when computing them cannot raise. */
  function TextsOf(f: Match -> string, ms: seq<Match>): (r: seq<string>)
    ensures |r| == |ms| && forall j :: 0 <= j < |ms| ==> r[j] == f(ms[j])
    decreases |ms|
  {
    if |ms| == 0 then [] else TextsOf(f, ms[..|ms| - 1]) + [f(ms[|ms| - 1])]
  }

  /** Idiom A with replacements that cannot raise. */
  function EachFirstWith(find: Pattern, sub: Pattern, s: string, f: Match -> string): string {
    EachFirst(sub, s, TextsOf(f, FindAll(find, s)))
  }

  /** Idiom B with replacements that cannot raise. */
  function EachAllWith(find: Pattern, sub: Pattern, s: string, f: Match -> string): string {
    EachAll(sub, s, TextsOf(f, FindAll(find, s)))
  }

  lemma WithRound(sub: Pattern, s: string, f: Match -> string, ms: seq<Match>, i: nat)
    requires i < |ms|
    ensures TextsOf(f, ms[..i + 1]) == TextsOf(f, ms[..i]) + [f(ms[i])]
    ensures EachFirst(sub, s, TextsOf(f, ms[..i + 1])) == SubFirst(sub, EachFirst(sub, s, TextsOf(f, ms[..i])), f(ms[i]))
    ensures EachAll(sub, s, TextsOf(f, ms[..i + 1])) == SubAll(sub, EachAll(sub, s, TextsOf(f, ms[..i])), [Str(f(ms[i]))])
  {
    assert ms[..i + 1][..i] == ms[..i];
    var reps := TextsOf(f, ms[..i]);
    assert (reps + [f(ms[i])])[..|reps|] == reps;
  }

  /** The loop of idiom A, replacements that cannot raise. */
  method SubEachFirstWith(find: Pattern, sub: Pattern, s: string, f: Match -> string) returns (r: string)
    ensures r == EachFirstWith(find, sub, s, f)
  {
    var ms := FindAll(find, s);
    r := s;
    for i := 0 to |ms|
      invariant r == EachFirst(sub, s, TextsOf(f, ms[..i]))
    {
      WithRound(sub, s, f, ms, i);
      r := SubFirst(sub, r, f(ms[i]));
    }
    assert ms[..|ms|] == ms;
  }

  /** The loop of idiom B, replacements that cannot raise. */
  method SubEachAllWith(find: Pattern, sub: Pattern, s: string, f: Match -> string) returns (r: string)
    ensures r == EachAllWith(find, sub, s, f)
  {
    var ms := FindAll(find, s);
    r := s;
    for i := 0 to |ms|
      invariant r == EachAll(sub, s, TextsOf(f, ms[..i]))
    {
      WithRound(sub, s, f, ms, i);
      r := SubAll(sub, r, [Str(f(ms[i]))]);
    }
    assert ms[..|ms|] == ms;
  }

  /** The loop of idiom B when the replacement is the same for every match. */
  method SubRounds(find: Pattern, sub: Pattern, s: string, t: seq<Piece>) returns (r: string)
    ensures r == Rounds(sub, s, t, |FindAll(find, s)|)
  {
    var ms := FindAll(find, s);
    r := s;
    for i := 0 to |ms|
      invariant r == Rounds(sub, s, t, i)
    {
      r := SubAll(sub, r, t);
    }
  }

  // ---------------------------------------------------------------------
  // Properties
  // ---------------------------------------------------------------------

  /** Without a match neither loop runs. */
  lemma NoMatchLoops(p: Pattern, sub: Pattern, s: string, f: Match -> Result<string>)
    requires NoMatchFrom(p, s, 0)
    ensures EachFirstOf(p, sub, s, f) == Ok(s) && EachAllOf(p, sub, s, f) == Ok(s)
  {
    NoMatchKeeps(p, s, [], "");
  }

  /** A scan that finds a single match whose text is computed: either idiom rewrites that match alone. */
  lemma OneOf(p: Pattern, s: string, f: Match -> Result<string>, m: Match, x: string)
    requires FindAll(p, s) == [m] && f(m) == Ok(x)
    ensures m.start < m.end <= |s|
    ensures EachFirstOf(p, p, s, f) == Ok(s[..m.start] + x + s[m.end..])
    ensures EachAllOf(p, p, s, f) == Ok(s[..m.start] + x + s[m.end..])
  {
    OneRep(f, m, x);
    assert RepsOf(f, FindAll(p, s)) == Ok([x]);
    OneFirst(p, s, m, x);
    OneAll(p, s, m, x);
  }

  /** `OneOf` for a match whose bounds and surrounding text are known. */
  lemma OneAt(p: Pattern, s: string, f: Match -> Result<string>, m: Match, i: nat, e: nat, x: string, pre: string, post: string)
    requires FindAll(p, s) == [m] && f(m) == Ok(x) && m.start == i && m.end == e
    requires i <= e <= |s| && s[..i] == pre && s[e..] == post
    ensures EachFirstOf(p, p, s, f) == Ok(pre + x + post)
    ensures EachAllOf(p, p, s, f) == Ok(pre + x + post)
  {
    OneOf(p, s, f, m, x);
  }

  /** A scan that finds a single match: either idiom, with replacements that cannot raise, rewrites that match alone. */
  lemma OneWith(p: Pattern, s: string, f: Match -> string, m: Match)
    requires FindAll(p, s) == [m]
    ensures m.start < m.end <= |s|
    ensures EachFirstWith(p, p, s, f) == s[..m.start] + f(m) + s[m.end..]
    ensures EachAllWith(p, p, s, f) == s[..m.start] + f(m) + s[m.end..]
  {
    assert TextsOf(f, [m]) == TextsOf(f, [m][..0]) + [f(m)];
    OneFirst(p, s, m, f(m));
    OneAll(p, s, m, f(m));
  }

  /** When the one match's replacement raises, both idioms raise it. */
  lemma OneRaised(p: Pattern, s: string, f: Match -> Result<string>, m: Match, e: PyError)
    requires FindAll(p, s) == [m] && f(m) == Raised(e)
    ensures EachFirstOf(p, p, s, f) == Raised(e)
    ensures EachAllOf(p, p, s, f) == Raised(e)
  {
    assert FindAll(p, s)[..0] == [];
    FirstRaised(p, p, s, f, 0);
    AllRaised(p, p, s, f, 0);
  }

  lemma OneRep(f: Match -> Result<string>, m: Match, x: string)
    requires f(m) == Ok(x)
    ensures RepsOf(f, [m]) == Ok([x])
  {
    var reps := RepsOf(f, [m]);
    assert [m][0] == m;
    assert [m][0] == m && f([m][0]) == Ok(reps.value[0]);
    assert reps.value == [reps.value[0]];
  }

  lemma TwoReps(f: Match -> Result<string>, m: Match, m2: Match)
    requires f(m).Ok? && f(m2).Ok?
    ensures RepsOf(f, [m, m2]) == Ok([f(m).value, f(m2).value])
  {
    var ms := [m, m2];
    assert ms[..1] == [m] && ms[1] == m2;
    OneRep(f, m, f(m).value);
    assert RepsOf(f, ms) == Ok([f(m).value] + [f(m2).value]);
    assert [f(m).value] + [f(m2).value] == [f(m).value, f(m2).value];
  }

  lemma OneFirst(p: Pattern, s: string, m: Match, x: string)
    requires FindAll(p, s) == [m]
    ensures m.start < m.end <= |s|
    ensures EachFirst(p, s, [x]) == s[..m.start] + x + s[m.end..]
  {
    assert [x][..0] == [];
    FirstFound(p, s);
  }

  lemma OneAll(p: Pattern, s: string, m: Match, x: string)
    requires FindAll(p, s) == [m]
    ensures m.start < m.end <= |s|
    ensures EachAll(p, s, [x]) == s[..m.start] + x + s[m.end..]
  {
    assert [x][..0] == [];
    assert EachAll(p, s, [x]) == SubAll(p, s, [Str(x)]);
    SubAllOne(p, s, [Str(x)], m);
    assert [Str(x)][1..] == [];
    assert Expand([Str(x)], m.groups) == x;
  }

  /**
   * Idiom B where the first round leaves no match: every match of the text
   * gets the text computed from the first one.
   */
  lemma FirstOverwrites(p: Pattern, s: string, f: Match -> Result<string>, x: string)
    requires |FindAll(p, s)| > 0 && RepsOf(f, FindAll(p, s)).Ok? && f(FindAll(p, s)[0]) == Ok(x)
    requires NoMatchFrom(p, SubAll(p, s, [Str(x)]), 0)
    ensures EachAllOf(p, p, s, f) == Ok(SubAll(p, s, [Str(x)]))
  {
    var reps := RepsOf(f, FindAll(p, s)).value;
    assert reps[0] == x;
    EachAllSettles(p, s, reps);
  }

  /**
   * Idiom B settles after its first round when that round leaves no match:
   * every match of the text gets the first match's replacement.
   */
  lemma {:induction false} EachAllSettles(sub: Pattern, s: string, reps: seq<string>)
    requires |reps| > 0 && NoMatchFrom(sub, SubAll(sub, s, [Str(reps[0])]), 0)
    ensures EachAll(sub, s, reps) == SubAll(sub, s, [Str(reps[0])])
    decreases |reps|
  {
    var n := |reps| - 1;
    if n > 0 {
      assert reps[..n][0] == reps[0];
      EachAllSettles(sub, s, reps[..n]);
      NoMatchKeeps(sub, SubAll(sub, s, [Str(reps[0])]), [Str(reps[n])], "");
    } else {
      assert reps[..n] == [];
    }
  }
}
