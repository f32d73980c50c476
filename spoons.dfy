/**
 * The spoon abbreviations `[Tt]bsp` and `[Tt]sp`, counted. The unit words
 * the spoon rewrites write, "tablespoon" and "teaspoon", hold neither
 * abbreviation and cannot complete one with the text around them, so each
 * `sub(..., 1)` round removes exactly one abbreviation and a `sub` with no
 * count removes them all.
 */
module Spoons {
  import opened Wrappers
  import opened Strings
  import opened Patterns
  import opened Regex

  predicate SpoonBody(body: string) { body == "bsp" || body == "sp" }

  predicate SpoonWord(w: string) { w == "tablespoon" || w == "teaspoon" }

  /** `[Tt]body` starts at `k`: exactly the places where `[Tt]body\.*` matches. */
  predicate Starts(body: string, s: string, k: nat) {
    k < |s| && (s[k] == 'T' || s[k] == 't') && StartsWith(s, k + 1, body)
  }

  /** The number of places from `k` on where `[Tt]body` starts. */
  function Count(body: string, s: string, k: nat): nat
    decreases |s| - k
  {
    if k >= |s| then 0 else (if Starts(body, s, k) then 1 else 0) + Count(body, s, k + 1)
  }

  // ---------------------------------------------------------------------
  // Counting
  // ---------------------------------------------------------------------

  lemma MatchStarts(body: string, s: string)
    ensures forall k :: 0 <= k <= |s| ==> (MatchAt(Spoon(body), s, k).Some? <==> Starts(body, s, k))
  {
  }

  lemma {:induction false} Skip(body: string, s: string, i: nat, j: nat)
    requires i <= j <= |s|
    requires forall k :: i <= k < j ==> !Starts(body, s, k)
    ensures Count(body, s, i) == Count(body, s, j)
    decreases j - i
  {
    if i < j {
      Skip(body, s, i + 1, j);
    }
  }

  /** The count from `i` is zero exactly when no abbreviation starts from `i` on. */
  lemma {:induction false} CountZero(body: string, s: string, i: nat)
    requires i <= |s|
    ensures Count(body, s, i) == 0 <==> forall k :: i <= k < |s| ==> !Starts(body, s, k)
    decreases |s| - i
  {
    if i < |s| {
      CountZero(body, s, i + 1);
    }
  }

  /** A zero count is what Python sees as "no match". */
  lemma NoMatchCount(body: string, s: string)
    ensures Count(body, s, 0) == 0 <==> NoMatchFrom(Spoon(body), s, 0)
  {
    CountZero(body, s, 0);
    assert forall k :: 0 <= k <= |s| ==> (MatchAt(Spoon(body), s, k).Some? <==> Starts(body, s, k));
  }

  /** The count depends only on the text from the starting place on. */
  lemma {:induction false} Shift(body: string, s: string, i: nat, t: string, j: nat)
    requires i <= |s| && j <= |t| && s[i..] == t[j..]
    ensures Count(body, s, i) == Count(body, t, j)
    decreases |s| - i
  {
    assert |s| - i == |s[i..]| == |t[j..]| == |t| - j;
    if i < |s| {
      assert s[i] == s[i..][0] == t[j..][0] == t[j];
      if i + 1 + |body| <= |s| {
        SliceOfSlice(s, i, 1, 1 + |body|);
        SliceOfSlice(t, j, 1, 1 + |body|);
      }
      assert Starts(body, s, i) <==> Starts(body, t, j);
      assert s[i + 1..] == s[i..][1..] && t[j + 1..] == t[j..][1..];
      Shift(body, s, i + 1, t, j + 1);
    }
  }

  lemma BodyLetters(body: string)
    requires SpoonBody(body)
    ensures forall k :: 0 <= k < |body| ==> body[k] != 'T' && body[k] != 't'
    ensures body[0] != 'a' && body[0] != 'e'
  {
  }

  /** Inside a match no other abbreviation starts: the body has no `T` or `t`, and the points are points. */
  lemma Inside(body: string, s: string, a: nat)
    requires SpoonBody(body) && a + 1 + |body| <= |s| && Starts(body, s, a)
    ensures forall k :: a < k < RunEnd(s, a + 1 + |body|, IsDot) ==> !Starts(body, s, k)
  {
    BodyLetters(body);
    forall k | a < k < RunEnd(s, a + 1 + |body|, IsDot) ensures !Starts(body, s, k) {
      if k < a + 1 + |body| {
        assert s[k] == s[a + 1..a + 1 + |body|][k - a - 1] == body[k - a - 1];
      }
    }
  }

  /** `findall` finds one match per abbreviation. */
  lemma {:induction false} Counted(body: string, s: string, pos: nat)
    requires SpoonBody(body) && pos <= |s|
    ensures |FindAllFrom(Spoon(body), s, pos)| == Count(body, s, pos)
    decreases |s| - pos
  {
    match Search(Spoon(body), s, pos)
    case None =>
      MatchStarts(body, s);
      assert forall k :: pos <= k < |s| ==> MatchAt(Spoon(body), s, k).None?;
      Skip(body, s, pos, |s|);
    case Some(m) =>
      Counted(body, s, m.end);
      CountFound(body, s, pos, m);
  }

  /** A spoon match is an abbreviation and the points after it. */
  lemma SpoonObject(body: string, s: string, k: nat)
    requires k <= |s|
    ensures MatchObject(Spoon(body), s, k).Some? <==> Starts(body, s, k)
    ensures MatchObject(Spoon(body), s, k).Some? ==>
              k + 1 + |body| <= |s| && MatchObject(Spoon(body), s, k).value.end == RunEnd(s, k + 1 + |body|, IsDot)
  {
  }

  /** The abbreviation the search finds is counted once, and nothing else up to the end of its match. */
  lemma CountFound(body: string, s: string, pos: nat, m: Match)
    requires SpoonBody(body) && pos <= |s| && Search(Spoon(body), s, pos) == Some(m)
    ensures m.end <= |s| && Count(body, s, pos) == 1 + Count(body, s, m.end)
  {
    var a := m.start;
    assert a + 1 + |body| <= |s| && Starts(body, s, a) && m.end == RunEnd(s, a + 1 + |body|, IsDot) by {
      SpoonObject(body, s, a);
    }
    assert forall k :: pos <= k < a ==> !Starts(body, s, k) by {
      NoMatchNoStart(body, s, pos, a);
    }
    CountRun(body, s, pos, a);
  }

  /** One abbreviation at `a`, none between `pos` and `a`: it is counted once up to the end of its points. */
  lemma CountRun(body: string, s: string, pos: nat, a: nat)
    requires SpoonBody(body) && pos <= a && a + 1 + |body| <= |s| && Starts(body, s, a)
    requires forall k :: pos <= k < a ==> !Starts(body, s, k)
    ensures Count(body, s, pos) == 1 + Count(body, s, RunEnd(s, a + 1 + |body|, IsDot))
  {
    Skip(body, s, pos, a);
    assert Count(body, s, a) == 1 + Count(body, s, a + 1);
    Inside(body, s, a);
    Skip(body, s, a + 1, RunEnd(s, a + 1 + |body|, IsDot));
  }

  /** Where the pattern does not match, no abbreviation starts. */
  lemma NoMatchNoStart(body: string, s: string, i: nat, j: nat)
    requires i <= j <= |s|
    requires forall k :: i <= k < j ==> MatchAt(Spoon(body), s, k).None?
    ensures forall k :: i <= k < j ==> !Starts(body, s, k)
  {
    MatchStarts(body, s);
  }

  // ---------------------------------------------------------------------
  // Writing a unit word
  // ---------------------------------------------------------------------

  lemma WordLetters(w: string)
    requires SpoonWord(w)
    ensures |w| > 2 && w[0] == 't' && (w[1] == 'a' || w[1] == 'e')
    ensures forall k :: 0 < k < |w| ==> w[k] != 'T' && w[k] != 't'
  {
  }

  /** No abbreviation starts in `x` or in the unit word after it. */
  lemma SpliceAt(body: string, x: string, w: string, y: string, k: nat)
    requires SpoonBody(body) && SpoonWord(w)
    requires forall j :: 0 <= j < |x| ==> !Starts(body, x, j)
    requires k < |x| + |w|
    ensures !Starts(body, x + w + y, k)
  {
    var z := x + w + y;
    BodyLetters(body);
    WordLetters(w);
    if k < |x| {
      if k + 1 + |body| <= |x| {
        assert z[k] == x[k];
        assert z[k + 1..k + 1 + |body|] == x[k + 1..k + 1 + |body|];
        assert !Starts(body, x, k);
        assert !Starts(body, z, k);
      } else if k + 1 + |body| <= |z| {
        var j := |x| - k - 1;
        assert z[k + 1..k + 1 + |body|][j] == z[|x|] == w[0];
        assert body[j] != w[0];
        assert z[k + 1..k + 1 + |body|] != body;
      }
    } else if k == |x| {
      if k + 1 + |body| <= |z| {
        assert z[k + 1..k + 1 + |body|][0] == z[k + 1] == w[1];
        assert body[0] != w[1];
        assert z[k + 1..k + 1 + |body|] != body;
      }
    } else {
      assert z[k] == w[k - |x|];
      assert !Starts(body, z, k);
    }
  }

  /**
   * Writing a unit word after a text in which no abbreviation starts:
   * the count of the whole is the count of what follows the word.
   */
  lemma Splice(body: string, x: string, w: string, y: string)
    requires SpoonBody(body) && SpoonWord(w)
    requires forall j :: 0 <= j < |x| ==> !Starts(body, x, j)
    ensures Count(body, x + w + y, 0) == Count(body, y, 0)
  {
    var z := x + w + y;
    forall k | 0 <= k < |x| + |w| ensures !Starts(body, z, k) {
      SpliceAt(body, x, w, y, k);
    }
    Skip(body, z, 0, |x| + |w|);
    assert z[|x| + |w|..] == y[0..];
    Shift(body, z, |x| + |w|, y, 0);
  }

  /** A slice of `s` holds an abbreviation only where `s` does. */
  lemma SliceStarts(body: string, s: string, lo: nat, hi: nat, k: nat)
    requires lo <= hi <= |s| && k < hi - lo
    ensures Starts(body, s[lo..hi], k) ==> Starts(body, s, lo + k)
  {
    var x := s[lo..hi];
    assert s[lo + k] == x[k];
    if k + 1 + |body| <= |x| {
      SliceOfSlice(s[..hi], lo, k + 1, k + 1 + |body|);
      assert s[..hi][lo..] == x;
      assert s[lo + k + 1..lo + k + 1 + |body|] == s[..hi][lo + k + 1..lo + k + 1 + |body|];
    }
  }

  lemma SliceOfSlice(s: string, i: nat, a: nat, b: nat)
    requires i <= |s| && a <= b <= |s| - i
    ensures s[i..][a..b] == s[i + a..i + b]
  {
    assert forall q :: 0 <= q < b - a ==> s[i..][a..b][q] == s[i + a + q];
  }

  // ---------------------------------------------------------------------
  // The rewriting rounds
  // ---------------------------------------------------------------------

  /** One `sub(..., 1)` round of the same abbreviation removes exactly one, when there is one. */
  lemma SubFirstCounts(body: string, s: string, w: string)
    requires SpoonBody(body) && SpoonWord(w)
    ensures Count(body, SubFirst(Spoon(body), s, w), 0) == if Count(body, s, 0) == 0 then 0 else Count(body, s, 0) - 1
  {
    match Search(Spoon(body), s, 0)
    case None =>
      MatchStarts(body, s);
      assert forall k :: 0 <= k < |s| ==> MatchAt(Spoon(body), s, k).None?;
      Skip(body, s, 0, |s|);
    case Some(m) =>
      WordCounted(body, s, w, m);
      CountFound(body, s, 0, m);
  }

  /** Writing the unit word over the first abbreviation leaves the count of what follows its match. */
  lemma WordCounted(body: string, s: string, w: string, m: Match)
    requires SpoonBody(body) && SpoonWord(w) && Search(Spoon(body), s, 0) == Some(m)
    ensures m.end <= |s| && Count(body, s[..m.start] + w + s[m.end..], 0) == Count(body, s, m.end)
  {
    var x := s[..m.start];
    MatchStarts(body, s);
    forall j | 0 <= j < |x| ensures !Starts(body, x, j) {
      SliceStarts(body, s, 0, m.start, j);
      assert MatchAt(Spoon(body), s, j).None?;
    }
    Splice(body, x, w, s[m.end..]);
    assert s[m.end..][0..] == s[m.end..];
    Shift(body, s[m.end..], 0, s, m.end);
  }

  /** A round of either rewrite keeps a text free of the other abbreviation. */
  lemma SubFirstKeeps(body: string, other: string, s: string, w: string)
    requires SpoonBody(body) && SpoonBody(other) && SpoonWord(w) && Count(body, s, 0) == 0
    ensures Count(body, SubFirst(Spoon(other), s, w), 0) == 0
  {
    match Search(Spoon(other), s, 0)
    case None =>
    case Some(m) =>
      CountZero(body, s, 0);
      var x := s[..m.start];
      assert s[0..m.start] == x;
      forall j | 0 <= j < |x| ensures !Starts(body, x, j) {
        SliceStarts(body, s, 0, m.start, j);
      }
      Splice(body, x, w, s[m.end..]);
      assert s[m.end..][0..] == s[m.end..];
      Shift(body, s[m.end..], 0, s, m.end);
      CountZero(body, s, m.end);
  }

  /**
   * Idiom A over the abbreviation itself: after `n` rounds, `n` fewer
   * abbreviations are left, and none once `n` reaches the count.
   */
  lemma {:induction false} SpoonRoundsCount(body: string, s: string, reps: seq<string>)
    requires SpoonBody(body) && forall j :: 0 <= j < |reps| ==> SpoonWord(reps[j])
    ensures Count(body, EachFirst(Spoon(body), s, reps), 0)
            == if |reps| >= Count(body, s, 0) then 0 else Count(body, s, 0) - |reps|
    decreases |reps|
  {
    if |reps| > 0 {
      var n := |reps| - 1;
      SpoonRoundsCount(body, s, reps[..n]);
      SubFirstCounts(body, EachFirst(Spoon(body), s, reps[..n]), reps[n]);
    }
  }

  /** Idiom A over the other abbreviation keeps a text free of this one. */
  lemma {:induction false} SpoonRoundsKeep(body: string, other: string, s: string, reps: seq<string>)
    requires SpoonBody(body) && SpoonBody(other) && forall j :: 0 <= j < |reps| ==> SpoonWord(reps[j])
    requires Count(body, s, 0) == 0
    ensures Count(body, EachFirst(Spoon(other), s, reps), 0) == 0
    decreases |reps|
  {
    if |reps| > 0 {
      var n := |reps| - 1;
      SpoonRoundsKeep(body, other, s, reps[..n]);
      SubFirstKeeps(body, other, EachFirst(Spoon(other), s, reps[..n]), reps[n]);
    }
  }

  /**
   * A `sub` with no count: over the abbreviation itself it leaves none, and
   * over the other abbreviation it keeps a text free of this one.
   */
  lemma {:induction false} SubAllClears(body: string, other: string, s: string, pos: nat, w: string)
    requires SpoonBody(body) && SpoonBody(other) && SpoonWord(w) && pos <= |s|
    requires body == other || Count(body, s, pos) == 0
    ensures Count(body, SubAllFrom(Spoon(other), s, pos, [Str(w)]), 0) == 0
    decreases |s| - pos
  {
    CountZero(body, s, pos);
    match Search(Spoon(other), s, pos)
    case None =>
      assert s[pos..][0..] == s[pos..];
      Shift(body, s[pos..], 0, s, pos);
      if body == other {
        MatchStarts(body, s);
        assert forall k :: pos <= k < |s| ==> MatchAt(Spoon(body), s, k).None?;
      }
    case Some(m) =>
      var x := s[pos..m.start];
      MatchStarts(body, s);
      forall j | 0 <= j < |x| ensures !Starts(body, x, j) {
        SliceStarts(body, s, pos, m.start, j);
        if body == other {
          assert MatchAt(Spoon(body), s, pos + j).None?;
        }
      }
      CountZero(body, s, m.end);
      SubAllClears(body, other, s, m.end, w);
      var rest := SubAllFrom(Spoon(other), s, m.end, [Str(w)]);
      assert Expand([Str(w)], m.groups) == w + Expand([], m.groups);
      assert SubAllFrom(Spoon(other), s, pos, [Str(w)]) == x + w + rest;
      Splice(body, x, w, rest);
  }

  /**
   * Idiom B: the first round over the abbreviation itself leaves none, and
   * every other round keeps it that way.
   */
  lemma {:induction false} SpoonSubsClear(body: string, other: string, s: string, reps: seq<string>)
    requires SpoonBody(body) && SpoonBody(other) && forall j :: 0 <= j < |reps| ==> SpoonWord(reps[j])
    requires (body == other && |reps| >= Count(body, s, 0)) || Count(body, s, 0) == 0
    ensures Count(body, EachAll(Spoon(other), s, reps), 0) == 0
    decreases |reps|
  {
    if |reps| > 0 {
      var n := |reps| - 1;
      var prefix := EachAll(Spoon(other), s, reps[..n]);
      if body != other {
        SpoonSubsClear(body, other, s, reps[..n]);
      }
      SubAllClears(body, other, prefix, 0, reps[n]);
    }
  }

  // ---------------------------------------------------------------------
  // One abbreviation
  // ---------------------------------------------------------------------

  /** One abbreviation `[Tt]body` and its points, between texts that hold none, is the scan's only match. */
  lemma SpoonAlone(body: string, x: string, c: char, dots: string, y: string)
    requires SpoonBody(body) && (c == 'T' || c == 't') && forall k :: 0 <= k < |dots| ==> dots[k] == '.'
    requires NoMatchFrom(Spoon(body), x, 0) && NoMatchFrom(Spoon(body), y, 0) && (|y| == 0 || y[0] != '.')
    ensures MatchObject(Spoon(body), x + [c] + body + dots + y, |x|).Some?
    ensures MatchObject(Spoon(body), x + [c] + body + dots + y, |x|).value.end == |x| + 1 + |body| + |dots|
    ensures FindAll(Spoon(body), x + [c] + body + dots + y) == [MatchObject(Spoon(body), x + [c] + body + dots + y, |x|).value]
  {
    var s := x + [c] + body + dots + y;
    var a, e := |x|, |x| + 1 + |body| + |dots|;
    AbbreviationAt(body, x, c, dots, y);
    SpoonObject(body, s, a);
    Inside(body, s, a);
    MatchStarts(body, x);
    MatchStarts(body, y);
    forall k | 0 <= k < a ensures !Starts(body, s, k) {
      NotStartedBefore(body, s, x, c, k);
    }
    forall k | e <= k <= |s| ensures !Starts(body, s, k) {
      NotStartedAfter(body, s, e, y, k);
    }
    MatchStarts(body, s);
    FindsOnly(Spoon(body), s, a);
  }

  lemma AbbreviationAt(body: string, x: string, c: char, dots: string, y: string)
    requires (c == 'T' || c == 't') && forall k :: 0 <= k < |dots| ==> dots[k] == '.'
    requires |y| == 0 || y[0] != '.'
    ensures Starts(body, x + [c] + body + dots + y, |x|)
    ensures RunEnd(x + [c] + body + dots + y, |x| + 1 + |body|, IsDot) == |x| + 1 + |body| + |dots|
  {
    var s := x + [c] + body + dots + y;
    var a, e := |x|, |x| + 1 + |body| + |dots|;
    Laid(x, c, body, dots, y);
    forall k | a + 1 + |body| <= k < e ensures IsDot(s[k]) {
    }
    RunEndAt(s, a + 1 + |body|, e, IsDot);
  }

  /** Where the pieces of `x + [c] + body + dots + y` lie. */
  lemma Laid(x: string, c: char, body: string, dots: string, y: string)
    requires c == 'T' || c == 't'
    ensures Starts(body, x + [c] + body + dots + y, |x|)
    ensures forall k :: 0 <= k < |dots| ==> (x + [c] + body + dots + y)[|x| + 1 + |body| + k] == dots[k]
    ensures |y| > 0 ==> (x + [c] + body + dots + y)[|x| + 1 + |body| + |dots|] == y[0]
  {
    var s := x + [c] + body + dots + y;
    forall j | 0 <= j < |body| ensures s[|x| + 1 + j] == body[j] {
    }
    assert s[|x| + 1..|x| + 1 + |body|] == body;
  }

  /** Before the abbreviation, an abbreviation could only start in `x`, or run into the `[Tt]`, which no body holds. */
  lemma NotStartedBefore(body: string, s: string, x: string, c: char, k: nat)
    requires SpoonBody(body) && (c == 'T' || c == 't') && |x| < |s| && s[..|x|] == x && s[|x|] == c
    requires k < |x| && !Starts(body, x, k)
    ensures !Starts(body, s, k)
  {
    BodyLetters(body);
    assert s[k] == x[k];
    if k + 1 + |body| <= |x| {
      assert s[k + 1..k + 1 + |body|] == x[k + 1..k + 1 + |body|];
    } else if k + 1 + |body| <= |s| {
      assert s[k + 1..k + 1 + |body|][|x| - k - 1] == c;
    }
  }

  lemma NotStartedAfter(body: string, s: string, e: nat, y: string, k: nat)
    requires e <= k <= |s| && s[e..] == y && (k < |s| ==> !Starts(body, y, k - e))
    ensures !Starts(body, s, k)
  {
    if k < |s| {
      assert s[k] == y[k - e];
      if k + 1 + |body| <= |s| {
        var u, v := s[k + 1..k + 1 + |body|], y[k - e + 1..k - e + 1 + |body|];
        forall j | 0 <= j < |body| ensures u[j] == v[j] {
          assert u[j] == s[k + 1 + j] && v[j] == y[k - e + 1 + j];
        }
      }
    }
  }
}
