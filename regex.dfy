/**
 * Python's scanning functions over one compiled pattern: `search` (the
 * leftmost match at or after a position), `findall`, `sub` with and without
 * a count, and the two ways the cleaning passes loop over `findall`
 * results. All patterns of the core consume at least one character, so
 * each scan resumes where the previous match ended.
 */
module Regex {
  import opened Wrappers
  import opened Patterns

  /** A match object: where it starts and ends, and the text of each group. */
  datatype Match = Match(start: nat, end: nat, groups: seq<string>)

  /** A replacement template: literal text and group references (`Ref(0)` is `\1`). */
  datatype Piece = Str(text: string) | Ref(group: nat)

  function Texts(s: string, spans: seq<Span>): (r: seq<string>)
    requires SpansIn(spans, 0, |s|)
    ensures |r| == |spans|
    ensures forall j :: 0 <= j < |r| ==> r[j] == s[spans[j].lo..spans[j].hi]
  {
    if |spans| == 0 then [] else [s[spans[0].lo..spans[0].hi]] + Texts(s, spans[1..])
  }

  /** `p.match(s, k)` as a match object. */
  function MatchObject(p: Pattern, s: string, k: nat): (r: Option<Match>)
    requires k <= |s|
    ensures r.Some? <==> MatchAt(p, s, k).Some?
    ensures r.Some? ==> r.value.start == k < r.value.end <= |s|
  {
    match MatchAt(p, s, k)
    case Some(h) => Some(Match(k, h.end, Texts(s, h.spans)))
    case None => None
  }

  /** `p.search(s, pos)`: the leftmost position from `pos` on where the pattern matches. */
  function Search(p: Pattern, s: string, pos: nat): (r: Option<Match>)
    requires pos <= |s|
    ensures r.Some? ==> pos <= r.value.start < r.value.end <= |s| && MatchObject(p, s, r.value.start) == r
    ensures r.Some? ==> forall k :: pos <= k < r.value.start ==> MatchAt(p, s, k).None?
    ensures r.None? ==> forall k :: pos <= k <= |s| ==> MatchAt(p, s, k).None?
    decreases |s| - pos
  {
    match MatchObject(p, s, pos)
    case Some(m) => Some(m)
    case None => if pos == |s| then None else Search(p, s, pos + 1)
  }

  /** `p.findall(s[pos:])`, as match objects: leftmost, non-overlapping, in order. */
  function FindAllFrom(p: Pattern, s: string, pos: nat): (r: seq<Match>)
    requires pos <= |s|
    ensures forall j :: 0 <= j < |r| ==> pos <= r[j].start < r[j].end <= |s|
    ensures forall j :: 0 < j < |r| ==> r[j - 1].end <= r[j].start
    ensures forall j :: 0 <= j < |r| ==> MatchObject(p, s, r[j].start) == Some(r[j])
    ensures |r| == 0 <==> Search(p, s, pos).None?
    decreases |s| - pos
  {
    match Search(p, s, pos)
    case Some(m) => [m] + FindAllFrom(p, s, m.end)
    case None => []
  }

  function FindAll(p: Pattern, s: string): seq<Match> {
    FindAllFrom(p, s, 0)
  }

  /** The replacement text for one match. */
  function Expand(t: seq<Piece>, groups: seq<string>): string {
    if |t| == 0 then ""
    else
      var head := match t[0] case Str(x) => x case Ref(g) => if g < |groups| then groups[g] else "";
      head + Expand(t[1..], groups)
  }

  /** `p.sub(t, s[pos:])` with no count: every match found by the scan is replaced. */
  function SubAllFrom(p: Pattern, s: string, pos: nat, t: seq<Piece>): string
    requires pos <= |s|
    decreases |s| - pos
  {
    match Search(p, s, pos)
    case Some(m) => s[pos..m.start] + Expand(t, m.groups) + SubAllFrom(p, s, m.end, t)
    case None => s[pos..]
  }

  function SubAll(p: Pattern, s: string, t: seq<Piece>): string {
    SubAllFrom(p, s, 0, t)
  }

  /** `p.sub(rep, s, 1)` for a replacement without backslashes: the leftmost match only. */
  function SubFirst(p: Pattern, s: string, rep: string): string {
    match Search(p, s, 0)
    case Some(m) => s[..m.start] + rep + s[m.end..]
    case None => s
  }

  /**
   * Loop idiom A: `for m in findall: s = sub(p, reps[i], s, 1)`. Round i
   * rewrites whatever match is leftmost at that moment with the text
   * computed from the i-th match of the original scan.
   */
  function EachFirst(p: Pattern, s: string, reps: seq<string>): string
    decreases |reps|
  {
    if |reps| == 0 then s else SubFirst(p, EachFirst(p, s, reps[..|reps| - 1]), reps[|reps| - 1])
  }

  /**
   * Loop idiom B: `for m in findall: s = sub(p, reps[i], s)`. The first round
   * rewrites every match with the first text; later rounds act only on
   * matches that the earlier rewriting created.
   */
  function EachAll(p: Pattern, s: string, reps: seq<string>): string
    decreases |reps|
  {
    if |reps| == 0 then s else SubAll(p, EachAll(p, s, reps[..|reps| - 1]), [Str(reps[|reps| - 1])])
  }

  /**
   * `n` rounds of `sub(p, t, s)` with one fixed template: the loops whose
   * replacement does not depend on the match.
   */
  function Rounds(p: Pattern, s: string, t: seq<Piece>, n: nat): string {
    if n == 0 then s else SubAll(p, Rounds(p, s, t, n - 1), t)
  }

  // ---------------------------------------------------------------------
  // Properties
  // ---------------------------------------------------------------------

  /** The template's own characters. */
  function Literals(t: seq<Piece>): string {
    if |t| == 0 then "" else (match t[0] case Str(x) => x case Ref(_) => "") + Literals(t[1..])
  }

  predicate NoMatchFrom(p: Pattern, s: string, pos: nat)
    requires pos <= |s|
  {
    forall k :: pos <= k <= |s| ==> MatchAt(p, s, k).None?
  }

  /** Without a match every scanning function leaves the text as it is. */
  lemma {:induction false} NoMatchKeeps(p: Pattern, s: string, t: seq<Piece>, rep: string)
    requires NoMatchFrom(p, s, 0)
    ensures FindAll(p, s) == [] && SubAll(p, s, t) == s && SubFirst(p, s, rep) == s
  {
    assert s[0..] == s;
  }

  /** A text left alone by one rewriting round is left alone by every later one. */
  lemma {:induction false} NoMatchEach(p: Pattern, s: string, reps: seq<string>)
    requires NoMatchFrom(p, s, 0)
    ensures EachFirst(p, s, reps) == s && EachAll(p, s, reps) == s
    decreases |reps|
  {
    if |reps| > 0 {
      NoMatchEach(p, s, reps[..|reps| - 1]);
      NoMatchKeeps(p, s, [Str(reps[|reps| - 1])], reps[|reps| - 1]);
    }
  }

  /** Once a round leaves no match, the later rounds change nothing. */
  lemma {:induction false} RoundsSettle(p: Pattern, s: string, t: seq<Piece>, n: nat)
    requires n >= 1 && NoMatchFrom(p, SubAll(p, s, t), 0)
    ensures Rounds(p, s, t, n) == SubAll(p, s, t)
  {
    if n > 1 {
      RoundsSettle(p, s, t, n - 1);
      NoMatchKeeps(p, SubAll(p, s, t), t, "");
    }
  }

  /** A scan that finds nothing means no position matches. */
  lemma FindAllEmpty(p: Pattern, s: string)
    requires |FindAll(p, s)| == 0
    ensures NoMatchFrom(p, s, 0)
  {
  }

  /** The first match `findall` reports is the one `search` finds. */
  lemma FirstFound(p: Pattern, s: string)
    requires |FindAll(p, s)| > 0
    ensures Search(p, s, 0) == Some(FindAll(p, s)[0])
    ensures FindAll(p, s) == [FindAll(p, s)[0]] + FindAllFrom(p, s, FindAll(p, s)[0].end)
  {
  }

  /** `re.sub` where the scan finds a single match: that match is replaced and the rest kept. */
  lemma SubAllOne(p: Pattern, s: string, t: seq<Piece>, m: Match)
    requires FindAll(p, s) == [m]
    ensures m.start < m.end <= |s| && MatchObject(p, s, m.start) == Some(m)
    ensures SubAll(p, s, t) == s[..m.start] + Expand(t, m.groups) + s[m.end..]
  {
    FirstFound(p, s);
    assert FindAll(p, s)[0] == m;
    assert FindAllFrom(p, s, m.end) == [];
    assert SubAllFrom(p, s, m.end, t) == s[m.end..];
    assert s[0..m.start] == s[..m.start];
  }

  /** The search stops at the first position where `p` matches. */
  lemma SearchFinds(p: Pattern, s: string, k: nat)
    requires k <= |s| && MatchAt(p, s, k).Some?
    requires forall j :: 0 <= j < k ==> MatchAt(p, s, j).None?
    ensures Search(p, s, 0) == MatchObject(p, s, k)
  {
    var r := Search(p, s, 0);
    assert r.Some? by {
      if r.None? {
        assert MatchAt(p, s, k).None?;
      }
    }
    assert r.value.start == k by {
      if r.value.start > k {
        assert false;
      }
    }
  }

  /** The search from `pos` stops at the first position from `pos` on where `p` matches. */
  lemma SearchFindsFrom(p: Pattern, s: string, pos: nat, k: nat)
    requires pos <= k <= |s| && MatchAt(p, s, k).Some?
    requires forall j :: pos <= j < k ==> MatchAt(p, s, j).None?
    ensures Search(p, s, pos) == MatchObject(p, s, k)
  {
    var r := Search(p, s, pos);
    assert r.Some? by {
      if r.None? {
        assert MatchAt(p, s, k).None?;
      }
    }
    assert r.value.start == k by {
      if r.value.start > k {
        assert false;
      }
    }
  }

  /** A text where `p` matches at `i` and at `j`, and nowhere else the scan looks: the scan finds those two. */
  lemma FindsTwo(p: Pattern, s: string, i: nat, j: nat)
    requires i <= |s| && MatchAt(p, s, i).Some? && forall k :: 0 <= k < i ==> MatchAt(p, s, k).None?
    requires MatchAt(p, s, i).value.end <= j <= |s| && MatchAt(p, s, j).Some?
    requires forall k :: MatchAt(p, s, i).value.end <= k < j ==> MatchAt(p, s, k).None?
    requires NoMatchFrom(p, s, MatchAt(p, s, j).value.end)
    ensures FindAll(p, s) == [MatchObject(p, s, i).value, MatchObject(p, s, j).value]
  {
    SearchFinds(p, s, i);
    var m := MatchObject(p, s, i).value;
    SearchFindsFrom(p, s, m.end, j);
    var n := MatchObject(p, s, j).value;
    assert FindAllFrom(p, s, n.end) == [];
    assert FindAllFrom(p, s, m.end) == [n];
  }

  /** `re.sub` where the scan finds two matches: both are replaced and the rest kept. */
  lemma SubAllTwo(p: Pattern, s: string, t: seq<Piece>, m: Match, n: Match)
    requires FindAll(p, s) == [m, n]
    ensures m.start < m.end <= n.start < n.end <= |s|
    ensures SubAll(p, s, t) == s[..m.start] + Expand(t, m.groups) + s[m.end..n.start] + Expand(t, n.groups) + s[n.end..]
  {
    SecondReplaced(p, s, t, m, n);
    SubAllHead(p, s, t, m, s[m.end..n.start], Expand(t, n.groups), s[n.end..]);
  }

  /** Where the scan finds two matches, `re.sub` goes on from the first one's end and replaces the second. */
  lemma SecondReplaced(p: Pattern, s: string, t: seq<Piece>, m: Match, n: Match)
    requires FindAll(p, s) == [m, n]
    ensures Search(p, s, 0) == Some(m) && m.start < m.end <= n.start < n.end <= |s|
    ensures SubAllFrom(p, s, m.end, t) == s[m.end..n.start] + Expand(t, n.groups) + s[n.end..]
  {
    FirstFound(p, s);
    assert FindAll(p, s)[0] == m;
    assert FindAllFrom(p, s, m.end) == FindAll(p, s)[1..];
    SubAllFromOne(p, s, m.end, t, n);
  }

  /** `re.sub` replaces the leftmost match and goes on from its end. */
  lemma SubAllHead(p: Pattern, s: string, t: seq<Piece>, m: Match, b: string, e: string, c: string)
    requires Search(p, s, 0) == Some(m) && m.end <= |s| && SubAllFrom(p, s, m.end, t) == b + e + c
    ensures SubAll(p, s, t) == s[..m.start] + Expand(t, m.groups) + b + e + c
  {
    assert s[0..m.start] == s[..m.start];
  }

  lemma SubAllFromOne(p: Pattern, s: string, pos: nat, t: seq<Piece>, n: Match)
    requires pos <= |s| && FindAllFrom(p, s, pos) == [n]
    ensures pos <= n.start < n.end <= |s|
    ensures SubAllFrom(p, s, pos, t) == s[pos..n.start] + Expand(t, n.groups) + s[n.end..]
  {
    var rest := FindAllFrom(p, s, pos);
    var o := Search(p, s, pos).value;
    assert rest == [o] + FindAllFrom(p, s, o.end);
    assert o == rest[0] == n;
    assert FindAllFrom(p, s, n.end) == rest[1..] == [];
    assert SubAllFrom(p, s, n.end, t) == s[n.end..];
  }

  /** `FindsOnly` for a hit whose end and spans are known. */
  lemma FindsOnlyHit(p: Pattern, s: string, i: nat, e: nat, spans: seq<Span>)
    requires i <= |s| && MatchAt(p, s, i) == Some(Hit(e, spans))
    requires forall k :: 0 <= k < i ==> MatchAt(p, s, k).None?
    requires NoMatchFrom(p, s, e)
    ensures FindAll(p, s) == [Match(i, e, Texts(s, spans))]
  {
    FindsOnly(p, s, i);
  }

  /** A text where `p` matches at `i` and nowhere before it or after that match: the scan finds that match alone. */
  lemma FindsOnly(p: Pattern, s: string, i: nat)
    requires i <= |s| && MatchAt(p, s, i).Some?
    requires forall k :: 0 <= k < i ==> MatchAt(p, s, k).None?
    requires NoMatchFrom(p, s, MatchAt(p, s, i).value.end)
    ensures FindAll(p, s) == [MatchObject(p, s, i).value]
  {
    SearchFinds(p, s, i);
    var m := MatchObject(p, s, i).value;
    assert FindAllFrom(p, s, m.end) == [];
  }

  lemma {:induction false} ExpandChars(t: seq<Piece>, groups: seq<string>, P: char -> bool)
    requires forall c :: c in Literals(t) ==> P(c)
    requires forall j, c :: 0 <= j < |groups| && c in groups[j] ==> P(c)
    ensures forall c :: c in Expand(t, groups) ==> P(c)
    decreases |t|
  {
    if |t| > 0 {
      ExpandChars(t[1..], groups, P);
      assert Literals(t) == (match t[0] case Str(x) => x case Ref(_) => "") + Literals(t[1..]);
    }
  }

  lemma SliceChars(s: string, lo: nat, hi: nat, P: char -> bool)
    requires lo <= hi <= |s|
    requires forall k :: lo <= k < hi ==> P(s[k])
    ensures forall c :: c in s[lo..hi] ==> P(c)
  {
    forall c | c in s[lo..hi] ensures P(c) {
      var j :| 0 <= j < hi - lo && s[lo..hi][j] == c;
      assert s[lo + j] == c;
    }
  }

  /**
   * Every character of a `sub` result comes from a position where no match
   * starts, or from the replacement: with a template whose groups copy text
   * of `s`, a class that holds every character of `s` and of the template's
   * literal text holds every character of the result.
   */
  lemma {:induction false} SubAllChars(p: Pattern, s: string, pos: nat, t: seq<Piece>, P: char -> bool)
    requires pos <= |s|
    requires forall k :: pos <= k < |s| ==> P(s[k])
    requires forall c :: c in Literals(t) ==> P(c)
    ensures forall c :: c in SubAllFrom(p, s, pos, t) ==> P(c)
    decreases |s| - pos
  {
    match Search(p, s, pos)
    case Some(m) =>
      SliceChars(s, pos, m.start, P);
      var h := MatchAt(p, s, m.start).value;
      forall j, c | 0 <= j < |m.groups| && c in m.groups[j] ensures P(c) {
        assert h.spans[j] in h.spans;
        SliceChars(s, h.spans[j].lo, h.spans[j].hi, P);
      }
      ExpandChars(t, m.groups, P);
      SubAllChars(p, s, m.end, t, P);
    case None =>
      SliceChars(s, pos, |s|, P);
  }

  /**
   * With a literal replacement, a class that holds at every position where no
   * match starts, and of every replacement character, holds of the whole result:
   * what the pattern removes does not come back.
   */
  lemma {:induction false} SubAllRemoves(p: Pattern, s: string, pos: nat, rep: string, P: char -> bool)
    requires pos <= |s|
    requires forall k :: pos <= k < |s| && MatchAt(p, s, k).None? ==> P(s[k])
    requires forall c :: c in rep ==> P(c)
    ensures forall c :: c in SubAllFrom(p, s, pos, [Str(rep)]) ==> P(c)
    decreases |s| - pos
  {
    assert Expand([Str(rep)], []) == rep;
    match Search(p, s, pos)
    case Some(m) =>
      SliceChars(s, pos, m.start, P);
      assert Expand([Str(rep)], m.groups) == rep + Expand([], m.groups);
      SubAllRemoves(p, s, m.end, rep, P);
    case None =>
      SliceChars(s, pos, |s|, P);
  }
}
