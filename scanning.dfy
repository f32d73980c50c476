/**
 * What the markup passes leave behind, stated with a left-to-right reader
 * that looks for a closing character after an opening one. A sticky reader
 * keeps the opener open to the end of its line (a `<` that a later `>` on
 * the same line would close: what `<.*?>` matches); a plain one only for
 * the next character (a backslash right before `n`: what `\\n` matches).
 */
module Scanning {
  import opened Wrappers
  import opened Strings
  import opened Patterns
  import opened Regex

  datatype Watch = Watch(opener: char, closer: char, sticky: bool)

  /** `<` followed by `>` on the same line. */
  const TagWatch: Watch := Watch('<', '>', true)

  /** Backslash followed by `x`. */
  function EscapeWatch(x: char): Watch {
    Watch('\\', x, false)
  }

  function Next(w: Watch, open: bool, c: char): bool {
    if w.sticky then c != '\n' && (c == w.opener || open) else c == w.opener
  }

  /** The reader's state after `s`, or None once a closer follows an open opener. */
  function Scan(w: Watch, open: bool, s: string): Option<bool>
    decreases |s|
  {
    if |s| == 0 then Some(open)
    else if open && s[0] == w.closer then None
    else Scan(w, Next(w, open, s[0]), s[1..])
  }

  /** The text holds no opener-closer pair. */
  predicate Clean(w: Watch, s: string) {
    Scan(w, false, s).Some?
  }

  /** Characters a sticky reader passes over without a change of state. */
  predicate Neutral(w: Watch, s: string) {
    forall c :: c in s ==> c != w.opener && c != w.closer && c != '\n'
  }

  // ---------------------------------------------------------------------
  // Reading in pieces
  // ---------------------------------------------------------------------

  lemma {:induction false} ScanConcat(w: Watch, o: bool, x: string, y: string)
    ensures Scan(w, o, x + y) == (match Scan(w, o, x) case Some(o2) => Scan(w, o2, y) case None => None)
    decreases |x|
  {
    if |x| == 0 {
      assert x + y == y;
    } else {
      assert (x + y)[1..] == x[1..] + y;
      ScanConcat(w, Next(w, o, x[0]), x[1..], y);
    }
  }

  /** A reader that starts less open stays less open, and fails no sooner. */
  lemma {:induction false} ScanMonotone(w: Watch, o1: bool, o2: bool, s: string)
    requires (o1 ==> o2) && Scan(w, o2, s).Some?
    ensures Scan(w, o1, s).Some? && (Scan(w, o1, s).value ==> Scan(w, o2, s).value)
    decreases |s|
  {
    if |s| > 0 {
      ScanMonotone(w, Next(w, o1, s[0]), Next(w, o2, s[0]), s[1..]);
    }
  }

  lemma {:induction false} ScanNeutral(w: Watch, o: bool, s: string)
    requires w.sticky && Neutral(w, s)
    ensures Scan(w, o, s) == Some(o)
    decreases |s|
  {
    if |s| > 0 {
      assert s[0] in s;
      assert forall c :: c in s[1..] ==> c in s;
      ScanNeutral(w, o, s[1..]);
    }
  }

  /** A plain reader forgets everything over text that holds neither opener nor closer. */
  lemma {:induction false} PlainReset(w: Watch, o: bool, s: string)
    requires !w.sticky && |s| > 0 && w.opener !in s && w.closer !in s
    ensures Scan(w, o, s) == Some(false)
    decreases |s|
  {
    assert s[0] in s;
    if |s| > 1 {
      assert forall c :: c in s[1..] ==> c in s;
      PlainReset(w, false, s[1..]);
    }
  }

  lemma CleanSlice(w: Watch, s: string, i: nat, j: nat)
    requires i <= j <= |s| && Clean(w, s)
    ensures Clean(w, s[i..j])
  {
    assert s == s[..i] + (s[i..j] + s[j..]);
    ScanConcat(w, false, s[..i], s[i..j] + s[j..]);
    var o := Scan(w, false, s[..i]).value;
    ScanConcat(w, o, s[i..j], s[j..]);
    ScanMonotone(w, false, o, s[i..j]);
  }

  /** The text before and the text after a cut-out piece of a clean suffix are clean. */
  lemma CleanAround(w: Watch, s: string, pos: nat, a: nat, b: nat)
    requires pos <= a <= b <= |s| && Clean(w, s[pos..])
    ensures Clean(w, s[pos..a]) && Clean(w, s[b..])
  {
    var t := s[pos..];
    assert t[0..a - pos] == s[pos..a];
    assert t[b - pos..|t|] == s[b..];
    CleanSlice(w, t, 0, a - pos);
    CleanSlice(w, t, b - pos, |t|);
  }

  /** Stripping keeps a clean text clean. */
  lemma CleanStrip(w: Watch, s: string)
    requires Clean(w, s)
    ensures Clean(w, Strip(s))
  {
    StripShape(s);
    var i, j :| 0 <= i <= j <= |s| && Strip(s) == s[i..j];
    CleanSlice(w, s, i, j);
  }

  // ---------------------------------------------------------------------
  // What a clean text means
  // ---------------------------------------------------------------------

  /** The state after a text that ends in a `<` is open. */
  lemma OpenAfter(w: Watch, x: string)
    requires |x| > 0 && x[|x| - 1] == w.opener && w.opener != '\n' && Scan(w, false, x).Some?
    ensures Scan(w, false, x) == Some(true)
  {
    var n := |x| - 1;
    assert x == x[..n] + [x[n]];
    ScanConcat(w, false, x[..n], [x[n]]);
  }

  /** From an open state, a sticky reader stays open over a line. */
  lemma {:induction false} StickyOpen(w: Watch, y: string)
    requires w.sticky && '\n' !in y && Scan(w, true, y).Some?
    ensures Scan(w, true, y) == Some(true)
    decreases |y|
  {
    if |y| > 0 {
      assert forall c :: c in y[1..] ==> c in y;
      StickyOpen(w, y[1..]);
    }
  }

  /** In a clean text every `<` is followed by a newline before any `>`. */
  lemma ClosedPairs(r: string)
    requires Clean(TagWatch, r)
    ensures forall a, b :: 0 <= a < b < |r| && r[a] == '<' && r[b] == '>' ==> '\n' in r[a + 1..b]
  {
    forall a, b | 0 <= a < b < |r| && r[a] == '<' && r[b] == '>' ensures '\n' in r[a + 1..b] {
      if '\n' !in r[a + 1..b] {
        assert r == r[..a + 1] + (r[a + 1..b] + r[b..]);
        ScanConcat(TagWatch, false, r[..a + 1], r[a + 1..b] + r[b..]);
        OpenAfter(TagWatch, r[..a + 1]);
        ScanConcat(TagWatch, true, r[a + 1..b], r[b..]);
        StickyOpen(TagWatch, r[a + 1..b]);
        assert false;
      }
    }
  }

  /** A clean text holds no tag: `<.*?>` matches nowhere in it. */
  lemma ClosedNoTag(r: string)
    requires Clean(TagWatch, r)
    ensures NoMatchFrom(Tag, r, 0)
  {
    ClosedPairs(r);
    forall k | 0 <= k <= |r| ensures MatchAt(Tag, r, k).None? {
      if TagAt(r, k).Some? {
        assert false;
      }
    }
  }

  /** A text clean for a plain reader holds no opener-closer pair. */
  lemma PlainNoPair(w: Watch, r: string)
    requires !w.sticky && w.opener != '\n' && Clean(w, r)
    ensures NoMatchFrom(Literal([w.opener, w.closer]), r, 0)
  {
    forall k | 0 <= k <= |r| ensures MatchAt(Literal([w.opener, w.closer]), r, k).None? {
      if StartsWith(r, k, [w.opener, w.closer]) {
        var pair := [w.opener, w.closer];
        assert r[k..k + 2] == pair;
        assert r[k] == r[k..k + 2][0] == w.opener;
        assert r[k + 1] == r[k..k + 2][1] == w.closer;
        assert r == r[..k + 1] + r[k + 1..];
        ScanConcat(w, false, r[..k + 1], r[k + 1..]);
        OpenAfter(w, r[..k + 1]);
        assert false;
      }
    }
  }

  // ---------------------------------------------------------------------
  // One `sub` round
  // ---------------------------------------------------------------------

  /** Where no tag starts, reading keeps any open `<` without a `>` ahead on its line. */
  predicate Harmless(s: string, j: nat, open: bool)
    requires j <= |s|
  {
    open ==> forall k :: j <= k < LineEnd(s, j) ==> s[k] != '>'
  }

  lemma {:induction false} ReadUntagged(s: string, pos: nat, e: nat, o: bool)
    requires pos <= e <= |s|
    requires forall k :: pos <= k < e ==> MatchAt(Tag, s, k).None?
    requires Harmless(s, pos, o)
    ensures Scan(TagWatch, o, s[pos..e]).Some? && Harmless(s, e, Scan(TagWatch, o, s[pos..e]).value)
    decreases e - pos
  {
    if pos == e {
      assert s[pos..e] == [];
    } else {
      var c := s[pos];
      var o1 := Next(TagWatch, o, c);
      assert s[pos..e][1..] == s[pos + 1..e];
      if c != '\n' {
        assert LineEnd(s, pos) == LineEnd(s, pos + 1);
      }
      assert MatchAt(Tag, s, pos).None?;
      assert Harmless(s, pos + 1, o1);
      ReadUntagged(s, pos + 1, e, o1);
    }
  }

  /** No reader is open where a tag starts. */
  lemma ClosedAtTag(s: string, k: nat, o: bool)
    requires k < |s| && TagAt(s, k).Some? && Harmless(s, k, o)
    ensures !o
  {
    var t := FirstIndex(s, '>', k + 1, LineEnd(s, k + 1)).value;
    assert LineEnd(s, k) == LineEnd(s, k + 1);
  }

  lemma ExpandNeutral(t: seq<Piece>, groups: seq<string>)
    requires forall j :: 0 <= j < |t| ==> t[j].Str? && Neutral(TagWatch, t[j].text)
    ensures Neutral(TagWatch, Expand(t, groups))
    decreases |t|
  {
    if |t| > 0 {
      ExpandNeutral(t[1..], groups);
    }
  }

  /** One `sub` of `<.*?>` by neutral text leaves no tag. */
  lemma {:induction false} TagSubCloses(s: string, pos: nat, t: seq<Piece>)
    requires pos <= |s|
    requires forall j :: 0 <= j < |t| ==> t[j].Str? && Neutral(TagWatch, t[j].text)
    ensures Clean(TagWatch, SubAllFrom(Tag, s, pos, t))
    decreases |s| - pos
  {
    match Search(Tag, s, pos)
    case Some(m) =>
      ReadUntagged(s, pos, m.start, false);
      ClosedAtTag(s, m.start, Scan(TagWatch, false, s[pos..m.start]).value);
      var rep, rest := Expand(t, m.groups), SubAllFrom(Tag, s, m.end, t);
      ExpandNeutral(t, m.groups);
      TagSubCloses(s, m.end, t);
      ScanNeutral(TagWatch, false, rep);
      ScanConcat(TagWatch, false, s[pos..m.start] + rep, rest);
      ScanConcat(TagWatch, false, s[pos..m.start], rep);
    case None =>
      ReadUntagged(s, pos, |s|, false);
      assert s[pos..|s|] == s[pos..];
  }

  /** A neutral literal replaced by neutral text: a sticky reader cannot tell the difference. */
  lemma {:induction false} NeutralSub(w: Watch, lit: string, s: string, pos: nat, rep: string, o: bool)
    requires pos <= |s| && w.sticky && Neutral(w, lit) && Neutral(w, rep)
    ensures Scan(w, o, SubAllFrom(Literal(lit), s, pos, [Str(rep)])) == Scan(w, o, s[pos..])
    decreases |s| - pos
  {
    match Search(Literal(lit), s, pos)
    case Some(m) =>
      var rest := SubAllFrom(Literal(lit), s, m.end, [Str(rep)]);
      assert Expand([Str(rep)], m.groups) == rep;
      assert s[m.start..m.end] == lit;
      assert s[pos..] == s[pos..m.start] + (lit + s[m.end..]);
      ScanConcat(w, o, s[pos..m.start] + rep, rest);
      ScanConcat(w, o, s[pos..m.start], rep);
      ScanConcat(w, o, s[pos..m.start], lit + s[m.end..]);
      match Scan(w, o, s[pos..m.start]) {
        case Some(o1) =>
          ScanNeutral(w, o1, rep);
          ScanNeutral(w, o1, lit);
          ScanConcat(w, o1, lit, s[m.end..]);
          NeutralSub(w, lit, s, m.end, rep, o1);
        case None =>
      }
    case None =>
  }

  lemma {:induction false} ReadUnpaired(w: Watch, s: string, pos: nat, e: nat, o: bool)
    requires pos <= e <= |s| && !w.sticky
    requires forall k :: pos <= k < e ==> MatchAt(Literal([w.opener, w.closer]), s, k).None?
    requires o ==> !CharAt(s, pos, w.closer)
    ensures Scan(w, o, s[pos..e]).Some?
    decreases e - pos
  {
    if pos == e {
      assert s[pos..e] == [];
    } else {
      assert s[pos..e][1..] == s[pos + 1..e];
      assert MatchAt(Literal([w.opener, w.closer]), s, pos).None?;
      if s[pos] == w.opener && pos + 1 < |s| {
        assert s[pos..pos + 2] == [s[pos], s[pos + 1]];
      }
      ReadUnpaired(w, s, pos + 1, e, Next(w, o, s[pos]));
    }
  }

  /** One `sub` of an opener-closer pair by text free of both leaves no pair. */
  lemma {:induction false} PairSubClears(w: Watch, s: string, pos: nat, rep: string)
    requires pos <= |s| && !w.sticky && |rep| > 0 && w.opener !in rep && w.closer !in rep
    ensures Clean(w, SubAllFrom(Literal([w.opener, w.closer]), s, pos, [Str(rep)]))
    decreases |s| - pos
  {
    var p := Literal([w.opener, w.closer]);
    match Search(p, s, pos)
    case Some(m) =>
      ReadUnpaired(w, s, pos, m.start, false);
      var rest := SubAllFrom(p, s, m.end, [Str(rep)]);
      assert Expand([Str(rep)], m.groups) == rep;
      PairSubClears(w, s, m.end, rep);
      var o1 := Scan(w, false, s[pos..m.start]).value;
      PlainReset(w, o1, rep);
      ScanConcat(w, false, s[pos..m.start] + rep, rest);
      ScanConcat(w, false, s[pos..m.start], rep);
    case None =>
      ReadUnpaired(w, s, pos, |s|, false);
      assert s[pos..|s|] == s[pos..];
  }

  /** Any `sub` by text free of opener and closer keeps a pair-free text pair-free. */
  lemma {:induction false} PairSubKeeps(w: Watch, p: Pattern, s: string, pos: nat, rep: string)
    requires pos <= |s| && !w.sticky && |rep| > 0 && w.opener !in rep && w.closer !in rep
    requires Clean(w, s[pos..])
    ensures Clean(w, SubAllFrom(p, s, pos, [Str(rep)]))
    decreases |s| - pos
  {
    match Search(p, s, pos)
    case Some(m) =>
      var rest := SubAllFrom(p, s, m.end, [Str(rep)]);
      assert Expand([Str(rep)], m.groups) == rep;
      CleanAround(w, s, pos, m.start, m.end);
      var o1 := Scan(w, false, s[pos..m.start]).value;
      PairSubKeeps(w, p, s, m.end, rep);
      PlainReset(w, o1, rep);
      ScanConcat(w, false, s[pos..m.start] + rep, rest);
      ScanConcat(w, false, s[pos..m.start], rep);
    case None =>
  }
}
