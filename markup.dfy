/**
 * HTML debris left in the scraped ingredient text: recipe-link anchors,
 * stray tags, and the two-character sequences backslash-n and backslash-t
 * that stand for escaped whitespace. `clean_nyt_html` (and its older
 * revision `clean_html`) rewrite the input, name and comment cells of a
 * row in place; `clean_epi_html` rewrites one string.
 */
module Markup {
  import opened Wrappers
  import opened Strings
  import opened Patterns
  import opened Regex
  import opened Loops
  import opened Record
  import opened Scanning

  /** Which copy of the pass: the current one or the older training-data one. */
  datatype Revision = Current | Training

  const Backslash: char := '\\'
  /** The two characters backslash, `n` (not a newline). */
  const EscapedNewline: string := "\\n"
  /** The two characters backslash, `t` (not a tab). */
  const EscapedTab: string := "\\t"
  const SeeRecipeText: string := "see recipe"

  /** The anchor pattern of the first loop: the older copy also takes leading whitespace. */
  function AnchorPattern(rev: Revision): Pattern {
    SeeRecipe(rev == Training)
  }

  /** The pattern whose `findall` decides how often backslash-n is replaced. */
  function EscapeCounter(rev: Revision): Pattern {
    if rev == Current then Literal(EscapedNewline) else SpacedEscape
  }

  // ---------------------------------------------------------------------
  // Specification
  // ---------------------------------------------------------------------

  /**
   * One round of an anchor loop on column `col`: the anchors are deleted
   * and, while the input column is processed, every "see recipe" in a
   * present comment goes with them.
   */
  function AnchorRound(p: Pattern, col: Column, c: Cells): (r: Cells)
    requires Get(c, col).Text?
    ensures Get(r, col).Text?
  {
    var c1 := Set(c, col, Text(SubAll(p, Get(c, col).s, [])));
    if col == Input && c1.comment.Text? then c1.(comment := Text(SubAll(Literal(SeeRecipeText), c1.comment.s, [])))
    else c1
  }

  function AnchorRounds(p: Pattern, col: Column, c: Cells, n: nat): (r: Cells)
    requires Get(c, col).Text?
    ensures Get(r, col).Text?
  {
    if n == 0 then c else AnchorRound(p, col, AnchorRounds(p, col, c, n - 1))
  }

  /** The anchor loop: one round per anchor the scan of the column finds. */
  function AnchorLoop(p: Pattern, col: Column, c: Cells): (r: Cells)
    requires Get(c, col).Text?
    ensures Get(r, col).Text?
  {
    AnchorRounds(p, col, c, |FindAll(p, Get(c, col).s)|)
  }

  /** The tag, backslash-n and backslash-t loops on a column's text. */
  function Scrub(rev: Revision, s: string): string {
    var a := Rounds(Tag, s, [], |FindAll(Tag, s)|);
    var b := Rounds(Literal(EscapedNewline), a, [Str(" ")], |FindAll(EscapeCounter(rev), a)|);
    if rev == Current then Rounds(Literal(EscapedTab), b, [Str(" ")], |FindAll(Literal(EscapedTab), b)|) else b
  }

  /** An emptied cell becomes NaN; any other is stripped. */
  function Settle(s: string): (f: Field)
    ensures f.Missing? <==> s == ""
  {
    if s == "" then Missing else Text(Strip(s))
  }

  /** The body of the column loop for one column. */
  function HtmlColumn(rev: Revision, col: Column, c: Cells): Cells {
    if Get(c, col).Missing? then c
    else
      var c1 := AnchorLoop(AnchorPattern(rev), col, c);
      var c2 := AnchorLoop(SeeAnchor, col, c1);
      Set(c2, col, Settle(Scrub(rev, Get(c2, col).s)))
  }

  function HtmlColumns(rev: Revision, cols: seq<Column>, c: Cells): Cells
    decreases |cols|
  {
    if |cols| == 0 then c else HtmlColumn(rev, cols[|cols| - 1], HtmlColumns(rev, cols[..|cols| - 1], c))
  }

  const HtmlColumnNames: seq<Column> := [Input, Name, Comment]

  /** What the whole pass does to a row. */
  function HtmlCleaned(rev: Revision, c: Cells): Cells {
    HtmlColumns(rev, HtmlColumnNames, c)
  }

  /** `clean_epi_html`: link markers go, escapes become spaces, the result is stripped. */
  function EpiHtmlCleaned(s: string): string {
    var a := Rounds(RecipeLink, s, [], |FindAll(RecipeLink, s)|);
    var b := Rounds(Literal(EscapedNewline), a, [Str(" ")], |FindAll(Literal(EscapedNewline), a)|);
    var c := Rounds(Literal(EscapedTab), b, [Str(" ")], |FindAll(Literal(EscapedTab), b)|);
    if c == "" then "" else Strip(c)
  }

  // ---------------------------------------------------------------------
  // The passes
  // ---------------------------------------------------------------------

  method AnchorRoundRow(p: Pattern, col: Column, row: Row)
    requires row.Cell(col).Text?
    modifies row
    ensures row.Snapshot() == AnchorRound(p, col, old(row.Snapshot()))
  {
    row.Assign(col, Text(SubAll(p, row.Cell(col).s, [])));
    if col == Input && row.comment.Text? {
      row.comment := Text(SubAll(Literal(SeeRecipeText), row.comment.s, []));
    }
  }

  method AnchorLoopRow(p: Pattern, col: Column, row: Row)
    requires row.Cell(col).Text?
    modifies row
    ensures row.Snapshot() == AnchorLoop(p, col, old(row.Snapshot()))
  {
    var ms := FindAll(p, row.Cell(col).s);
    ghost var c0 := row.Snapshot();
    for i := 0 to |ms|
      invariant row.Snapshot() == AnchorRounds(p, col, c0, i)
      invariant row.Cell(col).Text?
    {
      ghost var before := row.Snapshot();
      AnchorRoundRow(p, col, row);
      assert row.Snapshot() == AnchorRound(p, col, before);
    }
  }

  method ScrubText(rev: Revision, s: string) returns (r: string)
    ensures r == Scrub(rev, s)
  {
    r := SubRounds(Tag, Tag, s, []);
    r := SubRounds(EscapeCounter(rev), Literal(EscapedNewline), r, [Str(" ")]);
    if rev == Current {
      r := SubRounds(Literal(EscapedTab), Literal(EscapedTab), r, [Str(" ")]);
    }
  }

  method HtmlColumnRow(rev: Revision, col: Column, row: Row)
    modifies row
    ensures row.Snapshot() == HtmlColumn(rev, col, old(row.Snapshot()))
  {
    if row.Cell(col).Text? {
      AnchorLoopRow(AnchorPattern(rev), col, row);
      AnchorLoopRow(SeeAnchor, col, row);
      var s := ScrubText(rev, row.Cell(col).s);
      row.Assign(col, Settle(s));
    }
  }

  method CleanColumns(rev: Revision, row: Row)
    modifies row
    ensures row.Snapshot() == HtmlCleaned(rev, old(row.Snapshot()))
  {
    var columns := HtmlColumnNames;
    ghost var c0 := row.Snapshot();
    for i := 0 to |columns|
      invariant row.Snapshot() == HtmlColumns(rev, columns[..i], c0)
    {
      assert columns[..i + 1][..i] == columns[..i];
      HtmlColumnRow(rev, columns[i], row);
    }
    assert columns[..|columns|] == columns;
  }

  /** `clean_nyt_html(row)`. */
  method CleanNytHtml(row: Row)
    modifies row
    ensures row.Snapshot() == HtmlCleaned(Current, old(row.Snapshot()))
  {
    CleanColumns(Current, row);
  }

  /** `clean_html(s)` of the training-data script. */
  method CleanHtml(row: Row)
    modifies row
    ensures row.Snapshot() == HtmlCleaned(Training, old(row.Snapshot()))
  {
    CleanColumns(Training, row);
  }

  /** `clean_epi_html(ingredient)`. */
  method CleanEpiHtml(ingredient: string) returns (r: string)
    ensures r == EpiHtmlCleaned(ingredient)
  {
    r := SubRounds(RecipeLink, RecipeLink, ingredient, []);
    r := SubRounds(Literal(EscapedNewline), Literal(EscapedNewline), r, [Str(" ")]);
    r := SubRounds(Literal(EscapedTab), Literal(EscapedTab), r, [Str(" ")]);
    if r != "" {
      r := Strip(r);
    }
  }

  // ---------------------------------------------------------------------
  // Properties
  // ---------------------------------------------------------------------

  /**
   * What the pass leaves in a present cell: no tag (`<.*?>` matches nowhere,
   * so no `<` is followed by a `>` on its line), no backslash-n, in the
   * current copy no backslash-t, and no surrounding whitespace.
   */
  predicate Tidy(rev: Revision, f: Field) {
    f.Text? ==>
      NoMatchFrom(Tag, f.s, 0) && NoMatchFrom(Literal(EscapedNewline), f.s, 0)
      && (rev == Current ==> NoMatchFrom(Literal(EscapedTab), f.s, 0))
      && Strip(f.s) == f.s
  }

  /** The tag loop leaves no tag, whether or not it runs. */
  lemma TagLoopCloses(s: string)
    ensures Clean(TagWatch, Rounds(Tag, s, [], |FindAll(Tag, s)|))
  {
    TagSubCloses(s, 0, []);
    var once := SubAll(Tag, s, []);
    if |FindAll(Tag, s)| == 0 {
      FindAllEmpty(Tag, s);
      NoMatchKeeps(Tag, s, [], "");
    } else {
      ClosedNoTag(once);
      RoundsSettle(Tag, s, [], |FindAll(Tag, s)|);
    }
  }

  /** An escape loop leaves no escape of its kind, provided a scan that counts no round finds none. */
  lemma EscapeLoopClears(x: char, find: Pattern, s: string)
    requires x != ' '
    requires |FindAll(find, s)| == 0 ==> NoMatchFrom(Literal(['\\', x]), s, 0)
    ensures Clean(EscapeWatch(x), Rounds(Literal(['\\', x]), s, [Str(" ")], |FindAll(find, s)|))
  {
    var w := EscapeWatch(x);
    PairSubClears(w, s, 0, " ");
    var once := SubAll(Literal(['\\', x]), s, [Str(" ")]);
    if |FindAll(find, s)| == 0 {
      NoMatchKeeps(Literal(['\\', x]), s, [Str(" ")], "");
    } else {
      PlainNoPair(w, once);
      RoundsSettle(Literal(['\\', x]), s, [Str(" ")], |FindAll(find, s)|);
    }
  }

  /** The older copy counts its backslash-n rounds with `\s*\\n\s*`, which finds every backslash-n. */
  lemma SpacedEscapeCounts(s: string)
    requires NoMatchFrom(SpacedEscape, s, 0)
    ensures NoMatchFrom(Literal(EscapedNewline), s, 0)
  {
    forall k | 0 <= k <= |s| ensures MatchAt(Literal(EscapedNewline), s, k).None? {
      assert MatchAt(SpacedEscape, s, k).None?;
      if StartsWith(s, k, EscapedNewline) {
        assert false;
      }
    }
  }

  lemma {:induction false} RoundsKeepClosed(lit: string, s: string, rep: string, n: nat)
    requires Neutral(TagWatch, lit) && Neutral(TagWatch, rep) && Clean(TagWatch, s)
    ensures Clean(TagWatch, Rounds(Literal(lit), s, [Str(rep)], n))
  {
    if n > 0 {
      var prev := Rounds(Literal(lit), s, [Str(rep)], n - 1);
      RoundsKeepClosed(lit, s, rep, n - 1);
      NeutralSub(TagWatch, lit, prev, 0, rep, false);
      assert prev[0..] == prev;
    }
  }

  lemma {:induction false} RoundsKeepPairFree(w: Watch, p: Pattern, s: string, rep: string, n: nat)
    requires !w.sticky && |rep| > 0 && w.opener !in rep && w.closer !in rep && Clean(w, s)
    ensures Clean(w, Rounds(p, s, [Str(rep)], n))
  {
    if n > 0 {
      var prev := Rounds(p, s, [Str(rep)], n - 1);
      RoundsKeepPairFree(w, p, s, rep, n - 1);
      assert prev[0..] == prev;
      PairSubKeeps(w, p, prev, 0, rep);
    }
  }

  /** What the three loops leave, before the cell is stripped. */
  lemma ScrubLeaves(rev: Revision, s: string)
    ensures var r := Scrub(rev, s);
      Clean(TagWatch, r) && Clean(EscapeWatch('n'), r) && (rev == Current ==> Clean(EscapeWatch('t'), r))
  {
    var a := Rounds(Tag, s, [], |FindAll(Tag, s)|);
    TagLoopCloses(s);
    var b := Rounds(Literal(EscapedNewline), a, [Str(" ")], |FindAll(EscapeCounter(rev), a)|);
    if |FindAll(EscapeCounter(rev), a)| == 0 {
      FindAllEmpty(EscapeCounter(rev), a);
      if rev == Training {
        SpacedEscapeCounts(a);
      }
    }
    EscapeLoopClears('n', EscapeCounter(rev), a);
    RoundsKeepClosed(EscapedNewline, a, " ", |FindAll(EscapeCounter(rev), a)|);
    if rev == Current {
      var n := |FindAll(Literal(EscapedTab), b)|;
      if n == 0 {
        FindAllEmpty(Literal(EscapedTab), b);
      }
      EscapeLoopClears('t', Literal(EscapedTab), b);
      RoundsKeepClosed(EscapedTab, b, " ", n);
      RoundsKeepPairFree(EscapeWatch('n'), Literal(EscapedTab), b, " ", n);
    }
  }

  /** A settled scrub is tidy. */
  lemma SettleTidy(rev: Revision, s: string)
    ensures Tidy(rev, Settle(Scrub(rev, s)))
  {
    var r := Scrub(rev, s);
    ScrubLeaves(rev, s);
    if r != "" {
      var t := Strip(r);
      StripIdempotent(r);
      CleanStrip(TagWatch, r);
      ClosedNoTag(t);
      CleanStrip(EscapeWatch('n'), r);
      PlainNoPair(EscapeWatch('n'), t);
      if rev == Current {
        CleanStrip(EscapeWatch('t'), r);
        PlainNoPair(EscapeWatch('t'), t);
      }
    }
  }

  /**
   * The anchor loop is two loops side by side: the column loses its anchors
   * once per round, and during the input column a present comment loses
   * "see recipe" as many times. No other cell changes.
   */
  lemma AnchorRoundsSplit(p: Pattern, col: Column, c: Cells, n: nat)
    requires Get(c, col).Text?
    ensures var r := AnchorRounds(p, col, c, n);
      Get(r, col) == Text(Rounds(p, Get(c, col).s, [], n))
      && r.comment == (if col == Input && c.comment.Text? then Text(Rounds(Literal(SeeRecipeText), c.comment.s, [], n))
                       else Get(Set(c, col, Get(r, col)), Comment))
      && r.qty == c.qty
      && forall other :: other != col && other != Comment ==> Get(r, other) == Get(c, other)
  {
    AnchorRoundsColumn(p, col, c, n);
    AnchorRoundsComment(p, col, c, n);
    AnchorRoundsOthers(p, col, c, n);
  }

  lemma {:induction false} AnchorRoundsColumn(p: Pattern, col: Column, c: Cells, n: nat)
    requires Get(c, col).Text?
    ensures Get(AnchorRounds(p, col, c, n), col) == Text(Rounds(p, Get(c, col).s, [], n))
  {
    if n > 0 {
      AnchorRoundsColumn(p, col, c, n - 1);
    }
  }

  lemma {:induction false} AnchorRoundsComment(p: Pattern, col: Column, c: Cells, n: nat)
    requires Get(c, col).Text?
    ensures col == Input && c.comment.Text? ==>
      AnchorRounds(p, col, c, n).comment == Text(Rounds(Literal(SeeRecipeText), c.comment.s, [], n))
    ensures col != Comment && !(col == Input && c.comment.Text?) ==> AnchorRounds(p, col, c, n).comment == c.comment
  {
    if col == Input && c.comment.Text? {
      AnchorRoundsSee(p, c, n);
    } else if col != Comment {
      AnchorRoundsKeep(p, col, c, n);
    }
  }

  lemma {:induction false} AnchorRoundsSee(p: Pattern, c: Cells, n: nat)
    requires c.input.Text? && c.comment.Text?
    ensures AnchorRounds(p, Input, c, n).comment == Text(Rounds(Literal(SeeRecipeText), c.comment.s, [], n))
  {
    if n > 0 {
      AnchorRoundsSee(p, c, n - 1);
    }
  }

  lemma {:induction false} AnchorRoundsKeep(p: Pattern, col: Column, c: Cells, n: nat)
    requires Get(c, col).Text? && col != Comment && !(col == Input && c.comment.Text?)
    ensures AnchorRounds(p, col, c, n).comment == c.comment
  {
    if n > 0 {
      AnchorRoundsKeep(p, col, c, n - 1);
    }
  }

  lemma {:induction false} AnchorRoundsOthers(p: Pattern, col: Column, c: Cells, n: nat)
    requires Get(c, col).Text?
    ensures var r := AnchorRounds(p, col, c, n);
      r.qty == c.qty && forall other :: other != col && other != Comment ==> Get(r, other) == Get(c, other)
  {
    if n > 0 {
      AnchorRoundsOthers(p, col, c, n - 1);
    }
  }

  /** One column's step changes that column, and the comment while the input column is processed. */
  lemma HtmlColumnFrame(rev: Revision, col: Column, c: Cells)
    ensures var r := HtmlColumn(rev, col, c);
      r.qty == c.qty
      && (Get(c, col).Missing? ==> r == c)
      && (c.comment.Missing? ==> r.comment.Missing?)
      && (col != Input && col != Comment ==> r.comment == c.comment)
      && forall other :: other != col && other != Comment ==> Get(r, other) == Get(c, other)
  {
    if Get(c, col).Text? {
      var c1 := AnchorLoop(AnchorPattern(rev), col, c);
      AnchorRoundsSplit(AnchorPattern(rev), col, c, |FindAll(AnchorPattern(rev), Get(c, col).s)|);
      AnchorRoundsSplit(SeeAnchor, col, c1, |FindAll(SeeAnchor, Get(c1, col).s)|);
    }
  }

  /** One column's step leaves that column missing or tidy. */
  lemma HtmlColumnTidy(rev: Revision, col: Column, c: Cells)
    ensures Get(c, col).Missing? ==> Get(HtmlColumn(rev, col, c), col).Missing?
    ensures Tidy(rev, Get(HtmlColumn(rev, col, c), col))
  {
    if Get(c, col).Text? {
      var c1 := AnchorLoop(AnchorPattern(rev), col, c);
      var c2 := AnchorLoop(SeeAnchor, col, c1);
      SettleTidy(rev, Get(c2, col).s);
    }
  }

  lemma HtmlCleanedSteps(rev: Revision, c: Cells)
    ensures HtmlCleaned(rev, c) == HtmlColumn(rev, Comment, HtmlColumn(rev, Name, HtmlColumn(rev, Input, c)))
  {
    var cols := HtmlColumnNames;
    assert cols[..2] == [Input, Name];
    assert HtmlColumns(rev, cols, c) == HtmlColumn(rev, Comment, HtmlColumns(rev, [Input, Name], c));
    assert [Input, Name][..1] == [Input];
    assert HtmlColumns(rev, [Input, Name], c) == HtmlColumn(rev, Name, HtmlColumns(rev, [Input], c));
    assert [Input][..0] == [];
  }

  /** What one column's step promises. */
  predicate StepShape(rev: Revision, col: Column, c: Cells, r: Cells) {
    r.qty == c.qty
    && (Get(c, col).Missing? ==> Get(r, col).Missing?)
    && Tidy(rev, Get(r, col))
    && (c.comment.Missing? ==> r.comment.Missing?)
    && (col != Input && col != Comment ==> r.comment == c.comment)
    && (forall other :: other != col && other != Comment ==> Get(r, other) == Get(c, other))
  }

  lemma HtmlColumnShape(rev: Revision, col: Column, c: Cells)
    ensures StepShape(rev, col, c, HtmlColumn(rev, col, c))
  {
    HtmlColumnFrame(rev, col, c);
    HtmlColumnTidy(rev, col, c);
  }

  lemma StepsCompose(rev: Revision, c: Cells, c1: Cells, c2: Cells, c3: Cells)
    requires StepShape(rev, Input, c, c1) && StepShape(rev, Name, c1, c2) && StepShape(rev, Comment, c2, c3)
    ensures c3.unit == c.unit && c3.qty == c.qty
    ensures (c.input.Missing? ==> c3.input.Missing?) && (c.name.Missing? ==> c3.name.Missing?)
    ensures c.comment.Missing? ==> c3.comment.Missing?
    ensures Tidy(rev, c3.input) && Tidy(rev, c3.name) && Tidy(rev, c3.comment)
  {
    assert Get(c3, Input) == Get(c2, Input) == Get(c1, Input);
    assert Get(c3, Name) == Get(c2, Name);
    assert Get(c3, Unit) == Get(c2, Unit) == Get(c1, Unit) == Get(c, Unit);
  }

  /**
   * `clean_nyt_html` and `clean_html`: unit and quantity are untouched; a
   * missing input, name or comment stays missing; a present one ends up tidy.
   */
  lemma HtmlCleanedShape(rev: Revision, c: Cells)
    ensures var r := HtmlCleaned(rev, c);
      r.unit == c.unit && r.qty == c.qty
      && (c.input.Missing? ==> r.input.Missing?) && (c.name.Missing? ==> r.name.Missing?)
      && (c.comment.Missing? ==> r.comment.Missing?)
      && Tidy(rev, r.input) && Tidy(rev, r.name) && Tidy(rev, r.comment)
  {
    var c1 := HtmlColumn(rev, Input, c);
    var c2 := HtmlColumn(rev, Name, c1);
    var c3 := HtmlColumn(rev, Comment, c2);
    HtmlCleanedSteps(rev, c);
    HtmlColumnShape(rev, Input, c);
    HtmlColumnShape(rev, Name, c1);
    HtmlColumnShape(rev, Comment, c2);
    StepsCompose(rev, c, c1, c2, c3);
  }

  /** A cell emptied by the loops becomes NaN; one left with only whitespace becomes "". */
  lemma SettleBlank(s: string)
    requires forall k :: 0 <= k < |s| ==> IsSpace(s[k])
    ensures Settle(s) == (if s == "" then Missing else Text(""))
  {
    if s != "" {
      StripShape(s);
    }
  }

  /** The older copy has no backslash-t loop: a text free of tags and backslash-n is kept as it is. */
  lemma TrainingKeepsTabs(s: string)
    requires NoMatchFrom(Tag, s, 0) && NoMatchFrom(SpacedEscape, s, 0)
    ensures Scrub(Training, s) == s
  {
    NoMatchKeeps(Tag, s, [], "");
    NoMatchKeeps(SpacedEscape, s, [], "");
  }

  /** `clean_epi_html` leaves no backslash-n or backslash-t and no surrounding whitespace. */
  lemma EpiHtmlTidy(s: string)
    ensures var r := EpiHtmlCleaned(s);
      NoMatchFrom(Literal(EscapedNewline), r, 0) && NoMatchFrom(Literal(EscapedTab), r, 0) && Strip(r) == r
  {
    var a := Rounds(RecipeLink, s, [], |FindAll(RecipeLink, s)|);
    var n1 := |FindAll(Literal(EscapedNewline), a)|;
    if n1 == 0 {
      FindAllEmpty(Literal(EscapedNewline), a);
    }
    EscapeLoopClears('n', Literal(EscapedNewline), a);
    var b := Rounds(Literal(EscapedNewline), a, [Str(" ")], n1);
    var n2 := |FindAll(Literal(EscapedTab), b)|;
    if n2 == 0 {
      FindAllEmpty(Literal(EscapedTab), b);
    }
    EscapeLoopClears('t', Literal(EscapedTab), b);
    RoundsKeepPairFree(EscapeWatch('n'), Literal(EscapedTab), b, " ", n2);
    var c := Rounds(Literal(EscapedTab), b, [Str(" ")], n2);
    var r := if c == "" then "" else Strip(c);
    StripIdempotent(c);
    CleanStrip(EscapeWatch('n'), c);
    CleanStrip(EscapeWatch('t'), c);
    PlainNoPair(EscapeWatch('n'), r);
    PlainNoPair(EscapeWatch('t'), r);
  }
}
