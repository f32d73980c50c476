/**
 * The unit passes: both revisions of `fix_abbreviations`, the string version
 * `fix_epi_abbreviations`, and `fix_inconsistencies`. The replacement
 * templates are built from captured text and handed to `re.sub` as
 * templates; the model reads them as literal text, which is what Python
 * does for any template without a backslash.
 */
module Units {
  import opened Wrappers
  import opened Strings
  import opened Patterns
  import opened Regex
  import opened Loops
  import opened Record
  import Spoons

  /** A cell whose text Python can splice into a `re.sub` template unchanged. */
  predicate NoBackslash(f: Field) {
    f.Text? ==> '\\' !in f.s
  }

  // ---------------------------------------------------------------------
  // Replacement texts
  // ---------------------------------------------------------------------

  /** `m[0] + "ounce" + m[1]`: `findall` with two groups yields pairs, so the pair branch is always taken. */
  function OunceText(m: Match): string { Group(m, 0) + "ounce" + Group(m, 1) }

  function MilliliterText(m: Match): string { Group(m, 0) + "milliliter" + Group(m, 1) }

  function GramText(m: Match): string { Group(m, 0) + " gram" + Group(m, 1) }

  function TablespoonText(m: Match): string { "tablespoon" }

  function TeaspoonText(m: Match): string { "teaspoon" }

  /** The older revision's `m + " ounce"`: with one group `findall` yields the digit itself. */
  function DigitOunceText(m: Match): string { Group(m, 0) + " ounce" }

  // ---------------------------------------------------------------------
  // fix_abbreviations and fix_epi_abbreviations
  // ---------------------------------------------------------------------

  /** `oz`/`oz.` between non-word characters; the scan accepts a missing right neighbour, the rewrite does not. */
  function OuncesExpanded(s: string): string {
    EachFirstWith(AbbrevFind("oz"), AbbrevSub("oz"), s, OunceText)
  }

  function MillilitersExpanded(s: string): string {
    EachFirstWith(AbbrevFind("ml"), AbbrevSub("ml"), s, MilliliterText)
  }

  /** `<digits>[ ]g[.]` before a non-word character. */
  function GramsExpanded(s: string): string {
    EachFirstWith(Gram, Gram, s, GramText)
  }

  function TablespoonsExpanded(s: string): string {
    EachFirstWith(Spoon("bsp"), Spoon("bsp"), s, TablespoonText)
  }

  function TeaspoonsExpanded(s: string): string {
    EachFirstWith(Spoon("sp"), Spoon("sp"), s, TeaspoonText)
  }

  /** Everything before the teaspoon loop. */
  function BeforeTeaspoons(s: string): string {
    TablespoonsExpanded(GramsExpanded(OuncesExpanded(s)))
  }

  /**
   * The loop body for one present column: the four rewrites, and the unit
   * forced to "teaspoon" when the teaspoon scan found anything.
   */
  function AbbreviationColumn(col: Column, c: Cells): Cells {
    match Get(c, col)
    case Missing => c
    case Text(s) =>
      var t := BeforeTeaspoons(s);
      Rewritten(col, c, TeaspoonsExpanded(t), |FindAll(Spoon("sp"), t)| > 0)
  }

  /** `row[col] = x`, then `row["unit"] = "teaspoon"` when `forced`. */
  function Rewritten(col: Column, c: Cells, x: string, forced: bool): Cells {
    var c1 := Set(c, col, Text(x));
    if forced then Set(c1, Unit, Text("teaspoon")) else c1
  }

  function AbbreviationColumns(cols: seq<Column>, c: Cells): Cells
    decreases |cols|
  {
    if |cols| == 0 then c else AbbreviationColumn(cols[|cols| - 1], AbbreviationColumns(cols[..|cols| - 1], c))
  }

  /** One more column of the loop: its rewrite is applied to what the earlier columns left. */
  lemma AbbreviationColumnsNext(cols: seq<Column>, i: nat, c: Cells)
    requires i < |cols|
    ensures AbbreviationColumns(cols[..i + 1], c) == AbbreviationColumn(cols[i], AbbreviationColumns(cols[..i], c))
  {
    assert cols[..i + 1][..i] == cols[..i];
  }

  const AbbreviationColumnNames: seq<Column> := [Input, Unit, Comment]

  /** What `fix_abbreviations(row)` does to a row. */
  function AbbreviationsFixed(c: Cells): Cells {
    AbbreviationColumns(AbbreviationColumnNames, c)
  }

  /** What `fix_epi_abbreviations(ingredient)` returns. */
  function EpiAbbreviationsFixed(s: string): string {
    TeaspoonsExpanded(TablespoonsExpanded(GramsExpanded(MillilitersExpanded(OuncesExpanded(s)))))
  }

  method AbbreviationColumnRow(col: Column, row: Row)
    modifies row
    ensures row.Snapshot() == AbbreviationColumn(col, old(row.Snapshot()))
  {
    if row.Cell(col).Text? {
      var s := AbbreviatedText(row.Cell(col).s);
      var found := FindAll(Spoon("sp"), s);
      var t := SubEachFirstWith(Spoon("sp"), Spoon("sp"), s, TeaspoonText);
      RewriteRow(col, row, t, |found| > 0);
    }
  }

  method AbbreviatedText(s: string) returns (r: string)
    ensures r == BeforeTeaspoons(s)
  {
    r := SubEachFirstWith(AbbrevFind("oz"), AbbrevSub("oz"), s, OunceText);
    r := SubEachFirstWith(Gram, Gram, r, GramText);
    r := SubEachFirstWith(Spoon("bsp"), Spoon("bsp"), r, TablespoonText);
  }

  method RewriteRow(col: Column, row: Row, x: string, forced: bool)
    modifies row
    ensures row.Snapshot() == Rewritten(col, old(row.Snapshot()), x, forced)
  {
    row.Assign(col, Text(x));
    if forced {
      row.Assign(Unit, Text("teaspoon"));
    }
  }

  /** `fix_abbreviations(row)`. */
  method FixAbbreviations(row: Row)
    requires NoBackslash(row.input) && NoBackslash(row.unit) && NoBackslash(row.comment)
    modifies row
    ensures row.Snapshot() == AbbreviationsFixed(old(row.Snapshot()))
  {
    var columns := AbbreviationColumnNames;
    ghost var c0 := row.Snapshot();
    for i := 0 to |columns|
      invariant row.Snapshot() == AbbreviationColumns(columns[..i], c0)
    {
      AbbreviationColumnsNext(columns, i, c0);
      AbbreviationColumnRow(columns[i], row);
    }
    assert columns[..|columns|] == columns;
  }

  /** `fix_epi_abbreviations(ingredient)`. */
  method FixEpiAbbreviations(ingredient: string) returns (r: string)
    requires '\\' !in ingredient
    ensures r == EpiAbbreviationsFixed(ingredient)
  {
    r := SubEachFirstWith(AbbrevFind("oz"), AbbrevSub("oz"), ingredient, OunceText);
    r := SubEachFirstWith(AbbrevFind("ml"), AbbrevSub("ml"), r, MilliliterText);
    r := SubEachFirstWith(Gram, Gram, r, GramText);
    r := SubEachFirstWith(Spoon("bsp"), Spoon("bsp"), r, TablespoonText);
    r := SubEachFirstWith(Spoon("sp"), Spoon("sp"), r, TeaspoonText);
  }

  // ---------------------------------------------------------------------
  // fix_abbreviations, older revision
  // ---------------------------------------------------------------------

  /** The four rewrites of the older revision, each with idiom B. */
  function TrainingAbbreviated(s: string): string {
    var a := EachAllWith(DigitOunce, DigitOunce, s, DigitOunceText);
    var b := EachAllWith(DigitGram, DigitGram, a, GramText);
    var c := EachAllWith(Spoon("bsp"), Spoon("bsp"), b, TablespoonText);
    EachAllWith(Spoon("sp"), Spoon("sp"), c, TeaspoonText)
  }

  function TrainingAbbreviationColumn(col: Column, c: Cells): Cells {
    match Get(c, col)
    case Missing => c
    case Text(s) => Set(c, col, Text(TrainingAbbreviated(s)))
  }

  /** What the older `fix_abbreviations(s)` does: input, then unit; the unit is never forced. */
  function TrainingAbbreviationsFixed(c: Cells): Cells {
    TrainingAbbreviationColumn(Unit, TrainingAbbreviationColumn(Input, c))
  }

  method TrainingAbbreviatedText(s: string) returns (r: string)
    ensures r == TrainingAbbreviated(s)
  {
    r := SubEachAllWith(DigitOunce, DigitOunce, s, DigitOunceText);
    r := SubEachAllWith(DigitGram, DigitGram, r, GramText);
    r := SubEachAllWith(Spoon("bsp"), Spoon("bsp"), r, TablespoonText);
    r := SubEachAllWith(Spoon("sp"), Spoon("sp"), r, TeaspoonText);
  }

  method TrainingAbbreviationColumnRow(col: Column, row: Row)
    modifies row
    ensures row.Snapshot() == TrainingAbbreviationColumn(col, old(row.Snapshot()))
  {
    if row.Cell(col).Text? {
      var t := TrainingAbbreviatedText(row.Cell(col).s);
      row.Assign(col, Text(t));
    }
  }

  /** The older `fix_abbreviations(s)`. */
  method FixTrainingAbbreviations(row: Row)
    requires NoBackslash(row.input) && NoBackslash(row.unit)
    modifies row
    ensures row.Snapshot() == TrainingAbbreviationsFixed(old(row.Snapshot()))
  {
    TrainingAbbreviationColumnRow(Input, row);
    TrainingAbbreviationColumnRow(Unit, row);
  }

  // ---------------------------------------------------------------------
  // fix_inconsistencies
  // ---------------------------------------------------------------------

  /**
   * One round of the sprig loop: the word before "sprig(s)" is appended to
   * the comment after a space (or becomes the comment when there is none),
   * and the unit becomes "sprig" or "sprigs".
   */
  function SprigRound(c: Cells, m: Match): Cells {
    var comment := match c.comment
      case Text(t) => Text(t + " " + Group(m, 0))
      case Missing => Text(Group(m, 0));
    c.(comment := comment, unit := Text(Group(m, 1)))
  }

  function SprigRounds(c: Cells, ms: seq<Match>): Cells
    decreases |ms|
  {
    if |ms| == 0 then c else SprigRound(SprigRounds(c, ms[..|ms| - 1]), ms[|ms| - 1])
  }

  /** What `fix_inconsistencies(row)` does: the matches come from the unit as it was on entry. */
  function InconsistenciesFixed(c: Cells): Cells {
    match c.unit
    case Missing => c
    case Text(u) => SprigRounds(c, FindAll(Sprig, u))
  }

  /** `fix_inconsistencies(row)`. */
  method FixInconsistencies(row: Row)
    modifies row
    ensures row.Snapshot() == InconsistenciesFixed(old(row.Snapshot()))
  {
    if row.unit.Text? {
      var ms := FindAll(Sprig, row.unit.s);
      ghost var c0 := row.Snapshot();
      for i := 0 to |ms|
        invariant row.Snapshot() == SprigRounds(c0, ms[..i])
      {
        assert ms[..i + 1][..i] == ms[..i];
        if row.comment.Text? {
          row.comment := Text(row.comment.s + " " + Group(ms[i], 0));
        } else {
          row.comment := Text(Group(ms[i], 0));
        }
        row.unit := Text(Group(ms[i], 1));
      }
      assert ms[..|ms|] == ms;
    }
  }

  // ---------------------------------------------------------------------
  // Properties
  // ---------------------------------------------------------------------

  /** What one column's rewrite promises. */
  predicate ColumnShape(col: Column, c: Cells, r: Cells) {
    (col != Name ==> r.name == c.name) && r.qty == c.qty
    && (col != Input ==> r.input == c.input)
    && (col != Comment ==> r.comment == c.comment)
    && (forall k :: Get(c, k).Text? ==> Get(r, k).Text?)
    && (r.unit != c.unit ==> r.unit == Text("teaspoon") || col == Unit)
    && (Get(c, col).Missing? ==> r == c)
    && (col == Unit && c.unit == Text("teaspoon") ==> r.unit == Text("teaspoon"))
  }

  lemma RewrittenShape(col: Column, c: Cells, x: string, forced: bool)
    requires Get(c, col).Text?
    requires col == Unit && c.unit == Text("teaspoon") ==> x == "teaspoon"
    ensures ColumnShape(col, c, Rewritten(col, c, x, forced))
  {
    var c1 := Set(c, col, Text(x));
    var r := Rewritten(col, c, x, forced);
    assert forall k :: Get(c, k).Text? ==> Get(c1, k).Text?;
    assert r.name == Get(r, Name) && r.input == Get(r, Input) && r.comment == Get(r, Comment);
    assert c.name == Get(c, Name) && c.input == Get(c, Input) && c.comment == Get(c, Comment);
  }

  /** One column's rewrite touches that column and, at most, the unit; a present cell stays present. */
  lemma AbbreviationColumnShape(col: Column, c: Cells)
    ensures ColumnShape(col, c, AbbreviationColumn(col, c))
  {
    match Get(c, col)
    case Missing =>
    case Text(s) =>
      var t := BeforeTeaspoons(s);
      if s == "teaspoon" {
        TeaspoonKept();
      }
      RewrittenShape(col, c, TeaspoonsExpanded(t), |FindAll(Spoon("sp"), t)| > 0);
  }

  /** "teaspoon" holds none of the abbreviations: the rewrites leave it as it is. */
  lemma TeaspoonKept()
    ensures BeforeTeaspoons("teaspoon") == "teaspoon" && TeaspoonsExpanded("teaspoon") == "teaspoon"
  {
    var s := "teaspoon";
    TeaspoonLetters();
    TeaspoonNoSpoon();
    Kept(AbbrevFind("oz"), AbbrevSub("oz"), s, OunceText);
    Kept(Gram, Gram, s, GramText);
    Kept(Spoon("bsp"), Spoon("bsp"), s, TablespoonText);
    Kept(Spoon("sp"), Spoon("sp"), s, TeaspoonText);
  }

  lemma Kept(find: Pattern, sub: Pattern, s: string, f: Match -> string)
    requires NoMatchFrom(sub, s, 0)
    ensures EachFirstWith(find, sub, s, f) == s
  {
    NoMatchEach(sub, s, TextsOf(f, FindAll(find, s)));
  }

  lemma TeaspoonLetters()
    ensures NoMatchFrom(AbbrevSub("oz"), "teaspoon", 0) && NoMatchFrom(Gram, "teaspoon", 0)
  {
    var s := "teaspoon";
    assert forall k :: 0 <= k < |s| ==> IsWord(s[k]) && !IsDigit(s[k]);
    forall k | 0 <= k <= |s| ensures MatchAt(Gram, s, k).None? {
      assert DigitEnd(s, k) == k;
    }
  }

  lemma TeaspoonNoSpoon()
    ensures NoMatchFrom(Spoon("bsp"), "teaspoon", 0) && NoMatchFrom(Spoon("sp"), "teaspoon", 0)
  {
    var s := "teaspoon";
    forall k | 0 <= k <= |s| ensures MatchAt(Spoon("bsp"), s, k).None? && MatchAt(Spoon("sp"), s, k).None? {
      if k == 0 {
        assert s[1..4][0] == 'e' && s[1..3][0] == 'e';
      } else {
        assert !CharAt(s, k, 'T') && !CharAt(s, k, 't');
      }
    }
  }

  lemma ShapesCompose(c: Cells, c1: Cells, c2: Cells, c3: Cells)
    requires ColumnShape(Input, c, c1) && ColumnShape(Unit, c1, c2) && ColumnShape(Comment, c2, c3)
    ensures c3.name == c.name && c3.qty == c.qty
    ensures (c3.input.Missing? <==> c.input.Missing?) && (c3.comment.Missing? <==> c.comment.Missing?)
    ensures c.unit.Text? ==> c3.unit.Text?
    ensures c.unit.Missing? && c3.unit.Text? ==> c3.unit == Text("teaspoon")
  {
    assert Get(c3, Input) == Get(c2, Input) == Get(c1, Input);
    assert Get(c2, Comment) == Get(c1, Comment) == Get(c, Comment);
    if c.input.Missing? {
      assert c1 == c;
    }
    if c.unit.Missing? && c3.unit.Text? {
      assert c1.unit == Text("teaspoon") || c1.unit == c.unit;
      assert c1.unit.Missing? ==> c2 == c1;
      assert c2.unit == Text("teaspoon") || c2.unit.Missing?;
    }
  }

  /**
   * `fix_abbreviations` never writes the name or the quantity, rewrites only
   * the three listed columns, keeps a present cell present and a NaN input
   * or comment NaN, and can fill a NaN unit only with "teaspoon".
   */
  lemma AbbreviationsFrame(c: Cells)
    ensures var r := AbbreviationsFixed(c);
            r.name == c.name && r.qty == c.qty
            && (r.input.Missing? <==> c.input.Missing?)
            && (r.comment.Missing? <==> c.comment.Missing?)
            && (c.unit.Text? ==> r.unit.Text?)
            && (c.unit.Missing? && r.unit.Text? ==> r.unit == Text("teaspoon"))
  {
    var c1 := AbbreviationColumn(Input, c);
    var c2 := AbbreviationColumn(Unit, c1);
    var c3 := AbbreviationColumn(Comment, c2);
    AbbreviationColumnShape(Input, c);
    AbbreviationColumnShape(Unit, c1);
    AbbreviationColumnShape(Comment, c2);
    ShapesCompose(c, c1, c2, c3);
    ColumnsUnfold(c);
  }

  lemma ColumnsUnfold(c: Cells)
    ensures AbbreviationsFixed(c) == AbbreviationColumn(Comment, AbbreviationColumn(Unit, AbbreviationColumn(Input, c)))
  {
    var cols := AbbreviationColumnNames;
    assert cols[..2] == [Input, Unit];
    assert AbbreviationColumns(cols, c) == AbbreviationColumn(Comment, AbbreviationColumns([Input, Unit], c));
    assert [Input, Unit][..1] == [Input];
    assert AbbreviationColumns([Input, Unit], c) == AbbreviationColumn(Unit, AbbreviationColumns([Input], c));
    assert [Input][..0] == [];
  }

  /** A column whose text still holds a `[Tt]sp` before the teaspoon loop sets the unit to "teaspoon". */
  lemma ForcedColumn(col: Column, c: Cells)
    requires Get(c, col).Text? && |FindAll(Spoon("sp"), BeforeTeaspoons(Get(c, col).s))| > 0
    ensures AbbreviationColumn(col, c).unit == Text("teaspoon")
  {
  }

  /**
   * A `[Tt]sp` left after the oz, g and tbsp rewrites, in the input, the
   * unit or the comment, leaves "teaspoon" as the unit, whatever the unit
   * was: the unit column's own rewrites keep "teaspoon".
   */
  lemma TeaspoonForced(c: Cells)
    requires || (c.input.Text? && |FindAll(Spoon("sp"), BeforeTeaspoons(c.input.s))| > 0)
             || (c.unit.Text? && |FindAll(Spoon("sp"), BeforeTeaspoons(c.unit.s))| > 0)
             || (c.comment.Text? && |FindAll(Spoon("sp"), BeforeTeaspoons(c.comment.s))| > 0)
    ensures AbbreviationsFixed(c).unit == Text("teaspoon")
  {
    var c1 := AbbreviationColumn(Input, c);
    var c2 := AbbreviationColumn(Unit, c1);
    var c3 := AbbreviationColumn(Comment, c2);
    AbbreviationColumnShape(Input, c);
    AbbreviationColumnShape(Unit, c1);
    AbbreviationColumnShape(Comment, c2);
    ColumnsUnfold(c);
    if c.input.Text? && |FindAll(Spoon("sp"), BeforeTeaspoons(c.input.s))| > 0 {
      ForcedColumn(Input, c);
    } else if c.unit.Text? && |FindAll(Spoon("sp"), BeforeTeaspoons(c.unit.s))| > 0 {
      if c1.unit != Text("teaspoon") {
        assert c1.unit == c.unit;
        ForcedColumn(Unit, c1);
      }
    } else {
      assert c2.comment == c.comment;
      ForcedColumn(Comment, c2);
    }
  }

  /** The older revision never writes the name, the comment or the quantity, and never fills a NaN cell. */
  lemma TrainingAbbreviationsFrame(c: Cells)
    ensures var r := TrainingAbbreviationsFixed(c);
            r.name == c.name && r.comment == c.comment && r.qty == c.qty
            && (r.input.Missing? <==> c.input.Missing?)
            && (r.unit.Missing? <==> c.unit.Missing?)
  {
  }

  /** A sprig match's second group is "sprig" or "sprigs". */
  lemma SprigGroups(s: string, m: Match)
    requires m.start <= |s| && MatchObject(Sprig, s, m.start) == Some(m)
    ensures Group(m, 1) == "sprig" || Group(m, 1) == "sprigs"
  {
    var h := SprigAt(s, m.start).value;
    assert m.groups == Texts(s, h.spans);
    var a := h.spans[0].hi;
    assert s[a + 1..a + 6] == "sprig";
    if CharAt(s, a + 6, 's') {
      assert s[a + 1..a + 7] == s[a + 1..a + 6] + [s[a + 6]];
    }
  }

  lemma {:induction false} SprigRoundsShape(c: Cells, s: string, ms: seq<Match>)
    requires forall j :: 0 <= j < |ms| ==> ms[j].start <= |s| && MatchObject(Sprig, s, ms[j].start) == Some(ms[j])
    ensures var r := SprigRounds(c, ms);
            r.input == c.input && r.name == c.name && r.qty == c.qty
            && (|ms| > 0 ==> r.comment.Text? && (r.unit == Text("sprig") || r.unit == Text("sprigs")))
            && (|ms| == 0 ==> r == c)
    decreases |ms|
  {
    if |ms| > 0 {
      SprigRoundsShape(c, s, ms[..|ms| - 1]);
      SprigGroups(s, ms[|ms| - 1]);
    }
  }

  /** The words before "sprig(s)", in match order. */
  function SprigWords(ms: seq<Match>): (r: seq<string>)
    ensures |r| == |ms|
    decreases |ms|
  {
    if |ms| == 0 then [] else SprigWords(ms[..|ms| - 1]) + [Group(ms[|ms| - 1], 0)]
  }

  /** The comment after the words are moved: space-joined after the old comment, or on their own. */
  function MovedComment(comment: Field, words: seq<string>): Field {
    match comment
    case Text(t) => Text(Join([t] + words, " "))
    case Missing => Text(Join(words, " "))
  }

  lemma {:induction false} SprigRoundsMove(c: Cells, ms: seq<Match>)
    requires |ms| > 0
    ensures SprigRounds(c, ms).comment == MovedComment(c.comment, SprigWords(ms))
    ensures SprigRounds(c, ms).unit == Text(Group(ms[|ms| - 1], 1))
    decreases |ms|
  {
    var pre := ms[..|ms| - 1];
    var w := Group(ms[|ms| - 1], 0);
    assert SprigWords(ms) == SprigWords(pre) + [w];
    if |pre| == 0 {
      assert SprigWords(ms) == [w];
      if c.comment.Text? {
        assert [c.comment.s] + [w] == [c.comment.s, w];
        assert [c.comment.s, w][1..] == [w];
      }
    } else {
      SprigRoundsMove(c, pre);
      if c.comment.Text? {
        JoinSnoc([c.comment.s] + SprigWords(pre), w, " ");
        assert [c.comment.s] + SprigWords(pre) + [w] == [c.comment.s] + SprigWords(ms);
      } else {
        JoinSnoc(SprigWords(pre), w, " ");
      }
    }
  }

  /**
   * `fix_inconsistencies` appends the word before each "sprig(s)" to the
   * comment, space-separated (the first becomes the comment when there is
   * none), and leaves the last match's "sprig" or "sprigs" as the unit; a
   * unit without such a phrase leaves the row as it is. Input, name and
   * quantity never change.
   */
  lemma SprigsMoved(c: Cells)
    ensures var r := InconsistenciesFixed(c);
            r.input == c.input && r.name == c.name && r.qty == c.qty
            && (c.unit.Text? && |FindAll(Sprig, c.unit.s)| > 0 ==>
                  var ms := FindAll(Sprig, c.unit.s);
                  r.comment == MovedComment(c.comment, SprigWords(ms))
                  && r.unit == Text(Group(ms[|ms| - 1], 1))
                  && (r.unit == Text("sprig") || r.unit == Text("sprigs")))
            && (c.unit.Missing? || |FindAll(Sprig, c.unit.s)| == 0 ==> r == c)
  {
    if c.unit.Text? {
      SprigRoundsShape(c, c.unit.s, FindAll(Sprig, c.unit.s));
      if |FindAll(Sprig, c.unit.s)| > 0 {
        SprigRoundsMove(c, FindAll(Sprig, c.unit.s));
      }
    }
  }

  // ---------------------------------------------------------------------
  // One spoon abbreviation
  // ---------------------------------------------------------------------

  /**
   * One `[Tt]bsp\.*` in a text that holds no other becomes "tablespoon",
   * and the rest of the text is kept: in the current loop (idiom A) and in
   * the older one (idiom B).
   */
  lemma TablespoonExpanded(x: string, c: char, dots: string, y: string)
    requires (c == 'T' || c == 't') && forall k :: 0 <= k < |dots| ==> dots[k] == '.'
    requires NoMatchFrom(Spoon("bsp"), x, 0) && NoMatchFrom(Spoon("bsp"), y, 0) && (|y| == 0 || y[0] != '.')
    ensures TablespoonsExpanded(x + [c] + "bsp" + dots + y) == x + "tablespoon" + y
    ensures EachAllWith(Spoon("bsp"), Spoon("bsp"), x + [c] + "bsp" + dots + y, TablespoonText) == x + "tablespoon" + y
  {
    SpoonExpanded("bsp", x, c, dots, y, TablespoonText);
  }

  /** One `[Tt]sp\.*` in a text that holds no other becomes "teaspoon", and the rest of the text is kept, under both idioms. */
  lemma TeaspoonExpanded(x: string, c: char, dots: string, y: string)
    requires (c == 'T' || c == 't') && forall k :: 0 <= k < |dots| ==> dots[k] == '.'
    requires NoMatchFrom(Spoon("sp"), x, 0) && NoMatchFrom(Spoon("sp"), y, 0) && (|y| == 0 || y[0] != '.')
    ensures TeaspoonsExpanded(x + [c] + "sp" + dots + y) == x + "teaspoon" + y
    ensures EachAllWith(Spoon("sp"), Spoon("sp"), x + [c] + "sp" + dots + y, TeaspoonText) == x + "teaspoon" + y
  {
    SpoonExpanded("sp", x, c, dots, y, TeaspoonText);
  }

  lemma SpoonExpanded(body: string, x: string, c: char, dots: string, y: string, f: Match -> string)
    requires Spoons.SpoonBody(body) && (c == 'T' || c == 't') && forall k :: 0 <= k < |dots| ==> dots[k] == '.'
    requires NoMatchFrom(Spoon(body), x, 0) && NoMatchFrom(Spoon(body), y, 0) && (|y| == 0 || y[0] != '.')
    ensures EachFirstWith(Spoon(body), Spoon(body), x + [c] + body + dots + y, f)
            == x + f(MatchObject(Spoon(body), x + [c] + body + dots + y, |x|).value) + y
    ensures EachAllWith(Spoon(body), Spoon(body), x + [c] + body + dots + y, f)
            == x + f(MatchObject(Spoon(body), x + [c] + body + dots + y, |x|).value) + y
  {
    var s := x + [c] + body + dots + y;
    Spoons.SpoonAlone(body, x, c, dots, y);
    var m := MatchObject(Spoon(body), s, |x|).value;
    OneWith(Spoon(body), s, f, m);
    assert s[..|x|] == x && s[m.end..] == y;
  }

  /** "2 tbsp. oil" becomes "2 tablespoon oil", in both revisions of the loop. */
  lemma TablespoonExample()
    ensures TablespoonsExpanded("2 tbsp. oil") == "2 tablespoon oil"
    ensures EachAllWith(Spoon("bsp"), Spoon("bsp"), "2 tbsp. oil", TablespoonText) == "2 tablespoon oil"
  {
    NoSpoonIn("bsp", "2 ");
    NoSpoonIn("bsp", " oil");
    TablespoonExpanded("2 ", 't', ".", " oil");
    OilPieces();
  }

  lemma OilPieces()
    ensures "2 " + ['t'] + "bsp" + "." + " oil" == "2 tbsp. oil"
    ensures "2 " + "tablespoon" + " oil" == "2 tablespoon oil"
  {
  }

  /** A text without a `T` or a `t` holds no spoon abbreviation. */
  lemma NoSpoonIn(body: string, s: string)
    requires forall k :: 0 <= k < |s| ==> s[k] != 'T' && s[k] != 't'
    ensures NoMatchFrom(Spoon(body), s, 0)
  {
    Spoons.MatchStarts(body, s);
  }

  // ---------------------------------------------------------------------
  // No spoon abbreviation is left
  // ---------------------------------------------------------------------

  /** A text holding neither `[Tt]bsp` nor `[Tt]sp`. */
  predicate SpoonFree(s: string) {
    NoMatchFrom(Spoon("bsp"), s, 0) && NoMatchFrom(Spoon("sp"), s, 0)
  }

  predicate SpoonFreeCell(f: Field) {
    f.Text? ==> SpoonFree(f.s)
  }

  /** The tablespoon loop runs once per `[Tt]bsp` and each round rewrites one, so none is left. */
  lemma TablespoonsCleared(s: string)
    ensures NoMatchFrom(Spoon("bsp"), TablespoonsExpanded(s), 0)
  {
    var reps := TextsOf(TablespoonText, FindAll(Spoon("bsp"), s));
    Spoons.Counted("bsp", s, 0);
    Spoons.SpoonRoundsCount("bsp", s, reps);
    Spoons.NoMatchCount("bsp", TablespoonsExpanded(s));
  }

  /** Likewise for `[Tt]sp`; and writing "teaspoon" brings back no `[Tt]bsp`. */
  lemma TeaspoonsCleared(s: string)
    ensures NoMatchFrom(Spoon("sp"), TeaspoonsExpanded(s), 0)
    ensures NoMatchFrom(Spoon("bsp"), s, 0) ==> NoMatchFrom(Spoon("bsp"), TeaspoonsExpanded(s), 0)
  {
    var reps := TextsOf(TeaspoonText, FindAll(Spoon("sp"), s));
    Spoons.Counted("sp", s, 0);
    Spoons.SpoonRoundsCount("sp", s, reps);
    Spoons.NoMatchCount("sp", TeaspoonsExpanded(s));
    Spoons.NoMatchCount("bsp", s);
    if NoMatchFrom(Spoon("bsp"), s, 0) {
      Spoons.SpoonRoundsKeep("bsp", "sp", s, reps);
    }
    Spoons.NoMatchCount("bsp", TeaspoonsExpanded(s));
  }

  /** The two spoon loops, in the order both passes run them. */
  lemma SpoonsCleared(s: string)
    ensures SpoonFree(TeaspoonsExpanded(TablespoonsExpanded(s)))
  {
    TablespoonsCleared(s);
    TeaspoonsCleared(TablespoonsExpanded(s));
  }

  /** `fix_epi_abbreviations` leaves no `[Tt]bsp` and no `[Tt]sp`. */
  lemma EpiSpoonFree(s: string)
    ensures SpoonFree(EpiAbbreviationsFixed(s))
  {
    SpoonsCleared(GramsExpanded(MillilitersExpanded(OuncesExpanded(s))));
  }

  /** One column's rewrite leaves that column spoon-free, and writes at most "teaspoon" to the unit. */
  lemma ColumnSpoonFree(col: Column, c: Cells)
    ensures SpoonFreeCell(Get(AbbreviationColumn(col, c), col))
    ensures SpoonFreeCell(c.unit) ==> SpoonFreeCell(AbbreviationColumn(col, c).unit)
  {
    AbbreviationColumnShape(col, c);
    TeaspoonNoSpoon();
    match Get(c, col)
    case Missing =>
    case Text(s) =>
      SpoonsCleared(GramsExpanded(OuncesExpanded(s)));
  }

  /** After `fix_abbreviations` none of the three rewritten columns holds `[Tt]bsp` or `[Tt]sp`. */
  lemma AbbreviationsSpoonFree(c: Cells)
    ensures var r := AbbreviationsFixed(c);
            SpoonFreeCell(r.input) && SpoonFreeCell(r.unit) && SpoonFreeCell(r.comment)
  {
    var c1 := AbbreviationColumn(Input, c);
    var c2 := AbbreviationColumn(Unit, c1);
    ColumnsUnfold(c);
    ColumnSpoonFree(Input, c);
    ColumnSpoonFree(Unit, c1);
    ColumnSpoonFree(Comment, c2);
    AbbreviationColumnShape(Unit, c1);
    AbbreviationColumnShape(Comment, c2);
  }

  /** The older revision's two spoon loops, idiom B: the first round of each leaves none. */
  lemma TrainingSpoonFree(s: string)
    ensures SpoonFree(TrainingAbbreviated(s))
  {
    var a := EachAllWith(DigitOunce, DigitOunce, s, DigitOunceText);
    var b := EachAllWith(DigitGram, DigitGram, a, GramText);
    var c := EachAllWith(Spoon("bsp"), Spoon("bsp"), b, TablespoonText);
    var r := EachAllWith(Spoon("sp"), Spoon("sp"), c, TeaspoonText);
    var tables := TextsOf(TablespoonText, FindAll(Spoon("bsp"), b));
    var teas := TextsOf(TeaspoonText, FindAll(Spoon("sp"), c));
    Spoons.Counted("bsp", b, 0);
    Spoons.SpoonSubsClear("bsp", "bsp", b, tables);
    Spoons.Counted("sp", c, 0);
    Spoons.SpoonSubsClear("sp", "sp", c, teas);
    Spoons.SpoonSubsClear("bsp", "sp", c, teas);
    Spoons.NoMatchCount("bsp", r);
    Spoons.NoMatchCount("sp", r);
  }

  /** After the older `fix_abbreviations` neither rewritten column holds `[Tt]bsp` or `[Tt]sp`. */
  lemma TrainingAbbreviationsSpoonFree(c: Cells)
    ensures var r := TrainingAbbreviationsFixed(c);
            SpoonFreeCell(r.input) && SpoonFreeCell(r.unit)
  {
    if c.input.Text? {
      TrainingSpoonFree(c.input.s);
    }
    if c.unit.Text? {
      TrainingSpoonFree(c.unit.s);
    }
  }

  // ---------------------------------------------------------------------
  // An abbreviation becomes its unit word
  // ---------------------------------------------------------------------

  /** Idiom A with a single scan match is a single `sub(..., 1)` round. */
  lemma OneRound(find: Pattern, sub: Pattern, s: string, f: Match -> string, m: Match)
    requires FindAll(find, s) == [m]
    ensures EachFirstWith(find, sub, s, f) == SubFirst(sub, s, f(m))
  {
    var reps := TextsOf(f, FindAll(find, s));
    assert reps == [f(m)];
    assert reps[..0] == [];
    assert EachFirst(sub, s, reps) == SubFirst(sub, EachFirst(sub, s, []), f(m));
  }

  /** A scan that finds a single match, with the same pattern for the rewrite: that match is replaced. */
  lemma OneMatch(p: Pattern, s: string, f: Match -> string, m: Match)
    requires m.end <= |s| && FindAll(p, s) == [m]
    ensures EachFirstWith(p, p, s, f) == s[..m.start] + f(m) + s[m.end..]
    ensures EachAllWith(p, p, s, f) == s[..m.start] + f(m) + s[m.end..]
  {
    assert FindAll(p, s)[0] == m;
    OneMatchFirst(p, s, f, m);
    OneMatchAll(p, s, f, m);
  }

  lemma OneMatchFirst(p: Pattern, s: string, f: Match -> string, m: Match)
    requires m.start <= m.end <= |s| && FindAll(p, s) == [m]
    ensures EachFirstWith(p, p, s, f) == s[..m.start] + f(m) + s[m.end..]
  {
    FirstFound(p, s);
    OneRound(p, p, s, f, m);
  }

  lemma OneMatchAll(p: Pattern, s: string, f: Match -> string, m: Match)
    requires m.start <= m.end <= |s| && FindAll(p, s) == [m]
    ensures EachAllWith(p, p, s, f) == s[..m.start] + f(m) + s[m.end..]
  {
    var w := f(m);
    OneText(p, s, f, m);
    OneLiteral(p, s, w, m);
  }

  lemma OneText(p: Pattern, s: string, f: Match -> string, m: Match)
    requires FindAll(p, s) == [m]
    ensures EachAllWith(p, p, s, f) == SubAll(p, s, [Str(f(m))])
  {
    var reps := TextsOf(f, FindAll(p, s));
    assert reps == [f(m)] && reps[..0] == [];
    assert EachAll(p, s, reps) == SubAll(p, EachAll(p, s, []), [Str(f(m))]);
  }

  lemma OneLiteral(p: Pattern, s: string, w: string, m: Match)
    requires m.start <= m.end <= |s| && FindAll(p, s) == [m]
    ensures SubAll(p, s, [Str(w)]) == s[..m.start] + w + s[m.end..]
  {
    SubAllOne(p, s, [Str(w)], m);
    assert Expand([Str(w)], m.groups) == w + Expand([], m.groups);
  }

  /** A scan that finds a single match, at `i`: the match that `MatchAt` reports there is replaced. */
  lemma ScanOne(p: Pattern, s: string, f: Match -> string, i: nat, h: Hit)
    requires i <= |s| && MatchAt(p, s, i) == Some(h)
    requires |FindAll(p, s)| == 1 && FindAll(p, s)[0].start == i
    ensures i < h.end <= |s| && MatchObject(p, s, i) == Some(Match(i, h.end, Texts(s, h.spans)))
    ensures EachFirstWith(p, p, s, f) == s[..i] + f(Match(i, h.end, Texts(s, h.spans))) + s[h.end..]
    ensures EachAllWith(p, p, s, f) == s[..i] + f(Match(i, h.end, Texts(s, h.spans))) + s[h.end..]
  {
    var m := FindAll(p, s)[0];
    assert FindAll(p, s) == [m];
    assert MatchObject(p, s, i) == Some(m);
    OneMatchFirst(p, s, f, m);
    OneMatchAll(p, s, f, m);
  }

  /** `ScanOne` for a match with two groups, the second a single character. */
  lemma ScanTwo(p: Pattern, s: string, f: Match -> string, i: nat, a: nat, k: nat)
    requires i <= a <= k < |s| && MatchAt(p, s, i) == Some(Hit(k + 1, [Span(i, a), Span(k, k + 1)]))
    requires |FindAll(p, s)| == 1 && FindAll(p, s)[0].start == i
    ensures EachFirstWith(p, p, s, f) == s[..i] + f(Match(i, k + 1, [s[i..a], [s[k]]])) + s[k + 1..]
    ensures EachAllWith(p, p, s, f) == s[..i] + f(Match(i, k + 1, [s[i..a], [s[k]]])) + s[k + 1..]
  {
    SpanPairTexts(s, i, a, k);
    ScanOne(p, s, f, i, Hit(k + 1, [Span(i, a), Span(k, k + 1)]));
  }

  lemma SpanPairTexts(s: string, i: nat, a: nat, k: nat)
    requires i <= a <= k < |s|
    ensures Texts(s, [Span(i, a), Span(k, k + 1)]) == [s[i..a], [s[k]]]
  {
    assert Texts(s, [Span(i, a), Span(k, k + 1)]) == [s[i..a], s[k..k + 1]];
    assert s[k..k + 1] == [s[k]];
  }

  /** Where the pieces of an abbreviation sit in the text. */
  lemma AbbrevPieces(x: string, c: char, abbr: string, dot: string, d: char, y: string)
    ensures var s := x + [c] + abbr + dot + [d] + y;
            var i := |x|;
            var k := i + 1 + |abbr| + |dot|;
            k < |s| && s[i] == c && StartsWith(s, i + 1, abbr) && s[k] == d
            && (dot == "." ==> s[i + 1 + |abbr|] == '.')
            && (dot == "" ==> k == i + 1 + |abbr|)
            && s[..i] == x && s[k + 1..] == y && s[i..i + 1] == [c] && s[k..k + 1] == [d]
  {
    var s := x + [c] + abbr + dot + [d] + y;
    var i := |x|;
    assert s[i + 1..i + 1 + |abbr|] == abbr;
  }

  /** Both abbreviation patterns match a lone abbreviation the same way. */
  lemma AbbrevHit(abbr: string, s: string, i: nat, k: nat)
    requires k < |s| && At(s, i, NotWord) && StartsWith(s, i + 1, abbr) && NotWord(s[k])
    requires (k == i + 1 + |abbr| && s[k] != '.') || (k == i + 2 + |abbr| && s[k - 1] == '.')
    ensures MatchAt(AbbrevFind(abbr), s, i) == Some(Hit(k + 1, [Span(i, i + 1), Span(k, k + 1)]))
    ensures MatchAt(AbbrevSub(abbr), s, i) == Some(Hit(k + 1, [Span(i, i + 1), Span(k, k + 1)]))
  {
  }

  /** Where the rewrite pattern matches, so does the scan pattern. */
  lemma AbbrevSubFinds(abbr: string, s: string, j: nat)
    requires j <= |s|
    ensures MatchAt(AbbrevSub(abbr), s, j).Some? ==> MatchAt(AbbrevFind(abbr), s, j).Some?
  {
  }

  /**
   * `([^\w])abbr\.?([^\w])` where the scan finds a single match, at the end
   * of `x`: the rewrite keeps both non-word neighbours and the text around
   * them, and puts the replacement for that match in place of the rest.
   */
  lemma AbbrevConverted(abbr: string, f: Match -> string, x: string, c: char, dot: string, d: char, y: string)
    requires NotWord(c) && NotWord(d) && (dot == "." || (dot == "" && d != '.'))
    requires var s := x + [c] + abbr + dot + [d] + y;
             |FindAll(AbbrevFind(abbr), s)| == 1 && FindAll(AbbrevFind(abbr), s)[0].start == |x|
    ensures var s := x + [c] + abbr + dot + [d] + y;
            var m := FindAll(AbbrevFind(abbr), s)[0];
            Group(m, 0) == [c] && Group(m, 1) == [d]
            && EachFirstWith(AbbrevFind(abbr), AbbrevSub(abbr), s, f) == x + f(m) + y
  {
    var s := x + [c] + abbr + dot + [d] + y;
    var i := |x|;
    var k := i + 1 + |abbr| + |dot|;
    AbbrevPieces(x, c, abbr, dot, d, y);
    AbbrevHit(abbr, s, i, k);
    FirstFound(AbbrevFind(abbr), s);
    var m := FindAll(AbbrevFind(abbr), s)[0];
    assert FindAll(AbbrevFind(abbr), s) == [m];
    assert m.groups == Texts(s, [Span(i, i + 1), Span(k, k + 1)]);
    OneRound(AbbrevFind(abbr), AbbrevSub(abbr), s, f, m);
    forall j | 0 <= j < i ensures MatchAt(AbbrevSub(abbr), s, j).None? {
      AbbrevSubFinds(abbr, s, j);
    }
    SearchFinds(AbbrevSub(abbr), s, i);
  }

  /** An `oz` or `oz.` standing alone, and the only one the scan finds, becomes "ounce". */
  lemma OuncesConverted(x: string, c: char, dot: string, d: char, y: string)
    requires NotWord(c) && NotWord(d) && (dot == "." || (dot == "" && d != '.'))
    requires var s := x + [c] + "oz" + dot + [d] + y;
             |FindAll(AbbrevFind("oz"), s)| == 1 && FindAll(AbbrevFind("oz"), s)[0].start == |x|
    ensures OuncesExpanded(x + [c] + "oz" + dot + [d] + y) == x + [c] + "ounce" + [d] + y
  {
    AbbrevConverted("oz", OunceText, x, c, dot, d, y);
  }

  /** An `ml` or `ml.` standing alone, and the only one the scan finds, becomes "milliliter". */
  lemma MillilitersConverted(x: string, c: char, dot: string, d: char, y: string)
    requires NotWord(c) && NotWord(d) && (dot == "." || (dot == "" && d != '.'))
    requires var s := x + [c] + "ml" + dot + [d] + y;
             |FindAll(AbbrevFind("ml"), s)| == 1 && FindAll(AbbrevFind("ml"), s)[0].start == |x|
    ensures MillilitersExpanded(x + [c] + "ml" + dot + [d] + y) == x + [c] + "milliliter" + [d] + y
  {
    AbbrevConverted("ml", MilliliterText, x, c, dot, d, y);
  }

  predicate AllDigits(t: string) {
    forall k :: 0 <= k < |t| ==> IsDigit(t[k])
  }

  /** Where the pieces of a gram abbreviation sit in the text. */
  lemma GramPieces(x: string, digits: string, sp: string, dot: string, d: char, y: string)
    ensures var s := x + digits + sp + "g" + dot + [d] + y;
            var i := |x|;
            var a := i + |digits|;
            var k := a + |sp| + 1 + |dot|;
            k < |s| && s[a + |sp|] == 'g' && s[k] == d
            && (forall j :: i <= j < a ==> s[j] == digits[j - i])
            && (|sp| == 1 ==> s[a] == sp[0])
            && (dot == "." ==> s[a + |sp| + 1] == '.')
            && s[..i] == x && s[k + 1..] == y && s[i..a] == digits && s[k..k + 1] == [d]
  {
  }

  /** `(\d+)\s?g\.?([^\w])` on a digit run, an optional blank, `g`, an optional point and a non-word character. */
  lemma GramHit(s: string, i: nat, a: nat, gp: nat, k: nat)
    requires i < a <= gp < k < |s| && (forall j :: i <= j < a ==> IsDigit(s[j]))
    requires (gp == a && s[a] == 'g') || (gp == a + 1 && IsSpace(s[a]))
    requires s[gp] == 'g' && NotWord(s[k])
    requires (k == gp + 1 && s[k] != '.') || (k == gp + 2 && s[gp + 1] == '.')
    ensures MatchAt(Gram, s, i) == Some(Hit(k + 1, [Span(i, a), Span(k, k + 1)]))
  {
    RunEndAt(s, i, a, IsDigit);
  }

  /**
   * A number followed by `g` or `g.`, with at most one white-space character
   * between, and the only one the scan finds: the number is kept and the
   * `g` becomes " gram".
   */
  lemma GramsConverted(x: string, digits: string, sp: string, dot: string, d: char, y: string)
    requires |digits| > 0 && AllDigits(digits)
    requires sp == "" || (|sp| == 1 && IsSpace(sp[0]))
    requires NotWord(d) && (dot == "." || (dot == "" && d != '.'))
    requires var s := x + digits + sp + "g" + dot + [d] + y;
             |FindAll(Gram, s)| == 1 && FindAll(Gram, s)[0].start == |x|
    ensures GramsExpanded(x + digits + sp + "g" + dot + [d] + y) == x + digits + " gram" + [d] + y
  {
    var s := x + digits + sp + "g" + dot + [d] + y;
    var i := |x|;
    var a := i + |digits|;
    var gp := a + |sp|;
    var k := gp + 1 + |dot|;
    GramPieces(x, digits, sp, dot, d, y);
    GramHit(s, i, a, gp, k);
    GramOne(s, i, a, k);
  }

  lemma Regrouped(a: string, b: string, c: string, d: string, e: string)
    ensures a + (b + c + d) + e == a + b + c + d + e
  {
  }

  /** The gram loop on a text whose scan finds a single match. */
  lemma GramOne(s: string, i: nat, a: nat, k: nat)
    requires i <= a <= k < |s| && MatchAt(Gram, s, i) == Some(Hit(k + 1, [Span(i, a), Span(k, k + 1)]))
    requires |FindAll(Gram, s)| == 1 && FindAll(Gram, s)[0].start == i
    ensures GramsExpanded(s) == s[..i] + s[i..a] + " gram" + [s[k]] + s[k + 1..]
  {
    ScanTwo(Gram, s, GramText, i, a, k);
    assert GramText(Match(i, k + 1, [s[i..a], [s[k]]])) == s[i..a] + " gram" + [s[k]];
    Regrouped(s[..i], s[i..a], " gram", [s[k]], s[k + 1..]);
  }

  predicate AllSpaces(t: string) {
    forall k :: 0 <= k < |t| ==> IsSpace(t[k])
  }

  /** Where the pieces of the older revision's ounce pattern sit in the text. */
  lemma DigitOuncePieces(x: string, g: char, ws: string, dots: string, y: string)
    ensures var s := x + [g] + ws + "oz" + dots + y;
            var i := |x|;
            var b := i + 1 + |ws|;
            var e := b + 2 + |dots|;
            e <= |s| && s[i] == g && StartsWith(s, b, "oz")
            && (forall j :: i + 1 <= j < b ==> s[j] == ws[j - i - 1])
            && (forall j :: b + 2 <= j < e ==> s[j] == dots[j - b - 2])
            && (e < |s| ==> s[e] == y[0])
            && s[..i] == x && s[e..] == y && s[i..i + 1] == [g]
  {
    var s := x + [g] + ws + "oz" + dots + y;
    var b := |x| + 1 + |ws|;
    assert s[b..b + 2] == "oz";
  }

  /** `([0-9])\s*oz\.*` on a digit, a blank run, `oz` and a run of points. */
  lemma DigitOunceHit(s: string, i: nat, b: nat, e: nat)
    requires i < b <= e <= |s| && b + 2 <= e && IsDigit(s[i]) && StartsWith(s, b, "oz")
    requires forall j :: i + 1 <= j < b ==> IsSpace(s[j])
    requires forall j :: b + 2 <= j < e ==> IsDot(s[j])
    requires e < |s| ==> !IsDot(s[e])
    ensures MatchAt(DigitOunce, s, i) == Some(Hit(e, [Span(i, i + 1)]))
  {
    assert !IsSpace(s[b]);
    RunEndAt(s, i + 1, b, IsSpace);
    RunEndAt(s, b + 2, e, IsDot);
  }

  /**
   * The older revision: a digit, white space, `oz` and any points, the only
   * such place the scan finds, becomes the digit and " ounce".
   */
  lemma TrainingOuncesConverted(x: string, g: char, ws: string, dots: string, y: string)
    requires IsDigit(g) && AllSpaces(ws) && forall k :: 0 <= k < |dots| ==> dots[k] == '.'
    requires |y| == 0 || y[0] != '.'
    requires var s := x + [g] + ws + "oz" + dots + y;
             |FindAll(DigitOunce, s)| == 1 && FindAll(DigitOunce, s)[0].start == |x|
    ensures EachAllWith(DigitOunce, DigitOunce, x + [g] + ws + "oz" + dots + y, DigitOunceText) == x + [g] + " ounce" + y
  {
    var s := x + [g] + ws + "oz" + dots + y;
    var i := |x|;
    var e := i + 1 + |ws| + 2 + |dots|;
    DigitOunceLaid(x, g, ws, dots, y);
    DigitOunceOne(s, i, e);
  }

  /** The older ounce loop on a text whose scan finds a single match. */
  lemma DigitOunceOne(s: string, i: nat, e: nat)
    requires i < e <= |s| && MatchAt(DigitOunce, s, i) == Some(Hit(e, [Span(i, i + 1)]))
    requires |FindAll(DigitOunce, s)| == 1 && FindAll(DigitOunce, s)[0].start == i
    ensures EachAllWith(DigitOunce, DigitOunce, s, DigitOunceText) == s[..i] + [s[i]] + " ounce" + s[e..]
  {
    ScanOne(DigitOunce, s, DigitOunceText, i, Hit(e, [Span(i, i + 1)]));
    var m := Match(i, e, Texts(s, [Span(i, i + 1)]));
    assert Texts(s, [Span(i, i + 1)]) == [s[i..i + 1]];
    assert s[i..i + 1] == [s[i]];
    assert DigitOunceText(m) == [s[i]] + " ounce";
  }

  /** The older ounce pattern matches the digit, the blanks, `oz` and the points. */
  lemma DigitOunceLaid(x: string, g: char, ws: string, dots: string, y: string)
    requires IsDigit(g) && AllSpaces(ws) && forall k :: 0 <= k < |dots| ==> dots[k] == '.'
    requires |y| == 0 || y[0] != '.'
    ensures var s := x + [g] + ws + "oz" + dots + y;
            var i := |x|;
            var e := i + 1 + |ws| + 2 + |dots|;
            e <= |s| && MatchAt(DigitOunce, s, i) == Some(Hit(e, [Span(i, i + 1)]))
            && s[..i] == x && s[i..i + 1] == [g] && s[e..] == y
  {
    var s := x + [g] + ws + "oz" + dots + y;
    var i := |x|;
    var b := i + 1 + |ws|;
    DigitOuncePieces(x, g, ws, dots, y);
    DigitOunceHit(s, i, b, b + 2 + |dots|);
  }



  /** Where the pieces of the older revision's gram pattern sit in the text. */
  lemma DigitGramPieces(x: string, g: char, ws: string, e: char, y: string)
    ensures var s := x + [g] + ws + "g" + [e] + y;
            var i := |x|;
            var b := i + 1 + |ws|;
            b + 1 < |s| && s[i] == g && s[b] == 'g' && s[b + 1] == e
            && (forall j :: i + 1 <= j < b ==> s[j] == ws[j - i - 1])
            && s[..i] == x && s[b + 2..] == y && s[i..i + 1] == [g] && s[b + 1..b + 2] == [e]
  {
  }

  /**
   * The older revision: a digit, white space and `g` before a character that
   * is not a lower-case letter, the only such place the scan finds: the `g`
   * becomes " gram" and the following character is kept.
   */
  lemma TrainingGramsConverted(x: string, g: char, ws: string, e: char, y: string)
    requires IsDigit(g) && AllSpaces(ws) && NotLower(e)
    requires var s := x + [g] + ws + "g" + [e] + y;
             |FindAll(DigitGram, s)| == 1 && FindAll(DigitGram, s)[0].start == |x|
    ensures EachAllWith(DigitGram, DigitGram, x + [g] + ws + "g" + [e] + y, GramText) == x + [g] + " gram" + [e] + y
  {
    var s := x + [g] + ws + "g" + [e] + y;
    var i := |x|;
    var b := i + 1 + |ws|;
    DigitGramLaid(x, g, ws, e, y);
    DigitGramOne(s, i, b);
  }

  /** The older gram pattern matches the digit, the blanks, `g` and the next character. */
  lemma DigitGramLaid(x: string, g: char, ws: string, e: char, y: string)
    requires IsDigit(g) && AllSpaces(ws) && NotLower(e)
    ensures var s := x + [g] + ws + "g" + [e] + y;
            var i := |x|;
            var b := i + 1 + |ws|;
            b + 2 <= |s| && MatchAt(DigitGram, s, i) == Some(Hit(b + 2, [Span(i, i + 1), Span(b + 1, b + 2)]))
            && s[..i] == x && s[i] == g && s[b + 1] == e && s[b + 2..] == y
  {
    var s := x + [g] + ws + "g" + [e] + y;
    var i := |x|;
    var b := i + 1 + |ws|;
    DigitGramPieces(x, g, ws, e, y);
    RunEndAt(s, i + 1, b, IsSpace);
  }

  /** The older gram loop on a text whose scan finds a single match. */
  lemma DigitGramOne(s: string, i: nat, b: nat)
    requires i < b && b + 2 <= |s| && MatchAt(DigitGram, s, i) == Some(Hit(b + 2, [Span(i, i + 1), Span(b + 1, b + 2)]))
    requires |FindAll(DigitGram, s)| == 1 && FindAll(DigitGram, s)[0].start == i
    ensures EachAllWith(DigitGram, DigitGram, s, GramText) == s[..i] + [s[i]] + " gram" + [s[b + 1]] + s[b + 2..]
  {
    ScanTwo(DigitGram, s, GramText, i, i + 1, b + 1);
    assert s[i..i + 1] == [s[i]];
    assert GramText(Match(i, b + 2, [[s[i]], [s[b + 1]]])) == [s[i]] + " gram" + [s[b + 1]];
    Regrouped(s[..i], [s[i]], " gram", [s[b + 1]], s[b + 2..]);
  }

  // ---------------------------------------------------------------------
  // Two ounce abbreviations sharing one separator
  // ---------------------------------------------------------------------

  /** `oz` stands alone at `i` of `r`: a non-word character, `oz`, a non-word character. */
  predicate LoneOz(r: string, i: nat) {
    i + 3 < |r| && NotWord(r[i]) && r[i + 1] == 'o' && r[i + 2] == 'z' && NotWord(r[i + 3])
  }

  /** The findall scan of " oz oz " sees one abbreviation: the first match took the blank the second needs. */
  lemma SharedSpaceScan(s: string)
    requires s == " oz oz "
    ensures |FindAll(AbbrevFind("oz"), s)| == 1 && FindAll(AbbrevFind("oz"), s)[0].start == 0
  {
    var p := AbbrevFind("oz");
    assert MatchAt(p, s, 0) == Some(Hit(4, [Span(0, 1), Span(3, 4)]));
    assert Search(p, s, 0) == MatchObject(p, s, 0);
    forall k | 4 <= k <= |s| ensures MatchAt(p, s, k).None? {
      assert s[4] == 'o' && s[5] == 'z' && s[6] == ' ';
    }
  }

  /**
   * As written, the ounce loop converts the first of two abbreviations that
   * share a separator and leaves the second standing alone.
   */
  lemma OuncesSharedSpace(s: string)
    requires s == " oz oz "
    ensures OuncesExpanded(s) == " ounce oz "
    ensures LoneOz(OuncesExpanded(s), 6)
  {
    SharedSpaceScan(s);
    assert s == "" + [' '] + "oz" + "" + [' '] + "oz ";
    OuncesConverted("", ' ', "", ' ', "oz ");
    assert "" + [' '] + "ounce" + [' '] + "oz " == " ounce oz ";
  }

  /**
   * What the ounce loop evidently intends: every `oz` or `oz.` between
   * non-word characters becomes "ounce". The scan goes left to right and
   * does not consume the right-hand separator, so two abbreviations may
   * share it; a point followed by a non-word character is dropped, as in
   * the source's substitution.
   */
  function OuncesExpandedIntended(s: string): (r: string)
    ensures |s| > 0 <==> |r| > 0
    ensures |s| > 0 ==> r[0] == s[0]
    decreases |s|
  {
    if |s| < 4 then s
    else if NotWord(s[0]) && s[1] == 'o' && s[2] == 'z' && NotWord(s[3]) then
      var rest := if s[3] == '.' && |s| > 4 && NotWord(s[4]) then s[4..] else s[3..];
      [s[0]] + "ounce" + OuncesExpandedIntended(rest)
    else [s[0]] + OuncesExpandedIntended(s[1..])
  }

  /** A text starting with a word character keeps it and is converted from the next one on. */
  lemma IntendedWordHead(t: string)
    requires |t| > 0 && IsWord(t[0])
    ensures OuncesExpandedIntended(t) == [t[0]] + OuncesExpandedIntended(t[1..])
  {
    if |t| < 4 {
      assert OuncesExpandedIntended(t[1..]) == t[1..];
      assert t == [t[0]] + t[1..];
    }
  }

  /** The corrected loop leaves no `oz` standing alone. */
  lemma {:induction false} NoLoneOzLeft(s: string)
    ensures forall i: nat :: !LoneOz(OuncesExpandedIntended(s), i)
    decreases |s|
  {
    var r := OuncesExpandedIntended(s);
    if |s| < 4 {
    } else if NotWord(s[0]) && s[1] == 'o' && s[2] == 'z' && NotWord(s[3]) {
      var rest := if s[3] == '.' && |s| > 4 && NotWord(s[4]) then s[4..] else s[3..];
      var tail := OuncesExpandedIntended(rest);
      NoLoneOzLeft(rest);
      assert r == [s[0]] + "ounce" + tail;
      forall i: nat ensures !LoneOz(r, i) {
        if 6 <= i {
          assert !LoneOz(tail, i - 6);
        }
      }
    } else {
      var tail := OuncesExpandedIntended(s[1..]);
      NoLoneOzLeft(s[1..]);
      assert r == [s[0]] + tail;
      forall i: nat ensures !LoneOz(r, i) {
        if 1 <= i {
          assert !LoneOz(tail, i - 1);
        } else if LoneOz(r, 0) {
          assert s[1] == 'o';
          IntendedWordHead(s[1..]);
          assert s[2] == 'z';
          IntendedWordHead(s[2..]);
          assert false;
        }
      }
    }
  }

  /** The corrected loop converts both abbreviations that share a separator. */
  lemma OuncesSharedSpaceIntended()
    ensures OuncesExpandedIntended(" oz oz ") == " ounce ounce "
  {
    assert OuncesExpandedIntended(" oz ") == " ounce ";
    assert " oz oz "[3..] == " oz ";
  }
}
