/**
 * Reassembling a tagged ingredient line: `smartJoin` glues tokens back
 * into text, and `format_ingredient_output` turns the tagger's
 * (token, BIO tag) pairs into a dictionary from each lower-cased tag to
 * the text of its tokens, plus the whole line under "input".
 */
module Reassembly {
  import opened Wrappers
  import opened Strings
  import Labels

  const InputKey: string := "input"

  // ---------------------------------------------------------------------
  // smartJoin
  // ---------------------------------------------------------------------

  /**
   * Join with spaces, then pull commas and parentheses onto their words.
   * Without commas or parentheses this is `" ".join`; in particular
   * `smartJoin([])` is "".
   */
  function SmartJoin(words: seq<string>): (r: string)
    ensures (forall w :: w in words ==> ',' !in w && '(' !in w && ')' !in w) ==> r == Join(words, " ")
    ensures |words| == 0 ==> r == ""
  {
    var spaced := Join(words, " ");
    JoinPlain(words);
    Replace(Replace(Replace(spaced, " , ", ", "), "( ", "("), " )", ")")
  }

  /** `s` has no `a` immediately followed by `b`. */
  predicate NoPair(s: string, a: char, b: char) {
    forall i :: 0 <= i < |s| - 1 ==> !(s[i] == a && s[i + 1] == b)
  }

  /** A pattern holding a character the text lacks never matches. */
  lemma {:induction false} ReplaceMissing(s: string, pat: string, rep: string, c: char)
    requires |pat| > 0 && c in pat && c !in s
    ensures Replace(s, pat, rep) == s
    decreases |s|
  {
    if |s| >= |pat| {
      assert c !in s[..|pat|];
      assert s[..|pat|] != pat;
      ReplaceMissing(s[1..], pat, rep, c);
      assert s == [s[0]] + s[1..];
    }
  }

  /** A character in neither the separator nor any word is not in the join. */
  lemma {:induction false} JoinLacks(words: seq<string>, sep: string, c: char)
    requires c !in sep && forall w :: w in words ==> c !in w
    ensures c !in Join(words, sep)
    decreases |words|
  {
    if |words| > 1 {
      JoinLacks(words[1..], sep, c);
    }
  }

  /** The three rewrites of `smartJoin` leave a join without commas or parentheses alone. */
  lemma JoinPlain(words: seq<string>)
    ensures var spaced := Join(words, " ");
            (forall w :: w in words ==> ',' !in w && '(' !in w && ')' !in w) ==>
              Replace(Replace(Replace(spaced, " , ", ", "), "( ", "("), " )", ")") == spaced
  {
    if forall w :: w in words ==> ',' !in w && '(' !in w && ')' !in w {
      var spaced := Join(words, " ");
      JoinLacks(words, " ", ',');
      JoinLacks(words, " ", '(');
      JoinLacks(words, " ", ')');
      ReplaceMissing(spaced, " , ", ", ", ',');
      ReplaceMissing(spaced, "( ", "(", '(');
      ReplaceMissing(spaced, " )", ")", ')');
    }
  }

  lemma SmartJoinComma()
    ensures SmartJoin(["a", ",", "b"]) == "a, b"
  {
    var spaced := Join(["a", ",", "b"], " ");
    assert spaced == "a , b" by {
      assert Join(["a", ",", "b"][1..], " ") == ", b" by {
        assert ["a", ",", "b"][1..] == [",", "b"];
        assert [",", "b"][1..] == ["b"];
      }
    }
    var s1 := Replace(spaced, " , ", ", ");
    assert s1 == "a, b" by {
      assert spaced[..3][0] == 'a';
      assert spaced[1..][..3] == " , ";
      assert spaced[1..][3..] == "b";
      assert Replace("b", " , ", ", ") == "b";
      assert [spaced[0]] + ", " + "b" == "a, b";
    }
    ReplaceMissing(s1, "( ", "(", '(');
    ReplaceMissing(s1, " )", ")", ')');
  }

  lemma SmartJoinParens()
    ensures SmartJoin(["(", "x", ")"]) == "(x)"
  {
    var spaced := Join(["(", "x", ")"], " ");
    assert spaced == "( x )" by {
      assert Join(["(", "x", ")"][1..], " ") == "x )" by {
        assert ["(", "x", ")"][1..] == ["x", ")"];
        assert ["x", ")"][1..] == [")"];
      }
    }
    ReplaceMissing(spaced, " , ", ", ", ',');
    OpenParen();
    CloseParen();
  }

  lemma OpenParen()
    ensures Replace("( x )", "( ", "(") == "(x )"
  {
    var rest := "x )";
    assert "( x )"[..2] == "( " && "( x )"[2..] == rest;
    assert rest[..2][0] == 'x' && rest[1..] == " )";
    assert " )"[..2][0] == ' ' && " )"[1..] == ")";
    assert Replace(")", "( ", "(") == ")";
    assert Replace(" )", "( ", "(") == [' '] + ")";
    assert Replace(rest, "( ", "(") == ['x'] + " )";
  }

  lemma CloseParen()
    ensures Replace("(x )", " )", ")") == "(x)"
  {
    assert " )"[..2] == " )" && " )"[2..] == "";
    assert Replace(" )", " )", ")") == ")";
    assert "x )"[..2][0] == 'x' && "x )"[1..] == " )";
    assert Replace("x )", " )", ")") == ['x'] + ")";
    assert "(x )"[..2][0] == '(' && "(x )"[1..] == "x )";
    assert Replace("(x )", " )", ")") == ['('] + "x)";
  }

  lemma PairsConcat(a: string, b: string, x: char, y: char)
    requires NoPair(a, x, y) && NoPair(b, x, y)
    requires |a| > 0 && |b| > 0 ==> !(a[|a| - 1] == x && b[0] == y)
    ensures NoPair(a + b, x, y)
  {
    var s := a + b;
    forall i | 0 <= i < |s| - 1 ensures !(s[i] == x && s[i + 1] == y) {
      if i < |a| - 1 {
        assert s[i] == a[i] && s[i + 1] == a[i + 1];
      } else if i >= |a| {
        assert s[i] == b[i - |a|] && s[i + 1] == b[i - |a| + 1];
      }
    }
  }

  lemma NoPairSuffix(s: string, k: nat, a: char, b: char)
    requires NoPair(s, a, b) && k <= |s|
    ensures NoPair(s[k..], a, b)
  {
    var t := s[k..];
    forall i | 0 <= i < |t| - 1 ensures !(t[i] == a && t[i + 1] == b) {
      assert t[i] == s[k + i] && t[i + 1] == s[k + i + 1];
    }
  }

  /** Space-free, non-empty words joined by single spaces never hold two spaces in a row. */
  lemma {:induction false} JoinSpaced(words: seq<string>)
    requires forall w :: w in words ==> |w| > 0 && ' ' !in w
    ensures NoPair(Join(words, " "), ' ', ' ')
    ensures |words| > 0 ==> |Join(words, " ")| > 0 && Join(words, " ")[0] == words[0][0]
    decreases |words|
  {
    if |words| > 1 {
      var w := words[0];
      var rest := Join(words[1..], " ");
      JoinSpaced(words[1..]);
      assert words[1] in words;
      assert w in words;
      assert w[|w| - 1] in w;
      PairsConcat(w, " ", ' ', ' ');
      PairsConcat(w + " ", rest, ' ', ' ');
      assert Join(words, " ") == (w + " ") + rest;
    } else if |words| == 1 {
      assert words[0] in words;
    }
  }

  /** The comma pass keeps single spaces single; its first character is the text's or the comma that replaced a space. */
  lemma {:induction false} CommasSpaced(s: string)
    requires NoPair(s, ' ', ' ')
    ensures NoPair(Replace(s, " , ", ", "), ' ', ' ')
    ensures var r := Replace(s, " , ", ", ");
            |s| > 0 ==> |r| > 0 && (r[0] == s[0] || (s[0] == ' ' && r[0] == ','))
    decreases |s|
  {
    if |s| >= 3 {
      if s[..3] == " , " {
        NoPairSuffix(s, 3, ' ', ' ');
        CommasSpaced(s[3..]);
        assert s[2] == ' ';
        PairsConcat(", ", Replace(s[3..], " , ", ", "), ' ', ' ');
      } else {
        NoPairSuffix(s, 1, ' ', ' ');
        CommasSpaced(s[1..]);
        PairsConcat([s[0]], Replace(s[1..], " , ", ", "), ' ', ' ');
      }
    }
  }

  /** The opening pass leaves no "( " behind when no two spaces stand together. */
  lemma {:induction false} OpenersTight(s: string)
    requires NoPair(s, ' ', ' ')
    ensures var r := Replace(s, "( ", "(");
            NoPair(r, '(', ' ') && NoPair(r, ' ', ' ') && (|s| > 0 ==> |r| > 0 && r[0] == s[0])
    decreases |s|
  {
    if |s| >= 2 {
      if s[..2] == "( " {
        NoPairSuffix(s, 2, ' ', ' ');
        OpenersTight(s[2..]);
        assert s[1] == ' ';
        var r := Replace(s[2..], "( ", "(");
        PairsConcat("(", r, '(', ' ');
        PairsConcat("(", r, ' ', ' ');
      } else {
        NoPairSuffix(s, 1, ' ', ' ');
        OpenersTight(s[1..]);
        assert s[..2] == [s[0], s[1]];
        var r := Replace(s[1..], "( ", "(");
        PairsConcat([s[0]], r, '(', ' ');
        PairsConcat([s[0]], r, ' ', ' ');
      }
    }
  }

  /** The closing pass leaves no " )" behind and brings back no "( ". */
  lemma {:induction false} ClosersTight(s: string)
    requires NoPair(s, ' ', ' ') && NoPair(s, '(', ' ')
    ensures var r := Replace(s, " )", ")");
            NoPair(r, ' ', ')') && NoPair(r, '(', ' ')
            && (|s| > 0 ==> |r| > 0 && (r[0] == s[0] || (s[0] == ' ' && r[0] == ')')))
    decreases |s|
  {
    if |s| >= 2 {
      if s[..2] == " )" {
        NoPairSuffix(s, 2, ' ', ' ');
        NoPairSuffix(s, 2, '(', ' ');
        ClosersTight(s[2..]);
        var r := Replace(s[2..], " )", ")");
        PairsConcat(")", r, ' ', ')');
        PairsConcat(")", r, '(', ' ');
      } else {
        NoPairSuffix(s, 1, ' ', ' ');
        NoPairSuffix(s, 1, '(', ' ');
        ClosersTight(s[1..]);
        assert s[..2] == [s[0], s[1]];
        var r := Replace(s[1..], " )", ")");
        PairsConcat([s[0]], r, ' ', ')');
        PairsConcat([s[0]], r, '(', ' ');
      }
    }
  }

  /** For non-empty words without spaces, no "( " and no " )" survive `smartJoin`. */
  lemma SmartJoinTight(words: seq<string>)
    requires forall w :: w in words ==> |w| > 0 && ' ' !in w
    ensures NoPair(SmartJoin(words), '(', ' ') && NoPair(SmartJoin(words), ' ', ')')
  {
    var spaced := Join(words, " ");
    JoinSpaced(words);
    CommasSpaced(spaced);
    var s1 := Replace(spaced, " , ", ", ");
    OpenersTight(s1);
    ClosersTight(Replace(s1, "( ", "("));
  }

  // ---------------------------------------------------------------------
  // format_ingredient_output
  // ---------------------------------------------------------------------

  /** `re.sub(r"^[BI]\-", "", tag).lower()`: drop one leading "B-" or "I-", then lower-case. */
  function StripTag(tag: string): string {
    if |tag| >= 2 && (tag[0] == 'B' || tag[0] == 'I') && tag[1] == '-' then Lower(tag[2..]) else Lower(tag)
  }

  function Stripped(tags: seq<string>): (r: seq<string>)
    ensures |r| == |tags|
  {
    seq(|tags|, i requires 0 <= i < |tags| => StripTag(tags[i]))
  }

  /** The tokens whose tag is `k`, in input order. */
  function TokensWith(ts: seq<string>, ks: seq<string>, k: string): seq<string>
    requires |ts| == |ks|
    decreases |ts|
  {
    if |ts| == 0 then []
    else
      var n := |ts| - 1;
      TokensWith(ts[..n], ks[..n], k) + (if ks[n] == k then [ts[n]] else [])
  }

  /**
   * The display structure after the first `i` pairs: maximal stretches of
   * neighbouring tokens with the same tag, each as (tag, tokens).
   */
  function Runs(ts: seq<string>, ks: seq<string>, i: nat): (r: seq<(string, seq<string>)>)
    requires |ts| == |ks| && i <= |ts|
    ensures forall j :: 0 <= j < |r| ==> |r[j].1| > 0
    ensures |r| == 0 <==> i == 0
    ensures i > 0 ==> r[|r| - 1].0 == ks[i - 1]
  {
    if i == 0 then [] else Grow(Runs(ts, ks, i - 1), ks[i - 1], ts[i - 1])
  }

  /** One more token: it joins the last run when that run has its tag, else it opens a run. */
  function Grow(runs: seq<(string, seq<string>)>, k: string, t: string): (r: seq<(string, seq<string>)>)
    requires forall j :: 0 <= j < |runs| ==> |runs[j].1| > 0
    ensures forall j :: 0 <= j < |r| ==> |r[j].1| > 0
    ensures |r| > 0 && r[|r| - 1].0 == k
  {
    if |runs| > 0 && runs[|runs| - 1].0 == k then
      var last := runs[|runs| - 1];
      runs[..|runs| - 1] + [(last.0, last.1 + [t])]
    else
      runs + [(k, [t])]
  }

  function RunTexts(runs: seq<(string, seq<string>)>): (r: seq<string>)
    ensures |r| == |runs|
  {
    seq(|runs|, j requires 0 <= j < |runs| => Join(runs[j].1, " "))
  }

  /** The `data` dictionary after the first `i` pairs: a new tag enters with no tokens, then the token is appended. */
  function Grouped(ts: seq<string>, ks: seq<string>, i: nat): map<string, seq<string>>
    requires |ts| == |ks| && i <= |ts|
  {
    if i == 0 then map[]
    else
      var g := Grouped(ts, ks, i - 1);
      var k := ks[i - 1];
      g[k := (if k in g then g[k] else []) + [ts[i - 1]]]
  }

  function Min(a: nat, b: nat): nat { if a <= b then a else b }

  /**
   * The dictionary `format_ingredient_output` returns: `zip` pairs the
   * first Min(|tokens|, |tags|) of each; every stripped tag maps to the
   * smart join of its tokens and "input" to the smart join of the
   * space-joined runs. Without any pair `output` is empty and `output[0]`
   * raises an IndexError.
   */
  function Formatted(tokens: seq<string>, tags: seq<string>): Result<map<string, string>> {
    var n := Min(|tokens|, |tags|);
    var ts := tokens[..n];
    var ks := Stripped(tags[..n]);
    if n == 0 then Raised(IndexError)
    else Ok(JoinEach(TagTokens(ts, ks))[InputKey := SmartJoin(RunTexts(Runs(ts, ks, n)))])
  }

  /** Each tag seen to the tokens that carry it. */
  function TagTokens(ts: seq<string>, ks: seq<string>): map<string, seq<string>>
    requires |ts| == |ks|
  {
    map k | k in ks :: TokensWith(ts, ks, k)
  }

  /** Every entry smart-joined. */
  function JoinEach(m: map<string, seq<string>>): map<string, string> {
    map k | k in m :: SmartJoin(m[k])
  }

  method FormatIngredientOutput(tokens: seq<string>, tags: seq<string>) returns (r: Result<map<string, string>>)
    ensures r == Formatted(tokens, tags)
  {
    var n := Min(|tokens|, |tags|);
    ghost var ts := tokens[..n];
    ghost var ks := Stripped(tags[..n]);
    var data: map<string, seq<string>> := map[];
    var display: seq<(string, seq<string>)> := [];
    var prevTag: Option<string> := None;
    var i := 0;
    while i < n
      invariant i <= n
      invariant data == Grouped(ts, ks, i)
      invariant display == Runs(ts, ks, i)
      invariant prevTag == if i == 0 then None else Some(ks[i - 1])
    {
      var token := tokens[i];
      var tag := StripTag(tags[i]);
      assert token == ts[i] && tag == ks[i];
      ghost var before, g := display, data;
      if prevTag != Some(tag) {
        display := display + [(tag, [token])];
        prevTag := Some(tag);
      } else {
        var last := display[|display| - 1];
        display := display[..|display| - 1] + [(last.0, last.1 + [token])];
      }
      if tag !in data {
        data := data[tag := []];
      }
      data := data[tag := data[tag] + [token]];
      assert display == Grow(before, tag, token);
      GroupedStep(g, tag, token, data);
      i := i + 1;
    }
    Finish(tokens, tags, data, display);
    if |data| == 0 {
      return Raised(IndexError);
    }
    var output := map k | k in data :: SmartJoin(data[k]);
    assert output == JoinEach(data);
    output := output[InputKey := SmartJoin(RunTexts(display))];
    return Ok(output);
  }

  /** Creating a missing entry and then appending is the update `Grouped` makes. */
  lemma GroupedStep(g: map<string, seq<string>>, k: string, t: string, data: map<string, seq<string>>)
    requires data == (if k in g then g else g[k := []])[k := (if k in g then g else g[k := []])[k] + [t]]
    ensures data == g[k := (if k in g then g[k] else []) + [t]]
  {
  }

  /** After the loop: the empty case and the comprehension over the grouping. */
  lemma Finish(tokens: seq<string>, tags: seq<string>, data: map<string, seq<string>>, display: seq<(string, seq<string>)>)
    requires var n := Min(|tokens|, |tags|);
             var ts, ks := tokens[..n], Stripped(tags[..n]);
             data == Grouped(ts, ks, n) && display == Runs(ts, ks, n)
    ensures |data| == 0 ==> Formatted(tokens, tags) == Raised(IndexError)
    ensures |data| > 0 ==>
            Formatted(tokens, tags) == Ok(JoinEach(data)[InputKey := SmartJoin(RunTexts(display))])
  {
    var n := Min(|tokens|, |tags|);
    var ts, ks := tokens[..n], Stripped(tags[..n]);
    GroupedKeys(ts, ks, n);
    GroupedValues(ts, ks, n);
    assert ts[..n] == ts && ks[..n] == ks;
    if n > 0 {
      assert ks[0] in data;
      SameDictionary(ts, ks, data);
    } else {
      assert data == map[];
    }
  }

  lemma SameDictionary(ts: seq<string>, ks: seq<string>, data: map<string, seq<string>>)
    requires |ts| == |ks|
    requires forall k :: k in data <==> k in ks
    requires forall k :: k in data ==> data[k] == TokensWith(ts, ks, k)
    ensures data == TagTokens(ts, ks)
  {
    var spec := TagTokens(ts, ks);
    assert data.Keys == spec.Keys;
  }

  /** The dictionary holds exactly the tags seen so far. */
  lemma {:induction false} GroupedKeys(ts: seq<string>, ks: seq<string>, i: nat)
    requires |ts| == |ks| && i <= |ts|
    ensures forall k :: k in Grouped(ts, ks, i) <==> k in ks[..i]
  {
    if i > 0 {
      GroupedKeys(ts, ks, i - 1);
      assert ks[..i] == ks[..i - 1] + [ks[i - 1]];
    }
  }

  /** Each tag holds the tokens that carry it, in order. */
  lemma {:induction false} GroupedValues(ts: seq<string>, ks: seq<string>, i: nat)
    requires |ts| == |ks| && i <= |ts|
    ensures forall k :: k in Grouped(ts, ks, i) ==> Grouped(ts, ks, i)[k] == TokensWith(ts[..i], ks[..i], k)
  {
    if i > 0 {
      var g := Grouped(ts, ks, i - 1);
      GroupedKeys(ts, ks, i - 1);
      GroupedValues(ts, ks, i - 1);
      var a, b := ts[..i], ks[..i];
      assert a[..i - 1] == ts[..i - 1] && b[..i - 1] == ks[..i - 1];
      forall k | k == ks[i - 1] && k !in g ensures TokensWith(ts[..i - 1], ks[..i - 1], k) == [] {
        TokensWithAbsent(ts[..i - 1], ks[..i - 1], k);
      }
    }
  }

  lemma {:induction false} TokensWithAbsent(ts: seq<string>, ks: seq<string>, k: string)
    requires |ts| == |ks| && k !in ks
    ensures TokensWith(ts, ks, k) == []
    decreases |ts|
  {
    if |ts| > 0 {
      var n := |ts| - 1;
      assert forall x :: x in ks[..n] ==> x in ks;
      TokensWithAbsent(ts[..n], ks[..n], k);
    }
  }

  // ---------------------------------------------------------------------
  // Properties of the formatted dictionary
  // ---------------------------------------------------------------------

  /**
   * Without any (token, tag) pair the call raises an IndexError; otherwise
   * the keys are exactly the distinct stripped tags and "input". Pairs
   * past the shorter sequence play no part.
   */
  lemma FormattedKeys(tokens: seq<string>, tags: seq<string>)
    ensures var n := Min(|tokens|, |tags|);
            && (Formatted(tokens, tags).Raised? <==> n == 0)
            && (Formatted(tokens, tags).Raised? ==> Formatted(tokens, tags).error == IndexError)
            && (Formatted(tokens, tags).Ok? ==>
                  Formatted(tokens, tags).value.Keys == (set k | k in Stripped(tags[..n])) + {InputKey})
  {
  }

  /** One more token adds it, after a space, to the space-joined runs. */
  lemma GrowJoin(runs: seq<(string, seq<string>)>, k: string, t: string)
    requires forall j :: 0 <= j < |runs| ==> |runs[j].1| > 0
    ensures Join(RunTexts(Grow(runs, k, t)), " ") ==
            if |runs| == 0 then t else Join(RunTexts(runs), " ") + " " + t
  {
    var m := |runs|;
    var texts := RunTexts(runs);
    if m > 0 && runs[m - 1].0 == k {
      var last := runs[m - 1];
      JoinSnoc(last.1, t, " ");
      var grown := RunTexts(Grow(runs, k, t));
      assert grown == texts[..m - 1] + [Join(last.1, " ") + " " + t];
      assert texts == texts[..m - 1] + [Join(last.1, " ")];
      JoinSnoc(texts[..m - 1], Join(last.1, " ") + " " + t, " ");
      JoinSnoc(texts[..m - 1], Join(last.1, " "), " ");
    } else {
      assert RunTexts(Grow(runs, k, t)) == texts + [t];
      JoinSnoc(texts, t, " ");
    }
  }

  /** Space-joining each run and then the runs gives the space-joined tokens. */
  lemma {:induction false} RunsJoin(ts: seq<string>, ks: seq<string>, i: nat)
    requires |ts| == |ks| && i <= |ts|
    ensures Join(RunTexts(Runs(ts, ks, i)), " ") == Join(ts[..i], " ")
  {
    if i > 0 {
      var before, t := Runs(ts, ks, i - 1), ts[i - 1];
      assert Runs(ts, ks, i) == Grow(before, ks[i - 1], t);
      RunsJoin(ts, ks, i - 1);
      GrowJoin(before, ks[i - 1], t);
      assert ts[..i] == ts[..i - 1] + [t];
      JoinSnoc(ts[..i - 1], t, " ");
      assert |before| == 0 <==> |ts[..i - 1]| == 0;
    }
  }

  /** The "input" entry is the smart join of every zipped token, in order. */
  lemma FormattedInput(tokens: seq<string>, tags: seq<string>)
    requires Formatted(tokens, tags).Ok?
    ensures Formatted(tokens, tags).value[InputKey] == SmartJoin(tokens[..Min(|tokens|, |tags|)])
  {
    var n := Min(|tokens|, |tags|);
    var ts, ks := tokens[..n], Stripped(tags[..n]);
    RunsJoin(ts, ks, n);
    assert ts[..n] == ts;
  }

  /** The tokens of the runs tagged `k`, run after run. */
  function Collected(runs: seq<(string, seq<string>)>, k: string): seq<string> {
    if |runs| == 0 then []
    else
      var m := |runs| - 1;
      Collected(runs[..m], k) + (if runs[m].0 == k then runs[m].1 else [])
  }

  lemma GrowCollected(runs: seq<(string, seq<string>)>, k: string, t: string, x: string)
    requires forall j :: 0 <= j < |runs| ==> |runs[j].1| > 0
    ensures Collected(Grow(runs, k, t), x) == Collected(runs, x) + (if k == x then [t] else [])
  {
    var m := |runs|;
    var grown := Grow(runs, k, t);
    if m > 0 && runs[m - 1].0 == k {
      assert grown[..m - 1] == runs[..m - 1];
    } else {
      assert grown[..m] == runs;
    }
  }

  /**
   * A tag's tokens in the dictionary are the tokens of all its runs, so
   * stretches of one tag that other tags interrupt are gathered under one
   * key.
   */
  lemma {:induction false} RunsGather(ts: seq<string>, ks: seq<string>, i: nat, k: string)
    requires |ts| == |ks| && i <= |ts|
    ensures TokensWith(ts[..i], ks[..i], k) == Collected(Runs(ts, ks, i), k)
  {
    if i > 0 {
      var before := Runs(ts, ks, i - 1);
      assert Runs(ts, ks, i) == Grow(before, ks[i - 1], ts[i - 1]);
      RunsGather(ts, ks, i - 1, k);
      GrowCollected(before, ks[i - 1], ts[i - 1], k);
      TokensWithSnoc(ts, ks, i, k);
    }
  }

  lemma TokensWithSnoc(ts: seq<string>, ks: seq<string>, i: nat, k: string)
    requires |ts| == |ks| && 0 < i <= |ts|
    ensures TokensWith(ts[..i], ks[..i], k) == TokensWith(ts[..i - 1], ks[..i - 1], k) + (if ks[i - 1] == k then [ts[i - 1]] else [])
  {
    var a, b := ts[..i], ks[..i];
    assert a[..i - 1] == ts[..i - 1] && b[..i - 1] == ks[..i - 1];
  }

  // ---------------------------------------------------------------------
  // Round trip with add_prefixes
  // ---------------------------------------------------------------------

  /** Stripping a prefix that `add_prefixes` put on gives back the tag, lower-cased. */
  lemma StripPrefixed(tags: seq<string>)
    ensures Stripped(Labels.Prefixed(tags)) == seq(|tags|, i requires 0 <= i < |tags| => Lower(tags[i]))
  {
    var p := Labels.Prefixed(tags);
    forall i | 0 <= i < |tags| ensures StripTag(p[i]) == Lower(tags[i]) {
      Labels.Tagged(Labels.Prefix(tags, i), tags[i]);
    }
  }

  /**
   * Formatting the tokens of a labelled line with the tags `add_prefixes`
   * made gives one key per label, lower-cased, besides "input".
   */
  lemma FormattedPrefixed(tokens: seq<string>, tags: seq<string>)
    requires |tokens| == |tags| > 0
    ensures Formatted(tokens, Labels.Prefixed(tags)).Ok?
    ensures Formatted(tokens, Labels.Prefixed(tags)).value.Keys == (set t | t in tags :: Lower(t)) + {InputKey}
  {
    var p := Labels.Prefixed(tags);
    FormattedKeys(tokens, p);
    StripPrefixed(tags);
    assert p[..|tags|] == p;
    var lowered := seq(|tags|, i requires 0 <= i < |tags| => Lower(tags[i]));
    assert (set k | k in lowered) == (set t | t in tags :: Lower(t)) by {
      forall x | x in lowered ensures x in (set t | t in tags :: Lower(t)) {
        var i :| 0 <= i < |lowered| && lowered[i] == x;
        assert tags[i] in tags;
      }
      forall t | t in tags ensures Lower(t) in lowered {
        var i :| 0 <= i < |tags| && tags[i] == t;
        assert lowered[i] == Lower(t);
      }
    }
  }
}
