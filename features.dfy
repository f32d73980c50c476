/**
 * `word2features`: the feature dictionary the tagger sees for one token of
 * a parsed sentence, built from the token itself and from up to two
 * neighbours on either side, with "BOS"/"EOS" flags at the sentence ends;
 * and the per-token list `process_data` makes of a parsed line.
 */
module Features {

  /** The attributes of a parsed token that the features read. */
  datatype Token = Token(
    lemmaForm: string, pos: string, tag: string, dep: string, shape: string,
    isAlpha: bool, isStop: bool, isTitle: bool, isPunct: bool,
    isLeftPunct: bool, isRightPunct: bool)

  /** A feature value: the bias number, a text attribute or a flag. */
  datatype Value = Number(r: real) | Text(s: string) | Flag(b: bool)

  type FeatureMap = map<string, Value>

  /** The keys every token gets from itself. */
  const OwnKeys: set<string> :=
    {"bias", "lemma", "pos", "tag", "dep", "shape", "is_alpha", "is_stop", "is_title", "is_punct"}

  /** Key suffixes a neighbour contributes after its "-1:", "-2:", "+1:" or "+2:". */
  const BeforeSuffixes: set<string> :=
    {"lemma", "pos", "tag", "dep", "shape", "is_alpha", "is_stop", "is_title", "is_left_punct"}
  const AfterSuffixes: set<string> :=
    {"lemma", "pos", "tag", "dep", "shape", "is_alpha", "is_stop", "is_title", "is_right_punct"}

  /** The dictionary literal the function starts from. */
  function Own(t: Token): FeatureMap {
    map[
      "bias" := Number(1.0),
      "lemma" := Text(t.lemmaForm),
      "pos" := Text(t.pos),
      "tag" := Text(t.tag),
      "dep" := Text(t.dep),
      "shape" := Text(t.shape),
      "is_alpha" := Flag(t.isAlpha),
      "is_stop" := Flag(t.isStop),
      "is_title" := Flag(t.isTitle),
      "is_punct" := Flag(t.isPunct)]
  }

  /** A preceding neighbour's entries, its keys starting with `offset`. */
  function Before(offset: string, t: Token): FeatureMap {
    map[
      offset + "lemma" := Text(t.lemmaForm),
      offset + "pos" := Text(t.pos),
      offset + "tag" := Text(t.tag),
      offset + "dep" := Text(t.dep),
      offset + "shape" := Text(t.shape),
      offset + "is_alpha" := Flag(t.isAlpha),
      offset + "is_stop" := Flag(t.isStop),
      offset + "is_title" := Flag(t.isTitle),
      offset + "is_left_punct" := Flag(t.isLeftPunct)]
  }

  /** A following neighbour's entries, its keys starting with `offset`. */
  function After(offset: string, t: Token): FeatureMap {
    map[
      offset + "lemma" := Text(t.lemmaForm),
      offset + "pos" := Text(t.pos),
      offset + "tag" := Text(t.tag),
      offset + "dep" := Text(t.dep),
      offset + "shape" := Text(t.shape),
      offset + "is_alpha" := Flag(t.isAlpha),
      offset + "is_stop" := Flag(t.isStop),
      offset + "is_title" := Flag(t.isTitle),
      offset + "is_right_punct" := Flag(t.isRightPunct)]
  }

  /**
   * The features of token `i`: its own entries, the entries of the
   * neighbours that exist, and a flag for each sentence end it sits on.
   */
  function Window(sent: seq<Token>, i: nat): FeatureMap
    requires i < |sent|
  {
    Own(sent[i]) + Left(sent, i) + Right(sent, i)
  }

  /** The entries from the tokens before `i`, or the "BOS" flag on the first token. */
  function Left(sent: seq<Token>, i: nat): FeatureMap
    requires i < |sent|
  {
    if i == 0 then map["BOS" := Flag(true)]
    else if i == 1 then Before("-1:", sent[0])
    else Before("-1:", sent[i - 1]) + Before("-2:", sent[i - 2])
  }

  /** The entries from the tokens after `i`, or the "EOS" flag on the last token. */
  function Right(sent: seq<Token>, i: nat): FeatureMap
    requires i < |sent|
  {
    if i == |sent| - 1 then map["EOS" := Flag(true)]
    else if i == |sent| - 2 then After("+1:", sent[i + 1])
    else After("+1:", sent[i + 1]) + After("+2:", sent[i + 2])
  }

  /** `word2features(sent, i)`: the dictionary updated under the position tests. */
  method Word2Features(sent: seq<Token>, i: nat) returns (features: FeatureMap)
    requires i < |sent|
    ensures features == Window(sent, i)
  {
    features := Own(sent[i]);
    ghost var own := features;
    if i > 0 {
      features := features + Before("-1:", sent[i - 1]);
      if i > 1 {
        Regroup(own, Before("-1:", sent[i - 1]), Before("-2:", sent[i - 2]));
        features := features + Before("-2:", sent[i - 2]);
      }
    } else {
      Flagged(features, "BOS");
      features := features["BOS" := Flag(true)];
    }
    ghost var sides := features;
    if i < |sent| - 1 {
      features := features + After("+1:", sent[i + 1]);
      if i < |sent| - 2 {
        Regroup(sides, After("+1:", sent[i + 1]), After("+2:", sent[i + 2]));
        features := features + After("+2:", sent[i + 2]);
      }
    } else {
      Flagged(features, "EOS");
      features := features["EOS" := Flag(true)];
    }
  }

  /** `dict.update` in two steps is one update with the merged dictionary. */
  lemma Regroup(a: FeatureMap, b: FeatureMap, c: FeatureMap)
    ensures a + b + c == a + (b + c)
  {
  }

  /** Setting one key is an update with a one-entry dictionary. */
  lemma Flagged(a: FeatureMap, k: string)
    ensures a[k := Flag(true)] == a + map[k := Flag(true)]
  {
  }

  /** `process_data`'s comprehension: one dictionary per token of the parsed line, in order. */
  function Featurized(doc: seq<Token>): (r: seq<FeatureMap>)
    ensures |r| == |doc|
  {
    seq(|doc|, i requires 0 <= i < |doc| => Window(doc, i))
  }

  // ---------------------------------------------------------------------
  // Which keys a token gets
  // ---------------------------------------------------------------------

  /** The keys `offset + name` for each name. */
  function Offsetted(offset: string, names: set<string>): set<string> {
    set x | x in names :: offset + x
  }

  lemma NeighbourKeys(offset: string, t: Token)
    ensures Before(offset, t).Keys == Offsetted(offset, BeforeSuffixes)
    ensures After(offset, t).Keys == Offsetted(offset, AfterSuffixes)
  {
  }

  lemma UnionKeys(a: FeatureMap, b: FeatureMap)
    ensures (a + b).Keys == a.Keys + b.Keys
  {
  }

  lemma LeftKeys(sent: seq<Token>, i: nat)
    requires i < |sent|
    ensures Left(sent, i).Keys ==
            (if i == 0 then {"BOS"} else {})
            + (if i >= 1 then Offsetted("-1:", BeforeSuffixes) else {})
            + (if i >= 2 then Offsetted("-2:", BeforeSuffixes) else {})
  {
    if i == 1 {
      NeighbourKeys("-1:", sent[0]);
    } else if i >= 2 {
      NeighbourKeys("-1:", sent[i - 1]);
      NeighbourKeys("-2:", sent[i - 2]);
      UnionKeys(Before("-1:", sent[i - 1]), Before("-2:", sent[i - 2]));
    }
  }

  lemma RightKeys(sent: seq<Token>, i: nat)
    requires i < |sent|
    ensures Right(sent, i).Keys ==
            (if i == |sent| - 1 then {"EOS"} else {})
            + (if i + 1 < |sent| then Offsetted("+1:", AfterSuffixes) else {})
            + (if i + 2 < |sent| then Offsetted("+2:", AfterSuffixes) else {})
  {
    if i == |sent| - 2 {
      NeighbourKeys("+1:", sent[i + 1]);
    } else if i < |sent| - 2 {
      NeighbourKeys("+1:", sent[i + 1]);
      NeighbourKeys("+2:", sent[i + 2]);
      UnionKeys(After("+1:", sent[i + 1]), After("+2:", sent[i + 2]));
    }
  }

  lemma OwnKeysAre(t: Token)
    ensures Own(t).Keys == OwnKeys
  {
  }

  /**
   * The keys token `i` gets: its own ten, "-1:" and "-2:" keys for the
   * preceding tokens that exist, "+1:" and "+2:" keys for the following
   * ones, "BOS" on the first token and "EOS" on the last.
   */
  lemma WindowKeys(sent: seq<Token>, i: nat)
    requires i < |sent|
    ensures Window(sent, i).Keys == OwnKeys + Left(sent, i).Keys + Right(sent, i).Keys
  {
    OwnKeysAre(sent[i]);
    UnionKeys(Own(sent[i]), Left(sent, i));
    UnionKeys(Own(sent[i]) + Left(sent, i), Right(sent, i));
  }

  /** The offset a key starts with, or "" for an own key or an end flag. */
  function OffsetOf(k: string): string {
    if |k| >= 3 && (k[0] == '-' || k[0] == '+') then k[..3] else ""
  }

  lemma PlainKeys()
    ensures forall k :: k in OwnKeys ==> OffsetOf(k) == ""
    ensures OffsetOf("BOS") == "" && OffsetOf("EOS") == ""
  {
  }

  lemma KeyOffset(offset: string, x: string)
    requires |offset| == 3 && (offset[0] == '-' || offset[0] == '+')
    ensures OffsetOf(offset + x) == offset
  {
    assert (offset + x)[..3] == offset && (offset + x)[0] == offset[0];
  }

  lemma OffsettedOffset(offset: string, names: set<string>, k: string)
    requires |offset| == 3 && (offset[0] == '-' || offset[0] == '+')
    requires k in Offsetted(offset, names)
    ensures OffsetOf(k) == offset
  {
    var x :| x in names && k == offset + x;
    KeyOffset(offset, x);
  }

  lemma OffsettedMember(offset: string, names: set<string>, x: string)
    ensures offset + x in Offsetted(offset, names) <==> x in names
  {
    if offset + x in Offsetted(offset, names) {
      var y :| y in names && offset + x == offset + y;
      assert (offset + x)[|offset|..] == x && (offset + y)[|offset|..] == y;
    }
  }

  /** The keys token `i` of an `n`-token sentence gets, by position only. */
  function KeySet(i: nat, n: nat): set<string> {
    OwnKeys
    + (if i == 0 then {"BOS"} else {})
    + (if i >= 1 then Offsetted("-1:", BeforeSuffixes) else {})
    + (if i >= 2 then Offsetted("-2:", BeforeSuffixes) else {})
    + (if i == n - 1 then {"EOS"} else {})
    + (if i + 1 < n then Offsetted("+1:", AfterSuffixes) else {})
    + (if i + 2 < n then Offsetted("+2:", AfterSuffixes) else {})
  }

  lemma WindowKeySet(sent: seq<Token>, i: nat)
    requires i < |sent|
    ensures Window(sent, i).Keys == KeySet(i, |sent|)
  {
    WindowKeys(sent, i);
    LeftKeys(sent, i);
    RightKeys(sent, i);
  }

  /** A key with an offset is present exactly when that neighbour exists and has that name. */
  lemma OffsetKeyIn(i: nat, n: nat, offset: string, x: string, names: set<string>, reaches: bool)
    requires offset in {"-1:", "-2:", "+1:", "+2:"}
    requires offset == "-1:" ==> names == BeforeSuffixes && reaches == (i >= 1)
    requires offset == "-2:" ==> names == BeforeSuffixes && reaches == (i >= 2)
    requires offset == "+1:" ==> names == AfterSuffixes && reaches == (i + 1 < n)
    requires offset == "+2:" ==> names == AfterSuffixes && reaches == (i + 2 < n)
    ensures offset + x in KeySet(i, n) <==> reaches && x in names
  {
    var k := offset + x;
    KeyOffset(offset, x);
    PlainKeys();
    assert k !in OwnKeys && k != "BOS" && k != "EOS";
    forall o | o in {"-1:", "-2:", "+1:", "+2:"} && o != offset
      ensures k !in Offsetted(o, BeforeSuffixes) && k !in Offsetted(o, AfterSuffixes)
    {
      if k in Offsetted(o, BeforeSuffixes) { OffsettedOffset(o, BeforeSuffixes, k); }
      if k in Offsetted(o, AfterSuffixes) { OffsettedOffset(o, AfterSuffixes, k); }
    }
    OffsettedMember(offset, names, x);
  }

  /** An end flag is present only on its end of the sentence. */
  lemma FlagIn(i: nat, n: nat)
    requires i < n
    ensures "BOS" in KeySet(i, n) <==> i == 0
    ensures "EOS" in KeySet(i, n) <==> i == n - 1
  {
    PlainKeys();
    forall o, names | o in {"-1:", "-2:", "+1:", "+2:"}
      ensures "BOS" !in Offsetted(o, names) && "EOS" !in Offsetted(o, names)
    {
      if "BOS" in Offsetted(o, names) { OffsettedOffset(o, names, "BOS"); }
      if "EOS" in Offsetted(o, names) { OffsettedOffset(o, names, "EOS"); }
    }
  }

  /** "BOS" is set exactly on the first token, and "-1:"/"-2:" keys exactly when those tokens exist. */
  lemma PreviousKeys(sent: seq<Token>, i: nat)
    requires i < |sent|
    ensures "BOS" in Window(sent, i) <==> i == 0
    ensures forall x :: x in BeforeSuffixes ==> ("-1:" + x in Window(sent, i) <==> i >= 1)
    ensures forall x :: x in BeforeSuffixes ==> ("-2:" + x in Window(sent, i) <==> i >= 2)
  {
    var n := |sent|;
    WindowKeySet(sent, i);
    FlagIn(i, n);
    forall x | x in BeforeSuffixes
      ensures ("-1:" + x in KeySet(i, n) <==> i >= 1) && ("-2:" + x in KeySet(i, n) <==> i >= 2)
    {
      OffsetKeyIn(i, n, "-1:", x, BeforeSuffixes, i >= 1);
      OffsetKeyIn(i, n, "-2:", x, BeforeSuffixes, i >= 2);
    }
  }

  /** "EOS" is set exactly on the last token, and "+1:"/"+2:" keys exactly when those tokens exist. */
  lemma NextKeys(sent: seq<Token>, i: nat)
    requires i < |sent|
    ensures "EOS" in Window(sent, i) <==> i == |sent| - 1
    ensures forall x :: x in AfterSuffixes ==> ("+1:" + x in Window(sent, i) <==> i + 1 < |sent|)
    ensures forall x :: x in AfterSuffixes ==> ("+2:" + x in Window(sent, i) <==> i + 2 < |sent|)
  {
    var n := |sent|;
    WindowKeySet(sent, i);
    FlagIn(i, n);
    forall x | x in AfterSuffixes
      ensures ("+1:" + x in KeySet(i, n) <==> i + 1 < n) && ("+2:" + x in KeySet(i, n) <==> i + 2 < n)
    {
      OffsetKeyIn(i, n, "+1:", x, AfterSuffixes, i + 1 < n);
      OffsetKeyIn(i, n, "+2:", x, AfterSuffixes, i + 2 < n);
    }
  }

  /** A suffix that no preceding (following) token offers has no "-1:"/"-2:" ("+1:"/"+2:") key. */
  lemma AbsentKeys(i: nat, n: nat, before: string, after: string)
    requires i < n && before !in BeforeSuffixes && after !in AfterSuffixes
    ensures "-1:" + before !in KeySet(i, n) && "-2:" + before !in KeySet(i, n)
    ensures "+1:" + after !in KeySet(i, n) && "+2:" + after !in KeySet(i, n)
  {
    OffsetKeyIn(i, n, "-1:", before, BeforeSuffixes, i >= 1);
    OffsetKeyIn(i, n, "-2:", before, BeforeSuffixes, i >= 2);
    OffsetKeyIn(i, n, "+1:", after, AfterSuffixes, i + 1 < n);
    OffsetKeyIn(i, n, "+2:", after, AfterSuffixes, i + 2 < n);
  }

  lemma PunctSuffixes()
    ensures "is_punct" !in BeforeSuffixes && "is_punct" !in AfterSuffixes
    ensures "is_right_punct" !in BeforeSuffixes && "is_left_punct" !in AfterSuffixes
  {
  }

  /** Only the token itself contributes "is_punct"; no neighbour offset carries it. */
  lemma OwnPunct(sent: seq<Token>, i: nat)
    requires i < |sent|
    ensures "is_punct" in Window(sent, i)
    ensures "-1:" + "is_punct" !in Window(sent, i) && "-2:" + "is_punct" !in Window(sent, i)
    ensures "+1:" + "is_punct" !in Window(sent, i) && "+2:" + "is_punct" !in Window(sent, i)
  {
    PunctSuffixes();
    AbsentKeys(i, |sent|, "is_punct", "is_punct");
    WindowKeySet(sent, i);
  }

  /** Preceding tokens never give "is_right_punct", following ones never "is_left_punct". */
  lemma SidedPunct(sent: seq<Token>, i: nat)
    requires i < |sent|
    ensures "-1:" + "is_right_punct" !in Window(sent, i) && "-2:" + "is_right_punct" !in Window(sent, i)
    ensures "+1:" + "is_left_punct" !in Window(sent, i) && "+2:" + "is_left_punct" !in Window(sent, i)
  {
    PunctSuffixes();
    AbsentKeys(i, |sent|, "is_right_punct", "is_left_punct");
    WindowKeySet(sent, i);
  }

  /** A one-token sentence gets its own keys and both end flags, and no neighbour key. */
  lemma SingleToken(t: Token)
    ensures Window([t], 0).Keys == OwnKeys + {"BOS", "EOS"}
  {
    WindowKeySet([t], 0);
  }

  // ---------------------------------------------------------------------
  // Where each entry's value comes from
  // ---------------------------------------------------------------------

  /** An offset names a neighbour that exists. */
  predicate Reaches(i: nat, n: nat, offset: string) {
    (offset == "-1:" && i >= 1) || (offset == "-2:" && i >= 2)
    || (offset == "+1:" && i + 1 < n) || (offset == "+2:" && i + 2 < n)
  }

  /** The entries contributed by the neighbour at `offset`. */
  function Neighbour(sent: seq<Token>, i: nat, offset: string): FeatureMap
    requires i < |sent| && Reaches(i, |sent|, offset)
  {
    if offset == "-1:" then Before(offset, sent[i - 1])
    else if offset == "-2:" then Before(offset, sent[i - 2])
    else if offset == "+1:" then After(offset, sent[i + 1])
    else After(offset, sent[i + 2])
  }

  /** A key outside every offset is not a neighbour key. */
  lemma NotOffsetted(k: string, o: string, names: set<string>)
    requires |o| == 3 && (o[0] == '-' || o[0] == '+') && OffsetOf(k) != o
    ensures k !in Offsetted(o, names)
  {
    if k in Offsetted(o, names) { OffsettedOffset(o, names, k); }
  }

  /** Each of the token's own keys keeps the value of the token's own dictionary. */
  lemma OwnEntry(sent: seq<Token>, i: nat, k: string)
    requires i < |sent| && k in OwnKeys
    ensures k in Window(sent, i) && Window(sent, i)[k] == Own(sent[i])[k]
  {
    OwnKeysAre(sent[i]);
    LeftKeys(sent, i);
    RightKeys(sent, i);
    PlainKeys();
    NotOffsetted(k, "-1:", BeforeSuffixes);
    NotOffsetted(k, "-2:", BeforeSuffixes);
    NotOffsetted(k, "+1:", AfterSuffixes);
    NotOffsetted(k, "+2:", AfterSuffixes);
  }

  /** The entry "bias" is the constant 1.0 on every token. */
  lemma Bias(sent: seq<Token>, i: nat)
    requires i < |sent|
    ensures "bias" in Window(sent, i) && Window(sent, i)["bias"] == Number(1.0)
  {
    OwnEntry(sent, i, "bias");
  }

  /** A preceding neighbour's key keeps its value in the left-hand entries. */
  lemma LeftEntry(sent: seq<Token>, i: nat, offset: string, k: string)
    requires i < |sent| && (offset == "-1:" || offset == "-2:") && Reaches(i, |sent|, offset)
    requires k in Neighbour(sent, i, offset)
    ensures k in Left(sent, i) && Left(sent, i)[k] == Neighbour(sent, i, offset)[k]
  {
    if i >= 2 {
      var other := if offset == "-1:" then "-2:" else "-1:";
      NeighbourKeys(offset, sent[if offset == "-1:" then i - 1 else i - 2]);
      NeighbourKeys(other, sent[if offset == "-1:" then i - 2 else i - 1]);
      OffsettedOffset(offset, BeforeSuffixes, k);
      NotOffsetted(k, other, BeforeSuffixes);
    }
  }

  /** A following neighbour's key keeps its value in the right-hand entries. */
  lemma RightEntry(sent: seq<Token>, i: nat, offset: string, k: string)
    requires i < |sent| && (offset == "+1:" || offset == "+2:") && Reaches(i, |sent|, offset)
    requires k in Neighbour(sent, i, offset)
    ensures k in Right(sent, i) && Right(sent, i)[k] == Neighbour(sent, i, offset)[k]
  {
    if i + 2 < |sent| {
      var other := if offset == "+1:" then "+2:" else "+1:";
      NeighbourKeys(offset, sent[if offset == "+1:" then i + 1 else i + 2]);
      NeighbourKeys(other, sent[if offset == "+1:" then i + 2 else i + 1]);
      OffsettedOffset(offset, AfterSuffixes, k);
      NotOffsetted(k, other, AfterSuffixes);
    }
  }

  /** Each neighbour key keeps the value read from the token at that distance. */
  lemma NeighbourEntry(sent: seq<Token>, i: nat, offset: string, k: string)
    requires i < |sent| && Reaches(i, |sent|, offset) && k in Neighbour(sent, i, offset)
    ensures k in Window(sent, i) && Window(sent, i)[k] == Neighbour(sent, i, offset)[k]
  {
    var names := if offset[0] == '-' then BeforeSuffixes else AfterSuffixes;
    NeighbourKeys(offset, sent[if offset == "-1:" then i - 1 else if offset == "-2:" then i - 2 else if offset == "+1:" then i + 1 else i + 2]);
    OffsettedOffset(offset, names, k);
    OwnKeysAre(sent[i]);
    PlainKeys();
    assert k !in Own(sent[i]);
    if offset[0] == '-' {
      LeftEntry(sent, i, offset, k);
      RightKeys(sent, i);
      NotOffsetted(k, "+1:", AfterSuffixes);
      NotOffsetted(k, "+2:", AfterSuffixes);
      assert k !in Right(sent, i);
    } else {
      RightEntry(sent, i, offset, k);
    }
  }

  /**
   * Over a whole parsed line: only the first dictionary has "BOS", only
   * the last has "EOS", and every one has the bias 1.0.
   */
  lemma FeaturizedEnds(doc: seq<Token>)
    ensures forall i :: 0 <= i < |doc| ==> ("BOS" in Featurized(doc)[i] <==> i == 0)
    ensures forall i :: 0 <= i < |doc| ==> ("EOS" in Featurized(doc)[i] <==> i == |doc| - 1)
    ensures forall i :: 0 <= i < |doc| ==> "bias" in Featurized(doc)[i] && Featurized(doc)[i]["bias"] == Number(1.0)
  {
    forall i | 0 <= i < |doc|
      ensures ("BOS" in Window(doc, i) <==> i == 0) && ("EOS" in Window(doc, i) <==> i == |doc| - 1)
      ensures "bias" in Window(doc, i) && Window(doc, i)["bias"] == Number(1.0)
    {
      WindowKeySet(doc, i);
      FlagIn(i, |doc|);
      Bias(doc, i);
    }
  }
}
