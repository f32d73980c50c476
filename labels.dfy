/**
 * The label aligner: `match_up` gives each lemma of an ingredient line one of
 * six labels by a fixed priority, and `add_prefixes` turns a label sequence
 * into BIO chunk tags (Ramshaw and Marcus, 1995).
 */
module Labels {
  import opened Wrappers
  import opened Strings
  import opened Numbers
  import opened Record

  const NameLabel: string := "NAME"
  const UnitLabel: string := "UNIT"
  const QtyLabel: string := "QTY"
  const CommentLabel: string := "COMMENT"
  const RangeEndLabel: string := "RANGE_END"
  const OtherLabel: string := "OTHER"

  const LabelNames: set<string> := {NameLabel, UnitLabel, QtyLabel, CommentLabel, RangeEndLabel, OtherLabel}

  /**
   * One row as `match_up` reads it: the lemmas of the input line and of the
   * name, unit and comment cells, and the two numeric cells (NaN as NoQty).
   */
  datatype Alignment = Alignment(
    input: seq<string>, name: seq<string>, unit: seq<string>, comment: seq<string>,
    qty: Quantity, rangeEnd: Quantity)

  /** `decimal_token is not None and decimal_token == q`, with the number compared exactly. */
  predicate Equals(d: Option<real>, q: Quantity) {
    d.Some? && q.Qty? && d.value == q.value
  }

  /** The label of one token: the first test that holds, in the order of the `if` chain. */
  function LabelOf(a: Alignment, token: string): string {
    LabelFor(a, token, DecimalOf(token))
  }

  /** The `if` chain, given what `Decimal` made of the token (None when it raised). */
  function LabelFor(a: Alignment, token: string, d: Option<real>): string {
    if token in a.name then NameLabel
    else if token in a.unit then UnitLabel
    else if Equals(d, a.qty) then QtyLabel
    else if token in a.comment then CommentLabel
    else if Equals(d, a.rangeEnd) then RangeEndLabel
    else OtherLabel
  }

  /**
   * One label per input token, in token order, each depending only on the
   * token and the row's cells. `Decimal` reads a NaN or infinity spelling
   * as a special value rather than raising; such tokens are excluded.
   */
  method MatchUp(a: Alignment) returns (labels: seq<string>)
    requires forall t :: t in a.input ==> !IsSpecialDecimal(t)
    ensures |labels| == |a.input|
    ensures forall i :: 0 <= i < |labels| ==> labels[i] == LabelOf(a, a.input[i])
  {
    labels := [];
    var i := 0;
    while i < |a.input|
      invariant i <= |a.input| && |labels| == i
      invariant forall j :: 0 <= j < i ==> labels[j] == LabelOf(a, a.input[j])
    {
      var token := a.input[i];
      var decimalToken := DecimalOf(token);
      var tag: string;
      if token in a.name {
        tag := NameLabel;
      } else if token in a.unit {
        tag := UnitLabel;
      } else if decimalToken.Some? && a.qty.Qty? && decimalToken.value == a.qty.value {
        tag := QtyLabel;
      } else if token in a.comment {
        tag := CommentLabel;
      } else if decimalToken.Some? && a.rangeEnd.Qty? && decimalToken.value == a.rangeEnd.value {
        tag := RangeEndLabel;
      } else {
        tag := OtherLabel;
      }
      assert tag == LabelOf(a, token);
      LabelsGrow(a, labels, i, tag);
      labels := labels + [tag];
      i := i + 1;
    }
  }

  lemma LabelsGrow(a: Alignment, labels: seq<string>, i: nat, tag: string)
    requires i < |a.input| && |labels| == i && tag == LabelOf(a, a.input[i])
    requires forall j :: 0 <= j < i ==> labels[j] == LabelOf(a, a.input[j])
    ensures forall j :: 0 <= j < i + 1 ==> (labels + [tag])[j] == LabelOf(a, a.input[j])
  {
  }

  // ---------------------------------------------------------------------
  // BIO prefixes
  // ---------------------------------------------------------------------

  /** "B" at the start of a run of equal tags, "I" inside one. */
  function Prefix(tags: seq<string>, i: nat): string
    requires i < |tags|
  {
    if i == 0 || tags[i] != tags[i - 1] then "B" else "I"
  }

  /** `"%s-%s" % (p, tag)` for every position. */
  function Prefixed(tags: seq<string>): (r: seq<string>)
    ensures |r| == |tags|
  {
    seq(|tags|, i requires 0 <= i < |tags| => Prefix(tags, i) + "-" + tags[i])
  }

  function TagsOf(data: seq<(string, string)>): (r: seq<string>)
    ensures |r| == |data| && forall i :: 0 <= i < |data| ==> r[i] == data[i].1
  {
    seq(|data|, i requires 0 <= i < |data| => data[i].1)
  }

  /** `add_prefixes` over the (token, tag) pairs, carrying the previous tag. */
  method AddPrefixes(data: seq<(string, string)>) returns (newData: seq<string>)
    ensures newData == Prefixed(TagsOf(data))
  {
    var prevTag: Option<string> := None;
    newData := [];
    var i := 0;
    while i < |data|
      invariant i <= |data|
      invariant newData == Prefixed(TagsOf(data))[..i]
      invariant prevTag == if i == 0 then None else Some(data[i - 1].1)
    {
      var tag := data[i].1;
      var p := if prevTag.None? || tag != prevTag.value then "B" else "I";
      newData := newData + [p + "-" + tag];
      prevTag := Some(tag);
      i := i + 1;
    }
  }

  // ---------------------------------------------------------------------
  // Maximal runs, as a run-length encoding
  // ---------------------------------------------------------------------

  datatype Run = Run(tag: string, length: nat)

  /** The maximal runs of equal adjacent tags, left to right. */
  function Encode(tags: seq<string>): (r: seq<Run>)
    decreases |tags|
  {
    if |tags| == 0 then []
    else
      var e := Encode(tags[..|tags| - 1]);
      var t := tags[|tags| - 1];
      if |e| > 0 && e[|e| - 1].tag == t then e[..|e| - 1] + [Run(t, e[|e| - 1].length + 1)]
      else e + [Run(t, 1)]
  }

  function Repeat(t: string, n: nat): (r: seq<string>)
    ensures |r| == n && forall k :: 0 <= k < n ==> r[k] == t
  {
    seq(n, _ => t)
  }

  function Decode(runs: seq<Run>): seq<string>
    decreases |runs|
  {
    if |runs| == 0 then [] else Decode(runs[..|runs| - 1]) + Repeat(runs[|runs| - 1].tag, runs[|runs| - 1].length)
  }

  /** Runs are non-empty and no two neighbours share a tag: they cannot be merged. */
  predicate Maximal(runs: seq<Run>) {
    && (forall k :: 0 <= k < |runs| ==> runs[k].length >= 1)
    && (forall k :: 0 < k < |runs| ==> runs[k].tag != runs[k - 1].tag)
  }

  /** How many entries carry the "B-" prefix. */
  function Begins(r: seq<string>): nat
    decreases |r|
  {
    if |r| == 0 then 0 else Begins(r[..|r| - 1]) + (if StartsWith(r[|r| - 1], 0, "B-") then 1 else 0)
  }

  // ---------------------------------------------------------------------
  // Properties
  // ---------------------------------------------------------------------

  /** Every label is one of the six. */
  lemma LabelKnown(a: Alignment, token: string)
    ensures LabelOf(a, token) in LabelNames
  {
  }

  /**
   * The priority: a name lemma is NAME whatever else holds; otherwise a unit
   * lemma is UNIT even when it equals the quantity; otherwise the quantity
   * beats the comment, and the comment beats the range end.
   */
  lemma LabelPriority(a: Alignment, token: string)
    ensures token in a.name ==> LabelOf(a, token) == NameLabel
    ensures token !in a.name && token in a.unit ==> LabelOf(a, token) == UnitLabel
    ensures token !in a.name + a.unit && Equals(DecimalOf(token), a.qty) ==> LabelOf(a, token) == QtyLabel
    ensures token !in a.name + a.unit && !Equals(DecimalOf(token), a.qty) && token in a.comment
            ==> LabelOf(a, token) == CommentLabel
  {
  }

  /** QTY goes only to a token `Decimal` reads, and only when it reads as the quantity. */
  lemma QtyIsNumeric(a: Alignment, token: string)
    ensures LabelOf(a, token) == QtyLabel ==> DecimalOf(token).Some? && a.qty == Qty(DecimalOf(token).value)
  {
    NumericFor(a, token, DecimalOf(token));
  }

  /** RANGE_END goes only to a token `Decimal` reads, and only when it reads as the range end. */
  lemma RangeEndIsNumeric(a: Alignment, token: string)
    ensures LabelOf(a, token) == RangeEndLabel ==> DecimalOf(token).Some? && a.rangeEnd == Qty(DecimalOf(token).value)
  {
    NumericFor(a, token, DecimalOf(token));
  }

  lemma NumericFor(a: Alignment, token: string, d: Option<real>)
    ensures LabelFor(a, token, d) == QtyLabel ==> d.Some? && a.qty == Qty(d.value)
    ensures LabelFor(a, token, d) == RangeEndLabel ==> d.Some? && a.rangeEnd == Qty(d.value)
  {
  }

  /** OTHER exactly when no test holds. */
  lemma OtherWhenUnmatched(a: Alignment, token: string)
    ensures LabelOf(a, token) == OtherLabel <==>
              token !in a.name + a.unit + a.comment
              && !Equals(DecimalOf(token), a.qty) && !Equals(DecimalOf(token), a.rangeEnd)
  {
    assert token in a.name + a.unit + a.comment <==> token in a.name || token in a.unit || token in a.comment;
  }

  /** Dropping the two-character prefix gives back the tag; the prefix is "B-" or "I-". */
  lemma PrefixDrops(tags: seq<string>, i: nat)
    requires i < |tags|
    ensures Prefixed(tags)[i][2..] == tags[i]
    ensures Prefixed(tags)[i][..2] == "B-" || Prefixed(tags)[i][..2] == "I-"
  {
    Tagged(Prefix(tags, i), tags[i]);
  }

  /** The first tag begins a chunk; a later one is inside a chunk exactly when it repeats its predecessor. */
  lemma PrefixChunks(tags: seq<string>, i: nat)
    requires i < |tags|
    ensures i == 0 ==> Prefixed(tags)[i][..2] == "B-"
    ensures i > 0 ==> (Prefixed(tags)[i][..2] == "I-" <==> tags[i] == tags[i - 1])
  {
    Tagged(Prefix(tags, i), tags[i]);
  }

  /** The two characters in front of a prefixed tag. */
  lemma Tagged(p: string, t: string)
    requires p == "B" || p == "I"
    ensures (p + "-" + t)[..2] == p + "-" && (p + "-" + t)[2..] == t
    ensures StartsWith(p + "-" + t, 0, "B-") <==> p == "B"
  {
    var x := p + "-" + t;
    assert x[0] == p[0] && x[1] == '-';
    assert x[..2] == [p[0], '-'];
  }

  /** `e` spells out `tags` in maximal runs, the last of which holds the last tag. */
  predicate Encodes(e: seq<Run>, tags: seq<string>) {
    && Decode(e) == tags && Maximal(e)
    && (|tags| == 0 <==> |e| == 0)
    && (|tags| > 0 ==> e[|e| - 1].tag == tags[|tags| - 1])
  }

  /** The encoding spells out the tags in maximal runs. */
  lemma {:induction false} EncodeDecodes(tags: seq<string>)
    ensures Encodes(Encode(tags), tags)
    decreases |tags|
  {
    if |tags| > 0 {
      var n := |tags| - 1;
      EncodeDecodes(tags[..n]);
      var e := Encode(tags[..n]);
      if |e| > 0 && e[|e| - 1].tag == tags[n] {
        Extend(tags);
      } else {
        Append(tags);
      }
    }
  }

  /** A tag equal to the last run's lengthens that run. */
  lemma Extend(tags: seq<string>)
    requires |tags| > 0
    requires var init := tags[..|tags| - 1]; var e := Encode(init);
             Encodes(e, init) && |e| > 0 && e[|e| - 1].tag == tags[|tags| - 1]
    ensures Encodes(Encode(tags), tags)
  {
    var n := |tags| - 1;
    var e := Encode(tags[..n]);
    var m := |e| - 1;
    assert e == e[..m] + [e[m]];
    Lengthened(e[..m], e[m], tags[..n]);
    EncodeLengthens(tags);
    assert tags[..n] + [tags[n]] == tags;
  }

  lemma EncodeLengthens(tags: seq<string>)
    requires |tags| > 0
    requires var e := Encode(tags[..|tags| - 1]); |e| > 0 && e[|e| - 1].tag == tags[|tags| - 1]
    ensures var e := Encode(tags[..|tags| - 1]);
            Encode(tags) == e[..|e| - 1] + [Run(tags[|tags| - 1], e[|e| - 1].length + 1)]
  {
  }

  /** Lengthening the last run by one spells one more copy of its tag and keeps the runs maximal. */
  lemma Lengthened(front: seq<Run>, last: Run, init: seq<string>)
    requires Decode(front + [last]) == init && Maximal(front + [last])
    ensures Decode(front + [Run(last.tag, last.length + 1)]) == init + [last.tag]
    ensures Maximal(front + [Run(last.tag, last.length + 1)])
  {
    var t := last.tag;
    DecodeSnoc(front, last);
    DecodeSnoc(front, Run(t, last.length + 1));
    assert Repeat(t, last.length + 1) == Repeat(t, last.length) + [t];
    var e, e' := front + [last], front + [Run(t, last.length + 1)];
    forall k | 0 < k < |e'| ensures e'[k].tag != e'[k - 1].tag {
      assert e'[k].tag == e[k].tag && e'[k - 1].tag == e[k - 1].tag;
    }
  }

  lemma DecodeSnoc(e: seq<Run>, r: Run)
    ensures Decode(e + [r]) == Decode(e) + Repeat(r.tag, r.length)
  {
    assert (e + [r])[..|e|] == e;
  }

  /** A tag different from the last run's starts a new run. */
  lemma Append(tags: seq<string>)
    requires |tags| > 0
    requires var init := tags[..|tags| - 1]; var e := Encode(init);
             Encodes(e, init) && !(|e| > 0 && e[|e| - 1].tag == tags[|tags| - 1])
    ensures Encodes(Encode(tags), tags)
  {
    var n := |tags| - 1;
    var t, e := tags[n], Encode(tags[..n]);
    var e' := e + [Run(t, 1)];
    assert Encode(tags) == e';
    assert e'[..|e|] == e;
    assert Repeat(t, 1) == [t];
    assert tags[..n] + [t] == tags;
  }

  lemma PrefixedInit(tags: seq<string>)
    requires |tags| > 0
    ensures Prefixed(tags)[..|tags| - 1] == Prefixed(tags[..|tags| - 1])
  {
    var n := |tags| - 1;
    forall i | 0 <= i < n ensures Prefixed(tags)[i] == Prefixed(tags[..n])[i] {
      assert Prefix(tags, i) == Prefix(tags[..n], i);
    }
  }

  /** Extending the tags by one adds one "B-" exactly when the new tag begins a run. */
  lemma BeginsStep(tags: seq<string>)
    requires |tags| > 0
    ensures var n := |tags| - 1;
            Begins(Prefixed(tags)) == Begins(Prefixed(tags[..n])) + (if Prefix(tags, n) == "B" then 1 else 0)
  {
    var n := |tags| - 1;
    var p := Prefixed(tags);
    PrefixedInit(tags);
    assert p[..n] == Prefixed(tags[..n]);
    assert p[n] == Prefix(tags, n) + "-" + tags[n];
    Tagged(Prefix(tags, n), tags[n]);
  }

  /** Extending the tags by one adds one run exactly when the new tag begins a run. */
  lemma EncodeStep(tags: seq<string>)
    requires |tags| > 0
    ensures var n := |tags| - 1;
            |Encode(tags)| == |Encode(tags[..n])| + (if Prefix(tags, n) == "B" then 1 else 0)
  {
    var n := |tags| - 1;
    var e := Encode(tags[..n]);
    EncodeDecodes(tags[..n]);
    if n > 0 {
      assert tags[..n][n - 1] == tags[n - 1];
      assert e[|e| - 1].tag == tags[n - 1];
    }
  }

  /** The number of "B-" tags is the number of maximal runs of equal adjacent tags. */
  lemma {:induction false} BeginsCountRuns(tags: seq<string>)
    ensures Begins(Prefixed(tags)) == |Encode(tags)|
    decreases |tags|
  {
    if |tags| > 0 {
      BeginsCountRuns(tags[..|tags| - 1]);
      BeginsStep(tags);
      EncodeStep(tags);
    }
  }
}
