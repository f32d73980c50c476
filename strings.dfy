/**
 * Python string primitives on `seq<char>`: the character classes the
 * regular expressions use, `str.join`, `str.replace`, `str.strip`,
 * ASCII `str.lower` and `str(int)`.
 */
module Strings {

  /** `\d` (ASCII digits; also `[0-9]`). */
  predicate IsDigit(c: char) { '0' <= c <= '9' }

  predicate IsAsciiLetter(c: char) { 'a' <= c <= 'z' || 'A' <= c <= 'Z' }

  /** `str.isspace()`, which is also what `\s` matches. */
  predicate IsSpace(c: char) {
    c == ' ' || '\t' <= c <= '\r' || '\U{1C}' <= c <= '\U{1F}' || c == '\U{85}' || c == '\U{A0}'
    || c == '\U{1680}' || '\U{2000}' <= c <= '\U{200A}' || c == '\U{2028}' || c == '\U{2029}'
    || c == '\U{202F}' || c == '\U{205F}' || c == '\U{3000}'
  }

  /**
   * `\w`: letters, digits and numeric characters of ASCII and Latin-1,
   * the vulgar-fraction glyphs U+2150..U+215E, and the underscore.
   */
  predicate IsWord(c: char) {
    IsAsciiLetter(c) || IsDigit(c) || c == '_'
    || c == '\U{AA}' || c == '\U{B2}' || c == '\U{B3}' || c == '\U{B5}' || c == '\U{B9}' || c == '\U{BA}'
    || '\U{BC}' <= c <= '\U{BE}' || '\U{C0}' <= c <= '\U{D6}' || '\U{D8}' <= c <= '\U{F6}'
    || '\U{F8}' <= c <= '\U{FF}' || '\U{2150}' <= c <= '\U{215E}'
  }

  /** `sep.join(words)`. */
  function Join(words: seq<string>, sep: string): (r: string)
    ensures |words| == 1 ==> r == words[0]
  {
    if |words| == 0 then ""
    else if |words| == 1 then words[0]
    else words[0] + sep + Join(words[1..], sep)
  }

  /** `s.startswith(w, i)` for a position inside or at the end of `s`. */
  predicate StartsWith(s: string, i: nat, w: string) {
    i + |w| <= |s| && s[i..i + |w|] == w
  }

  /** `s.replace(old, rep)`: every non-overlapping occurrence, scanning left to right. */
  function Replace(s: string, pat: string, rep: string): (r: string)
    requires |pat| > 0
    decreases |s|
  {
    if |s| < |pat| then s
    else if s[..|pat|] == pat then rep + Replace(s[|pat|..], pat, rep)
    else [s[0]] + Replace(s[1..], pat, rep)
  }

  /** Replacing a character by a text that lacks it removes it and adds no other character. */
  lemma {:induction false} ReplaceChar(s: string, c: char, rep: string)
    ensures c !in rep ==> c !in Replace(s, [c], rep)
    ensures forall d :: d in Replace(s, [c], rep) ==> d in s || d in rep
    decreases |s|
  {
    if |s| >= 1 {
      ReplaceChar(s[1..], c, rep);
      if s[..1] == [c] {
        assert s[1..] == s[|[c]|..];
      } else {
        assert s[0] != c;
      }
      assert forall d :: d in s[1..] ==> d in s;
    }
  }

  /** Replacing a character keeps every other character that is present. */
  lemma {:induction false} ReplaceCharKeeps(s: string, c: char, rep: string, d: char)
    requires d in s && d != c
    ensures d in Replace(s, [c], rep)
    decreases |s|
  {
    if s[0] == d {
      assert s[..1] != [c];
    } else {
      assert d in s[1..];
      ReplaceCharKeeps(s[1..], c, rep, d);
      assert s[|[c]|..] == s[1..];
    }
  }

  /** Replacing an absent character changes nothing. */
  lemma {:induction false} ReplaceAbsent(s: string, c: char, rep: string)
    requires c !in s
    ensures Replace(s, [c], rep) == s
    decreases |s|
  {
    if |s| >= 1 {
      assert s[0] != c && s[..1] != [c];
      assert c !in s[1..];
      ReplaceAbsent(s[1..], c, rep);
      assert [s[0]] + s[1..] == s;
    }
  }

  function LeadingSpaceEnd(s: string, i: nat): (j: nat)
    requires i <= |s|
    ensures i <= j <= |s|
    ensures forall k :: i <= k < j ==> IsSpace(s[k])
    ensures j < |s| ==> !IsSpace(s[j])
    decreases |s| - i
  {
    if i < |s| && IsSpace(s[i]) then LeadingSpaceEnd(s, i + 1) else i
  }

  function TrailingSpaceStart(s: string, j: nat, lo: nat): (i: nat)
    requires lo <= j <= |s|
    ensures lo <= i <= j
    ensures forall k :: i <= k < j ==> IsSpace(s[k])
    ensures i > lo ==> !IsSpace(s[i - 1])
    decreases j - lo
  {
    if j > lo && IsSpace(s[j - 1]) then TrailingSpaceStart(s, j - 1, lo) else j
  }

  /** `s.strip()`: the text between the leading and the trailing whitespace. */
  function Strip(s: string): (r: string)
  {
    var i := LeadingSpaceEnd(s, 0);
    s[i..TrailingSpaceStart(s, |s|, i)]
  }

  /** Joining one more word appends the separator and the word. */
  lemma {:induction false} JoinSnoc(a: seq<string>, w: string, sep: string)
    ensures Join(a + [w], sep) == if |a| == 0 then w else Join(a, sep) + sep + w
    decreases |a|
  {
    if |a| > 0 {
      assert (a + [w])[1..] == a[1..] + [w];
      JoinSnoc(a[1..], w, sep);
      if |a| > 1 {
        assert Join(a + [w], sep) == a[0] + sep + Join(a[1..] + [w], sep);
      } else {
        assert a[1..] + [w] == [w];
      }
    }
  }

  /** The result of `strip` neither begins nor ends with whitespace, and is a slice of the input. */
  lemma StripShape(s: string)
    ensures |Strip(s)| > 0 ==> !IsSpace(Strip(s)[0]) && !IsSpace(Strip(s)[|Strip(s)| - 1])
    ensures exists i, j :: (0 <= i <= j <= |s| && Strip(s) == s[i..j]
                            && (forall k :: 0 <= k < i ==> IsSpace(s[k]))
                            && (forall k :: j <= k < |s| ==> IsSpace(s[k])))
  {
    var i := LeadingSpaceEnd(s, 0);
    var j := TrailingSpaceStart(s, |s|, i);
    if i < j {
      assert !IsSpace(s[i]);
    }
    assert Strip(s) == s[i..j];
  }

  /** Stripping twice is stripping once. */
  lemma StripIdempotent(s: string)
    ensures Strip(Strip(s)) == Strip(s)
  {
    var t := Strip(s);
    StripShape(s);
    assert LeadingSpaceEnd(t, 0) == 0;
    assert TrailingSpaceStart(t, |t|, 0) == |t|;
    assert t[0..|t|] == t;
  }

  function LowerChar(c: char): char {
    if 'A' <= c <= 'Z' then (c as int + 32) as char else c
  }

  /** `str.lower()` on ASCII letters; every other character is kept. */
  function Lower(s: string): (r: string)
    ensures |r| == |s|
    ensures forall k :: 0 <= k < |s| ==> r[k] == LowerChar(s[k])
  {
    if |s| == 0 then "" else [LowerChar(s[0])] + Lower(s[1..])
  }

  function DigitChar(d: nat): (c: char)
    requires d < 10
    ensures IsDigit(c)
  {
    ('0' as int + d) as char
  }

  /** `str(n)` for a non-negative integer. */
  function NatToString(n: nat): (r: string)
    ensures |r| > 0
    ensures forall k :: 0 <= k < |r| ==> IsDigit(r[k])
  {
    if n < 10 then [DigitChar(n)] else NatToString(n / 10) + [DigitChar(n % 10)]
  }
}
