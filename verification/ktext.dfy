/** The Kotlin/JVM string operations the offline question generator uses:
    `isWhitespace`, `trim`, `isBlank`, `split(' ')`, `Regex("[.!?]\\s+").split`,
    `indexOf` and `replaceFirst` with literal strings. */
module KText {

  /** Kotlin's `Char.isWhitespace()`: the control characters 0x09-0x0D and
      0x1C-0x1F and the Unicode space, line and paragraph separators. */
  predicate IsWhitespace(c: char) {
    var n := c as int;
    || 0x09 <= n <= 0x0D
    || 0x1C <= n <= 0x20
    || n == 0xA0
    || n == 0x1680
    || 0x2000 <= n <= 0x200A
    || n == 0x2028 || n == 0x2029 || n == 0x202F || n == 0x205F || n == 0x3000
  }

  /** `CharSequence.isBlank()`: every character is whitespace. */
  predicate IsBlank(s: string) {
    forall i :: 0 <= i < |s| ==> IsWhitespace(s[i])
  }

  /** The number of whitespace characters `s` starts with. */
  function LeadingWhitespace(s: string): (a: nat)
    ensures a <= |s|
    ensures forall i :: 0 <= i < a ==> IsWhitespace(s[i])
    ensures a == |s| || !IsWhitespace(s[a])
  {
    if |s| > 0 && IsWhitespace(s[0]) then 1 + LeadingWhitespace(s[1..]) else 0
  }

  /** Drops the trailing whitespace of `s`. */
  function TrimEnd(s: string): (r: string)
    ensures |r| <= |s| && r == s[..|r|]
    ensures r == [] || !IsWhitespace(r[|r| - 1])
    ensures forall i :: |r| <= i < |s| ==> IsWhitespace(s[i])
  {
    if |s| > 0 && IsWhitespace(s[|s| - 1]) then TrimEnd(s[..|s| - 1]) else s
  }

  /** Kotlin's `String.trim()`: the slice of `s` left once its leading and
      trailing whitespace is cut off; it neither starts nor ends with
      whitespace. */
  function Trim(s: string): (r: string)
    ensures r == [] || (!IsWhitespace(r[0]) && !IsWhitespace(r[|r| - 1]))
    ensures LeadingWhitespace(s) + |r| <= |s|
    ensures r == s[LeadingWhitespace(s)..LeadingWhitespace(s) + |r|]
    ensures forall i :: LeadingWhitespace(s) + |r| <= i < |s| ==> IsWhitespace(s[i])
  {
    TrimEnd(s[LeadingWhitespace(s)..])
  }

  /** Trimming a blank string leaves nothing, and only a blank string
      trims to nothing. */
  lemma BlankIffTrimsToEmpty(s: string)
    ensures IsBlank(s) <==> Trim(s) == ""
  {
    if IsBlank(s) {
      assert LeadingWhitespace(s) == |s|;
    }
  }

  /** Trimming twice is trimming once. */
  lemma TrimIdempotent(s: string)
    ensures Trim(Trim(s)) == Trim(s)
  {
    var r := Trim(s);
    if r != [] {
      assert LeadingWhitespace(r) == 0;
      assert TrimEnd(r) == r;
    }
  }

  /** `text.replace('\n', ' ')` */
  function NewlinesToSpaces(s: string): (r: string)
    ensures |r| == |s|
    ensures forall i :: 0 <= i < |s| ==> r[i] == (if s[i] == '\n' then ' ' else s[i])
  {
    if |s| == 0 then "" else NewlinesToSpaces(s[..|s| - 1]) + [if s[|s| - 1] == '\n' then ' ' else s[|s| - 1]]
  }

  // ----- split(' ') -----

  /** The number of occurrences of `c` in `s`. */
  function Count(s: string, c: char): (n: nat)
    ensures n <= |s|
  {
    if |s| == 0 then 0 else Count(s[..|s| - 1], c) + (if s[|s| - 1] == c then 1 else 0)
  }

  /** Kotlin's `split(c)` for one delimiter character: the pieces between
      occurrences of `c`, empty pieces (also leading and trailing) kept. */
  function SplitOn(s: string, c: char): (pieces: seq<string>)
    ensures |pieces| >= 1
  {
    if c in s then
      var i := IndexOfChar(s, c);
      [s[..i]] + SplitOn(s[i + 1..], c)
    else
      [s]
  }

  function IndexOfChar(s: string, c: char): (i: nat)
    requires c in s
    ensures i < |s| && s[i] == c && c !in s[..i]
  {
    if s[0] == c then 0 else 1 + IndexOfChar(s[1..], c)
  }

  lemma CountSplit(s: string, i: nat, c: char)
    requires i <= |s|
    ensures Count(s, c) == Count(s[..i], c) + Count(s[i..], c)
    decreases |s| - i
  {
    if i < |s| {
      CountSplit(s[..|s| - 1], i, c);
      assert s[..|s| - 1][..i] == s[..i];
      assert s[i..][..|s[i..]| - 1] == s[..|s| - 1][i..];
    } else {
      assert s[..i] == s;
    }
  }

  lemma CountAbsent(s: string, c: char)
    requires c !in s
    ensures Count(s, c) == 0
  {
    if |s| > 0 {
      assert c !in s[..|s| - 1];
      CountAbsent(s[..|s| - 1], c);
    }
  }

  /** `split(c)` yields one more piece than there are delimiters. */
  lemma {:induction false} SplitOnSize(s: string, c: char)
    ensures |SplitOn(s, c)| == Count(s, c) + 1
    decreases |s|
  {
    if c in s {
      var i := IndexOfChar(s, c);
      SplitOnSize(s[i + 1..], c);
      CountSplit(s, i, c);
      CountAbsent(s[..i], c);
      assert s[i..] == [c] + s[i + 1..];
      CountSplit(s[i..], 1, c);
      assert s[i..][..1] == [c];
      assert s[i..][1..] == s[i + 1..];
    } else {
      CountAbsent(s, c);
    }
  }

  // ----- Regex("[.!?]\\s+").split -----

  /** The characters `[.!?]`. */
  predicate IsSentenceEnd(c: char) {
    c == '.' || c == '!' || c == '?'
  }

  /** The regex class `\s` of java.util.regex: `[ \t\n\x0B\f\r]`. */
  predicate IsRegexSpace(c: char) {
    c == ' ' || '\t' <= c <= '\r'
  }

  /** A match of `[.!?]\s+` can start at index `i`. */
  predicate DelimAt(s: string, i: int) {
    0 <= i && i + 1 < |s| && IsSentenceEnd(s[i]) && IsRegexSpace(s[i + 1])
  }

  /** The first index at or after `from` where a match can start, or `|s|`. */
  function NextDelim(s: string, from: nat): (i: nat)
    requires from <= |s|
    ensures from <= i <= |s|
    ensures i < |s| ==> DelimAt(s, i)
    ensures forall j :: from <= j < i ==> !DelimAt(s, j)
    decreases |s| - from
  {
    if from == |s| then |s|
    else if DelimAt(s, from) then from
    else NextDelim(s, from + 1)
  }

  /** The end of the run of `\s` characters starting at `j` (greedy `\s+`). */
  function SpaceRunEnd(s: string, j: nat): (e: nat)
    requires j <= |s|
    ensures j <= e <= |s|
    ensures forall k :: j <= k < e ==> IsRegexSpace(s[k])
    ensures e == |s| || !IsRegexSpace(s[e])
    decreases |s| - j
  {
    if j < |s| && IsRegexSpace(s[j]) then SpaceRunEnd(s, j + 1) else j
  }

  /** Kotlin's `CharSequence.split(Regex("[.!?]\\s+"))` applied to `s[from..]`:
      the pieces between successive leftmost, greedy matches, together with
      the matched delimiters. Kotlin keeps empty pieces, trailing ones too. */
  function SplitFrom(s: string, from: nat): (r: (seq<string>, seq<string>))
    requires from <= |s|
    ensures |r.0| == |r.1| + 1
    decreases |s| - from
  {
    var i := NextDelim(s, from);
    if i == |s| then ([s[from..]], [])
    else
      var e := SpaceRunEnd(s, i + 1);
      var rest := SplitFrom(s, e);
      ([s[from..i]] + rest.0, [s[i..e]] + rest.1)
  }

  /** The sentences of `s`: the pieces of its regex split. */
  function SplitSentences(s: string): seq<string> {
    SplitFrom(s, 0).0
  }

  /** The pieces and delimiters, interleaved. */
  function Interleave(pieces: seq<string>, delims: seq<string>): string
    requires |pieces| == |delims| + 1
  {
    if |delims| == 0 then pieces[0]
    else pieces[0] + delims[0] + Interleave(pieces[1..], delims[1..])
  }

  /** `d` is a whole match of `[.!?]\s+`. */
  predicate IsDelimiter(d: string) {
    |d| >= 2 && IsSentenceEnd(d[0]) && forall k :: 1 <= k < |d| ==> IsRegexSpace(d[k])
  }

  /** No match of `[.!?]\s+` starts before index `end` of `s`. */
  predicate NoDelimBefore(s: string, end: int) {
    forall j :: 0 <= j < end ==> !DelimAt(s, j)
  }

  /** `pieces`/`delims` is the regex split of `s`: they reassemble `s`; every
      delimiter is a whole match; each match starts at the leftmost possible
      place (none starts inside the piece before it, nor inside the last
      piece); and the `\s+` is greedy (no piece after a delimiter starts
      with `\s`). */
  predicate IsRegexSplit(s: string, pieces: seq<string>, delims: seq<string>) {
    && |pieces| == |delims| + 1
    && Interleave(pieces, delims) == s
    && (forall k :: 0 <= k < |delims| ==> IsDelimiter(delims[k]))
    && (forall k :: 0 <= k < |delims| ==> NoDelimBefore(pieces[k] + delims[k], |pieces[k]|))
    && NoDelimBefore(pieces[|delims|], |pieces[|delims|]|)
    && (forall k :: 1 <= k < |pieces| ==> pieces[k] == [] || !IsRegexSpace(pieces[k][0]))
  }

  /** The pieces and delimiters of the split reassemble the string. */
  lemma {:induction false} SplitReassembles(s: string, from: nat)
    requires from <= |s|
    ensures Interleave(SplitFrom(s, from).0, SplitFrom(s, from).1) == s[from..]
    decreases |s| - from
  {
    var i := NextDelim(s, from);
    if i < |s| {
      var e := SpaceRunEnd(s, i + 1);
      SplitReassembles(s, e);
      var r := SplitFrom(s, from);
      assert r.0[1..] == SplitFrom(s, e).0 && r.1[1..] == SplitFrom(s, e).1;
      assert s[from..i] + s[i..e] + s[e..] == s[from..];
    }
  }

  /** Every delimiter of the split is a whole match of `[.!?]\s+`. */
  lemma {:induction false} SplitDelimitersMatch(s: string, from: nat)
    requires from <= |s|
    ensures forall k :: 0 <= k < |SplitFrom(s, from).1| ==> IsDelimiter(SplitFrom(s, from).1[k])
    decreases |s| - from
  {
    var i := NextDelim(s, from);
    if i < |s| {
      var e := SpaceRunEnd(s, i + 1);
      SplitDelimitersMatch(s, e);
    }
  }

  /** No match starts in `s[from..i]` or at its last character, when `i` is
      the first place at or after `from` where one can start. */
  lemma PieceLeftmost(s: string, from: nat, e: nat)
    requires from <= |s| && NextDelim(s, from) < e <= |s|
    ensures NoDelimBefore(s[from..NextDelim(s, from)] + s[NextDelim(s, from)..e], NextDelim(s, from) - from)
  {
    var i := NextDelim(s, from);
    assert s[from..i] + s[i..e] == s[from..e];
    forall j | 0 <= j < i - from
      ensures !DelimAt(s[from..e], j)
    {
      assert !DelimAt(s, from + j);
    }
  }

  /** Each match starts at the leftmost place possible. */
  lemma {:induction false} SplitLeftmost(s: string, from: nat)
    requires from <= |s|
    ensures var r := SplitFrom(s, from);
      && (forall k :: 0 <= k < |r.1| ==> NoDelimBefore(r.0[k] + r.1[k], |r.0[k]|))
      && NoDelimBefore(r.0[|r.1|], |r.0[|r.1|]|)
    decreases |s| - from
  {
    var i := NextDelim(s, from);
    var r := SplitFrom(s, from);
    if i < |s| {
      var e := SpaceRunEnd(s, i + 1);
      SplitLeftmost(s, e);
      var r' := SplitFrom(s, e);
      assert r.0 == [s[from..i]] + r'.0 && r.1 == [s[i..e]] + r'.1;
      forall k | 0 <= k < |r.1|
        ensures NoDelimBefore(r.0[k] + r.1[k], |r.0[k]|)
      {
        if k == 0 {
          PieceLeftmost(s, from, e);
        } else {
          assert r.0[k] == r'.0[k - 1] && r.1[k] == r'.1[k - 1];
        }
      }
      assert r.0[|r.1|] == r'.0[|r'.1|];
    } else {
      forall j | 0 <= j < |s| - from
        ensures !DelimAt(s[from..], j)
      {
        assert !DelimAt(s, from + j);
      }
    }
  }

  /** The first piece of the split of `s[from..]` starts at `from`. */
  lemma SplitHead(s: string, from: nat)
    requires from <= |s|
    ensures from + |SplitFrom(s, from).0[0]| <= |s|
    ensures SplitFrom(s, from).0[0] == s[from..from + |SplitFrom(s, from).0[0]|]
  {
  }

  /** The `\s+` of each match is greedy: no later piece starts with `\s`. */
  lemma {:induction false} SplitGreedy(s: string, from: nat)
    requires from <= |s|
    ensures var P := SplitFrom(s, from).0;
      forall k :: 1 <= k < |P| ==> P[k] == [] || !IsRegexSpace(P[k][0])
    decreases |s| - from
  {
    var i := NextDelim(s, from);
    if i < |s| {
      var e := SpaceRunEnd(s, i + 1);
      SplitGreedy(s, e);
      SplitHead(s, e);
      var P := SplitFrom(s, from).0;
      var P' := SplitFrom(s, e).0;
      assert P == [s[from..i]] + P';
      forall k | 1 <= k < |P|
        ensures P[k] == [] || !IsRegexSpace(P[k][0])
      {
        assert P[k] == P'[k - 1];
        if k == 1 && P'[0] != [] {
          assert P'[0][0] == s[e];
        }
      }
    }
  }

  /** The sentence split meets the regex split's characterisation. */
  lemma SplitIsRegexSplit(s: string)
    ensures IsRegexSplit(s, SplitFrom(s, 0).0, SplitFrom(s, 0).1)
  {
    SplitReassembles(s, 0);
    SplitDelimitersMatch(s, 0);
    SplitLeftmost(s, 0);
    SplitGreedy(s, 0);
  }

  // ----- literal search and replace -----

  /** `t` occurs in `s` at index `p`. */
  predicate OccursAt(s: string, t: string, p: int) {
    0 <= p && p + |t| <= |s| && s[p..p + |t|] == t
  }

  /** Kotlin's `indexOf(t)`: the first index where `t` occurs, if any. */
  function IndexOf(s: string, t: string, from: nat := 0): (r: int)
    requires from <= |s|
    ensures r == -1 || (from <= r && OccursAt(s, t, r))
    ensures r == -1 ==> forall p :: from <= p <= |s| ==> !OccursAt(s, t, p)
    ensures r != -1 ==> forall p :: from <= p < r ==> !OccursAt(s, t, p)
    decreases |s| - from
  {
    if from + |t| > |s| then -1
    else if s[from..from + |t|] == t then from
    else if from == |s| then -1
    else IndexOf(s, t, from + 1)
  }

  /** Kotlin's `String.replaceFirst(old, new)` with a literal `old`: the
      first occurrence is replaced, the rest of `s` is unchanged. */
  function ReplaceFirst(s: string, target: string, replacement: string): (r: string)
    ensures IndexOf(s, target) == -1 ==> r == s
    ensures IndexOf(s, target) != -1 ==>
              var p := IndexOf(s, target); r == s[..p] + replacement + s[p + |target|..]
  {
    var p := IndexOf(s, target);
    if p < 0 then s else s[..p] + replacement + s[p + |target|..]
  }
}
