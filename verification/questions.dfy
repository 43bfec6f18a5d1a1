/** The offline fill-in-the-blank generator (QuestionGenerator.kt): long
    sentences are drawn from a text in the order an index stream gives, each
    at most once, and each drawn sentence becomes a question by blanking out
    its longest word.

    `kotlin.random.Random`, seeded from the text, is replaced by the stream
    of indices it would return (`draws`); the seed is therefore not modelled. */
module QuestionGenerator {
  import opened Wrappers
  import opened KText

  const Blank := "_____"
  /** "Điền vào chỗ trống: " */
  const VietnameseLabel := "\U{0110}i\U{1EC1}n v\U{00E0}o ch\U{1ED7} tr\U{1ED1}ng: "
  const EnglishLabel := "Fill in the blank: "

  function Label(isVietnamese: bool): string {
    if isVietnamese then VietnameseLabel else EnglishLabel
  }

  // ----- candidate sentences -----

  /** `it.split(' ').size >= 6` */
  predicate LongEnough(sentence: string) {
    |SplitOn(sentence, ' ')| >= 6
  }

  /** `.map { it.trim() }.filter { it.split(' ').size >= 6 }` */
  function Qualifying(pieces: seq<string>): (r: seq<string>)
    ensures |r| <= |pieces|
    ensures forall i :: 0 <= i < |r| ==> LongEnough(r[i])
  {
    if |pieces| == 0 then []
    else
      var t := Trim(pieces[|pieces| - 1]);
      var rest := Qualifying(pieces[..|pieces| - 1]);
      if LongEnough(t) then rest + [t] else rest
  }

  /** Every qualifying sentence is already trimmed. */
  lemma {:induction false} QualifyingTrimmed(pieces: seq<string>, i: nat)
    requires i < |Qualifying(pieces)|
    ensures Trim(Qualifying(pieces)[i]) == Qualifying(pieces)[i]
  {
    var init := pieces[..|pieces| - 1];
    var rest := Qualifying(init);
    var t := Trim(pieces[|pieces| - 1]);
    if i < |rest| {
      QualifyingTrimmed(init, i);
      assert Qualifying(pieces) == rest + [t] || Qualifying(pieces) == rest;
      assert Qualifying(pieces)[i] == rest[i];
    } else {
      assert LongEnough(t) && Qualifying(pieces) == rest + [t];
      assert Qualifying(pieces)[i] == t;
      TrimIdempotent(pieces[|pieces| - 1]);
    }
  }

  /** No long enough trimmed piece is dropped. */
  lemma {:induction false} QualifyingComplete(pieces: seq<string>, j: nat)
    requires j < |pieces| && LongEnough(Trim(pieces[j]))
    ensures Trim(pieces[j]) in Qualifying(pieces)
  {
    var init := pieces[..|pieces| - 1];
    if j < |pieces| - 1 {
      assert pieces[j] == init[j];
      QualifyingComplete(init, j);
    }
  }

  /** A piece whose trim is long enough. */
  predicate Qualifies(piece: string) {
    LongEnough(Trim(piece))
  }

  /** Which pieces qualify, position by position. */
  function Flags(pieces: seq<string>): (f: seq<bool>)
    ensures |f| == |pieces|
    ensures forall j :: 0 <= j < |pieces| ==> f[j] == Qualifies(pieces[j])
  {
    seq(|pieces|, j requires 0 <= j < |pieces| => Qualifies(pieces[j]))
  }

  /** The positions below `n` whose flag is set, in increasing order. */
  function Positions(flags: seq<bool>, n: nat): (js: seq<nat>)
    requires n <= |flags|
    ensures forall i :: 0 <= i < |js| ==> js[i] < n && flags[js[i]]
    ensures forall i, i' :: 0 <= i < i' < |js| ==> js[i] < js[i']
    ensures forall j :: 0 <= j < n && flags[j] ==> j in js
  {
    if n == 0 then []
    else
      var rest := Positions(flags, n - 1);
      if flags[n - 1] then rest + [n - 1] else rest
  }

  /** The qualifying sentences are exactly the trimmed long-enough pieces,
      in the order of the text: the `i`-th one is the trim of the piece at
      the `i`-th qualifying position. */
  lemma {:induction false} QualifyingInOrder(pieces: seq<string>, n: nat)
    requires n <= |pieces|
    ensures var js := Positions(Flags(pieces), n);
      && |Qualifying(pieces[..n])| == |js|
      && forall i :: 0 <= i < |js| ==> Qualifying(pieces[..n])[i] == Trim(pieces[js[i]])
  {
    if n > 0 {
      QualifyingInOrder(pieces, n - 1);
      var flags := Flags(pieces);
      var prefix := pieces[..n];
      assert prefix[..n - 1] == pieces[..n - 1];
      assert prefix[n - 1] == pieces[n - 1];
      var q, js := Qualifying(pieces[..n - 1]), Positions(flags, n - 1);
      var Q, P := Qualifying(prefix), Positions(flags, n);
      if flags[n - 1] {
        assert Q == q + [Trim(pieces[n - 1])];
        assert P == js + [n - 1];
        forall i | 0 <= i < |P|
          ensures Q[i] == Trim(pieces[P[i]])
        {
          if i < |js| {
            assert Q[i] == q[i] && P[i] == js[i];
          }
        }
      } else {
        assert Q == q;
        assert P == js;
      }
    }
  }

  /** No sentence qualifies exactly when no piece does. */
  lemma QualifyingEmpty(pieces: seq<string>)
    ensures Qualifying(pieces) == [] <==> forall j :: 0 <= j < |pieces| ==> !Qualifies(pieces[j])
  {
    if j :| 0 <= j < |pieces| && Qualifies(pieces[j]) {
      QualifyingComplete(pieces, j);
    } else {
      QualifyingInOrder(pieces, |pieces|);
      assert pieces[..|pieces|] == pieces;
    }
  }

  /** The sentences questions are drawn from: the trimmed pieces of the
      newline-flattened text that have at least six space-separated parts,
      or the whole trimmed text when there are none. */
  function Candidates(text: string): (r: seq<string>)
    ensures |r| >= 1
  {
    var q := Qualifying(SplitSentences(NewlinesToSpaces(text)));
    if q == [] then [Trim(text)] else q
  }

  /** Every candidate is trimmed; they are all long enough unless the
      fallback to the whole trimmed text was taken, and that fallback is
      taken exactly when no piece of the text qualifies. */
  lemma CandidatesShape(text: string)
    ensures forall i :: 0 <= i < |Candidates(text)| ==> Trim(Candidates(text)[i]) == Candidates(text)[i]
    ensures Candidates(text) == [Trim(text)] || forall i :: 0 <= i < |Candidates(text)| ==> LongEnough(Candidates(text)[i])
    ensures var pieces := SplitSentences(NewlinesToSpaces(text));
      && ((forall j :: 0 <= j < |pieces| ==> !Qualifies(pieces[j])) ==> Candidates(text) == [Trim(text)])
      && ((exists j :: 0 <= j < |pieces| && Qualifies(pieces[j])) ==> Candidates(text) == Qualifying(pieces))
  {
    var pieces := SplitSentences(NewlinesToSpaces(text));
    forall i | 0 <= i < |Qualifying(pieces)|
      ensures Trim(Qualifying(pieces)[i]) == Qualifying(pieces)[i]
    {
      QualifyingTrimmed(pieces, i);
    }
    TrimIdempotent(text);
    QualifyingEmpty(pieces);
  }

  // ----- words -----

  /** The class `[À-ỹ\w']` of the word regex, with `\w` read as
      java.util.regex's `[a-zA-Z_0-9]`. */
  predicate IsWordChar(c: char) {
    || ('\U{00C0}' <= c <= '\U{1EF9}')
    || ('a' <= c <= 'z') || ('A' <= c <= 'Z') || ('0' <= c <= '9')
    || c == '_' || c == '\''
  }

  /** The first word character at or after `from`, or `|s|`. */
  function NextWordStart(s: string, from: nat): (a: nat)
    requires from <= |s|
    ensures from <= a <= |s|
    ensures a < |s| ==> IsWordChar(s[a])
    ensures forall k :: from <= k < a ==> !IsWordChar(s[k])
    decreases |s| - from
  {
    if from == |s| || IsWordChar(s[from]) then from else NextWordStart(s, from + 1)
  }

  /** The end of the run of word characters starting at `from`. */
  function WordEnd(s: string, from: nat): (b: nat)
    requires from <= |s|
    ensures from <= b <= |s|
    ensures forall k :: from <= k < b ==> IsWordChar(s[k])
    ensures b == |s| || !IsWordChar(s[b])
    decreases |s| - from
  {
    if from < |s| && IsWordChar(s[from]) then WordEnd(s, from + 1) else from
  }

  /** `Regex("[À-ỹ\\w']+").findAll(s[from..])`: the maximal runs of
      word characters, left to right. */
  function WordsFrom(s: string, from: nat): (ws: seq<string>)
    requires from <= |s|
    ensures forall i :: 0 <= i < |ws| ==> |ws[i]| > 0
    ensures forall i :: 0 <= i < |ws| ==> forall k :: 0 <= k < |ws[i]| ==> IsWordChar(ws[i][k])
    decreases |s| - from
  {
    var a := NextWordStart(s, from);
    if a == |s| then []
    else
      var b := WordEnd(s, a);
      [s[a..b]] + WordsFrom(s, b)
  }

  function Words(s: string): seq<string> {
    WordsFrom(s, 0)
  }

  /** The runs `[a, b)` of word characters of `s` found from `from`, left
      to right; each ends just before a non-word character or at the end. */
  function RunsFrom(s: string, from: nat): (r: seq<(nat, nat)>)
    requires from <= |s|
    ensures forall i :: 0 <= i < |r| ==> from <= r[i].0 < r[i].1 <= |s|
    ensures forall i :: 0 <= i < |r| ==> forall k :: r[i].0 <= k < r[i].1 ==> IsWordChar(s[k])
    ensures forall i :: 0 <= i < |r| ==> r[i].1 == |s| || !IsWordChar(s[r[i].1])
    decreases |s| - from
  {
    var a := NextWordStart(s, from);
    if a == |s| then []
    else
      var b := WordEnd(s, a);
      [(a, b)] + RunsFrom(s, b)
  }

  /** No run can be extended to the left: a non-word character (or `from`)
      comes just before each. */
  lemma {:induction false} RunsLeftMaximal(s: string, from: nat)
    requires from <= |s|
    ensures forall i :: 0 <= i < |RunsFrom(s, from)| ==>
              RunsFrom(s, from)[i].0 == from || !IsWordChar(s[RunsFrom(s, from)[i].0 - 1])
    decreases |s| - from
  {
    var a := NextWordStart(s, from);
    if a < |s| {
      var b := WordEnd(s, a);
      RunsLeftMaximal(s, b);
      var rest := RunsFrom(s, b);
      var r := RunsFrom(s, from);
      assert r == [(a, b)] + rest;
      forall i | 0 <= i < |r|
        ensures r[i].0 == from || !IsWordChar(s[r[i].0 - 1])
      {
        if i == 0 {
          if a > from {
            assert !IsWordChar(s[a - 1]);
          }
        } else {
          var run := rest[i - 1];
          assert r[i] == run;
          assert IsWordChar(s[run.0]);
          assert run.0 != b;
        }
      }
    }
  }

  /** The runs come left to right with a gap between consecutive ones. */
  lemma {:induction false} RunsOrdered(s: string, from: nat)
    requires from <= |s|
    ensures forall i, i' :: 0 <= i < i' < |RunsFrom(s, from)| ==>
              RunsFrom(s, from)[i].1 < RunsFrom(s, from)[i'].0
    decreases |s| - from
  {
    var a := NextWordStart(s, from);
    if a < |s| {
      var b := WordEnd(s, a);
      RunsOrdered(s, b);
      var rest := RunsFrom(s, b);
      var r := RunsFrom(s, from);
      assert r == [(a, b)] + rest;
      forall i, i' | 0 <= i < i' < |r|
        ensures r[i].1 < r[i'].0
      {
        if i == 0 {
          var run := rest[i' - 1];
          assert r[0] == (a, b) && r[i'] == run;
          assert b <= run.0;
          assert IsWordChar(s[run.0]) && !IsWordChar(s[b]);
        } else {
          assert r[i] == rest[i - 1] && r[i'] == rest[i' - 1];
        }
      }
    }
  }

  /** Position `k` lies in one of the runs found from `from`. */
  predicate InSomeRun(s: string, from: nat, k: nat)
    requires from <= |s|
  {
    exists i :: 0 <= i < |RunsFrom(s, from)| && RunsFrom(s, from)[i].0 <= k < RunsFrom(s, from)[i].1
  }

  /** The word character at `k` lies in some run found from `from`. */
  lemma {:induction false} RunCovers(s: string, from: nat, k: nat)
    requires from <= k < |s| && IsWordChar(s[k])
    ensures InSomeRun(s, from, k)
    decreases |s| - from
  {
    var a := NextWordStart(s, from);
    assert a <= k;
    var b := WordEnd(s, a);
    var rest := RunsFrom(s, b);
    var r := RunsFrom(s, from);
    assert r == [(a, b)] + rest;
    if k < b {
      assert r[0].0 <= k < r[0].1;
    } else {
      RunCovers(s, b, k);
      var i :| 0 <= i < |rest| && rest[i].0 <= k < rest[i].1;
      assert r[i + 1] == rest[i];
    }
  }

  /** Every word character at or after `from` lies in some run. */
  lemma RunsCover(s: string, from: nat)
    requires from <= |s|
    ensures forall k: nat :: from <= k < |s| && IsWordChar(s[k]) ==> InSomeRun(s, from, k)
  {
    forall k: nat | from <= k < |s| && IsWordChar(s[k])
      ensures InSomeRun(s, from, k)
    {
      RunCovers(s, from, k);
    }
  }

  /** The word tokens are the text of the maximal runs, in order. */
  lemma {:induction false} WordsAreRuns(s: string, from: nat)
    requires from <= |s|
    ensures |WordsFrom(s, from)| == |RunsFrom(s, from)|
    ensures forall i :: 0 <= i < |WordsFrom(s, from)| ==>
              WordsFrom(s, from)[i] == s[RunsFrom(s, from)[i].0..RunsFrom(s, from)[i].1]
    decreases |s| - from
  {
    var a := NextWordStart(s, from);
    if a < |s| {
      var b := WordEnd(s, a);
      WordsAreRuns(s, b);
      var ws, r := WordsFrom(s, from), RunsFrom(s, from);
      assert ws == [s[a..b]] + WordsFrom(s, b);
      assert r == [(a, b)] + RunsFrom(s, b);
      forall i | 0 <= i < |ws|
        ensures ws[i] == s[r[i].0..r[i].1]
      {
        if i > 0 {
          assert ws[i] == WordsFrom(s, b)[i - 1] && r[i] == RunsFrom(s, b)[i - 1];
        }
      }
    }
  }

  // ----- the blanked word -----

  /** `t` is the longest string of `ws`, and the first of that length. */
  predicate FirstLongestIn(ws: seq<string>, t: string) {
    && (exists i :: 0 <= i < |ws| && ws[i] == t && forall j :: 0 <= j < i ==> |ws[j]| < |t|)
    && (forall j :: 0 <= j < |ws| ==> |ws[j]| <= |t|)
  }

  /** `maxByOrNull { it.length }` on a non-empty list: the index of the first
      element of greatest length (a later element replaces the current
      maximum only when strictly longer). */
  function FirstLongest(ws: seq<string>): (k: nat)
    requires |ws| > 0
    ensures k < |ws|
    ensures forall j :: 0 <= j < |ws| ==> |ws[j]| <= |ws[k]|
    ensures forall j :: 0 <= j < k ==> |ws[j]| < |ws[k]|
  {
    if |ws| == 1 then 0
    else
      var k := FirstLongest(ws[..|ws| - 1]);
      if |ws[k]| < |ws[|ws| - 1]| then |ws| - 1 else k
  }

  /** `.filter { it.length > 3 }` */
  function LongWords(ws: seq<string>): (r: seq<string>)
    ensures forall i :: 0 <= i < |r| ==> |r[i]| > 3
    ensures forall w :: w in r ==> w in ws
    ensures forall i :: 0 <= i < |ws| && |ws[i]| > 3 ==> ws[i] in r
    ensures r == [] <==> forall i :: 0 <= i < |ws| ==> |ws[i]| <= 3
  {
    if |ws| == 0 then []
    else
      var rest := LongWords(ws[..|ws| - 1]);
      var w := ws[|ws| - 1];
      if |w| > 3 then rest + [w] else rest
  }

  /** The word `buildQuestion` picks from `ws`, as the code does it: filter
      out the short words, then take the first longest of the rest. */
  function PickTarget(ws: seq<string>): Option<string> {
    var long := LongWords(ws);
    if long == [] then None else Some(long[FirstLongest(long)])
  }

  /** The first longest word overall, when it is longer than 3. */
  function LongestIfLong(ws: seq<string>): Option<string> {
    if ws == [] then None
    else
      var t := ws[FirstLongest(ws)];
      if |t| > 3 then Some(t) else None
  }

  /** Filtering out the short words first does not change which word is
      picked. */
  lemma {:induction false} PickTargetIsLongestIfLong(ws: seq<string>)
    ensures PickTarget(ws) == LongestIfLong(ws)
  {
    if |ws| > 1 {
      var ws' := ws[..|ws| - 1];
      var w := ws[|ws| - 1];
      PickTargetIsLongestIfLong(ws');
      var k := FirstLongest(ws');
      assert FirstLongest(ws) == if |ws'[k]| < |w| then |ws| - 1 else k;
      var long' := LongWords(ws');
      if |w| > 3 {
        assert LongWords(ws) == long' + [w];
        if long' != [] {
          LongerWordPicked(long', w);
        }
      } else {
        assert LongWords(ws) == long';
      }
    } else if |ws| == 1 {
      assert ws[..0] == [];
    }
  }

  /** Appending `w` to a non-empty list moves the first longest element to
      `w` exactly when `w` is strictly longer. */
  lemma LongerWordPicked(ws: seq<string>, w: string)
    requires |ws| > 0
    ensures var k := FirstLongest(ws);
      (ws + [w])[FirstLongest(ws + [w])] == if |ws[k]| < |w| then w else ws[k]
  {
    assert (ws + [w])[..|ws|] == ws;
  }

  /** The word `buildQuestion` blanks out: the first of the longest words
      longer than 3 characters, or `None` when there is no such word. */
  function Target(sentence: string): (t: Option<string>)
    ensures t.None? <==> forall i :: 0 <= i < |Words(sentence)| ==> |Words(sentence)[i]| <= 3
    ensures t.Some? ==> |t.value| > 3 && FirstLongestIn(Words(sentence), t.value)
  {
    PickTargetIsLongestIfLong(Words(sentence));
    PickTarget(Words(sentence))
  }

  /** `buildQuestion`: no question when the sentence has no word longer than
      3 characters; otherwise the language label followed by the sentence
      with the first literal occurrence of the target word replaced by the
      blank, everything else kept. */
  function BuildQuestion(sentence: string, isVietnamese: bool): (q: Option<string>)
    ensures q.None? <==> Target(sentence).None?
    ensures q.Some? ==> q.value == Label(isVietnamese) + ReplaceFirst(sentence, Target(sentence).value, Blank)
  {
    var target := Target(sentence);
    if target.None? then None
    else Some(Label(isVietnamese) + ReplaceFirst(sentence, target.value, Blank))
  }

  /** The question is the label, then the sentence with the first literal
      occurrence of the target word replaced by the blank, everything else
      kept. */
  lemma QuestionBlanksFirstOccurrence(sentence: string, isVietnamese: bool)
    requires BuildQuestion(sentence, isVietnamese).Some?
    ensures var t := Target(sentence).value;
      var p := IndexOf(sentence, t);
      && 0 <= p
      && (forall p' :: 0 <= p' < p ==> !OccursAt(sentence, t, p'))
      && BuildQuestion(sentence, isVietnamese).value
           == Label(isVietnamese) + (sentence[..p] + Blank + sentence[p + |t|..])
  {
    TargetOccurs(sentence);
    var t := Target(sentence).value;
    var p := IndexOf(sentence, t);
    assert ReplaceFirst(sentence, t, Blank) == sentence[..p] + Blank + sentence[p + |t|..];
  }

  /** A sentence gives a question exactly when one of its words is longer
      than 3 characters. */
  lemma QuestionIffLongWord(sentence: string, isVietnamese: bool)
    ensures BuildQuestion(sentence, isVietnamese).Some? <==>
              exists i :: 0 <= i < |Words(sentence)| && |Words(sentence)[i]| > 3
  {
  }

  /** Every word occurs in its sentence. */
  lemma {:induction false} WordsOccur(s: string, from: nat, w: string)
    requires from <= |s| && w in WordsFrom(s, from)
    ensures exists p :: OccursAt(s, w, p)
    decreases |s| - from
  {
    var a := NextWordStart(s, from);
    var b := WordEnd(s, a);
    if w == s[a..b] {
      assert OccursAt(s, w, a);
    } else {
      WordsOccur(s, b, w);
    }
  }

  lemma TargetOccurs(sentence: string)
    requires Target(sentence).Some?
    ensures IndexOf(sentence, Target(sentence).value) >= 0
  {
    var t := Target(sentence).value;
    var i :| 0 <= i < |Words(sentence)| && Words(sentence)[i] == t && forall j :: 0 <= j < i ==> |Words(sentence)[j]| < |t|;
    WordsOccur(sentence, 0, t);
    var p :| OccursAt(sentence, t, p);
  }

  // ----- the draw loop -----

  /** Every element of `xs` is a valid index into a list of `n` sentences. */
  predicate InRange(xs: seq<int>, n: int) {
    forall i :: 0 <= i < |xs| ==> 0 <= xs[i] < n
  }

  predicate Distinct(xs: seq<int>) {
    forall i, j :: 0 <= i < j < |xs| ==> xs[i] != xs[j]
  }

  function Elements(xs: seq<int>): set<int> {
    set x | x in xs
  }

  /** The indices `0 until n`. */
  function Range(n: int): (r: set<int>)
    ensures forall i :: i in r <==> 0 <= i < n
  {
    if n <= 0 then {} else Range(n - 1) + {n - 1}
  }

  lemma ElementsSnoc(xs: seq<int>, x: int)
    ensures Elements(xs + [x]) == Elements(xs) + {x}
  {
    assert forall y :: y in xs + [x] <==> y in xs || y == x;
  }

  /** The distinct elements of `xs`, in the order of their first
      occurrence: the sentence indices the generator actually visits when
      the random stream yields `xs`. */
  function Dedup(xs: seq<int>): (d: seq<int>)
    ensures Elements(d) == Elements(xs)
    ensures Distinct(d)
  {
    if |xs| == 0 then []
    else
      var init := xs[..|xs| - 1];
      var x := xs[|xs| - 1];
      assert xs == init + [x];
      ElementsSnoc(init, x);
      var d := Dedup(init);
      ElementsSnoc(d, x);
      if x in d then d else d + [x]
  }

  /** `buildQuestion` applied to every candidate sentence. */
  function Built(sentences: seq<string>, isVietnamese: bool): (b: seq<Option<string>>)
    ensures |b| == |sentences|
    ensures forall i :: 0 <= i < |b| ==> b[i] == BuildQuestion(sentences[i], isVietnamese)
  {
    seq(|sentences|, i requires 0 <= i < |sentences| => BuildQuestion(sentences[i], isVietnamese))
  }

  /** The questions of the sentences at `order`, in that order, skipping
      the sentences that give none; `built` holds each sentence's question. */
  function QuestionsFor(built: seq<Option<string>>, order: seq<int>): (qs: seq<string>)
    requires InRange(order, |built|)
    ensures |qs| <= |order|
  {
    if |order| == 0 then []
    else
      var i := order[|order| - 1];
      QuestionsFor(built, order[..|order| - 1]) + (if built[i].Some? then [built[i].value] else [])
  }

  /** The first `n` elements of `xs` (none when `n <= 0`). */
  function Take(xs: seq<string>, n: int): (r: seq<string>)
    ensures r <= xs
    ensures |r| == if n <= 0 then 0 else if n < |xs| then n else |xs|
  {
    if n <= 0 then [] else if n < |xs| then xs[..n] else xs
  }

  /** What `generateQuestions` returns when `nextInt` yields `draws`: no
      question for a blank text; otherwise the questions of the candidate
      sentences in the order the stream first names them, cut at
      `maxQuestions`. This is a reference definition with no loop. */
  function Generate(text: string, isVietnamese: bool, maxQuestions: int, draws: seq<int>): (qs: seq<string>)
    requires !IsBlank(text) ==> InRange(draws, |Candidates(text)|)
    ensures IsBlank(text) ==> qs == []
    ensures maxQuestions <= 0 ==> qs == []
    ensures 0 <= maxQuestions ==> |qs| <= maxQuestions
  {
    if IsBlank(text) then []
    else
      var built := Built(Candidates(text), isVietnamese);
      DedupInRange(draws, |built|);
      Take(QuestionsFor(built, Dedup(draws)), maxQuestions)
  }

  /** `generateQuestions` as the code runs it: draw an index, skip it when
      already used, otherwise record it and keep the sentence's question if
      there is one; stop at `maxQuestions` questions or once every sentence
      has been used. The stream is finite here, so the loop also stops when
      it runs out; `consumed` says how many draws were taken, and a loop that
      stopped before the end of the stream stopped for one of the code's own
      two reasons. */
  method GenerateQuestions(text: string, isVietnamese: bool, maxQuestions: int, draws: seq<int>)
    returns (questions: seq<string>, consumed: nat)
    requires !IsBlank(text) ==> InRange(draws, |Candidates(text)|)
    ensures questions == Generate(text, isVietnamese, maxQuestions, draws)
    ensures consumed <= |draws|
    ensures !IsBlank(text) && consumed < |draws| ==>
              |questions| >= maxQuestions || Elements(draws[..consumed]) == Range(|Candidates(text)|)
  {
    if IsBlank(text) {
      return [], 0;
    }
    questions, consumed := DrawQuestions(Candidates(text), isVietnamese, maxQuestions, draws);
  }

  /** The `while` loop of `generateQuestions` over the candidate list. */
  method DrawQuestions(sentences: seq<string>, isVietnamese: bool, maxQuestions: int, draws: seq<int>)
    returns (generated: seq<string>, consumed: nat)
    requires InRange(draws, |sentences|)
    ensures InRange(Dedup(draws), |sentences|)
    ensures generated == Take(QuestionsFor(Built(sentences, isVietnamese), Dedup(draws)), maxQuestions)
    ensures consumed <= |draws|
    ensures consumed < |draws| ==>
              |generated| >= maxQuestions || Elements(draws[..consumed]) == Range(|sentences|)
  {
    var built := Built(sentences, isVietnamese);
    generated := [];
    var used: set<int> := {};
    consumed := 0;
    assert draws[..0] == [];
    while |generated| < maxQuestions && |used| < |sentences| && consumed < |draws|
      invariant consumed <= |draws|
      invariant used == Elements(draws[..consumed]) && used <= Range(|sentences|)
      invariant InRange(Dedup(draws[..consumed]), |built|)
      invariant generated == QuestionsFor(built, Dedup(draws[..consumed]))
      invariant |generated| <= if maxQuestions < 0 then 0 else maxQuestions
      decreases |draws| - consumed
    {
      var index := draws[consumed];
      DrawStep(built, draws, consumed, used);
      consumed := consumed + 1;
      if index !in used {
        used := used + {index};
        var question := BuildQuestion(sentences[index], isVietnamese);
        assert question == built[index];
        if question.Some? {
          generated := generated + [question.value];
        }
      }
    }
    if |used| >= |sentences| {
      FullRange(used, |sentences|);
    }
    DrawnEnough(built, maxQuestions, draws, consumed);
  }

  /** The state after `k` draws, when the loop stops there, is the reference
      result for the whole stream. */
  lemma DrawnEnough(built: seq<Option<string>>, maxQuestions: int, draws: seq<int>, k: nat)
    requires InRange(draws, |built|) && k <= |draws|
    requires InRange(Dedup(draws[..k]), |built|)
    requires var got := QuestionsFor(built, Dedup(draws[..k]));
             && |got| <= (if maxQuestions < 0 then 0 else maxQuestions)
             && (|got| >= maxQuestions || Elements(draws[..k]) == Range(|built|) || k == |draws|)
    ensures InRange(Dedup(draws), |built|)
    ensures QuestionsFor(built, Dedup(draws[..k])) == Take(QuestionsFor(built, Dedup(draws)), maxQuestions)
  {
    DedupInRange(draws, |built|);
    var got := QuestionsFor(built, Dedup(draws[..k]));
    if |got| >= maxQuestions {
      if maxQuestions > 0 {
        StoppedAtMax(built, maxQuestions, draws, k);
      }
    } else if k == |draws| {
      assert draws[..k] == draws;
    } else {
      StoppedSaturated(built, draws, k);
    }
  }

  lemma StoppedAtMax(built: seq<Option<string>>, maxQuestions: int, draws: seq<int>, k: nat)
    requires InRange(draws, |built|) && k <= |draws| && 0 < maxQuestions
    requires InRange(Dedup(draws[..k]), |built|) && InRange(Dedup(draws), |built|)
    requires |QuestionsFor(built, Dedup(draws[..k]))| == maxQuestions
    ensures QuestionsFor(built, Dedup(draws[..k])) == Take(QuestionsFor(built, Dedup(draws)), maxQuestions)
  {
    DedupPrefix(draws, k);
    QuestionsForPrefix(built, Dedup(draws[..k]), Dedup(draws));
    var all := QuestionsFor(built, Dedup(draws));
    assert all[..maxQuestions] == QuestionsFor(built, Dedup(draws[..k]));
  }

  lemma StoppedSaturated(built: seq<Option<string>>, draws: seq<int>, k: nat)
    requires InRange(draws, |built|) && k <= |draws|
    requires Elements(draws[..k]) == Range(|built|)
    ensures Dedup(draws[..k]) == Dedup(draws)
  {
    forall j | k <= j < |draws|
      ensures draws[j] in Elements(draws[..k])
    {
      assert draws[j] in Range(|built|);
    }
    DedupSaturated(draws, k);
  }

  /** The loop's state after one more draw. */
  lemma DrawStep(built: seq<Option<string>>, draws: seq<int>, k: nat, used: set<int>)
    requires InRange(draws, |built|) && k < |draws|
    requires used == Elements(draws[..k]) && used <= Range(|built|)
    ensures 0 <= draws[k] < |built|
    ensures used + {draws[k]} == Elements(draws[..k + 1]) && used + {draws[k]} <= Range(|built|)
    ensures draws[k] in used ==> used == Elements(draws[..k + 1])
    ensures InRange(Dedup(draws[..k]), |built|) && InRange(Dedup(draws[..k + 1]), |built|)
    ensures var index := draws[k];
      QuestionsFor(built, Dedup(draws[..k + 1])) ==
        if index in used then QuestionsFor(built, Dedup(draws[..k]))
        else QuestionsFor(built, Dedup(draws[..k])) + (if built[index].Some? then [built[index].value] else [])
  {
    QuestionsForStep(built, draws, k);
  }

  /** One draw more: an index already drawn adds nothing; a new one adds
      its sentence's question, if any. */
  lemma QuestionsForStep(built: seq<Option<string>>, xs: seq<int>, k: nat)
    requires InRange(xs, |built|) && k < |xs|
    ensures InRange(Dedup(xs[..k]), |built|) && InRange(Dedup(xs[..k + 1]), |built|)
    ensures Elements(xs[..k + 1]) == Elements(xs[..k]) + {xs[k]}
    ensures 0 <= xs[k] < |built|
    ensures QuestionsFor(built, Dedup(xs[..k + 1])) ==
              if xs[k] in Elements(xs[..k]) then QuestionsFor(built, Dedup(xs[..k]))
              else QuestionsFor(built, Dedup(xs[..k])) + (if built[xs[k]].Some? then [built[xs[k]].value] else [])
  {
    DedupStep(xs, k);
    PrefixInRange(xs, k, |built|);
    PrefixInRange(xs, k + 1, |built|);
    DedupInRange(xs[..k], |built|);
    DedupInRange(xs[..k + 1], |built|);
    var d := Dedup(xs[..k]);
    if xs[k] !in Elements(xs[..k]) {
      assert (d + [xs[k]])[..|d|] == d;
    }
  }

  lemma PrefixInRange(xs: seq<int>, k: nat, n: int)
    requires InRange(xs, n) && k <= |xs|
    ensures InRange(xs[..k], n)
  {
    forall i | 0 <= i < k
      ensures 0 <= xs[..k][i] < n
    {
      assert xs[..k][i] == xs[i];
    }
  }

  /** One more draw adds its index to the visiting order exactly when it
      was not drawn before. */
  lemma DedupStep(xs: seq<int>, k: nat)
    requires k < |xs|
    ensures Elements(xs[..k + 1]) == Elements(xs[..k]) + {xs[k]}
    ensures Dedup(xs[..k + 1]) ==
              if xs[k] in Elements(xs[..k]) then Dedup(xs[..k]) else Dedup(xs[..k]) + [xs[k]]
  {
    assert xs[..k + 1] == xs[..k] + [xs[k]];
    assert xs[..k + 1][..k] == xs[..k];
    ElementsSnoc(xs[..k], xs[k]);
  }

  lemma DedupInRange(xs: seq<int>, n: int)
    requires InRange(xs, n)
    ensures InRange(Dedup(xs), n)
  {
    var d := Dedup(xs);
    forall i | 0 <= i < |d|
      ensures 0 <= d[i] < n
    {
      assert d[i] in Elements(d);
    }
  }

  /** The visiting order of a prefix of the stream is a prefix of the
      visiting order of the whole stream. */
  lemma {:induction false} DedupPrefix(xs: seq<int>, k: nat)
    requires k <= |xs|
    ensures Dedup(xs[..k]) <= Dedup(xs)
    decreases |xs|
  {
    if k < |xs| {
      var init := xs[..|xs| - 1];
      assert init[..k] == xs[..k];
      DedupPrefix(init, k);
    } else {
      assert xs[..k] == xs;
    }
  }

  /** Once every index drawn after position `k` was already drawn before
      it, the rest of the stream changes nothing. */
  lemma {:induction false} DedupSaturated(xs: seq<int>, k: nat)
    requires k <= |xs|
    requires forall j :: k <= j < |xs| ==> xs[j] in Elements(xs[..k])
    ensures Dedup(xs) == Dedup(xs[..k])
    decreases |xs|
  {
    if k < |xs| {
      var init := xs[..|xs| - 1];
      assert init[..k] == xs[..k];
      DedupSaturated(init, k);
      assert xs[|xs| - 1] in Elements(Dedup(init));
    } else {
      assert xs[..k] == xs;
    }
  }

  /** Visiting more sentences only appends questions. */
  lemma {:induction false} QuestionsForPrefix(built: seq<Option<string>>, a: seq<int>, b: seq<int>)
    requires InRange(b, |built|) && a <= b
    ensures InRange(a, |built|)
    ensures QuestionsFor(built, a) <= QuestionsFor(built, b)
    decreases |b|
  {
    if |a| < |b| {
      var init := b[..|b| - 1];
      assert a <= init;
      PrefixInRange(b, |b| - 1, |built|);
      QuestionsForPrefix(built, a, init);
    } else {
      assert a == b;
    }
  }

  lemma {:induction false} RangeSize(n: nat)
    ensures |Range(n)| == n
  {
    if n > 0 {
      RangeSize(n - 1);
    }
  }

  /** A set of indices below `n` with at least `n` elements holds them all. */
  lemma FullRange(used: set<int>, n: nat)
    requires used <= Range(n) && |used| >= n
    ensures used == Range(n)
  {
    RangeSize(n);
    var missing := Range(n) - used;
    assert |Range(n)| == |missing| + |used|;
  }

  // ----- properties of the generator -----

  lemma {:induction false} DistinctElements(d: seq<int>)
    requires Distinct(d)
    ensures |Elements(d)| == |d|
  {
    if |d| > 0 {
      var init := d[..|d| - 1];
      var x := d[|d| - 1];
      assert d == init + [x];
      ElementsSnoc(init, x);
      DistinctElements(init);
      assert x !in init by {
        forall i | 0 <= i < |init|
          ensures init[i] != x
        {
          assert init[i] == d[i];
        }
      }
    }
  }

  /** Distinct indices below `n` number at most `n`. */
  lemma DistinctBound(d: seq<int>, n: nat)
    requires Distinct(d) && InRange(d, n)
    ensures |d| <= n
  {
    DistinctElements(d);
    RangeSize(n);
    assert Elements(d) <= Range(n) by {
      forall x | x in Elements(d)
        ensures x in Range(n)
      {
        var i :| 0 <= i < |d| && d[i] == x;
      }
    }
    var rest := Range(n) - Elements(d);
    assert |Range(n)| == |rest| + |Elements(d)|;
  }

  /** No sentence is asked about twice: there are never more questions than
      candidate sentences. */
  lemma GenerateAtMostOncePerSentence(text: string, isVietnamese: bool, maxQuestions: int, draws: seq<int>)
    requires !IsBlank(text) && InRange(draws, |Candidates(text)|)
    ensures |Generate(text, isVietnamese, maxQuestions, draws)| <= |Candidates(text)|
  {
    var built := Built(Candidates(text), isVietnamese);
    DedupInRange(draws, |built|);
    DistinctBound(Dedup(draws), |built|);
  }

  /** Every question comes from a sentence that has one. */
  lemma {:induction false} QuestionsForBuilt(built: seq<Option<string>>, order: seq<int>)
    requires InRange(order, |built|)
    ensures forall q :: q in QuestionsFor(built, order) ==> Some(q) in built
  {
    if |order| > 0 {
      var init := order[..|order| - 1];
      PrefixInRange(order, |order| - 1, |built|);
      QuestionsForBuilt(built, init);
    }
  }

  /** Every generated question is `buildQuestion` of some candidate
      sentence, and so starts with the language label. */
  lemma GenerateAsksBuiltQuestions(text: string, isVietnamese: bool, maxQuestions: int, draws: seq<int>)
    requires !IsBlank(text) ==> InRange(draws, |Candidates(text)|)
    ensures forall q :: q in Generate(text, isVietnamese, maxQuestions, draws) ==>
              && Label(isVietnamese) <= q
              && exists k :: 0 <= k < |Candidates(text)| && BuildQuestion(Candidates(text)[k], isVietnamese) == Some(q)
  {
    if !IsBlank(text) {
      var built := Built(Candidates(text), isVietnamese);
      DedupInRange(draws, |built|);
      var all := QuestionsFor(built, Dedup(draws));
      QuestionsForBuilt(built, Dedup(draws));
      forall q | q in Generate(text, isVietnamese, maxQuestions, draws)
        ensures Label(isVietnamese) <= q
        ensures exists k :: 0 <= k < |Candidates(text)| && BuildQuestion(Candidates(text)[k], isVietnamese) == Some(q)
      {
        assert q in all;
        var k :| 0 <= k < |built| && built[k] == Some(q);
        var sentence := Candidates(text)[k];
        assert BuildQuestion(sentence, isVietnamese) == Some(q);
      }
    }
  }

  /** The indices among `xs` whose sentence has a question. */
  function Answerable(built: seq<Option<string>>, xs: seq<int>): set<int> {
    set x | x in xs && 0 <= x < |built| && built[x].Some?
  }

  /** Visiting distinct sentences yields one question per sentence that
      has one. */
  lemma {:induction false} QuestionsForCount(built: seq<Option<string>>, d: seq<int>)
    requires InRange(d, |built|) && Distinct(d)
    ensures |QuestionsFor(built, d)| == |Answerable(built, d)|
  {
    if |d| > 0 {
      var init := d[..|d| - 1];
      var x := d[|d| - 1];
      PrefixInRange(d, |d| - 1, |built|);
      QuestionsForCount(built, init);
      assert QuestionsFor(built, d) ==
               QuestionsFor(built, init) + (if built[x].Some? then [built[x].value] else []);
      AnswerableSnoc(built, d);
    } else {
      assert Answerable(built, d) == {};
    }
  }

  lemma AnswerableSnoc(built: seq<Option<string>>, d: seq<int>)
    requires InRange(d, |built|) && Distinct(d) && |d| > 0
    ensures var x := d[|d| - 1];
      && x !in Answerable(built, d[..|d| - 1])
      && Answerable(built, d) == Answerable(built, d[..|d| - 1]) + (if built[x].Some? then {x} else {})
  {
    var init := d[..|d| - 1];
    var x := d[|d| - 1];
    assert d == init + [x];
    assert x !in init by {
      forall i | 0 <= i < |init|
        ensures init[i] != x
      {
        assert init[i] == d[i];
      }
    }
  }

  /** When the stream names every sentence and `maxQuestions` is no
      obstacle, every sentence that yields a question is asked about exactly
      once. */
  lemma GenerateCoversAll(text: string, isVietnamese: bool, maxQuestions: int, draws: seq<int>)
    requires !IsBlank(text) && InRange(draws, |Candidates(text)|)
    requires Elements(draws) == Range(|Candidates(text)|) && maxQuestions >= |Candidates(text)|
    ensures |Generate(text, isVietnamese, maxQuestions, draws)| ==
              |set i | 0 <= i < |Candidates(text)| && BuildQuestion(Candidates(text)[i], isVietnamese).Some?|
  {
    var sentences := Candidates(text);
    var built := Built(sentences, isVietnamese);
    var d := Dedup(draws);
    DedupInRange(draws, |built|);
    DistinctBound(d, |built|);
    QuestionsForCount(built, d);
    assert Answerable(built, d) ==
             set i | 0 <= i < |sentences| && BuildQuestion(sentences[i], isVietnamese).Some? by {
      forall x
        ensures x in Answerable(built, d) <==> 0 <= x < |sentences| && BuildQuestion(sentences[x], isVietnamese).Some?
      {
        assert x in d <==> x in Elements(d);
        assert x in Range(|built|) <==> 0 <= x < |built|;
      }
    }
  }
}
