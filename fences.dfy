/**
 * Separating the prose of a rule from its fenced code examples (parser.py,
 * `_extract_content_and_examples` and `_is_correct_example`).
 *
 * The text is cut with `re.split(r"```(\w+)?\n(.*?)```", content, flags=re.DOTALL)`.
 * A match starts at three backticks, takes the longest run of word characters as the
 * language (possibly none), needs a newline right after it, and then takes the code up
 * to the FIRST following three backticks (the lazy `.*?`). The search tries every start
 * position from left to right; the pieces come out as
 * [text, language, code, text, language, code, ..., text], with "" standing for an
 * absent language group.
 */
module Fences {
  import opened Wrappers
  import opened Text

  const Ticks: string := "```"

  /** End of the run of word characters that starts at index `i`. */
  function WordEnd(s: string, i: nat): (j: nat)
    requires i <= |s|
    decreases |s| - i
    ensures i <= j <= |s|
    ensures j < |s| ==> !IsWordChar(s[j])
  {
    if i < |s| && IsWordChar(s[i]) then WordEnd(s, i + 1) else i
  }

  /** The text of a fence: three backticks, the language, a line break, the code, three backticks. */
  function FenceText(lang: string, code: string): string {
    Ticks + (lang + ("\n" + (code + Ticks)))
  }

  /** Three backticks start at index `p`. */
  predicate TicksAt(s: string, p: nat) {
    p + 3 <= |s| && s[p] == '`' && s[p + 1] == '`' && s[p + 2] == '`'
  }

  lemma TicksAtSlice(s: string, p: nat)
    requires p + 3 <= |s|
    ensures TicksAt(s, p) <==> s[p..p + 3] == Ticks
  {
    if s[p..p + 3] == Ticks {
      assert s[p] == s[p..p + 3][0] && s[p + 1] == s[p..p + 3][1] && s[p + 2] == s[p..p + 3][2];
    }
  }

  /** The first three backticks at or after `from`: where the lazy `.*?` stops. */
  function CloseAt(s: string, from: nat): (q: Option<nat>)
    decreases |s| - from
    ensures q.Some? ==> from <= q.value && TicksAt(s, q.value)
  {
    if from + 3 > |s| then None
    else if TicksAt(s, from) then Some(from)
    else CloseAt(s, from + 1)
  }

  /** One match of the fence pattern: its two groups and the index just after it. */
  datatype Fence = Fence(lang: string, code: string, end: nat)

  /** The match of the fence pattern that starts exactly at index `p`, if there is one. */
  function FenceAt(s: string, p: nat): (f: Option<Fence>)
    requires p <= |s|
    ensures f.Some? ==> p < f.value.end <= |s|
  {
    if !TicksAt(s, p) then None
    else
      var w := WordEnd(s, p + 3);
      if w == |s| || s[w] != '\n' then None
      else
        match CloseAt(s, w + 1)
        case None => None
        case Some(q) =>
          Some(Fence(s[p + 3..w], s[w + 1..q], q + 3))
  }

  /** A match covers the whole text of its fence. */
  lemma FenceAtText(s: string, p: nat)
    requires p <= |s| && FenceAt(s, p).Some?
    ensures var f := FenceAt(s, p).value;
      s[p..f.end] == FenceText(f.lang, f.code)
  {
    var w := WordEnd(s, p + 3);
    var q := CloseAt(s, w + 1).value;
    assert FenceAt(s, p) == Some(Fence(s[p + 3..w], s[w + 1..q], q + 3));
    TicksAtSlice(s, p);
    TicksAtSlice(s, q);
    FenceTextOf(s, p, w, q);
  }

  /** The text of a fence, in slice terms. */
  lemma FenceTextOf(s: string, p: nat, w: nat, q: nat)
    requires p + 3 <= w < q && q + 3 <= |s|
    requires s[p..p + 3] == Ticks && s[q..q + 3] == Ticks && s[w] == '\n'
    ensures s[p..q + 3] == FenceText(s[p + 3..w], s[w + 1..q])
  {
    SliceSplit(s, p, p + 3, q + 3);
    SliceSplit(s, p + 3, w, q + 3);
    SliceSplit(s, w, w + 1, q + 3);
    SliceSplit(s, w + 1, q, q + 3);
    assert s[w..w + 1] == "\n";
  }

  lemma SliceSplit(s: string, i: nat, j: nat, k: nat)
    requires i <= j <= k <= |s|
    ensures s[i..k] == s[i..j] + s[j..k]
  {
  }

  /**
   * The split of `s` from index `p` on, where the current text piece started at
   * `start`: each fence found closes the text piece and contributes its language and
   * code; where no fence starts, the search moves on by one character.
   */
  function SplitFrom(s: string, start: nat, p: nat): (parts: seq<string>)
    requires start <= p <= |s|
    decreases |s| - p
    ensures |parts| >= 1
  {
    if p == |s| then [s[start..]]
    else
      match FenceAt(s, p)
      case Some(f) => [s[start..p], f.lang, f.code] + SplitFrom(s, f.end, f.end)
      case None => SplitFrom(s, start, p + 1)
  }

  /** `re.split(r"```(\w+)?\n(.*?)```", s, flags=re.DOTALL)` */
  function SplitFences(s: string): (parts: seq<string>)
    ensures |parts| % 3 == 1
  {
    SplitFromLength(s, 0, 0);
    SplitFrom(s, 0, 0)
  }

  /** A split is a text piece followed by groups of three: language, code, text. */
  lemma {:induction false} SplitFromLength(s: string, start: nat, p: nat)
    requires start <= p <= |s|
    decreases |s| - p
    ensures |SplitFrom(s, start, p)| % 3 == 1
  {
    if p < |s| {
      var r := FenceAt(s, p);
      if r.Some? {
        var f := r.value;
        SplitAtFence(s, start, p, f);
        SplitFromLength(s, f.end, f.end);
      } else {
        SplitFromLength(s, start, p + 1);
      }
    }
  }

  /** Puts the pieces of a split back together, re-inserting the fences. */
  function Unsplit(parts: seq<string>): string
    decreases |parts|
  {
    if |parts| < 3 then (if parts == [] then "" else parts[0])
    else parts[0] + FenceText(parts[1], parts[2]) + Unsplit(parts[3..])
  }

  lemma UnsplitCons(text: string, lang: string, code: string, rest: seq<string>)
    ensures Unsplit([text, lang, code] + rest) == text + FenceText(lang, code) + Unsplit(rest)
  {
    assert ([text, lang, code] + rest)[3..] == rest;
  }

  /** A fence found at `p`: the split from `p` on is the text, the fence and the rest. */
  lemma UnsplitFence(s: string, start: nat, p: nat, f: Fence)
    requires start <= p < |s| && FenceAt(s, p) == Some(f)
    requires Unsplit(SplitFrom(s, f.end, f.end)) == s[f.end..]
    ensures Unsplit(SplitFrom(s, start, p)) == s[start..]
  {
    var rest := SplitFrom(s, f.end, f.end);
    FenceAtText(s, p);
    assert SplitFrom(s, start, p) == [s[start..p], f.lang, f.code] + rest;
    UnsplitCons(s[start..p], f.lang, f.code, rest);
    SliceThree(s, start, p, f.end);
  }

  lemma SliceThree(s: string, i: nat, j: nat, k: nat)
    requires i <= j <= k <= |s|
    ensures s[i..] == s[i..j] + s[j..k] + s[k..]
  {
  }

  /** The split loses nothing: re-inserting the fences gives back the text. */
  lemma {:induction false} UnsplitSplitFrom(s: string, start: nat, p: nat)
    requires start <= p <= |s|
    decreases |s| - p
    ensures Unsplit(SplitFrom(s, start, p)) == s[start..]
  {
    if p < |s| {
      match FenceAt(s, p)
      case Some(f) =>
        UnsplitSplitFrom(s, f.end, f.end);
        UnsplitFence(s, start, p, f);
      case None =>
        UnsplitSplitFrom(s, start, p + 1);
    }
  }

  lemma UnsplitSplitFences(s: string)
    ensures Unsplit(SplitFences(s)) == s
  {
    UnsplitSplitFrom(s, 0, 0);
  }

  /** One code example of a rule. */
  datatype CodeExample = CodeExample(code: string, language: string, isCorrect: bool, explanation: Option<string>)

  const IncorrectIndicators: seq<string> := ["wrong", "incorrect", "bad", "don't", "never", "avoid", "\U{274C}"]
  const CorrectIndicators: seq<string> := ["correct", "right", "good", "do this", "\U{2705}"]
  const IncorrectMarkers: seq<string> := ["# WRONG", "# BAD", "# \U{274C}"]
  const CorrectMarkers: seq<string> := ["# CORRECT", "# GOOD", "# \U{2705}"]

  /** The last `n` lines (Python's `lines[-n:]`). */
  function LastLines(lines: seq<string>, n: nat): (r: seq<string>)
    ensures |r| <= n && |r| <= |lines|
    ensures r == lines[|lines| - |r|..]
    ensures |lines| >= n ==> |r| == n
  {
    if |lines| <= n then lines else lines[|lines| - n..]
  }

  /** `" ".join(preceding.strip().split("\n")[-3:]).lower()` */
  function LastText(preceding: string): string {
    Lower(Join(LastLines(Split(Strip(preceding), '\n'), 3), " "))
  }

  /**
   * `_is_correct_example`: an incorrect indicator in the last three lines of the
   * preceding text wins, then a correct one; only when neither occurs are the comment
   * markers in the code consulted; the default is "correct".
   */
  predicate IsCorrectExample(preceding: string, code: string)
  {
    var t := LastText(preceding);
    if ContainsAny(t, IncorrectIndicators) then false
    else if ContainsAny(t, CorrectIndicators) then true
    else if ContainsAny(code, IncorrectMarkers) then false
    else if ContainsAny(code, CorrectMarkers) then true
    else true
  }

  lemma LastLinesAppend(p: seq<string>, q: seq<string>, n: nat)
    requires |q| >= n
    ensures LastLines(p + q, n) == LastLines(q, n)
  {
    assert (p + q)[|p + q| - n..] == q[|q| - n..];
  }

  /**
   * Only the last three lines of the preceding text count: putting any text and a
   * line break in front of a stripped text of three or more lines changes nothing.
   */
  lemma LastThreeLinesOnly(a: string, b: string, code: string)
    requires b != [] && Strip(b) == b && LineCount(b) >= 3
    ensures LastText(a + "\n" + b) == LastText(b)
    ensures IsCorrectExample(a + "\n" + b, code) == IsCorrectExample(b, code)
  {
    StripBeforeLine(a, b);
    var t := Strip(a + "\n" + b);
    if t != b {
      SplitAppend(LStrip(a), b, '\n');
      LastLinesAppend(Split(LStrip(a), '\n'), Split(b, '\n'), 3);
    }
  }

  /**
   * "incorrect" contains "correct", yet a text that says "incorrect" classifies the
   * example as incorrect: incorrect indicators are looked for first.
   */
  lemma IncorrectBeatsCorrect(preceding: string, code: string)
    requires Contains(LastText(preceding), "incorrect")
    ensures ContainsAny(LastText(preceding), CorrectIndicators)
    ensures !IsCorrectExample(preceding, code)
  {
    var t := LastText(preceding);
    var i: nat :| i <= |t| && OccursAt(t, "incorrect", i);
    CorrectInsideIncorrect(t, i);
    assert Contains(t, CorrectIndicators[0]);
    assert Contains(t, IncorrectIndicators[1]);
  }

  lemma CorrectInsideIncorrect(t: string, i: nat)
    requires OccursAt(t, "incorrect", i)
    ensures OccursAt(t, "correct", i + 2)
  {
    var w := t[i..i + 9];
    assert t[i + 2..i + 9] == w[2..];
    assert w == "incorrect";
    assert w[2..] == "correct";
  }

  /** Nothing in the text and no marker in the code: the example counts as correct. */
  lemma DefaultIsCorrect(code: string)
    requires '#' !in code
    ensures IsCorrectExample("", code)
  {
    assert Split("", '\n') == [""];
    assert LastText("") == "";
    forall k | 0 <= k < |IncorrectMarkers| ensures !Contains(code, IncorrectMarkers[k]) {
      NoHashNoMarker(code, IncorrectMarkers[k]);
    }
  }

  lemma NoHashNoMarker(code: string, marker: string)
    requires '#' !in code && marker != [] && marker[0] == '#'
    ensures !Contains(code, marker)
  {
  }

  /**
   * The example built from a fence: its code stripped, its language or "text", and
   * classified by the text piece before it.
   */
  function MakeExample(preceding: string, lang: string, code: string): (e: CodeExample)
    ensures e.language != ""
    ensures lang != "" ==> e.language == lang
    ensures lang == "" ==> e.language == "text"
    ensures e.code == Strip(code)
    ensures e.isCorrect == IsCorrectExample(preceding, e.code)
    ensures e.explanation == None
  {
    var language := if lang != "" then lang else "text";
    CodeExample(Strip(code), language, IsCorrectExample(preceding, Strip(code)), None)
  }

  /** The example built from the `k`-th fence of a split. */
  function ExampleAt(parts: seq<string>, k: nat): CodeExample
    requires 3 * k + 2 < |parts|
  {
    MakeExample(parts[3 * k], parts[3 * k + 1], parts[3 * k + 2])
  }

  /** The text pieces of a split, in order. */
  function Texts(parts: seq<string>): (texts: seq<string>)
    requires |parts| % 3 == 1
    ensures |texts| == |parts| / 3 + 1
    ensures forall k :: 0 <= k < |texts| ==> texts[k] == parts[3 * k]
  {
    seq(|parts| / 3 + 1, k requires 0 <= k < |parts| / 3 + 1 => parts[3 * k])
  }

  /** The examples of a split, one per fence, in order. */
  function Examples(parts: seq<string>): (examples: seq<CodeExample>)
    requires |parts| % 3 == 1
    ensures |examples| == |parts| / 3
    ensures forall k :: 0 <= k < |examples| ==> examples[k] == ExampleAt(parts, k)
  {
    seq(|parts| / 3, k requires 0 <= k < |parts| / 3 => ExampleAt(parts, k))
  }

  /** `"".join(parts)` */
  function Concat(parts: seq<string>): string {
    if parts == [] then "" else Concat(parts[..|parts| - 1]) + parts[|parts| - 1]
  }

  /** What `_extract_content_and_examples` returns: the prose and the examples. */
  function ContentAndExamples(content: string): (string, seq<CodeExample>) {
    var parts := SplitFences(content);
    (Concat(Texts(parts)), Examples(parts))
  }

  /** No backtick from `p` to `q`: no fence starts there and the search moves past. */
  lemma {:induction false} SkipPlainText(s: string, start: nat, p: nat, q: nat)
    requires start <= p <= q <= |s|
    requires forall j :: p <= j < q ==> s[j] != '`'
    decreases q - p
    ensures SplitFrom(s, start, p) == SplitFrom(s, start, q)
  {
    if p < q {
      SkipPlainText(s, start, p + 1, q);
    }
  }

  lemma {:induction false} WordEndOf(s: string, i: nat, n: nat)
    requires i + n < |s|
    requires forall k :: i <= k < i + n ==> IsWordChar(s[k])
    requires !IsWordChar(s[i + n])
    decreases n
    ensures WordEnd(s, i) == i + n
  {
    if n > 0 {
      WordEndOf(s, i + 1, n - 1);
    }
  }

  lemma {:induction false} CloseAtFirst(s: string, from: nat, q: nat)
    requires from <= q && TicksAt(s, q)
    requires forall j :: from <= j < q ==> s[j] != '`'
    decreases q - from
    ensures CloseAt(s, from) == Some(q)
  {
    if from < q {
      CloseAtFirst(s, from + 1, q);
    }
  }

  /** The shape of a fence in slice terms: the match that starts at `p`. */
  lemma FenceAtOf(s: string, p: nat, w: nat, q: nat)
    requires p + 3 <= w < q && q + 3 <= |s|
    requires s[p..p + 3] == Ticks && s[q..q + 3] == Ticks && s[w] == '\n'
    requires forall c :: c in s[p + 3..w] ==> IsWordChar(c)
    requires '`' !in s[w + 1..q]
    ensures FenceAt(s, p) == Some(Fence(s[p + 3..w], s[w + 1..q], q + 3))
  {
    assert forall k :: p + 3 <= k < w ==> s[k] == s[p + 3..w][k - p - 3];
    WordEndOf(s, p + 3, w - p - 3);
    assert forall j :: w + 1 <= j < q ==> s[j] == s[w + 1..q][j - w - 1];
    TicksAtSlice(s, p);
    TicksAtSlice(s, q);
    CloseAtFirst(s, w + 1, q);
  }

  /** No backtick in `s[p..q]`: the search moves past it. */
  lemma SkipPlainSlice(s: string, start: nat, p: nat, q: nat)
    requires start <= p <= q <= |s|
    requires '`' !in s[p..q]
    ensures SplitFrom(s, start, p) == SplitFrom(s, start, q)
  {
    assert forall j :: p <= j < q ==> s[j] == s[p..q][j - p];
    SkipPlainText(s, start, p, q);
  }

  /** The slices of `before + FenceText(lang, code) + after`. */
  lemma FenceSlices(before: string, lang: string, code: string, after: string)
    ensures var s := before + FenceText(lang, code) + after;
      var b := |before|;
      var w := b + 3 + |lang|;
      var q := w + 1 + |code|;
      && q + 3 <= |s|
      && s[..b] == before && s[b..b + 3] == Ticks && s[b + 3..w] == lang && s[w] == '\n'
      && s[w + 1..q] == code && s[q..q + 3] == Ticks && s[q + 3..] == after
  {
    var f := FenceText(lang, code);
    var s := before + f + after;
    var b := |before|;
    assert s[..b] == before;
    assert s[b..b + |f|] == f;
    assert s[b + |f|..] == after;
    assert f[..3] == Ticks && f[3..3 + |lang|] == lang && f[3 + |lang|] == '\n';
    assert f[4 + |lang|..|f| - 3] == code && f[|f| - 3..] == Ticks;
  }

  /** A fence found at `p` closes the current text piece. */
  lemma SplitAtFence(s: string, start: nat, p: nat, f: Fence)
    requires start <= p < |s| && FenceAt(s, p) == Some(f)
    ensures SplitFrom(s, start, p) == [s[start..p], f.lang, f.code] + SplitFrom(s, f.end, f.end)
  {
  }

  /** `SplitAtFence` for a fence given in slice terms. */
  lemma SplitAtFenceOf(s: string, start: nat, p: nat, w: nat, q: nat)
    requires start <= p && p + 3 <= w < q && q + 3 <= |s|
    requires s[p..p + 3] == Ticks && s[q..q + 3] == Ticks && s[w] == '\n'
    requires forall c :: c in s[p + 3..w] ==> IsWordChar(c)
    requires '`' !in s[w + 1..q]
    ensures SplitFrom(s, start, p) == [s[start..p], s[p + 3..w], s[w + 1..q]] + SplitFrom(s, q + 3, q + 3)
  {
    FenceAtOf(s, p, w, q);
    var f := FenceAt(s, p).value;
    SplitAtFence(s, start, p, f);
    assert f == Fence(s[p + 3..w], s[w + 1..q], q + 3);
  }

  lemma SplitAtEnd(s: string, start: nat)
    requires start <= |s|
    ensures SplitFrom(s, start, |s|) == [s[start..]]
  {
  }

  /** A text with exactly one fence and no other backtick. */
  lemma OneFence(before: string, lang: string, code: string, after: string)
    requires '`' !in before && '`' !in code && '`' !in after
    requires forall k :: 0 <= k < |lang| ==> IsWordChar(lang[k])
    ensures SplitFences(before + FenceText(lang, code) + after) == [before, lang, code, after]
  {
    var s := before + FenceText(lang, code) + after;
    var b := |before|;
    var w := b + 3 + |lang|;
    var q := w + 1 + |code|;
    FenceSlices(before, lang, code, after);
    assert forall c :: c in s[b + 3..w] ==> IsWordChar(c);
    OneFenceAt(s, b, w, q);
    var parts := [s[..b], s[b + 3..w], s[w + 1..q], s[q + 3..]];
    assert parts[0] == before && parts[1] == lang && parts[2] == code && parts[3] == after;
    assert parts == [before, lang, code, after];
  }

  /** `OneFence` in slice terms. */
  lemma OneFenceAt(s: string, b: nat, w: nat, q: nat)
    requires b + 3 <= w < q && q + 3 <= |s|
    requires s[b..b + 3] == Ticks && s[q..q + 3] == Ticks && s[w] == '\n'
    requires forall c :: c in s[b + 3..w] ==> IsWordChar(c)
    requires '`' !in s[..b] && '`' !in s[w + 1..q] && '`' !in s[q + 3..]
    ensures SplitFences(s) == [s[..b], s[b + 3..w], s[w + 1..q], s[q + 3..]]
  {
    var rest := SplitFrom(s, q + 3, q + 3);
    SkipPlainSlice(s, q + 3, q + 3, |s|);
    SplitAtEnd(s, q + 3);
    assert rest == [s[q + 3..]];
    assert s[..b] == s[0..b];
    SkipPlainSlice(s, 0, 0, b);
    SplitAtFenceOf(s, 0, b, w, q);
  }

  /**
   * What the loop of `_extract_content_and_examples` holds after the first `i` pieces:
   * the text pieces and the examples seen so far, in order.
   */
  ghost predicate Extracted(parts: seq<string>, i: nat, textParts: seq<string>, examples: seq<CodeExample>)
    requires |parts| % 3 == 1
  {
    && i <= |parts|
    && (i == 3 * |examples| || i == 3 * |examples| + 1 || i == 3 * |examples| + 2)
    && |textParts| == (if i == 3 * |examples| then |examples| else |examples| + 1)
    && textParts == Texts(parts)[..|textParts|]
    && examples == Examples(parts)[..|examples|]
  }

  /** The position of piece `i` in its group of three. */
  lemma Phase(i: nat, m: nat)
    requires i == 3 * m || i == 3 * m + 1 || i == 3 * m + 2
    ensures i % 3 == i - 3 * m
  {
  }

  lemma ExtractedText(parts: seq<string>, i: nat, textParts: seq<string>, examples: seq<CodeExample>)
    requires |parts| % 3 == 1 && i < |parts| && i == 3 * |examples|
    requires Extracted(parts, i, textParts, examples)
    ensures Extracted(parts, i + 1, textParts + [parts[i]], examples)
  {
    var all := Texts(parts);
    var m := |textParts|;
    assert all[..m + 1] == all[..m] + [all[m]];
  }

  lemma ExtractedLanguage(parts: seq<string>, i: nat, textParts: seq<string>, examples: seq<CodeExample>)
    requires |parts| % 3 == 1 && i < |parts| && i == 3 * |examples| + 1
    requires Extracted(parts, i, textParts, examples)
    ensures Extracted(parts, i + 1, textParts, examples)
  {
  }

  lemma ExtractedExample(parts: seq<string>, i: nat, textParts: seq<string>, examples: seq<CodeExample>,
                         example: CodeExample)
    requires |parts| % 3 == 1 && i < |parts| && i == 3 * |examples| + 2
    requires Extracted(parts, i, textParts, examples)
    requires example == ExampleAt(parts, |examples|)
    ensures Extracted(parts, i + 1, textParts, examples + [example])
  {
    ExamplesSnoc(parts, examples);
  }

  lemma ExampleOfPieces(parts: seq<string>, i: nat, m: nat, preceding: string)
    requires i == 3 * m + 2 && i < |parts| && preceding == parts[3 * m]
    ensures MakeExample(preceding, parts[i - 1], parts[i]) == ExampleAt(parts, m)
  {
  }

  lemma ExamplesSnoc(parts: seq<string>, examples: seq<CodeExample>)
    requires |parts| % 3 == 1 && 3 * |examples| + 2 < |parts|
    requires examples == Examples(parts)[..|examples|]
    ensures examples + [ExampleAt(parts, |examples|)] == Examples(parts)[..|examples| + 1]
  {
    var all := Examples(parts);
    var m := |examples|;
    assert all[..m + 1] == all[..m] + [all[m]];
  }

  /** One round of the loop: the piece at index `i` is a text, a language or a code. */
  method ExtractPiece(parts: seq<string>, i: nat, textParts: seq<string>, examples: seq<CodeExample>)
    returns (textParts': seq<string>, examples': seq<CodeExample>)
    requires |parts| % 3 == 1 && i < |parts|
    requires Extracted(parts, i, textParts, examples)
    ensures Extracted(parts, i + 1, textParts', examples')
  {
    textParts', examples' := textParts, examples;
    var part := parts[i];
    Phase(i, |examples|);
    if i % 3 == 0 {
      ExtractedText(parts, i, textParts, examples);
      textParts' := textParts + [part];
    } else if i % 3 == 2 {
      var language := if parts[i - 1] != "" then parts[i - 1] else "text";
      var code := Strip(part);
      var preceding := if |textParts| > 0 then textParts[|textParts| - 1] else "";
      var isCorrect := IsCorrectExample(preceding, code);
      var example := CodeExample(code, language, isCorrect, None);
      assert example == MakeExample(preceding, parts[i - 1], part);
      assert preceding == parts[3 * |examples|] by {
        assert textParts[|examples|] == Texts(parts)[|examples|];
      }
      ExampleOfPieces(parts, i, |examples|, preceding);
      ExtractedExample(parts, i, textParts, examples, example);
      examples' := examples + [example];
    } else {
      ExtractedLanguage(parts, i, textParts, examples);
    }
  }

  /** Text without backticks is all prose and has no examples. */
  lemma NoFenceNoExamples(content: string)
    requires '`' !in content
    ensures ContentAndExamples(content) == (content, [])
  {
    assert content[0..] == content;
    SkipPlainSlice(content, 0, 0, |content|);
    assert SplitFences(content) == [content];
    assert Texts([content]) == [content];
    assert Concat([content]) == content;
  }

  /**
   * One fence between two backtick-free texts gives one example: its code stripped,
   * its language or "text", classified by the text before it; the prose is the text
   * around the fence.
   */
  lemma OneFenceExample(before: string, lang: string, code: string, after: string)
    requires '`' !in before && '`' !in code && '`' !in after
    requires forall k :: 0 <= k < |lang| ==> IsWordChar(lang[k])
    ensures var example := CodeExample(Strip(code), if lang == "" then "text" else lang,
                                       IsCorrectExample(before, Strip(code)), None);
      ContentAndExamples(before + FenceText(lang, code) + after) == (before + after, [example])
  {
    var parts := [before, lang, code, after];
    var s := before + FenceText(lang, code) + after;
    OneFence(before, lang, code, after);
    assert SplitFences(s) == parts;
    assert Texts(parts) == [before, after];
    assert Concat([before]) == before;
    assert Concat([before, after]) == before + after;
    assert Examples(parts) == [ExampleAt(parts, 0)];
    assert ExampleAt(parts, 0) == CodeExample(Strip(code), if lang == "" then "text" else lang,
                                              IsCorrectExample(before, Strip(code)), None);
  }

  /** `_extract_content_and_examples`, looping over the pieces of the split. */
  method ExtractContentAndExamples(content: string) returns (text: string, examples: seq<CodeExample>)
    ensures (text, examples) == ContentAndExamples(content)
  {
    var parts := SplitFences(content);
    var textParts: seq<string> := [];
    examples := [];
    var i := 0;
    while i < |parts|
      invariant Extracted(parts, i, textParts, examples)
    {
      textParts, examples := ExtractPiece(parts, i, textParts, examples);
      i := i + 1;
    }
    text := Concat(textParts);
    assert textParts == Texts(parts);
    assert examples == Examples(parts);
  }
}
