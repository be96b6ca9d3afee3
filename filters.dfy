/**
 * The text filters of `BaseTransformer` (transformers/base.py) that the templates
 * apply to a rule: imperative and conversational rewording, one-line summaries,
 * comment wrapping, and the keyword tables that explain why a rule matters.
 */
module Filters {
  import opened Wrappers
  import opened Text
  import opened Dict
  import opened Parser

  // ----- _make_imperative -----

  /**
   * `\bw\b` matched without regard to case at index `i`, for a lower-case `w` that
   * starts and ends with a word character: the letters match and neither neighbour
   * is a word character.
   */
  predicate WordAt(s: string, w: string, i: nat) {
    && i + |w| <= |s|
    && (forall k :: 0 <= k < |w| ==> LowerChar(s[i + k]) == w[k])
    && (i == 0 || !IsWordChar(s[i - 1]))
    && (i + |w| == |s| || !IsWordChar(s[i + |w|]))
  }

  /** `re.sub(r"\bw\b", rep, s[i..], flags=re.IGNORECASE)`, scanning left to right. */
  function ReplaceWordFrom(s: string, w: string, rep: string, i: nat): string
    requires |w| > 0 && i <= |s|
    decreases |s| - i
  {
    if i == |s| then ""
    else if WordAt(s, w, i) then rep + ReplaceWordFrom(s, w, rep, i + |w|)
    else [s[i]] + ReplaceWordFrom(s, w, rep, i + 1)
  }

  function ReplaceWord(s: string, w: string, rep: string): string
    requires |w| > 0
  {
    ReplaceWordFrom(s, w, rep, 0)
  }

  /** A text with no whole-word match from `i` on is copied unchanged. */
  lemma ReplaceWordNone(s: string, w: string, rep: string, i: nat)
    requires |w| > 0 && i <= |s|
    requires forall j :: i <= j < |s| ==> !WordAt(s, w, j)
    ensures ReplaceWordFrom(s, w, rep, i) == s[i..]
  {
    ReplaceWordCopy(s, w, rep, i, |s|);
    assert s[i..|s|] == s[i..];
  }

  /** A stretch `[i, j)` where no match starts is copied. */
  lemma {:induction false} ReplaceWordCopy(s: string, w: string, rep: string, i: nat, j: nat)
    requires |w| > 0 && i <= j <= |s|
    requires forall k :: i <= k < j ==> !WordAt(s, w, k)
    decreases j - i
    ensures ReplaceWordFrom(s, w, rep, i) == s[i..j] + ReplaceWordFrom(s, w, rep, j)
  {
    if i < j {
      var tail := ReplaceWordFrom(s, w, rep, j);
      ReplaceWordCopy(s, w, rep, i + 1, j);
      ReplaceWordSkip(s, w, rep, i, s[i + 1..j] + tail);
      assert [s[i]] + (s[i + 1..j] + tail) == ([s[i]] + s[i + 1..j]) + tail;
      assert [s[i]] + s[i + 1..j] == s[i..j];
    }
  }

  /** Where no match starts, the character is copied. */
  lemma ReplaceWordSkip(s: string, w: string, rep: string, i: nat, rest: string)
    requires |w| > 0 && i < |s| && !WordAt(s, w, i)
    requires ReplaceWordFrom(s, w, rep, i + 1) == rest
    ensures ReplaceWordFrom(s, w, rep, i) == [s[i]] + rest
  {
  }

  /**
   * The leftmost whole-word match `j` from `i` on is replaced, the text before it is
   * copied, and the scan resumes right after the match.
   */
  lemma ReplaceWordLeftmost(s: string, w: string, rep: string, i: nat, j: nat)
    requires |w| > 0 && i <= j < |s|
    requires WordAt(s, w, j)
    requires forall k :: i <= k < j ==> !WordAt(s, w, k)
    ensures ReplaceWordFrom(s, w, rep, i) == s[i..j] + rep + ReplaceWordFrom(s, w, rep, j + |w|)
  {
    ReplaceWordCopy(s, w, rep, i, j);
    var tail := ReplaceWordFrom(s, w, rep, j + |w|);
    assert ReplaceWordFrom(s, w, rep, j) == rep + tail;
    assert s[i..j] + (rep + tail) == s[i..j] + rep + tail;
  }

  /** The substitutions of `_make_imperative`, in the order they are applied. */
  const ImperativeTable: seq<(string, string)> := [
    ("must", "MUST"), ("should", "MUST"), ("may", "CAN"), ("never", "NEVER"),
    ("always", "ALWAYS"), ("require", "REQUIRE"), ("do not", "DO NOT"), ("don't", "DO NOT")]

  /** The substitutions of `table`, each applied to the result of the one before. */
  function ReplaceWords(text: string, table: seq<(string, string)>): string
    requires forall k :: 0 <= k < |table| ==> |table[k].0| > 0
    decreases |table|
  {
    if table == [] then text
    else ReplaceWords(ReplaceWord(text, table[0].0, table[0].1), table[1..])
  }

  /** `_make_imperative` */
  function MakeImperative(text: string): string {
    ReplaceWords(text, ImperativeTable)
  }

  /** Substitutions none of whose words occurs as a whole word change nothing. */
  lemma {:induction false} ReplaceWordsUnchanged(text: string, table: seq<(string, string)>)
    requires forall k :: 0 <= k < |table| ==> |table[k].0| > 0
    requires forall k, j :: 0 <= k < |table| && 0 <= j < |text| ==> !WordAt(text, table[k].0, j)
    decreases |table|
    ensures ReplaceWords(text, table) == text
  {
    if table != [] {
      ReplaceWordNone(text, table[0].0, table[0].1, 0);
      assert text[0..] == text;
      ReplaceWordsUnchanged(text, table[1..]);
    }
  }

  /** A text in which no listed modal word occurs as a whole word is left as it is. */
  lemma MakeImperativeUnchanged(text: string)
    requires forall k, j :: 0 <= k < |ImperativeTable| && 0 <= j < |text| ==>
      !WordAt(text, ImperativeTable[k].0, j)
    ensures MakeImperative(text) == text
  {
    ReplaceWordsUnchanged(text, ImperativeTable);
  }

  // ----- _make_conversational -----

  const ConversationalStarters: seq<string> := ["you must", "you should", "you need to"]
  const CommandWords: seq<string> := ["MUST", "Must", "NEVER", "Never", "ALWAYS", "Always"]

  predicate StartsWithAny(s: string, prefixes: seq<string>) {
    exists k :: 0 <= k < |prefixes| && StartsWith(s, prefixes[k])
  }

  /** `_make_conversational` */
  function MakeConversational(text: string): string {
    var t := Strip(text);
    if StartsWithAny(Lower(t), ConversationalStarters) then t
    else if StartsWithAny(t, CommandWords) then "You " + Lower(t)
    else if !StartsWith(Lower(t), "you") then "You should " + Lower(t)
    else t
  }

  /** Lower-casing a text that starts with `prefix` gives one that starts with `lower`. */
  lemma LowerPrefix(prefix: string, lower: string, rest: string)
    requires Lower(prefix) == lower && |lower| >= 3 && lower[..3] == "you"
    ensures StartsWith(Lower(prefix + rest), "you")
  {
    LowerAppend(prefix, rest);
    assert (lower + Lower(rest))[..3] == lower[..3];
  }

  /** The result, lower-cased, always starts with "you". */
  lemma ConversationalStartsWithYou(text: string)
    ensures StartsWith(Lower(MakeConversational(text)), "you")
  {
    var t := Strip(text);
    var l := Lower(t);
    if StartsWithAny(l, ConversationalStarters) {
      var k :| 0 <= k < |ConversationalStarters| && StartsWith(l, ConversationalStarters[k]);
      assert l[..3] == ConversationalStarters[k][..3];
    } else if StartsWithAny(t, CommandWords) {
      LowerPrefix("You ", "you ", l);
    } else if !StartsWith(l, "you") {
      LowerPrefix("You should ", "you should ", l);
    }
  }

  /** A stripped text that already starts with "you" in any case is left as it is. */
  lemma ConversationalKeepsYou(r: string)
    requires Strip(r) == r && StartsWith(Lower(r), "you")
    ensures MakeConversational(r) == r
  {
    assert Lower(r)[..3][0] == LowerChar(r[0]) == 'y';
    forall k | 0 <= k < |CommandWords| ensures !StartsWith(r, CommandWords[k]) {
      var c := CommandWords[k];
      assert c[0] == 'M' || c[0] == 'N' || c[0] == 'A';
      if |c| <= |r| {
        assert r[..|c|][0] == r[0];
      }
    }
    assert !StartsWithAny(r, CommandWords);
  }

  /** A non-blank text comes out without whitespace at either end. */
  lemma ConversationalTrimmed(text: string)
    requires !IsBlank(text)
    ensures Strip(MakeConversational(text)) == MakeConversational(text)
  {
    var t := Strip(text);
    StripEmptyIffBlank(text);
    var r := MakeConversational(text);
    assert !IsSpace(t[0]) && !IsSpace(t[|t| - 1]);
    var l := Lower(t);
    assert !IsSpace(l[|l| - 1]);
    assert r == t || r == "You " + l || r == "You should " + l;
    assert r[|r| - 1] == t[|t| - 1] || r[|r| - 1] == l[|l| - 1];
    assert r[0] == t[0] || r[0] == 'Y';
    StripTrimmed(r);
  }

  /** Making a non-blank text conversational twice is doing it once. */
  lemma ConversationalIdempotent(text: string)
    requires !IsBlank(text)
    ensures MakeConversational(MakeConversational(text)) == MakeConversational(text)
  {
    ConversationalStartsWithYou(text);
    ConversationalTrimmed(text);
    ConversationalKeepsYou(MakeConversational(text));
  }

  // ----- _summarize -----

  /** `if not summary.endswith("."): summary += "."` */
  function Period(piece: string): (r: string)
    ensures EndsWith(r, ".")
    ensures EndsWith(piece, ".") ==> r == piece
    ensures !EndsWith(piece, ".") ==> r == piece + "."
  {
    if EndsWith(piece, ".") then piece
    else
      assert (piece + ".")[|piece|..] == ".";
      piece + "."
  }

  /** `re.split(r"[.!?]\s+", t)[0]`: the text before the first sentence break. */
  function FirstPiece(t: string): (piece: string)
    ensures |piece| <= |t| && piece == t[..|piece|]
    ensures forall k :: 0 <= k < |piece| ==> !IsSentenceBreak(t, k)
    ensures |piece| < |t| ==> IsSentenceBreak(t, |piece|)
  {
    t[..SentenceEnd(t, 0)]
  }

  /** `_summarize`: the first sentence of the stripped text, ending in a period. */
  function Summarize(text: string): string {
    Period(FirstPiece(Strip(text)))
  }

  /** A piece free of sentence breaks stays free of them once the period is added. */
  lemma PeriodNoBreak(piece: string)
    requires forall k :: 0 <= k < |piece| - 1 ==> !IsSentenceBreak(piece, k)
    ensures forall k :: 0 <= k < |Period(piece)| ==> !IsSentenceBreak(Period(piece), k)
  {
    var r := Period(piece);
    forall k | 0 <= k < |r| ensures !IsSentenceBreak(r, k) {
      if k + 1 < |piece| {
        assert r[..|piece|][k] == r[k] && r[..|piece|][k + 1] == r[k + 1];
        assert !IsSentenceBreak(piece, k);
      } else if k + 1 < |r| {
        assert r[|r| - 1..][0] == '.';
      }
    }
  }

  /** The first piece of a text has no sentence break of its own. */
  lemma FirstPieceNoBreak(t: string)
    ensures var piece := FirstPiece(t);
      forall k :: 0 <= k < |piece| - 1 ==> !IsSentenceBreak(piece, k)
  {
    var piece := FirstPiece(t);
    forall k | 0 <= k < |piece| - 1 ensures !IsSentenceBreak(piece, k) {
      assert t[..|piece|][k] == t[k] && t[..|piece|][k + 1] == t[k + 1];
      assert !IsSentenceBreak(t, k);
    }
  }

  /** A text without sentence breaks is its own first piece. */
  lemma FirstPieceWhole(t: string)
    requires forall k :: 0 <= k < |t| ==> !IsSentenceBreak(t, k)
    ensures FirstPiece(t) == t
  {
    assert t[..|t|] == t;
  }

  /** A summary is its own summary. */
  lemma SummarizeIdempotent(text: string)
    ensures Summarize(Summarize(text)) == Summarize(text)
  {
    var t := Strip(text);
    var piece := FirstPiece(t);
    var r := Period(piece);
    assert r[|r| - 1] == '.';
    if piece != [] {
      assert r[0] == piece[0] == t[0];
    }
    StripTrimmed(r);
    FirstPieceNoBreak(t);
    PeriodNoBreak(piece);
    FirstPieceWhole(r);
  }

  // ----- _comment_wrap -----

  const DefaultCommentPrefix: string := "# "

  /** One line of `_comment_wrap`: prefixed when it has text, the bare prefix otherwise. */
  function WrapLine(line: string, prefix: string): string {
    if Strip(line) != "" then prefix + line else Strip(prefix)
  }

  /** `_comment_wrap` */
  function CommentWrap(text: string, prefix: string): string {
    var lines := Split(text, '\n');
    Join(seq(|lines|, i requires 0 <= i < |lines| => WrapLine(lines[i], prefix)), "\n")
  }

  /**
   * With a prefix free of line breaks, wrapping keeps the number of lines: each line
   * with text gets the prefix, each blank line becomes the stripped prefix.
   */
  lemma CommentWrapLines(text: string, prefix: string)
    requires '\n' !in prefix
    ensures var lines := Split(text, '\n');
      && |Split(CommentWrap(text, prefix), '\n')| == |lines|
      && forall i :: 0 <= i < |lines| ==>
           Split(CommentWrap(text, prefix), '\n')[i] ==
             (if IsBlank(lines[i]) then Strip(prefix) else prefix + lines[i])
  {
    var lines := Split(text, '\n');
    var wrapped := seq(|lines|, i requires 0 <= i < |lines| => WrapLine(lines[i], prefix));
    SplitPiecesFree(text, '\n');
    forall i | 0 <= i < |wrapped| ensures '\n' !in wrapped[i] {
      StripEmptyIffBlank(lines[i]);
    }
    SplitJoin(wrapped, '\n');
    forall i | 0 <= i < |lines|
      ensures wrapped[i] == (if IsBlank(lines[i]) then Strip(prefix) else prefix + lines[i])
    {
      StripEmptyIffBlank(lines[i]);
    }
  }

  // ----- _generate_reasoning, _explain_correct, _explain_incorrect -----

  /** Index of the first entry of `table`, from `i` on, whose keyword occurs in `lower`. */
  function FirstKeyword(table: seq<(string, string)>, lower: string, i: nat): (n: nat)
    requires i <= |table|
    decreases |table| - i
    ensures i <= n <= |table|
    ensures forall k :: i <= k < n ==> !Contains(lower, table[k].0)
    ensures n < |table| ==> Contains(lower, table[n].0)
  {
    if i == |table| || Contains(lower, table[i].0) then i else FirstKeyword(table, lower, i + 1)
  }

  /**
   * The value of the first entry of `table` whose keyword occurs in `lower`, or
   * `default` when none does (`for keyword, v in table.items(): if keyword in lower`).
   */
  function KeywordLookup(table: seq<(string, string)>, lower: string, default: string): (v: string)
    ensures (forall k :: 0 <= k < |table| ==> !Contains(lower, table[k].0)) ==> v == default
    ensures forall k ::
      (0 <= k < |table| && Contains(lower, table[k].0) &&
       forall j :: 0 <= j < k ==> !Contains(lower, table[j].0)) ==> v == table[k].1
  {
    var n := FirstKeyword(table, lower, 0);
    if n < |table| then table[n].1 else default
  }

  /**
   * With no entry holding the default, the default comes back exactly when no keyword
   * of the table occurs.
   */
  lemma KeywordLookupDefault(table: seq<(string, string)>, lower: string, default: string)
    requires forall k :: 0 <= k < |table| ==> table[k].1 != default
    ensures KeywordLookup(table, lower, default) == default <==>
      forall k :: 0 <= k < |table| ==> !Contains(lower, table[k].0)
  {
    var n := FirstKeyword(table, lower, 0);
    assert n < |table| ==> KeywordLookup(table, lower, default) == table[n].1;
  }

  const ReasoningMap: seq<(string, string)> := [
    ("security", "This prevents security vulnerabilities and protects sensitive data."),
    ("bash", "This ensures scripts are reliable, safe, and handle errors properly."),
    ("python", "This improves code quality, maintainability, and catches errors early."),
    ("secret", "Committed secrets can be exploited and are nearly impossible to remove from git history."),
    ("credential", "Hardcoded credentials are a critical security risk.")]

  const DefaultReasoning: string := "This ensures code quality, security, and maintainability."

  /** Index of the first of `tags`, from `i` on, that is a key of `table`. */
  function FirstKnownTag(tags: seq<string>, table: seq<(string, string)>, i: nat): (n: nat)
    requires i <= |tags|
    decreases |tags| - i
    ensures i <= n <= |tags|
    ensures forall k :: i <= k < n ==> tags[k] !in Keys(table)
    ensures n < |tags| ==> tags[n] in Keys(table)
  {
    if i == |tags| || tags[i] in Keys(table) then i else FirstKnownTag(tags, table, i + 1)
  }

  /** The reasoning found from the content keywords, or the default. */
  function ContentReasoning(content: string): string {
    KeywordLookup(ReasoningMap, Lower(content), DefaultReasoning)
  }

  /**
   * `_generate_reasoning`: the reasoning of the first tag that has one
   * (`for tag in rule.tags: if tag in reasoning_map`), else of the first keyword of
   * the map found in the lower-cased content, else the default.
   */
  function GenerateReasoning(rule: Rule): string {
    var n := FirstKnownTag(rule.tags, ReasoningMap, 0);
    if n < |rule.tags| && Get(ReasoningMap, rule.tags[n]).Some? then Get(ReasoningMap, rule.tags[n]).value
    else ContentReasoning(rule.content)
  }

  /** The first known tag is the one before which no tag is known. */
  lemma FirstKnownTagAt(tags: seq<string>, table: seq<(string, string)>, j: nat)
    requires j < |tags| && tags[j] in Keys(table)
    requires forall k :: 0 <= k < j ==> tags[k] !in Keys(table)
    ensures FirstKnownTag(tags, table, 0) == j
  {
  }

  /**
   * The tags are consulted first, in their order: the first tag with a reasoning
   * decides, whatever the content says.
   */
  lemma ReasoningFromFirstTag(rule: Rule, j: nat)
    requires j < |rule.tags| && rule.tags[j] in Keys(ReasoningMap)
    requires forall k :: 0 <= k < j ==> rule.tags[k] !in Keys(ReasoningMap)
    ensures Get(ReasoningMap, rule.tags[j]).Some?
    ensures GenerateReasoning(rule) == Get(ReasoningMap, rule.tags[j]).value
  {
    FirstKnownTagAt(rule.tags, ReasoningMap, j);
    GetSomeIffKey(ReasoningMap, rule.tags[j]);
  }

  /** Without a tag that has a reasoning, the content keywords decide, else the default. */
  lemma ReasoningFromContent(rule: Rule)
    requires forall j :: 0 <= j < |rule.tags| ==> rule.tags[j] !in Keys(ReasoningMap)
    ensures GenerateReasoning(rule) == KeywordLookup(ReasoningMap, Lower(rule.content), DefaultReasoning)
  {
    assert FirstKnownTag(rule.tags, ReasoningMap, 0) == |rule.tags|;
  }

  const CorrectExplanations: seq<(string, string)> := [
    ("security", "follows security best practices and protects sensitive data"),
    ("bash", "uses safe shell options and proper error handling"),
    ("python", "follows Python best practices with proper types and error handling"),
    ("environment", "loads configuration from environment variables"),
    ("validation", "validates input before processing")]

  const DefaultCorrect: string := "follows best practices and avoids common pitfalls"

  const IncorrectExplanations: seq<(string, string)> := [
    ("security", "exposes sensitive data or creates security vulnerabilities"),
    ("bash", "can fail silently or behave unpredictably"),
    ("python", "lacks proper type safety and error handling"),
    ("hardcode", "hardcodes values that should be configurable"),
    ("secret", "commits secrets directly to the codebase")]

  const DefaultIncorrect: string := "violates best practices and can lead to issues"

  /** `_explain_correct` */
  function ExplainCorrect(rule: Rule): string {
    KeywordLookup(CorrectExplanations, Lower(rule.content), DefaultCorrect)
  }

  /** `_explain_incorrect` */
  function ExplainIncorrect(rule: Rule): string {
    KeywordLookup(IncorrectExplanations, Lower(rule.content), DefaultIncorrect)
  }

  /**
   * The correct-example explanation is the default exactly when no keyword of its
   * table occurs in the lower-cased content.
   */
  lemma ExplainCorrectDefault(rule: Rule)
    ensures ExplainCorrect(rule) == DefaultCorrect <==>
      forall k :: 0 <= k < |CorrectExplanations| ==> !Contains(Lower(rule.content), CorrectExplanations[k].0)
  {
    KeywordLookupDefault(CorrectExplanations, Lower(rule.content), DefaultCorrect);
  }

  /**
   * The incorrect-example explanation is the default exactly when no keyword of its
   * table occurs in the lower-cased content.
   */
  lemma ExplainIncorrectDefault(rule: Rule)
    ensures ExplainIncorrect(rule) == DefaultIncorrect <==>
      forall k :: 0 <= k < |IncorrectExplanations| ==> !Contains(Lower(rule.content), IncorrectExplanations[k].0)
  {
    KeywordLookupDefault(IncorrectExplanations, Lower(rule.content), DefaultIncorrect);
  }
}
