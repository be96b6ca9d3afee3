/**
 * The proof-of-concept synchronisation script (scripts/sync-standards-poc.py): a
 * parser that recognises two fixed rules by a phrase of the context document, and
 * three transformers that write Cursor `.mdc` rule files, `CLAUDE.md` and the Copilot
 * instructions from them. The script's text literals are kept character for
 * character, including the mis-decoded emoji markers of its example blocks; the
 * longer ones are written as concatenations of short pieces, which keeps the
 * verifier's work on them small.
 */
module Poc {
  import opened Wrappers
  import opened Text
  import opened Dict
  import Validation

  /** The script's own `Rule` record. */
  datatype PocRule = PocRule(
    section: string,
    title: string,
    content: string,
    examplesCorrect: seq<string>,
    examplesIncorrect: seq<string>,
    priority: int,
    scope: seq<string>)

  // ----- ContextParser.parse -----

  const SecretsPhrase: string := "Never Commit Secrets"
  const BashPhrase: string := "set -euo pipefail"

  const SecurityRule: PocRule := PocRule(
    "Security",
    "Never Commit Secrets",
    "AI agents must " + "NEVER commit " + "secrets, API " + "keys, tokens, " + "or credentials " + "to git.",
    ["import os\napi_key = os.environ.get('API_KEY')"],
    ["api_key = 'sk-1234567890abcdef'  # WRONG!"],
    100,
    ["all"])

  const BashRule: PocRule := PocRule(
    "Bash Standards",
    "Use Safe Bash Options",
    "All bash " + "scripts must " + "start with set " + "-euo pipefail " + "for safety.",
    ["#!/usr/bin/env bash\nset -euo pipefail"],
    ["#!/bin/bash\n# Missing safety options"],
    50,
    ["*.sh"])

  /**
   * `ContextParser.parse`: the security rule exactly when the document mentions the
   * secrets phrase, the bash rule exactly when it mentions the bash phrase, nothing
   * else, and the security rule first.
   */
  method Parse(contextMd: string) returns (rules: seq<PocRule>)
    ensures |rules| <= 2
    ensures forall k :: 0 <= k < |rules| ==> rules[k] == SecurityRule || rules[k] == BashRule
    ensures SecurityRule in rules <==> Contains(contextMd, SecretsPhrase)
    ensures BashRule in rules <==> Contains(contextMd, BashPhrase)
    ensures |rules| == 2 ==> rules[0] == SecurityRule && rules[1] == BashRule
  {
    rules := [];
    if Contains(contextMd, SecretsPhrase) {
      rules := rules + [SecurityRule];
    }
    if Contains(contextMd, BashPhrase) {
      rules := rules + [BashRule];
    }
  }

  // ----- CursorTransformer -----

  const CursorRulesDir: string := ".cursor/rules/"
  const SecurityFile: string := CursorRulesDir + "006_security" + ".mdc"
  const BashFile: string := CursorRulesDir + "003_bash_standards" + ".mdc"

  /** The `file_map` of `CursorTransformer.transform`: section name to rule file. */
  const CursorFileMap: Dict<string> := [("Security", SecurityFile), ("Bash Standards", BashFile)]

  /** The rule file of a section, looked up by exact name. */
  function CursorTarget(section: string): (target: Option<string>)
    ensures target.Some? ==> target.value == SecurityFile || target.value == BashFile
  {
    Get(CursorFileMap, section)
  }

  /**
   * The map sends exactly the two sections it names, each to its own file; any other
   * section name, whatever its case, has no rule file.
   */
  lemma CursorTargetSpec(section: string)
    ensures CursorTarget(section) == Some(SecurityFile) <==> section == "Security"
    ensures CursorTarget(section) == Some(BashFile) <==> section == "Bash Standards"
    ensures CursorTarget(section).None? <==> section != "Security" && section != "Bash Standards"
  {
    assert KeyIndex(CursorFileMap[1..], section) == 1 + KeyIndex(CursorFileMap[2..], section)
      || CursorFileMap[1].0 == section;
  }

  /** The glob of the front matter: every file for scope `["all"]`, else the first pattern. */
  function Glob(rule: PocRule): string
    requires rule.scope != []
  {
    if rule.scope == ["all"] then "**/*" else rule.scope[0]
  }

  /** The YAML between the delimiter lines: the priority and the one glob. */
  function FrontmatterYaml(rule: PocRule): string
    requires rule.scope != []
  {
    "priority: " + IntToString(rule.priority) + "\nglobs:\n  - \"" + Glob(rule) + "\""
  }

  /** `_build_frontmatter` */
  function BuildFrontmatter(rule: PocRule): string
    requires rule.scope != []
  {
    Validation.Delimiter + "\n" + FrontmatterYaml(rule) + "\n" + Validation.Delimiter
  }

  /**
   * The front matter opens with the delimiter line and closes with it, and the YAML of
   * the rule sits between the two delimiter lines.
   */
  lemma FrontmatterDelimited(rule: PocRule)
    requires rule.scope != []
    ensures var fm := BuildFrontmatter(rule);
      && |fm| >= 8
      && StartsWith(fm, Validation.Delimiter)
      && OccursAt(fm, Validation.Delimiter, |fm| - 3)
      && fm[4..|fm| - 4] == FrontmatterYaml(rule)
  {
    DelimitedLines(FrontmatterYaml(rule));
  }

  /** Text framed by two delimiter lines. */
  lemma DelimitedLines(yaml: string)
    ensures var fm := Validation.Delimiter + "\n" + yaml + "\n" + Validation.Delimiter;
      && |fm| >= 8
      && StartsWith(fm, Validation.Delimiter)
      && OccursAt(fm, Validation.Delimiter, |fm| - 3)
      && fm[4..|fm| - 4] == yaml
  {
    var fm := Validation.Delimiter + "\n" + yaml + "\n" + Validation.Delimiter;
    assert fm[..3] == Validation.Delimiter;
    assert fm[|fm| - 3..] == Validation.Delimiter;
  }

  /** The fence of the example blocks: bash for a rule scoped to shell scripts, else python. */
  function Fence(rule: PocRule): string {
    if "*.sh" in rule.scope then "```bash" else "```python"
  }

  const CorrectMarker: string := "\U{E2}\U{153}\U{2026} **CORRECT:**"
  const WrongMarker: string := "\U{E2}\U{152} **WRONG:**"

  /** `_make_imperative`: the lower-case modal words, replaced in this order, case-sensitively. */
  function MakeImperative(text: string): string {
    ReplaceAll(ReplaceAll(ReplaceAll(text, "must", "MUST"), "should", "MUST"), "never", "NEVER")
  }

  /** No lower-case `must`, `should` or `never` is left anywhere in the result. */
  lemma ImperativeLeavesNoLowercase(text: string)
    ensures forall j: nat :: !OccursAt(MakeImperative(text), "must", j)
    ensures forall j: nat :: !OccursAt(MakeImperative(text), "should", j)
    ensures forall j: nat :: !OccursAt(MakeImperative(text), "never", j)
  {
    var s1 := ReplaceAll(text, "must", "MUST");
    var s2 := ReplaceAll(s1, "should", "MUST");
    forall j: nat ensures !OccursAt(s1, "must", j) {
      ReplaceAllNoOccurrence(text, "must", "MUST", "must", j);
    }
    forall j: nat ensures !OccursAt(s2, "must", j) && !OccursAt(s2, "should", j) {
      ReplaceAllNoOccurrence(s1, "should", "MUST", "must", j);
      ReplaceAllNoOccurrence(s1, "should", "MUST", "should", j);
    }
    forall j: nat
      ensures !OccursAt(MakeImperative(text), "must", j)
      ensures !OccursAt(MakeImperative(text), "should", j)
      ensures !OccursAt(MakeImperative(text), "never", j)
    {
      ReplaceAllNoOccurrence(s2, "never", "NEVER", "must", j);
      ReplaceAllNoOccurrence(s2, "never", "NEVER", "should", j);
      ReplaceAllNoOccurrence(s2, "never", "NEVER", "never", j);
    }
  }

  /**
   * A text without the three lower-case words is left as it is: capitalised forms such
   * as `Must` or `Never` are not touched.
   */
  lemma ImperativeUnchanged(text: string)
    requires !Contains(text, "must") && !Contains(text, "should") && !Contains(text, "never")
    ensures MakeImperative(text) == text
  {
    ReplaceAllAbsent(text, "must", "MUST");
    ReplaceAllAbsent(text, "should", "MUST");
    ReplaceAllAbsent(text, "never", "NEVER");
  }

  /** The lines of `_build_mdc_content`. */
  function MdcLines(rule: PocRule): seq<string> {
    ["## " + rule.title, "", MakeImperative(rule.content), ""]
    + (if rule.examplesCorrect != [] then
         [CorrectMarker, "", Fence(rule), rule.examplesCorrect[0], "```", ""]
       else [])
    + (if rule.examplesIncorrect != [] then
         [WrongMarker, "", Fence(rule), rule.examplesIncorrect[0], "```"]
       else [])
  }

  /** `_build_mdc_content` */
  function BuildMdcContent(rule: PocRule): string {
    Join(MdcLines(rule), "\n")
  }

  /**
   * The title and the imperative text come first; the correct example block is there
   * exactly when the rule has a correct example and the wrong one exactly when it has
   * an incorrect example, each showing the first example in the fence of its scope.
   */
  lemma MdcLayout(rule: PocRule)
    ensures var lines := MdcLines(rule);
      && |lines| == 4 + (if rule.examplesCorrect != [] then 6 else 0)
                      + (if rule.examplesIncorrect != [] then 5 else 0)
      && lines[0] == "## " + rule.title
      && lines[2] == MakeImperative(rule.content)
      && ((|lines| > 4 && lines[4] == CorrectMarker) <==> rule.examplesCorrect != [])
      && ((|lines| > 4 && lines[|lines| - 5] == WrongMarker) <==> rule.examplesIncorrect != [])
      && (rule.examplesCorrect != [] ==>
            lines[6] == Fence(rule) && lines[7] == rule.examplesCorrect[0])
      && (rule.examplesIncorrect != [] ==>
            lines[|lines| - 3] == Fence(rule) && lines[|lines| - 2] == rule.examplesIncorrect[0])
  {
    assert CorrectMarker != WrongMarker by { assert CorrectMarker[1] != WrongMarker[1]; }
    assert WrongMarker != "";
  }

  /** The fence is the bash one exactly when the scope holds `*.sh`. */
  lemma FenceBashIffShell(rule: PocRule)
    ensures Fence(rule) == "```bash" <==> "*.sh" in rule.scope
  {
    assert "```python"[3] != "```bash"[3];
  }

  /** The rendered rule shows its first correct and first incorrect examples. */
  lemma MdcShowsExamples(rule: PocRule)
    ensures rule.examplesCorrect != [] ==> Contains(BuildMdcContent(rule), rule.examplesCorrect[0])
    ensures rule.examplesIncorrect != [] ==> Contains(BuildMdcContent(rule), rule.examplesIncorrect[0])
  {
    var lines := MdcLines(rule);
    MdcLayout(rule);
    if rule.examplesCorrect != [] {
      JoinKeepsParts(lines, "\n", 7);
    }
    if rule.examplesIncorrect != [] {
      JoinKeepsParts(lines, "\n", |lines| - 2);
    }
  }

  /**
   * The source indexes the scope only of the first rule it sends to each file, when it
   * writes that file's front matter; later rules may have any scope.
   */
  ghost predicate Framable(rules: seq<PocRule>) {
    forall f :: SentTo(rules, f) != [] ==> SentTo(rules, f)[0].scope != []
  }

  /** What holds of the rules holds of the rules seen so far. */
  lemma FramablePrefix(rules: seq<PocRule>, k: nat)
    requires Framable(rules) && k <= |rules|
    ensures Framable(rules[..k])
  {
    forall f | SentTo(rules[..k], f) != []
      ensures SentTo(rules[..k], f)[0].scope != []
    {
      assert rules[..k] + rules[k..] == rules;
      SentToAppend(rules[..k], rules[k..], f);
    }
  }

  /** A rule that opens its file is the first one sent there, so its scope is not empty. */
  lemma FirstSentScope(rules: seq<PocRule>, filename: string)
    requires Framable(rules) && rules != []
    requires CursorTarget(rules[|rules| - 1].section) == Some(filename)
    requires SentTo(rules[..|rules| - 1], filename) == []
    ensures rules[|rules| - 1].scope != []
  {
    assert SentTo(rules, filename) == [rules[|rules| - 1]];
  }

  /**
   * One rendered rule added to its file: appended after a blank line when the file is
   * already there, else the file is created with the front matter first.
   */
  function Accumulate(files: Dict<string>, filename: string, frontmatter: string, content: string): (r: Dict<string>)
    ensures DistinctKeys(files) ==> DistinctKeys(r)
  {
    match Get(files, filename)
    case Some(text) => Put(files, filename, text + "\n\n" + content)
    case None => Put(files, filename, frontmatter + "\n\n" + content)
  }

  /**
   * Accumulating keeps the shape of a file: the first front matter, a blank line and
   * the rendered rules joined by blank lines, now with `content` at the end.
   */
  lemma AccumulateSame(files: Dict<string>, filename: string, first: string, parts: seq<string>,
                       frontmatter: string, content: string)
    requires DistinctKeys(files)
    requires Get(files, filename) == if parts == [] then None else Some(first + "\n\n" + Join(parts, "\n\n"))
    ensures Get(Accumulate(files, filename, frontmatter, content), filename) ==
      Some((if parts == [] then frontmatter else first) + "\n\n" + Join(parts + [content], "\n\n"))
  {
    var v := if parts == [] then frontmatter + "\n\n" + content
             else first + "\n\n" + Join(parts, "\n\n") + "\n\n" + content;
    assert Accumulate(files, filename, frontmatter, content) == Put(files, filename, v);
    PutGet(files, filename, v, filename);
    if parts == [] {
      assert parts + [content] == [content];
    } else {
      var joined := Join(parts, "\n\n");
      JoinSnoc(parts, content, "\n\n");
      assert v == first + "\n\n" + (joined + "\n\n" + content);
    }
  }

  /** Accumulating keeps every file there is and creates the one written to. */
  lemma AccumulateKeys(files: Dict<string>, filename: string, frontmatter: string, content: string)
    requires DistinctKeys(files)
    ensures Get(Accumulate(files, filename, frontmatter, content), filename).Some?
    ensures forall f :: Get(files, f).Some? ==> Get(Accumulate(files, filename, frontmatter, content), f).Some?
  {
    var v := if Get(files, filename).Some? then Get(files, filename).value + "\n\n" + content
             else frontmatter + "\n\n" + content;
    assert Accumulate(files, filename, frontmatter, content) == Put(files, filename, v);
    PutGet(files, filename, v, filename);
    forall f | Get(files, f).Some?
      ensures Get(Put(files, filename, v), f).Some?
    {
      PutGet(files, filename, v, f);
    }
  }

  /** Accumulating into one file leaves every other file as it was. */
  lemma AccumulateOther(files: Dict<string>, filename: string, frontmatter: string, content: string, other: string)
    requires DistinctKeys(files) && other != filename
    ensures Get(Accumulate(files, filename, frontmatter, content), other) == Get(files, other)
  {
    var v := if Get(files, filename).Some? then Get(files, filename).value + "\n\n" + content
             else frontmatter + "\n\n" + content;
    assert Accumulate(files, filename, frontmatter, content) == Put(files, filename, v);
    PutGet(files, filename, v, other);
  }

  /**
   * The files after the loop of `CursorTransformer.transform` has seen `rules`. The
   * front matter is built only for a file that is not there yet.
   */
  function CursorFiles(rules: seq<PocRule>): (files: Dict<string>)
    requires Framable(rules)
    decreases |rules|
    ensures DistinctKeys(files)
    ensures forall f :: SentTo(rules, f) != [] ==> Get(files, f).Some?
  {
    if rules == [] then []
    else
      var n := |rules| - 1;
      assert Framable(rules[..n]) by {
        FramablePrefix(rules, n);
      }
      var prev := CursorFiles(rules[..n]);
      var rule := rules[n];
      match CursorTarget(rule.section)
      case None => prev
      case Some(filename) =>
        var frontmatter :=
          if Get(prev, filename).Some? then ""
          else
            assert rule.scope != [] by {
              FirstSentScope(rules, filename);
            }
            BuildFrontmatter(rule);
        var files := Accumulate(prev, filename, frontmatter, BuildMdcContent(rule));
        assert Get(files, filename).Some? && forall f :: Get(prev, f).Some? ==> Get(files, f).Some? by {
          AccumulateKeys(prev, filename, frontmatter, BuildMdcContent(rule));
        }
        files
  }

  /** `CursorTransformer.transform` */
  method CursorTransform(rules: seq<PocRule>) returns (files: Dict<string>)
    requires Framable(rules)
    ensures files == CursorFiles(rules)
  {
    files := [];
    var i := 0;
    while i < |rules|
      invariant 0 <= i <= |rules|
      invariant Framable(rules[..i])
      invariant files == CursorFiles(rules[..i])
    {
      var rule := rules[i];
      ghost var previous := files;
      var fileMap := CursorFileMap;
      FramablePrefix(rules, i + 1);
      assert rules[..i + 1][..i] == rules[..i];
      i := i + 1;
      if Get(fileMap, rule.section).None? {
        continue;
      }
      var filename := Get(fileMap, rule.section).value;
      var content := BuildMdcContent(rule);
      ghost var frontmatter := "";
      if Get(files, filename).Some? {
        files := Put(files, filename, Get(files, filename).value + "\n\n" + content);
      } else {
        FirstSentScope(rules[..i], filename);
        frontmatter := BuildFrontmatter(rule);
        files := Put(files, filename, BuildFrontmatter(rule) + "\n\n" + content);
      }
      assert files == Accumulate(previous, filename, frontmatter, content);
    }
    assert rules[..i] == rules;
  }

  /** The rules that `rules` sends to `filename`, in order. */
  function SentTo(rules: seq<PocRule>, filename: string): (sent: seq<PocRule>)
    decreases |rules|
    ensures forall k :: 0 <= k < |sent| ==>
      sent[k] in rules && CursorTarget(sent[k].section) == Some(filename)
  {
    if rules == [] then []
    else
      var init := SentTo(rules[..|rules| - 1], filename);
      var rule := rules[|rules| - 1];
      if CursorTarget(rule.section) == Some(filename) then init + [rule] else init
  }

  /** Every rule that `rules` maps to `filename` is sent to it. */
  lemma {:induction false} SentToComplete(rules: seq<PocRule>, filename: string, r: PocRule)
    requires r in rules && CursorTarget(r.section) == Some(filename)
    decreases |rules|
    ensures r in SentTo(rules, filename)
  {
    var n := |rules| - 1;
    if r != rules[n] {
      assert rules == rules[..n] + [rules[n]];
      assert r in rules[..n];
      SentToComplete(rules[..n], filename, r);
    }
  }

  /**
   * Sending keeps the input order: the rules of a concatenation are those of the first
   * part followed by those of the second.
   */
  lemma {:induction false} SentToAppend(rules: seq<PocRule>, more: seq<PocRule>, filename: string)
    decreases |more|
    ensures SentTo(rules + more, filename) == SentTo(rules, filename) + SentTo(more, filename)
  {
    if more != [] {
      var n := |more| - 1;
      assert (rules + more)[..|rules + more| - 1] == rules + more[..n];
      SentToAppend(rules, more[..n], filename);
    } else {
      assert rules + more == rules;
    }
  }

  /** The renderings of `rules`, in order. */
  function MdcContents(rules: seq<PocRule>): (parts: seq<string>)
    decreases |rules|
    ensures |parts| == |rules|
  {
    if rules == [] then []
    else MdcContents(rules[..|rules| - 1]) + [BuildMdcContent(rules[|rules| - 1])]
  }

  /**
   * A rule file holds the front matter of the first rule sent to it and then the
   * renderings of all the rules sent to it, in input order and separated by a blank
   * line; a file no rule is sent to is not written.
   */
  lemma {:induction false} CursorFileContent(rules: seq<PocRule>, filename: string)
    requires Framable(rules)
    decreases |rules|
    ensures var sent := SentTo(rules, filename);
      Get(CursorFiles(rules), filename) ==
        if sent == [] then None
        else Some(BuildFrontmatter(sent[0]) + "\n\n" + Join(MdcContents(sent), "\n\n"))
  {
    if rules != [] {
      var n := |rules| - 1;
      var init := rules[..n];
      var rule := rules[n];
      FramablePrefix(rules, n);
      CursorFileContent(init, filename);
      var before := SentTo(init, filename);
      var sent := SentTo(rules, filename);
      var target := CursorTarget(rule.section);
      if target.None? || target.value != filename {
        assert sent == before;
        assert Get(CursorFiles(rules), filename) == Get(CursorFiles(init), filename) by {
          if target.Some? {
            var prev := CursorFiles(init);
            if Get(prev, target.value).None? {
              FirstSentScope(rules, target.value);
            }
            var frontmatter := if Get(prev, target.value).Some? then "" else BuildFrontmatter(rule);
            AccumulateOther(prev, target.value, frontmatter, BuildMdcContent(rule), filename);
          }
        }
      } else {
        var first := if before == [] then "" else BuildFrontmatter(before[0]);
        if before == [] {
          FirstSentScope(rules, filename);
        }
        var frontmatter := if before != [] then "" else BuildFrontmatter(rule);
        AccumulateSame(CursorFiles(init), filename, first, MdcContents(before),
                       frontmatter, BuildMdcContent(rule));
        assert sent == before + [rule];
        assert sent[..|sent| - 1] == before;
        assert MdcContents(sent) == MdcContents(before) + [BuildMdcContent(rule)];
        assert BuildFrontmatter(sent[0]) == if before == [] then BuildFrontmatter(rule) else first;
      }
    }
  }

  /** The transformer writes only the two rule files of its map. */
  lemma CursorFilesKnown(rules: seq<PocRule>, filename: string)
    requires Framable(rules)
    requires filename in Keys(CursorFiles(rules))
    ensures filename == SecurityFile || filename == BashFile
  {
    GetSomeIffKey(CursorFiles(rules), filename);
    CursorFileContent(rules, filename);
    var sent := SentTo(rules, filename);
    assert CursorTarget(sent[0].section) == Some(filename);
  }

  // ----- ClaudeTransformer -----

  const ClaudeFile: string := "CLAUDE" + ".md"

  /** `_build_header` */
  function ClaudeHeader(): string {
    "# Claude AI " + "Instructions " + "for Engineering " + "Projects\n\n"
    + "You are Claude, " + "an AI assistant " + "working on a " + "software " + "engineering " + "project.\n"
    + "Follow these " + "guardrails " + "carefully."
  }

  /** `_make_conversational`: a text not opening with `You` is lowered and given `You `. */
  function MakeConversational(text: string): string {
    if StartsWith(text, "You") then text else "You " + Lower(text)
  }

  /**
   * The result always opens with `You`; a text that did is kept, any other is kept in
   * lower case after `You `; converting twice changes nothing more.
   */
  lemma ConversationalSpec(text: string)
    ensures StartsWith(MakeConversational(text), "You")
    ensures StartsWith(text, "You") ==> MakeConversational(text) == text
    ensures !StartsWith(text, "You") ==>
      |MakeConversational(text)| == |text| + 4 && MakeConversational(text)[4..] == Lower(text)
    ensures MakeConversational(MakeConversational(text)) == MakeConversational(text)
  {
    var r := MakeConversational(text);
    assert r[..3] == "You";
  }

  /** The `reasoning_map` of `_generate_reasoning`, keyed by title. */
  const ReasoningMap: Dict<string> := [
    ("Never Commit Secrets",
     "Committed " + "secrets can be " + "exploited by " + "attackers and " + "are nearly " + "impossible to " + "fully remove " + "from git " + "history."),
    ("Use Safe Bash Options",
     "These options " + "prevent silent " + "failures and " + "make scripts " + "more reliable " + "and debuggable.")]

  const DefaultReasoning: string := "This ensures " + "code quality " + "and security."

  /** `_generate_reasoning` */
  function GenerateReasoning(rule: PocRule): string {
    match Get(ReasoningMap, rule.title)
    case Some(reason) => reason
    case None => DefaultReasoning
  }

  /**
   * Each of the two parsed rules gets its own explanation, and a title the map does
   * not hold exactly gets the default one.
   */
  lemma ReasoningSpec(rule: PocRule)
    ensures GenerateReasoning(SecurityRule) == ReasoningMap[0].1
    ensures GenerateReasoning(BashRule) == ReasoningMap[1].1
    ensures rule.title != ReasoningMap[0].0 && rule.title != ReasoningMap[1].0 ==>
      GenerateReasoning(rule) == DefaultReasoning
  {
    assert KeyIndex(ReasoningMap, SecurityRule.title) == 0;
    assert KeyIndex(ReasoningMap[1..], BashRule.title) == 0;
    if rule.title != ReasoningMap[0].0 && rule.title != ReasoningMap[1].0 {
      assert KeyIndex(ReasoningMap[1..], rule.title) == 1 + KeyIndex(ReasoningMap[2..], rule.title);
    }
  }

  /** `_explain_example`: the example itself plays no part, only whether it is the correct one. */
  function ExplainExample(correct: bool): string {
    if correct then
      "This approach " + "loads credentials " + "from environment " + "variables, " + "keeping them " + "out of your " + "code."
    else
      "This hardcodes " + "credentials " + "directly in the " + "code, which " + "will be " + "committed to " + "git."
  }

  const DoMarker: string := "\U{E2}\U{153}\U{2026} **Do this:**"
  const DontMarker: string := "\U{E2}\U{152} **Don't do this:**"

  /** The lines of `_build_claude_content`. */
  function ClaudeLines(rule: PocRule): seq<string> {
    ["### " + rule.title, "", MakeConversational(rule.content), "",
     "**Why this matters:**", GenerateReasoning(rule), ""]
    + (if rule.examplesCorrect != [] then
         [DoMarker, "", "```python", rule.examplesCorrect[0], "```", "", ExplainExample(true), ""]
       else [])
    + (if rule.examplesIncorrect != [] then
         [DontMarker, "", "```python", rule.examplesIncorrect[0], "```", "", ExplainExample(false)]
       else [])
  }

  /** `_build_claude_content` */
  function BuildClaudeContent(rule: PocRule): string {
    Join(ClaudeLines(rule), "\n")
  }

  /**
   * The title, the conversational text and its reasoning come first; the "do" block is
   * there exactly when the rule has a correct example and the "don't" block exactly
   * when it has an incorrect one, both fenced as python whatever the scope.
   */
  lemma ClaudeLayout(rule: PocRule)
    ensures var lines := ClaudeLines(rule);
      && |lines| == 7 + (if rule.examplesCorrect != [] then 8 else 0)
                      + (if rule.examplesIncorrect != [] then 7 else 0)
      && lines[0] == "### " + rule.title
      && lines[2] == MakeConversational(rule.content)
      && lines[5] == GenerateReasoning(rule)
      && ((|lines| > 7 && lines[7] == DoMarker) <==> rule.examplesCorrect != [])
      && ((|lines| >= 14 && lines[|lines| - 7] == DontMarker) <==> rule.examplesIncorrect != [])
      && (rule.examplesCorrect != [] ==> lines[9] == "```python" && lines[10] == rule.examplesCorrect[0])
      && (rule.examplesIncorrect != [] ==>
            lines[|lines| - 5] == "```python" && lines[|lines| - 4] == rule.examplesIncorrect[0])
  {
    assert DoMarker != DontMarker by { assert DoMarker[1] != DontMarker[1]; }
    assert DontMarker != "";
  }

  /** The header and then one rendering per rule, in order. */
  function ClaudeParts(rules: seq<PocRule>): (parts: seq<string>)
    decreases |rules|
    ensures |parts| == 1 + |rules| && parts[0] == ClaudeHeader()
    ensures forall k :: 0 <= k < |rules| ==> parts[k + 1] == BuildClaudeContent(rules[k])
  {
    if rules == [] then [ClaudeHeader()]
    else ClaudeParts(rules[..|rules| - 1]) + [BuildClaudeContent(rules[|rules| - 1])]
  }

  /** The text of `CLAUDE.md`: the parts separated by a blank line. */
  function ClaudeText(rules: seq<PocRule>): string {
    Join(ClaudeParts(rules), "\n\n")
  }

  /** `ClaudeTransformer.transform`: one file, `CLAUDE.md`, even without rules. */
  method ClaudeTransform(rules: seq<PocRule>) returns (files: Dict<string>)
    ensures files == [(ClaudeFile, ClaudeText(rules))]
  {
    files := [(ClaudeFile, ClaudeHeader())];
    var i := 0;
    while i < |rules|
      invariant 0 <= i <= |rules|
      invariant files == [(ClaudeFile, ClaudeText(rules[..i]))]
    {
      var content := BuildClaudeContent(rules[i]);
      assert rules[..i + 1][..i] == rules[..i];
      JoinSnoc(ClaudeParts(rules[..i]), content, "\n\n");
      files := [(ClaudeFile, files[0].1 + "\n\n" + content)];
      i := i + 1;
    }
    assert rules[..i] == rules;
  }

  /** `CLAUDE.md` opens with the header and holds every rule's rendering. */
  lemma ClaudeTextShape(rules: seq<PocRule>, k: nat)
    requires k < |rules|
    ensures StartsWith(ClaudeText(rules), ClaudeHeader())
    ensures Contains(ClaudeText(rules), BuildClaudeContent(rules[k]))
  {
    var parts := ClaudeParts(rules);
    assert StartsWith(ClaudeText(rules), parts[0]) by {
      JoinStartsWith(parts, "\n\n");
    }
    assert Contains(ClaudeText(rules), parts[k + 1]) by {
      JoinKeepsParts(parts, "\n\n", k + 1);
    }
  }

  // ----- CopilotTransformer -----

  const CopilotFile: string := ".github/" + "copilot-instructions" + ".md"
  const CopilotTitle: string := "# GitHub Copilot Instructions"
  const BadMarker: string := "# \U{E2}\U{152} Bad"
  const GoodMarker: string := "# \U{E2}\U{153}\U{2026} Good"

  /** `_summarize`: the text up to its first period, closed by a period. */
  function Summarize(text: string): string {
    Split(text, '.')[0] + "."
  }

  /**
   * A summary holds exactly one period, at its end, and what precedes it is where the
   * text begins; in a text with a period it is the text up to and including the first
   * one, and a text without a period is kept whole.
   */
  lemma SummarizeSpec(text: string)
    ensures var r := Summarize(text);
      && |r| >= 1 && r[|r| - 1] == '.' && '.' !in r[..|r| - 1]
      && StartsWith(text, r[..|r| - 1])
      && ('.' in text ==> |r| - 1 < |text| && text[|r| - 1] == '.' && r == text[..|r|])
      && ('.' !in text ==> r == text + ".")
  {
    var parts := Split(text, '.');
    var r := Summarize(text);
    assert r[..|r| - 1] == parts[0];
    SplitPiecesFree(text, '.');
    JoinSplit(text, '.');
    JoinStartsWith(parts, ".");
    if '.' in text {
      SplitFirst(text, '.');
      assert r == text[..|r|];
    } else {
      SplitNoSep(text, '.');
    }
  }

  /** The lines of `_build_copilot_content`. */
  function CopilotLines(rule: PocRule): seq<string> {
    ["## " + rule.title, "", Summarize(rule.content), ""]
    + (if rule.examplesIncorrect != [] && rule.examplesCorrect != [] then
         ["```python", BadMarker, rule.examplesIncorrect[0], "", GoodMarker, rule.examplesCorrect[0], "```"]
       else [])
  }

  /**
   * The before/after block, and with it the "Bad" marker line, is there exactly when
   * the rule has both a correct and an incorrect example; the block shows the
   * incorrect example before the correct one.
   */
  lemma CopilotBeforeAfter(rule: PocRule)
    ensures BadMarker in CopilotLines(rule) <==>
      rule.examplesIncorrect != [] && rule.examplesCorrect != []
    ensures rule.examplesIncorrect != [] && rule.examplesCorrect != [] ==>
      CopilotLines(rule)[6] == rule.examplesIncorrect[0] && CopilotLines(rule)[9] == rule.examplesCorrect[0]
  {
    var lines := CopilotLines(rule);
    var summary := Summarize(rule.content);
    SummarizeSpec(rule.content);
    assert summary != BadMarker by {
      assert summary[|summary| - 1] == '.' && BadMarker[|BadMarker| - 1] == 'd';
    }
    assert "## " + rule.title != BadMarker by {
      assert ("## " + rule.title)[1] == '#' && BadMarker[1] == ' ';
    }
    if !(rule.examplesIncorrect != [] && rule.examplesCorrect != []) {
      assert lines == ["## " + rule.title, "", summary, ""];
    }
  }

  /** The document lines after the loop of `CopilotTransformer.transform` has seen `rules`. */
  function CopilotDocLines(rules: seq<PocRule>): (lines: seq<string>)
    decreases |rules|
    ensures |lines| >= 2 && lines[0] == CopilotTitle && lines[1] == ""
  {
    if rules == [] then [CopilotTitle, ""]
    else CopilotDocLines(rules[..|rules| - 1]) + CopilotLines(rules[|rules| - 1]) + [""]
  }

  /** `CopilotTransformer.transform`: one file, the instructions. */
  method CopilotTransform(rules: seq<PocRule>) returns (files: Dict<string>)
    ensures files == [(CopilotFile, Join(CopilotDocLines(rules), "\n"))]
  {
    var content := [CopilotTitle, ""];
    var i := 0;
    while i < |rules|
      invariant 0 <= i <= |rules|
      invariant content == CopilotDocLines(rules[..i])
    {
      assert rules[..i + 1][..i] == rules[..i];
      content := content + CopilotLines(rules[i]);
      content := content + [""];
      i := i + 1;
    }
    assert rules[..i] == rules;
    files := [(CopilotFile, Join(content, "\n"))];
  }

  /** Every rule contributes its title line and its summary line to the document. */
  lemma {:induction false} CopilotDocKeepsRules(rules: seq<PocRule>, k: nat)
    requires k < |rules|
    decreases |rules|
    ensures "## " + rules[k].title in CopilotDocLines(rules)
    ensures Summarize(rules[k].content) in CopilotDocLines(rules)
  {
    var n := |rules| - 1;
    var prev := CopilotDocLines(rules[..n]);
    var block := CopilotLines(rules[n]);
    assert CopilotDocLines(rules) == prev + block + [""];
    if k < n {
      CopilotDocKeepsRules(rules[..n], k);
    } else {
      assert block[0] == "## " + rules[k].title && block[2] == Summarize(rules[k].content);
    }
  }

  /** The instructions open with their title and show every rule's title and summary. */
  lemma CopilotContentShape(rules: seq<PocRule>, k: nat)
    requires k < |rules|
    ensures StartsWith(Join(CopilotDocLines(rules), "\n"), CopilotTitle)
    ensures Contains(Join(CopilotDocLines(rules), "\n"), "## " + rules[k].title)
    ensures Contains(Join(CopilotDocLines(rules), "\n"), Summarize(rules[k].content))
  {
    var lines := CopilotDocLines(rules);
    JoinStartsWith(lines, "\n");
    CopilotDocKeepsRules(rules, k);
    JoinThenKeeps(lines, "\n", "", "## " + rules[k].title);
    JoinThenKeeps(lines, "\n", "", Summarize(rules[k].content));
    assert Join(lines, "\n") + "" == Join(lines, "\n");
  }

  // ----- the generated files and the validator -----

  /** The parser's rules can all be given a front matter. */
  lemma ParsedFramable(rules: seq<PocRule>)
    requires forall k :: 0 <= k < |rules| ==> rules[k] == SecurityRule || rules[k] == BashRule
    ensures Framable(rules)
  {
  }

  /** The validator checks both Cursor rule files as `.mdc` rule files. */
  lemma CursorSuffixes()
    ensures Validation.Suffix(SecurityFile) == ".mdc"
    ensures Validation.Suffix(BashFile) == ".mdc"
  {
    Validation.SuffixOf(CursorRulesDir, "006_security", ".mdc");
    Validation.SuffixOf(CursorRulesDir, "003_bash_standards", ".mdc");
  }

  /** The validator checks `CLAUDE.md` as Markdown. */
  lemma ClaudeSuffix()
    ensures Validation.Suffix(ClaudeFile) == ".md"
  {
    assert ClaudeFile == "" + "CLAUDE" + ".md";
    Validation.SuffixOf("", "CLAUDE", ".md");
  }

  /** The validator checks the Copilot instructions as Markdown. */
  lemma CopilotSuffix()
    ensures Validation.Suffix(CopilotFile) == ".md"
  {
    Validation.SuffixOf(".github/", "copilot-instructions", ".md");
  }

  /**
   * Every Cursor file opens with the front matter delimiter, and the delimiter occurs
   * again after it, closing the front matter.
   */
  lemma CursorFileDelimited(rules: seq<PocRule>, filename: string)
    requires Framable(rules)
    requires Get(CursorFiles(rules), filename).Some?
    ensures var text := Get(CursorFiles(rules), filename).value;
      StartsWith(text, Validation.Delimiter) && Find(text, Validation.Delimiter, 3).Some?
  {
    var text := Get(CursorFiles(rules), filename).value;
    var sent := SentTo(rules, filename);
    CursorFileContent(rules, filename);
    FrontmatterDelimited(sent[0]);
    DelimitedPrefix(BuildFrontmatter(sent[0]), "\n\n", Join(MdcContents(sent), "\n\n"));
  }

  /** A text that opens with a delimited front matter keeps it, whatever follows. */
  lemma DelimitedPrefix(fm: string, sep: string, body: string)
    requires |fm| >= 6 && StartsWith(fm, Validation.Delimiter)
    requires OccursAt(fm, Validation.Delimiter, |fm| - 3)
    ensures StartsWith(fm + sep + body, Validation.Delimiter)
    ensures Find(fm + sep + body, Validation.Delimiter, 3).Some?
  {
    var rest := sep + body;
    assert fm + sep + body == fm + rest;
    OccursInPrefix(fm, rest, Validation.Delimiter, 0);
    OccursInPrefix(fm, rest, Validation.Delimiter, |fm| - 3);
    FindFirstOccurrence(fm + rest, Validation.Delimiter, 3);
  }

  /**
   * Every Cursor file passes the validator's front matter structure check: it is
   * checked as an `.mdc` file and its only errors are those of the YAML between the
   * delimiters and of the Markdown after them.
   */
  lemma CursorFilesFramed(rules: seq<PocRule>, filename: string, load: string -> Validation.YamlLoad)
    requires Framable(rules)
    requires Get(CursorFiles(rules), filename).Some?
    ensures var text := Get(CursorFiles(rules), filename).value;
      && Find(text, Validation.Delimiter, 3).Some?
      && var j := Find(text, Validation.Delimiter, 3).value;
         Validation.FileErrors(filename, text, load) ==
           Validation.FrontmatterErrors(filename, load(text[3..j]))
           + Validation.MarkdownErrors(filename, text[j + 3..])
  {
    var text := Get(CursorFiles(rules), filename).value;
    CursorFileDelimited(rules, filename);
    var j := Find(text, Validation.Delimiter, 3).value;
    assert Validation.Suffix(filename) == ".mdc" by {
      GetSomeIffKey(CursorFiles(rules), filename);
      CursorFilesKnown(rules, filename);
      CursorSuffixes();
    }
    Validation.ClosedFrontmatter(filename, text, load, j);
  }
}
