/**
 * The Cursor transformer (transformers/cursor.py): every rule goes to one `.mdc` rule
 * file, chosen from the rule's section or, failing that, its tags; each file holds the
 * renderings of its rules, in input order, separated by a horizontal rule.
 */
module Cursor {
  import opened Wrappers
  import opened Text
  import opened Dict
  import opened Grouping
  import opened Parser

  const WorkspaceFile: string := ".cursor/rules/001_workspace.mdc"
  const BashFile: string := ".cursor/rules/003_bash_standards.mdc"
  const PythonFile: string := ".cursor/rules/004_python_standards.mdc"
  const ConfigFile: string := ".cursor/rules/005_config_standards.mdc"
  const SecurityFile: string := ".cursor/rules/006_security.mdc"
  const PrecommitFile: string := ".cursor/rules/007_precommit.mdc"
  const DocumentationFile: string := ".cursor/rules/008_documentation.mdc"

  /** `FILE_MAPPING`, in its declaration order: section key and rule file. */
  const FileMapping: seq<(string, string)> := [
    ("Design Principles", WorkspaceFile), ("Bash Standards", BashFile),
    ("Python Standards", PythonFile), ("YAML", ConfigFile), ("JSON", ConfigFile),
    ("Security", SecurityFile), ("Pre-commit", PrecommitFile),
    ("Documentation", DocumentationFile)]

  /** The rule files the transformer can write. */
  predicate IsRuleFile(path: string) {
    path == WorkspaceFile || path == BashFile || path == PythonFile || path == ConfigFile
    || path == SecurityFile || path == PrecommitFile || path == DocumentationFile
  }

  /** The file chosen by the tags when no section key matches: security, then bash, then python. */
  function TagFile(tags: seq<string>): (path: string)
    ensures IsRuleFile(path)
  {
    if "security" in tags then SecurityFile
    else if "bash" in tags then BashFile
    else if "python" in tags then PythonFile
    else WorkspaceFile
  }

  /** `_get_output_file`: there is always a file, and it is one of the rule files. */
  function GetOutputFile(rule: Rule): (path: string)
    ensures IsRuleFile(path)
  {
    var n := FirstMatch(FileMapping, rule.section, 0);
    if n < |FileMapping| then FileMapping[n].1 else TagFile(rule.tags)
  }

  /** The first key of the mapping found, case-insensitively, in the section decides. */
  lemma OutputFileBySection(rule: Rule, k: nat)
    requires k < |FileMapping| && KeyMatches(FileMapping[k].0, rule.section)
    requires forall j :: 0 <= j < k ==> !KeyMatches(FileMapping[j].0, rule.section)
    ensures GetOutputFile(rule) == FileMapping[k].1
  {
    var n := FirstMatch(FileMapping, rule.section, 0);
    assert !(n < k) && !(k < n);
  }

  /**
   * Without a section key, the tags decide in the order security, bash, python, and a
   * rule without any of those tags goes to the workspace file.
   */
  lemma OutputFileByTags(rule: Rule)
    requires forall k :: 0 <= k < |FileMapping| ==> !KeyMatches(FileMapping[k].0, rule.section)
    ensures "security" in rule.tags ==> GetOutputFile(rule) == SecurityFile
    ensures "security" !in rule.tags && "bash" in rule.tags ==> GetOutputFile(rule) == BashFile
    ensures "security" !in rule.tags && "bash" !in rule.tags && "python" in rule.tags ==>
      GetOutputFile(rule) == PythonFile
    ensures "security" !in rule.tags && "bash" !in rule.tags && "python" !in rule.tags ==>
      GetOutputFile(rule) == WorkspaceFile
  {
    assert FirstMatch(FileMapping, rule.section, 0) == |FileMapping|;
  }

  /**
   * YAML and JSON sections share the configuration file: once none of the three keys
   * before them matches, a section mentioning either goes there.
   */
  lemma YamlAndJsonShareFile(rule: Rule)
    requires KeyMatches("YAML", rule.section) || KeyMatches("JSON", rule.section)
    requires forall j :: 0 <= j < 3 ==> !KeyMatches(FileMapping[j].0, rule.section)
    ensures GetOutputFile(rule) == ConfigFile
  {
    assert FileMapping[3].0 == "YAML" && FileMapping[4].0 == "JSON";
    var n := FirstMatch(FileMapping, rule.section, 0);
    assert n == 3 || n == 4;
  }

  /** The rules keyed by their output file. */
  function ByFile(rules: seq<Rule>): (items: seq<(string, Rule)>)
    ensures |items| == |rules|
    ensures forall i :: 0 <= i < |rules| ==> items[i] == (GetOutputFile(rules[i]), rules[i])
  {
    seq(|rules|, i requires 0 <= i < |rules| => (GetOutputFile(rules[i]), rules[i]))
  }

  /** One rendering per rule, in order. */
  function Renderings(rules: seq<Rule>, render: Rule -> string): (parts: seq<string>)
    ensures |parts| == |rules|
    ensures forall i :: 0 <= i < |rules| ==> parts[i] == render(rules[i])
  {
    seq(|rules|, i requires 0 <= i < |rules| => render(rules[i]))
  }

  const Separator: string := "\n\n---\n\n"

  /** The text of one rule file: its rules rendered and separated by a horizontal rule. */
  function FileContent(rules: seq<Rule>, render: Rule -> string): string {
    Join(Renderings(rules, render), Separator)
  }

  /** A file with a single rule holds just its rendering, without separator. */
  lemma OneRuleNoSeparator(rule: Rule, render: Rule -> string)
    ensures FileContent([rule], render) == render(rule)
  {
    assert Renderings([rule], render) == [render(rule)];
  }

  /** Every rule of a file is rendered into it. */
  lemma FileContentKeepsRule(rules: seq<Rule>, render: Rule -> string, i: nat)
    requires i < |rules|
    ensures Contains(FileContent(rules, render), render(rules[i]))
  {
    JoinKeepsParts(Renderings(rules, render), Separator, i);
  }

  /** `_generate_file_content` */
  method GenerateFileContent(rules: seq<Rule>, render: Rule -> string) returns (content: string)
    ensures content == FileContent(rules, render)
  {
    var parts: seq<string> := [];
    var k := 0;
    while k < |rules|
      invariant 0 <= k <= |rules|
      invariant parts == Renderings(rules[..k], render)
    {
      parts := parts + [render(rules[k])];
      k := k + 1;
      assert parts == Renderings(rules[..k], render);
    }
    assert rules[..k] == rules;
    content := Join(parts, Separator);
  }

  /** The output dictionary: each group's file with its content, in group order. */
  function Outputs(groups: Dict<seq<Rule>>, render: Rule -> string): (files: Dict<string>)
    ensures |files| == |groups|
    ensures Keys(files) == Keys(groups)
    ensures forall i :: 0 <= i < |groups| ==> files[i] == (groups[i].0, FileContent(groups[i].1, render))
  {
    seq(|groups|, i requires 0 <= i < |groups| => (groups[i].0, FileContent(groups[i].1, render)))
  }

  /** What `transform` returns. */
  function TransformSpec(rules: seq<Rule>, render: Rule -> string): Dict<string> {
    Outputs(Group(ByFile(rules)), render)
  }

  /** One round of the second loop: a group's file is new to the output and goes last. */
  lemma OutputsStep(groups: Dict<seq<Rule>>, j: nat, render: Rule -> string)
    requires j < |groups| && DistinctKeys(groups)
    ensures Put(Outputs(groups[..j], render), groups[j].0, FileContent(groups[j].1, render))
         == Outputs(groups[..j + 1], render)
  {
    var done := Outputs(groups[..j], render);
    forall i | 0 <= i < |done| ensures done[i].0 != groups[j].0 {
      assert done[i].0 == groups[i].0;
    }
    PutAbsent(done, groups[j].0, FileContent(groups[j].1, render));
  }

  /** `CursorTransformer.transform` */
  method Transform(rules: seq<Rule>, render: Rule -> string) returns (files: Dict<string>)
    ensures files == TransformSpec(rules, render)
  {
    var items := ByFile(rules);
    var filesRules: Dict<seq<Rule>> := [];
    var i := 0;
    while i < |rules|
      invariant 0 <= i <= |rules|
      invariant filesRules == Group(items[..i])
    {
      var outputFile := GetOutputFile(rules[i]);
      GroupStep(items, i);
      if outputFile != "" {
        filesRules := AddToGroup(filesRules, outputFile, rules[i]);
      }
      i := i + 1;
    }
    assert items[..i] == items;
    GroupKeys(items);
    files := [];
    var j := 0;
    while j < |filesRules|
      invariant 0 <= j <= |filesRules|
      invariant files == Outputs(filesRules[..j], render)
    {
      var content := GenerateFileContent(filesRules[j].1, render);
      OutputsStep(filesRules, j, render);
      files := Put(files, filesRules[j].0, content);
      j := j + 1;
    }
    assert filesRules[..j] == filesRules;
  }

  /** The output files of the rules, in input order. */
  function TargetFiles(rules: seq<Rule>): (paths: seq<string>)
    ensures |paths| == |rules|
    ensures forall i :: 0 <= i < |rules| ==> paths[i] == GetOutputFile(rules[i])
  {
    seq(|rules|, i requires 0 <= i < |rules| => GetOutputFile(rules[i]))
  }

  /**
   * The output holds exactly the files that received at least one rule, each once, in
   * the order in which a rule first went to them.
   */
  lemma TransformFiles(rules: seq<Rule>, render: Rule -> string)
    ensures Keys(TransformSpec(rules, render)) == Dedup(TargetFiles(rules))
    ensures DistinctKeys(TransformSpec(rules, render))
    ensures forall p :: p in Keys(TransformSpec(rules, render)) <==>
      exists i :: 0 <= i < |rules| && GetOutputFile(rules[i]) == p
  {
    var items := ByFile(rules);
    var groups := Group(items);
    GroupKeys(items);
    assert Keys(items) == TargetFiles(rules);
    DedupSpec(TargetFiles(rules));
    assert Keys(TransformSpec(rules, render)) == Keys(groups);
  }

  /** Looking a file up in the output finds the content of the group under the same file. */
  lemma OutputsGet(groups: Dict<seq<Rule>>, render: Rule -> string, p: string)
    ensures Get(Outputs(groups, render), p) ==
      match Get(groups, p)
      case None => None
      case Some(rs) => Some(FileContent(rs, render))
  {
    var files := Outputs(groups, render);
    var m := KeyIndex(groups, p);
    KeyIndexAt(files, p, m);
  }

  /**
   * Each output file holds the renderings of exactly the rules sent to it, in input
   * order; a file no rule went to is absent.
   */
  lemma TransformContent(rules: seq<Rule>, render: Rule -> string, p: string)
    ensures var mine := Filter(ByFile(rules), p);
      Get(TransformSpec(rules, render), p) == if mine == [] then None else Some(FileContent(mine, render))
  {
    GroupGet(ByFile(rules), p);
    OutputsGet(Group(ByFile(rules)), render, p);
  }

  /** Every rule lands in its own file, and its rendering is part of that file. */
  lemma TransformKeepsRule(rules: seq<Rule>, render: Rule -> string, i: nat)
    requires i < |rules|
    ensures var p := GetOutputFile(rules[i]);
      Get(TransformSpec(rules, render), p).Some? &&
      Contains(Get(TransformSpec(rules, render), p).value, render(rules[i]))
  {
    var p := GetOutputFile(rules[i]);
    var items := ByFile(rules);
    var mine := Filter(items, p);
    FilterHas(items, i);
    TransformContent(rules, render, p);
    var k :| 0 <= k < |mine| && mine[k] == rules[i];
    FileContentKeepsRule(mine, render, k);
  }
}
