/**
 * The section-grouped layout shared by the Claude and Copilot transformers: rules are
 * grouped by section in the order sections first occur, and every section contributes
 * a heading part followed by one part per rule, each rendered and stripped.
 */
module Sectioned {
  import opened Text
  import opened Dict
  import opened Grouping
  import opened Parser

  /** The rules keyed by their section. */
  function BySection(rules: seq<Rule>): (items: seq<(string, Rule)>)
    ensures |items| == |rules|
    ensures forall i :: 0 <= i < |rules| ==> items[i] == (rules[i].section, rules[i])
  {
    seq(|rules|, i requires 0 <= i < |rules| => (rules[i].section, rules[i]))
  }

  /**
   * `for rule in rules: if rule.section not in sections: sections[rule.section] = []`
   * followed by `sections[rule.section].append(rule)`.
   */
  method GroupBySection(rules: seq<Rule>) returns (sections: Dict<seq<Rule>>)
    ensures sections == Group(BySection(rules))
  {
    sections := [];
    var i := 0;
    while i < |rules|
      invariant 0 <= i <= |rules|
      invariant sections == Group(BySection(rules)[..i])
    {
      GroupStep(BySection(rules), i);
      sections := AddToGroup(sections, rules[i].section, rules[i]);
      i := i + 1;
    }
    assert BySection(rules)[..i] == BySection(rules);
  }

  /** One part per rule: its rendering, stripped. */
  function RuleParts(rules: seq<Rule>, render: Rule -> string): (parts: seq<string>)
    ensures |parts| == |rules|
    ensures forall i :: 0 <= i < |rules| ==> parts[i] == Strip(render(rules[i]))
  {
    seq(|rules|, i requires 0 <= i < |rules| => Strip(render(rules[i])))
  }

  /** Each section in turn: `heading + name`, then the parts of its rules. */
  function SectionParts(sections: Dict<seq<Rule>>, heading: string, render: Rule -> string): seq<string>
    decreases |sections|
  {
    if sections == [] then []
    else
      var n := |sections| - 1;
      SectionParts(sections[..n], heading, render) + [heading + sections[n].0] + RuleParts(sections[n].1, render)
  }

  /** A heading per section and a part per rule. */
  lemma {:induction false} SectionPartsCount(sections: Dict<seq<Rule>>, heading: string, render: Rule -> string)
    decreases |sections|
    ensures |SectionParts(sections, heading, render)| == |sections| + Total(sections)
  {
    if sections != [] {
      SectionPartsCount(sections[..|sections| - 1], heading, render);
    }
  }

  /** The inner loop: one stripped rendering per rule, appended in order. */
  method AppendRules(parts: seq<string>, rules: seq<Rule>, render: Rule -> string) returns (parts': seq<string>)
    ensures parts' == parts + RuleParts(rules, render)
  {
    parts' := parts;
    var k := 0;
    while k < |rules|
      invariant 0 <= k <= |rules|
      invariant parts' == parts + RuleParts(rules[..k], render)
    {
      assert RuleParts(rules[..k + 1], render) == RuleParts(rules[..k], render) + [Strip(render(rules[k]))];
      parts' := parts' + [Strip(render(rules[k]))];
      k := k + 1;
    }
    assert rules[..k] == rules;
  }

  /** One more section adds its heading and its rules' parts at the end. */
  lemma SectionPartsStep(parts: seq<string>, acc: seq<string>, sections: Dict<seq<Rule>>, j: nat,
                         heading: string, render: Rule -> string)
    requires j < |sections|
    requires acc == parts + SectionParts(sections[..j], heading, render)
    ensures acc + [heading + sections[j].0] + RuleParts(sections[j].1, render) ==
      parts + SectionParts(sections[..j + 1], heading, render)
  {
    assert sections[..j + 1][..j] == sections[..j];
  }

  /**
   * The nested loop of the transforms:
   * `for name, rs in sections.items(): parts.append(heading + name)` and then one
   * stripped rendering per rule of the section.
   */
  method AppendSections(parts: seq<string>, sections: Dict<seq<Rule>>, heading: string,
                        render: Rule -> string) returns (parts': seq<string>)
    ensures parts' == parts + SectionParts(sections, heading, render)
  {
    parts' := parts;
    var j := 0;
    while j < |sections|
      invariant 0 <= j <= |sections|
      invariant parts' == parts + SectionParts(sections[..j], heading, render)
    {
      SectionPartsStep(parts, parts', sections, j, heading, render);
      parts' := AppendRules(parts' + [heading + sections[j].0], sections[j].1, render);
      j := j + 1;
    }
    assert sections[..j] == sections;
  }

  /**
   * The parts of the grouped rules: one heading per distinct section, in the order
   * sections first occur, and one part per rule.
   */
  lemma GroupedParts(rules: seq<Rule>, heading: string, render: Rule -> string)
    ensures var sections := Group(BySection(rules));
      && Keys(sections) == Dedup(Keys(BySection(rules)))
      && |SectionParts(sections, heading, render)| == |Dedup(Keys(BySection(rules)))| + |rules|
  {
    var sections := Group(BySection(rules));
    GroupKeys(BySection(rules));
    GroupTotal(BySection(rules));
    SectionPartsCount(sections, heading, render);
  }

  /** Every section contributes its heading. */
  lemma {:induction false} SectionPartsHeading(sections: Dict<seq<Rule>>, heading: string,
                                               render: Rule -> string, j: nat)
    requires j < |sections|
    decreases |sections|
    ensures heading + sections[j].0 in SectionParts(sections, heading, render)
  {
    var n := |sections| - 1;
    if j < n {
      SectionPartsHeading(sections[..n], heading, render, j);
    }
  }

  /** Every rule of every section contributes its stripped rendering. */
  lemma {:induction false} SectionPartsRule(sections: Dict<seq<Rule>>, heading: string,
                                            render: Rule -> string, j: nat, r: Rule)
    requires j < |sections| && r in sections[j].1
    decreases |sections|
    ensures Strip(render(r)) in SectionParts(sections, heading, render)
  {
    var n := |sections| - 1;
    if j < n {
      SectionPartsRule(sections[..n], heading, render, j, r);
    } else {
      var m :| 0 <= m < |sections[n].1| && sections[n].1[m] == r;
      assert RuleParts(sections[n].1, render)[m] == Strip(render(r));
    }
  }

  /** No rule is lost: its section's heading and its own rendering are among the parts. */
  lemma GroupedPartsKeepRule(rules: seq<Rule>, heading: string, render: Rule -> string, i: nat)
    requires i < |rules|
    ensures heading + rules[i].section in SectionParts(Group(BySection(rules)), heading, render)
    ensures Strip(render(rules[i])) in SectionParts(Group(BySection(rules)), heading, render)
  {
    var items := BySection(rules);
    var sections := Group(items);
    GroupGet(items, rules[i].section);
    FilterHas(items, i);
    var j := KeyIndex(sections, rules[i].section);
    SectionPartsHeading(sections, heading, render, j);
    SectionPartsRule(sections, heading, render, j, rules[i]);
  }

  /**
   * The whole document: the header with trailing whitespace removed, then the
   * sections, joined with one blank line between parts and ending in a newline
   * (`"\n\n".join(parts) + "\n"`).
   */
  function Content(header: string, heading: string, rules: seq<Rule>, render: Rule -> string): string {
    Join([RStrip(header)] + SectionParts(Group(BySection(rules)), heading, render), "\n\n") + "\n"
  }

  /** Both transforms: group, lay out the parts, join them. */
  method Transform(header: string, heading: string, rules: seq<Rule>, render: Rule -> string)
    returns (content: string)
    ensures content == Content(header, heading, rules, render)
  {
    var sections := GroupBySection(rules);
    var parts := AppendSections([RStrip(header)], sections, heading, render);
    content := Join(parts, "\n\n") + "\n";
  }

  /**
   * The document opens with the stripped header, ends with a newline, and has one part
   * per distinct section and per rule besides the header.
   */
  lemma ContentShape(header: string, heading: string, rules: seq<Rule>, render: Rule -> string)
    ensures StartsWith(Content(header, heading, rules, render), RStrip(header))
    ensures EndsWith(Content(header, heading, rules, render), "\n")
  {
    var parts := [RStrip(header)] + SectionParts(Group(BySection(rules)), heading, render);
    JoinStartsWith(parts, "\n\n");
    OccursInPrefix(Join(parts, "\n\n"), "\n", RStrip(header), 0);
  }

  /** Without rules the document is the stripped header and a newline. */
  lemma ContentNoRules(header: string, heading: string, render: Rule -> string)
    ensures Content(header, heading, [], render) == RStrip(header) + "\n"
  {
    assert BySection([]) == [];
  }

  /** Every rule reaches the document: the heading of its section and its rendering. */
  lemma ContentKeepsRule(header: string, heading: string, rules: seq<Rule>, render: Rule -> string, i: nat)
    requires i < |rules|
    ensures Contains(Content(header, heading, rules, render), heading + rules[i].section)
    ensures Contains(Content(header, heading, rules, render), Strip(render(rules[i])))
  {
    var sp := SectionParts(Group(BySection(rules)), heading, render);
    var parts := [RStrip(header)] + sp;
    GroupedPartsKeepRule(rules, heading, render, i);
    assert heading + rules[i].section in parts;
    assert Strip(render(rules[i])) in parts;
    JoinThenKeeps(parts, "\n\n", "\n", heading + rules[i].section);
    JoinThenKeeps(parts, "\n\n", "\n", Strip(render(rules[i])));
  }
}
