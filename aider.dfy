/**
 * The Aider transformer (transformers/aider.py): one YAML file made of the header, a
 * banner comment and every rule's rendering, one after the other.
 */
module Aider {
  import opened Text
  import opened Dict
  import opened Parser

  const OutputFile: string := ".aider/.aider.conf.yml"

  /** The comment that introduces the rules. */
  const Banner: string := "\n# === Standards from CONTEXT.md ===\n"

  /** The fixed preamble of the configuration file. */
  function BuildHeader(): string {
    "# Aider Configuration\n"
    + "# AUTO-GENERATED from CONTEXT.md\n"
    + "\n"
    + "# Aider reads CONTEXT.md directly, but key standards are summarized here as comments\n"
  }

  /** The header, the banner, and then one rendering per rule. */
  function Parts(rules: seq<Rule>, render: Rule -> string): seq<string> {
    [BuildHeader(), Banner] + seq(|rules|, i requires 0 <= i < |rules| => render(rules[i]))
  }

  /** What `transform` writes into its one file. */
  function Content(rules: seq<Rule>, render: Rule -> string): string {
    Join(Parts(rules, render), "\n")
  }

  /** `AiderTransformer.transform`: exactly one file, the configuration. */
  method Transform(rules: seq<Rule>, render: Rule -> string) returns (files: Dict<string>)
    ensures files == [(OutputFile, Content(rules, render))]
  {
    var parts := [BuildHeader()];
    parts := parts + [Banner];
    var i := 0;
    while i < |rules|
      invariant 0 <= i <= |rules|
      invariant parts == Parts(rules[..i], render)
    {
      parts := parts + [render(rules[i])];
      i := i + 1;
      assert parts == Parts(rules[..i], render);
    }
    assert rules[..i] == rules;
    files := [(OutputFile, Join(parts, "\n"))];
  }

  /**
   * Two fixed parts, the header and then the banner, come before one part per rule in
   * input order.
   */
  lemma PartsLayout(rules: seq<Rule>, render: Rule -> string)
    ensures |Parts(rules, render)| == 2 + |rules|
    ensures Parts(rules, render)[0] == BuildHeader() && Parts(rules, render)[1] == Banner
    ensures forall i :: 0 <= i < |rules| ==> Parts(rules, render)[i + 2] == render(rules[i])
  {
  }

  /** The file opens with the header and holds the banner and every rule's rendering. */
  lemma ContentShape(rules: seq<Rule>, render: Rule -> string, i: nat)
    requires i < |rules|
    ensures StartsWith(Content(rules, render), BuildHeader())
    ensures Contains(Content(rules, render), Banner)
    ensures Contains(Content(rules, render), render(rules[i]))
  {
    var parts := Parts(rules, render);
    JoinStartsWith(parts, "\n");
    JoinKeepsParts(parts, "\n", 1);
    JoinKeepsParts(parts, "\n", i + 2);
  }
}
