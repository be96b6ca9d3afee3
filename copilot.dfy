/** The Copilot transformer: all rules, grouped by section, in one instructions file. */
module Copilot {
  import opened Text
  import opened Dict
  import opened Parser
  import Sectioned

  const OutputFile: string := ".github/copilot-instructions.md"

  /** Sections are introduced by a first-level heading. */
  const SectionHeading: string := "# "

  /** The fixed preamble of the document. */
  function BuildHeader(): string {
    "# GitHub Copilot Instructions\n\n"
    + "**AUTO-GENERATED** from CONTEXT.md - Do not edit manually.\n\n"
    + "Quick reference guide for GitHub Copilot code generation.\n"
  }

  /**
   * One output file holding the section-grouped document; the file lies in the
   * `.github` directory, where Copilot looks for it.
   */
  method Transform(rules: seq<Rule>, render: Rule -> string) returns (files: Dict<string>)
    ensures files == [(OutputFile, Sectioned.Content(BuildHeader(), SectionHeading, rules, render))]
    ensures StartsWith(files[0].0, ".github/")
  {
    var content := Sectioned.Transform(BuildHeader(), SectionHeading, rules, render);
    files := [(OutputFile, content)];
    OutputFileInGithub();
  }

  /** Proof helper: the file's directory, checked apart from the header text. */
  lemma OutputFileInGithub()
    ensures StartsWith(OutputFile, ".github/")
  {
    assert OutputFile[..8] == ".github/";
  }
}
