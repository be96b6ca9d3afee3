/** The Claude transformer: all rules, grouped by section, in one `CLAUDE.md`. */
module Claude {
  import opened Dict
  import opened Parser
  import Sectioned

  const OutputFile: string := "CLAUDE.md"

  /** Sections are introduced by a second-level heading. */
  const SectionHeading: string := "## "

  /**
   * The fixed preamble of the document, one source line per line. The longer lines are
   * cut into short pieces at word boundaries: long string literals make the verifier's
   * work on every proof that mentions the header grow fast with their length.
   */
  function BuildHeader(): string {
    "# Claude AI " + "Instructions " + "for Engineering " + "Projects\n"
    + "\n"
    + "You are Claude, " + "an AI assistant " + "working on a " + "software " + "engineering " + "project that " + "follows\n"
    + "strict quality " + "and security " + "standards. This " + "document " + "defines your " + "operational " + "guardrails.\n"
    + "\n"
    + "**IMPORTANT:** " + "This document " + "is " + "automatically " + "generated from " + "CONTEXT.md.\n"
    + "Any manual " + "edits will be " + "overwritten. To " + "update, modify " + "CONTEXT.md and " + "run the sync " + "script.\n"
    + "\n"
    + "---\n"
    + "\n"
    + "## \U{1F3AF} " + "Your Role\n"
    + "\n"
    + "You are working " + "within a " + "**governed " + "framework** " + "where:\n"
    + "\n"
    + "- " + "**Documentation " + "is " + "authoritative** " + "- Follow all " + "standards " + "defined here\n"
    + "- **Security is " + "paramount** - " + "Never commit " + "secrets or " + "credentials\n"
    + "- **Quality is " + "enforced** - " + "All changes " + "must pass " + "pre-commit " + "checks\n"
    + "- " + "**Explicitness " + "is required** - " + "No implicit " + "assumptions\n"
    + "\n"
    + "---\n"
  }

  /**
   * One output file, `CLAUDE.md`, holding the section-grouped document; the file lies
   * at the top of the project, outside every directory.
   */
  method Transform(rules: seq<Rule>, render: Rule -> string) returns (files: Dict<string>)
    ensures files == [(OutputFile, Sectioned.Content(BuildHeader(), SectionHeading, rules, render))]
    ensures '/' !in files[0].0
  {
    OutputFileAtTop();
    var content := Sectioned.Transform(BuildHeader(), SectionHeading, rules, render);
    files := [(OutputFile, content)];
  }

  /** Proof helper: the file name, checked apart from the long header text. */
  lemma OutputFileAtTop()
    ensures '/' !in OutputFile
  {
  }
}
