/**
 * The Continue.dev transformer (transformers/continue_dev.py): one YAML file with the
 * header, a `rules:` key and each rule's rendering re-indented as an item of the list.
 */
module ContinueDev {
  import opened Text
  import opened Dict
  import opened Parser

  const OutputFile: string := ".continue/config.yaml"

  /** The first line of an item opens the YAML list entry. */
  const ItemPrefix: string := "  - "

  /** Later lines are indented to continue the entry. */
  const ContinuationPrefix: string := "    "

  /** The fixed preamble of the configuration file. */
  function BuildHeader(): string {
    "# Continue.dev Configuration\n"
    + "# AUTO-GENERATED from CONTEXT.md\n"
    + "\n"
    + "# This file contains coding standards and rules derived from CONTEXT.md\n"
  }

  /**
   * A line after the first: indented when it has text, emptied when it is blank (a
   * blank line is one that `strip()` empties, by `StripEmptyIffBlank`).
   */
  function ContinuationLine(line: string): string {
    if IsBlank(line) then "" else ContinuationPrefix + line
  }

  /** The first `k` re-indented lines of a rendering cut into `lines`. */
  function IndentedUpTo(lines: seq<string>, k: nat): (out: seq<string>)
    requires 1 <= k <= |lines|
    decreases k
    ensures |out| == k
  {
    if k == 1 then [ItemPrefix + lines[0]]
    else IndentedUpTo(lines, k - 1) + [ContinuationLine(lines[k - 1])]
  }

  /** The first line gets the item prefix and every later one is a continuation line. */
  lemma {:induction false} IndentedAt(lines: seq<string>, k: nat, i: nat)
    requires i < k <= |lines|
    decreases k
    ensures IndentedUpTo(lines, k)[i] == if i == 0 then ItemPrefix + lines[0] else ContinuationLine(lines[i])
  {
    if i < k - 1 {
      IndentedAt(lines, k - 1, i);
    }
  }

  /** The re-indented lines of a rendering cut into `lines`. */
  function IndentedLines(lines: seq<string>): seq<string>
    requires |lines| >= 1
  {
    IndentedUpTo(lines, |lines|)
  }

  /** A rendered rule as a list item. */
  function IndentBlock(rendered: string): string {
    Join(IndentedLines(Split(rendered, '\n')), "\n")
  }

  /**
   * The item has as many lines as the rendering: the first line gets the item prefix,
   * every later line with text gets four spaces, and every blank line becomes empty.
   */
  lemma IndentBlockLines(rendered: string)
    ensures var lines := Split(rendered, '\n');
      var out := Split(IndentBlock(rendered), '\n');
      && |out| == |lines|
      && out[0] == ItemPrefix + lines[0]
      && forall i :: 1 <= i < |lines| ==>
           out[i] == (if IsBlank(lines[i]) then "" else ContinuationPrefix + lines[i])
  {
    var lines := Split(rendered, '\n');
    var indented := IndentedLines(lines);
    SplitPiecesFree(rendered, '\n');
    forall i | 0 <= i < |indented| ensures '\n' !in indented[i] {
      IndentedAt(lines, |lines|, i);
      assert '\n' !in lines[i];
    }
    SplitJoin(indented, '\n');
    IndentedAt(lines, |lines|, 0);
    forall i | 1 <= i < |lines|
      ensures indented[i] == (if IsBlank(lines[i]) then "" else ContinuationPrefix + lines[i])
    {
      IndentedAt(lines, |lines|, i);
    }
  }

  /** The inner loop of `transform`: the item lines of one rendered rule. */
  method IndentRule(rendered: string) returns (block: string)
    ensures block == IndentBlock(rendered)
  {
    var lines := Split(rendered, '\n');
    var indentedLines := [ItemPrefix + lines[0]];
    var k := 1;
    while k < |lines|
      invariant 1 <= k <= |lines|
      invariant indentedLines == IndentedUpTo(lines, k)
    {
      var line := lines[k];
      StripEmptyIffBlank(line);
      if Strip(line) != "" {
        indentedLines := indentedLines + [ContinuationPrefix + line];
      } else {
        indentedLines := indentedLines + [""];
      }
      k := k + 1;
    }
    block := Join(indentedLines, "\n");
  }

  /** The header, the `rules:` key and one item per rule, in order. */
  function Parts(rules: seq<Rule>, render: Rule -> string): (parts: seq<string>)
    ensures |parts| == 2 + |rules|
  {
    [BuildHeader(), "rules:"] + seq(|rules|, i requires 0 <= i < |rules| => IndentBlock(render(rules[i])))
  }

  /** One more rule adds its item at the end. */
  lemma PartsSnoc(rules: seq<Rule>, render: Rule -> string, i: nat)
    requires i < |rules|
    ensures Parts(rules[..i + 1], render) == Parts(rules[..i], render) + [IndentBlock(render(rules[i]))]
  {
    var a := Parts(rules[..i + 1], render);
    var b := Parts(rules[..i], render) + [IndentBlock(render(rules[i]))];
    assert |a| == |b|;
    forall k | 0 <= k < |a| ensures a[k] == b[k] {
      if k >= 2 {
        assert rules[..i + 1][k - 2] == rules[k - 2];
      }
    }
  }

  /** What `transform` writes into its one file. */
  function Content(rules: seq<Rule>, render: Rule -> string): string {
    Join(Parts(rules, render), "\n")
  }

  /** `ContinueTransformer.transform`: exactly one file, the configuration. */
  method Transform(rules: seq<Rule>, render: Rule -> string) returns (files: Dict<string>)
    ensures files == [(OutputFile, Content(rules, render))]
  {
    var parts := [BuildHeader()];
    parts := parts + ["rules:"];
    var i := 0;
    while i < |rules|
      invariant 0 <= i <= |rules|
      invariant parts == Parts(rules[..i], render)
    {
      var block := IndentRule(render(rules[i]));
      PartsSnoc(rules, render, i);
      parts := parts + [block];
      i := i + 1;
    }
    assert rules[..i] == rules;
    files := [(OutputFile, Join(parts, "\n"))];
  }

  /** The file opens with the header, and the `rules:` key and every item follow. */
  lemma ContentShape(rules: seq<Rule>, render: Rule -> string, i: nat)
    requires i < |rules|
    ensures StartsWith(Content(rules, render), BuildHeader())
    ensures Contains(Content(rules, render), "rules:")
    ensures Contains(Content(rules, render), IndentBlock(render(rules[i])))
  {
    var parts := Parts(rules, render);
    JoinStartsWith(parts, "\n");
    JoinKeepsParts(parts, "\n", 1);
    JoinKeepsParts(parts, "\n", i + 2);
  }
}
