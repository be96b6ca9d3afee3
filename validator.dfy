/**
 * The checker of generated files (validator.py): files are checked by their suffix
 * (YAML syntax, `.mdc` front matter, Markdown fences and headings) and every file gets
 * the common layout checks (trailing whitespace, final newline, long lines outside
 * code blocks). Findings are strings collected into a list of errors and a list of
 * warnings; only errors make the validation fail.
 *
 * `yaml.safe_load` is a parameter `load` that gives the top-level keys of a document
 * or the message of its syntax error.
 */
module Validation {
  import opened Wrappers
  import opened Text
  import opened Dict

  /** What `yaml.safe_load` makes of a text: its top-level keys, or a syntax error. */
  datatype YamlLoad = Loaded(keys: seq<string>) | Invalid(message: string)

  // ----- Path.suffix -----

  /** Index of the last `c` before index `j`, or -1 when there is none. */
  function LastIndex(s: string, c: char, j: nat): (k: int)
    requires j <= |s|
    ensures -1 <= k < j
    ensures k >= 0 ==> s[k] == c
  {
    if j == 0 then -1 else if s[j - 1] == c then j - 1 else LastIndex(s, c, j - 1)
  }

  /**
   * The index is the last occurrence before `j`: no `c` lies after it, so -1 means
   * that `c` does not occur before `j` at all.
   */
  lemma {:induction false} LastIndexIsLast(s: string, c: char, j: nat)
    requires j <= |s|
    decreases j
    ensures forall m :: LastIndex(s, c, j) < m < j ==> s[m] != c
    ensures LastIndex(s, c, j) == -1 <==> c !in s[..j]
  {
    if j > 0 && s[j - 1] != c {
      LastIndexIsLast(s, c, j - 1);
      assert s[..j] == s[..j - 1] + [s[j - 1]];
    } else if j > 0 {
      assert s[..j][j - 1] == c;
    }
  }

  /** `Path(path).name`: what follows the last slash. */
  function Name(path: string): string {
    path[LastIndex(path, '/', |path|) + 1..]
  }

  /**
   * `Path(path).suffix`: the name from its last dot on, provided the dot is neither
   * the first nor the last character of the name; "" otherwise.
   */
  function Suffix(path: string): string {
    NameSuffix(Name(path))
  }

  /** The suffix of a file name. */
  function NameSuffix(name: string): string {
    var i := LastIndex(name, '.', |name|);
    if 0 < i < |name| - 1 then name[i..] else ""
  }

  /**
   * The name is the last component of the path: a slash-free end of it that is either
   * the whole path or preceded by a slash.
   */
  lemma NameIsLastComponent(path: string)
    ensures var name := Name(path);
      && EndsWith(path, name) && '/' !in name
      && (|name| == |path| || path[|path| - |name| - 1] == '/')
  {
    var k := LastIndex(path, '/', |path|);
    LastIndexIsLast(path, '/', |path|);
    var name := path[k + 1..];
    forall m | 0 <= m < |name| ensures name[m] != '/' {
      assert name[m] == path[k + 1 + m];
    }
  }

  /**
   * A suffix is either empty or a dot followed by at least one dot-free character, at
   * the end of the name and after at least one other character; with `NameSuffixOf`,
   * such an ending is exactly the suffix.
   */
  lemma NameSuffixShape(name: string)
    ensures var r := NameSuffix(name);
      r == "" || (|r| >= 2 && r[0] == '.' && '.' !in r[1..] && |r| < |name| && EndsWith(name, r))
  {
    var i := LastIndex(name, '.', |name|);
    LastIndexIsLast(name, '.', |name|);
    if 0 < i < |name| - 1 {
      var r := name[i..];
      forall m | 0 <= m < |r| - 1 ensures r[1..][m] != '.' {
        assert r[1..][m] == name[i + 1 + m];
      }
    }
  }

  /** A stretch without `c` before index `j` does not move the last `c`. */
  lemma {:induction false} LastIndexSkip(s: string, c: char, i: nat, j: nat)
    requires i <= j <= |s|
    requires forall m :: i <= m < j ==> s[m] != c
    decreases j - i
    ensures LastIndex(s, c, j) == LastIndex(s, c, i)
  {
    if i < j {
      LastIndexSkip(s, c, i, j - 1);
    }
  }

  /** The name of a path starts after any prefix whose rest holds no slash. */
  lemma NameAfter(path: string, d: nat)
    requires d <= |path| && '/' !in path[d..]
    ensures LastIndex(path, '/', |path|) < d
  {
    forall m | d <= m < |path| ensures path[m] != '/' {
      assert path[m] == path[d..][m - d];
    }
    LastIndexSkip(path, '/', d, |path|);
  }

  /** The name of `dir + base` ends with `base` when `base` has no slash. */
  lemma NameEndsWith(dir: string, base: string)
    requires '/' !in base
    ensures |base| <= |Name(dir + base)| && EndsWith(Name(dir + base), base)
  {
    var path := dir + base;
    assert path[|dir|..] == base;
    NameAfter(path, |dir|);
    var k := LastIndex(path, '/', |path|);
    var name := path[k + 1..];
    assert name[|name| - |base|..] == path[|dir|..];
  }

  /** A name that ends in a dot and at least one dot-free character, after a stem, has that suffix. */
  lemma NameSuffixOf(name: string, ext: string)
    requires |ext| >= 2 && ext[0] == '.' && '.' !in ext[1..]
    requires |ext| < |name| && EndsWith(name, ext)
    ensures NameSuffix(name) == ext
  {
    var d := |name| - |ext|;
    assert name[d..] == ext;
    forall m | d < m < |name| ensures name[m] != '.' {
      assert name[m] == ext[1..][m - d - 1];
    }
    LastIndexSkip(name, '.', d + 1, |name|);
    assert LastIndex(name, '.', d + 1) == d;
  }

  /**
   * A file `dir + stem + ext` whose extension is a dot and at least one more character,
   * after a non-empty stem, and no slash in stem or extension, has that extension as
   * its suffix, whatever the directory.
   */
  lemma SuffixOf(dir: string, stem: string, ext: string)
    requires stem != [] && '/' !in stem && '/' !in ext
    requires |ext| >= 2 && ext[0] == '.' && '.' !in ext[1..]
    ensures Suffix(dir + stem + ext) == ext
  {
    assert dir + stem + ext == dir + (stem + ext);
    NameEndsWith(dir, stem + ext);
    var name := Name(dir + (stem + ext));
    assert name[|name| - |ext|..] == (stem + ext)[|stem|..];
    NameSuffixOf(name, ext);
  }

  // ----- _validate_yaml -----

  /** `_validate_yaml`: one error exactly when the document does not load. */
  function YamlErrors(path: string, content: string, load: string -> YamlLoad): (errors: seq<string>)
    ensures |errors| <= 1 && (errors != [] <==> load(content).Invalid?)
  {
    match load(content)
    case Invalid(e) => [path + ": Invalid YAML syntax: " + e]
    case Loaded(_) => []
  }

  // ----- _validate_markdown -----

  const Ticks: string := "```"

  /** `len(re.findall("```", s[i:]))`: occurrences counted left to right without overlap. */
  function CountTicks(s: string, i: nat): nat
    requires i <= |s|
    decreases |s| - i
  {
    if i + 3 <= |s| && s[i..i + 3] == Ticks then 1 + CountTicks(s, i + 3)
    else if i < |s| then CountTicks(s, i + 1)
    else 0
  }

  /** A stretch without backticks does not change the count. */
  lemma {:induction false} CountTicksSkip(s: string, i: nat, j: nat)
    requires i <= j <= |s|
    requires forall m :: i <= m < j ==> s[m] != '`'
    decreases j - i
    ensures CountTicks(s, i) == CountTicks(s, j)
  {
    if i < j {
      if i + 3 <= |s| {
        assert s[i..i + 3][0] == s[i];
      }
      CountTicksSkip(s, i + 1, j);
    }
  }

  /** Counting from index `|p|` of `p + t` is counting in `t`. */
  lemma {:induction false} CountTicksShift(p: string, t: string, i: nat)
    requires i <= |t|
    decreases |t| - i
    ensures CountTicks(p + t, |p| + i) == CountTicks(t, i)
  {
    var s := p + t;
    if i + 3 <= |t| {
      assert s[|p| + i..|p| + i + 3] == t[i..i + 3];
    }
    if i + 3 <= |t| && t[i..i + 3] == Ticks {
      CountTicksShift(p, t, i + 3);
    } else if i < |t| {
      CountTicksShift(p, t, i + 1);
    }
  }

  /**
   * A closed fence whose language and code have no backtick, after text without a
   * backtick, adds two to the count: it never changes whether a fence is left open.
   */
  lemma ClosedFenceCountsTwo(before: string, lang: string, code: string, after: string)
    requires '`' !in before && '`' !in lang && '`' !in code
    ensures CountTicks(before + Ticks + lang + "\n" + code + Ticks + after, 0) == 2 + CountTicks(after, 0)
  {
    var mid := lang + "\n" + code;
    var p := before + Ticks + mid + Ticks;
    var s := p + after;
    assert s == before + Ticks + lang + "\n" + code + Ticks + after;
    var b := |before|;
    var q := b + 3 + |mid|;
    forall m | 0 <= m < b ensures s[m] != '`' {
      assert s[m] == before[m];
    }
    CountTicksSkip(s, 0, b);
    forall m | b + 3 <= m < q ensures s[m] != '`' {
      assert s[m] == mid[m - b - 3];
    }
    assert s[b..b + 3] == Ticks && s[q..q + 3] == Ticks;
    FenceAt(s, b, q);
    CountTicksShift(p, after, 0);
  }

  /** Two fences with no backtick between them count two. */
  lemma FenceAt(s: string, b: nat, q: nat)
    requires b + 3 <= q && q + 3 <= |s|
    requires s[b..b + 3] == Ticks && s[q..q + 3] == Ticks
    requires forall m :: b + 3 <= m < q ==> s[m] != '`'
    ensures CountTicks(s, b) == 2 + CountTicks(s, q + 3)
  {
    CountTicksSkip(s, b + 3, q);
  }

  /** A text without backticks has no fence. */
  lemma NoBacktickNoFence(s: string)
    requires '`' !in s
    ensures CountTicks(s, 0) == 0
  {
    CountTicksSkip(s, 0, |s|);
  }

  function FenceErrors(path: string, content: string): seq<string> {
    if CountTicks(content, 0) % 2 != 0 then [path + ": Unclosed code fence"] else []
  }

  /** End of the run of '#' that starts at index `i`. */
  function HashesEnd(s: string, i: nat): (j: nat)
    requires i <= |s|
    decreases |s| - i
    ensures i <= j <= |s|
  {
    if i < |s| && s[i] == '#' then HashesEnd(s, i + 1) else i
  }

  /** Index `p` starts a line: it is the first index or follows a line break. */
  predicate LineStart(s: string, p: nat)
    requires p <= |s|
  {
    p == 0 || s[p - 1] == '\n'
  }

  /**
   * The heading `re.findall(r"^(#{1,6})\s+", content, re.MULTILINE)` finds at index
   * `p`: at the start of a line, one to six '#' and then a whitespace character (the
   * line break ending a line made only of '#' counts). Whitespace never starts a
   * heading, so the matches that `findall` skips over never hide one.
   */
  function HeadingAt(s: string, p: nat): (level: Option<nat>)
    requires p < |s|
    ensures level.Some? ==> 1 <= level.value <= 6
  {
    var e := HashesEnd(s, p);
    if LineStart(s, p) && 1 <= e - p <= 6 && e < |s| && IsSpace(s[e]) then Some(e - p) else None
  }

  /** The levels of the headings that start before index `n`, in order. */
  function LevelsUpTo(s: string, n: nat): seq<nat>
    requires n <= |s|
  {
    if n == 0 then []
    else
      var rest := LevelsUpTo(s, n - 1);
      match HeadingAt(s, n - 1)
      case Some(l) => rest + [l]
      case None => rest
  }

  /** The heading levels of a Markdown text, in order. */
  function Levels(content: string): seq<nat> {
    LevelsUpTo(content, |content|)
  }

  /** Every level found is between one and six. */
  lemma {:induction false} LevelsInRange(s: string, n: nat)
    requires n <= |s|
    ensures forall k :: 0 <= k < |LevelsUpTo(s, n)| ==> 1 <= LevelsUpTo(s, n)[k] <= 6
  {
    if n > 0 {
      LevelsInRange(s, n - 1);
    }
  }

  /** A text that opens with `level` hashes and a space has that heading first. */
  lemma FirstHeading(s: string, level: nat)
    requires 1 <= level <= 6 && level < |s|
    requires forall k :: 0 <= k < level ==> s[k] == '#'
    requires s[level] == ' '
    ensures |Levels(s)| >= 1 && Levels(s)[0] == level
  {
    HashesRun(s, 0, level);
    LevelsUpToFirst(s, |s|);
  }

  /** A run of '#' from `i` up to a non-'#' at `j` ends at `j`. */
  lemma {:induction false} HashesRun(s: string, i: nat, j: nat)
    requires i <= j < |s| && s[j] != '#'
    requires forall k :: i <= k < j ==> s[k] == '#'
    decreases j - i
    ensures HashesEnd(s, i) == j
  {
    if i < j {
      HashesRun(s, i + 1, j);
    }
  }

  /** Once a heading at index 0 is found, it stays first. */
  lemma {:induction false} LevelsUpToFirst(s: string, n: nat)
    requires 1 <= n <= |s| && HeadingAt(s, 0).Some?
    ensures |LevelsUpTo(s, n)| >= 1 && LevelsUpTo(s, n)[0] == HeadingAt(s, 0).value
  {
    if n > 1 {
      LevelsUpToFirst(s, n - 1);
    }
  }

  /** The positions `i` where the level rises by more than one from position `i - 1`. */
  function Skips(levels: seq<nat>): (idx: seq<nat>)
    ensures forall k :: 0 <= k < |idx| ==> 1 <= idx[k] < |levels|
  {
    if |levels| < 2 then []
    else
      var n := |levels| - 1;
      Skips(levels[..n]) + (if levels[n] > levels[n - 1] + 1 then [n] else [])
  }

  /** A skip is reported exactly where the level rises by more than one; a fall never is. */
  lemma {:induction false} SkipsSpec(levels: seq<nat>)
    ensures forall i :: 1 <= i < |levels| ==> (i in Skips(levels) <==> levels[i] > levels[i - 1] + 1)
  {
    if |levels| >= 2 {
      var n := |levels| - 1;
      var init := levels[..n];
      SkipsSpec(init);
      forall i | 1 <= i < |levels| ensures i in Skips(levels) <==> levels[i] > levels[i - 1] + 1 {
        if i < n {
          assert init[i] == levels[i] && init[i - 1] == levels[i - 1];
        }
      }
    }
  }

  function SkipMessage(path: string, from: nat, to: nat): string {
    path + ": Heading hierarchy skip (#" + NatToString(from) + " -> #" + NatToString(to) + ")"
  }

  /** `for i in range(1, len(levels))`: one warning per skip, in order. */
  function SkipWarnings(path: string, levels: seq<nat>): (w: seq<string>)
    ensures |w| == |Skips(levels)|
  {
    if |levels| < 2 then []
    else
      var n := |levels| - 1;
      SkipWarnings(path, levels[..n])
        + (if levels[n] > levels[n - 1] + 1 then [SkipMessage(path, levels[n - 1], levels[n])] else [])
  }

  /** The `k`-th skip warning names the levels on both sides of the `k`-th skip. */
  lemma {:induction false} SkipWarningsAt(path: string, levels: seq<nat>, k: nat)
    requires k < |Skips(levels)|
    ensures var i := Skips(levels)[k];
      SkipWarnings(path, levels)[k] == SkipMessage(path, levels[i - 1], levels[i])
  {
    var n := |levels| - 1;
    var init := levels[..n];
    if k < |Skips(init)| {
      SkipWarningsAt(path, init, k);
      var i := Skips(init)[k];
      assert init[i - 1] == levels[i - 1] && init[i] == levels[i];
    }
  }

  /** Headings that never go down more than one level at a time draw no warning. */
  lemma NoSkipNoWarning(path: string, levels: seq<nat>)
    ensures SkipWarnings(path, levels) == [] <==>
      forall i :: 1 <= i < |levels| ==> levels[i] <= levels[i - 1] + 1
  {
    SkipsSpec(levels);
    if Skips(levels) != [] {
      assert Skips(levels)[0] in Skips(levels);
    }
  }

  function MarkdownErrors(path: string, content: string): seq<string> {
    FenceErrors(path, content)
  }

  function MarkdownWarnings(path: string, content: string): seq<string> {
    SkipWarnings(path, Levels(content))
  }

  // ----- _validate_mdc -----

  const Delimiter: string := "---"

  /** The front matter gives one error exactly when it does not load as YAML. */
  function FrontmatterErrors(path: string, loaded: YamlLoad): (errors: seq<string>)
    ensures |errors| <= 1 && (errors != [] <==> loaded.Invalid?)
  {
    match loaded
    case Invalid(e) => [path + ": Invalid frontmatter YAML: " + e]
    case Loaded(_) => []
  }

  /**
   * A loaded front matter gives one warning per missing required key, `priority` before
   * `globs`; one that does not load gives none.
   */
  function FrontmatterWarnings(path: string, loaded: YamlLoad): (warnings: seq<string>)
    ensures |warnings| <= 2
    ensures loaded.Invalid? ==> warnings == []
    ensures loaded.Loaded? ==> (warnings == [] <==> "priority" in loaded.keys && "globs" in loaded.keys)
  {
    match loaded
    case Invalid(_) => []
    case Loaded(keys) =>
      (if "priority" !in keys then [path + ": Missing 'priority' in frontmatter"] else [])
      + (if "globs" !in keys then [path + ": Missing 'globs' in frontmatter"] else [])
  }

  /**
   * `content.split("---", 2)` on a text that starts with "---": the front matter lies
   * between the opening delimiter and the next one, found from index 3 on.
   */
  function MdcErrors(path: string, content: string, load: string -> YamlLoad): seq<string> {
    if !StartsWith(content, Delimiter) then [path + ": Missing YAML frontmatter"]
    else
      match Find(content, Delimiter, 3)
      case None => [path + ": Invalid frontmatter structure"]
      case Some(j) => FrontmatterErrors(path, load(content[3..j])) + MarkdownErrors(path, content[j + 3..])
  }

  function MdcWarnings(path: string, content: string, load: string -> YamlLoad): seq<string> {
    if !StartsWith(content, Delimiter) then []
    else
      match Find(content, Delimiter, 3)
      case None => []
      case Some(j) => FrontmatterWarnings(path, load(content[3..j])) + MarkdownWarnings(path, content[j + 3..])
  }

  /** Once both delimiters are found, the front matter and the Markdown after it are checked. */
  lemma MdcClosed(path: string, content: string, load: string -> YamlLoad, j: nat)
    requires StartsWith(content, Delimiter) && Find(content, Delimiter, 3) == Some(j)
    ensures j + 3 <= |content|
    ensures MdcErrors(path, content, load) ==
      FrontmatterErrors(path, load(content[3..j])) + MarkdownErrors(path, content[j + 3..])
    ensures MdcWarnings(path, content, load) ==
      FrontmatterWarnings(path, load(content[3..j])) + MarkdownWarnings(path, content[j + 3..])
  {
  }

  /** Without the opening delimiter, the one finding is the missing front matter. */
  lemma MissingFrontmatter(path: string, content: string, load: string -> YamlLoad)
    requires !StartsWith(content, Delimiter)
    ensures MdcErrors(path, content, load) == [path + ": Missing YAML frontmatter"]
    ensures MdcWarnings(path, content, load) == []
  {
  }

  /** With the opening delimiter but no second one, the one finding is the bad structure. */
  lemma UnclosedFrontmatter(path: string, content: string, load: string -> YamlLoad)
    requires StartsWith(content, Delimiter)
    requires forall j: nat :: 3 <= j ==> !OccursAt(content, Delimiter, j)
    ensures MdcErrors(path, content, load) == [path + ": Invalid frontmatter structure"]
    ensures MdcWarnings(path, content, load) == []
  {
    var f := Find(content, Delimiter, 3);
    assert f.None?;
  }

  /**
   * A second delimiter is always found when one occurs after the opening one: the
   * structure is then accepted and the text after it is checked as Markdown.
   */
  lemma ClosedFrontmatter(path: string, content: string, load: string -> YamlLoad, k: nat)
    requires StartsWith(content, Delimiter) && 3 <= k && OccursAt(content, Delimiter, k)
    ensures Find(content, Delimiter, 3).Some?
    ensures var j := Find(content, Delimiter, 3).value;
      MdcErrors(path, content, load) ==
        FrontmatterErrors(path, load(content[3..j])) + MarkdownErrors(path, content[j + 3..])
  {
    FindFirstOccurrence(content, Delimiter, 3);
  }

  // ----- _validate_common -----

  /** `line.endswith(" ") or line.endswith("\t")`: the last character is a space or a tab. */
  predicate TrailingBlank(line: string) {
    |line| > 0 && (line[|line| - 1] == ' ' || line[|line| - 1] == '\t')
  }

  /** The 1-based numbers of the lines among the first `n` that end in a space or a tab. */
  function TrailingLines(lines: seq<string>, n: nat): (nums: seq<nat>)
    requires n <= |lines|
    ensures forall k :: 0 <= k < |nums| ==> 1 <= nums[k] <= n
  {
    if n == 0 then []
    else TrailingLines(lines, n - 1) + (if TrailingBlank(lines[n - 1]) then [n] else [])
  }

  /** Line `m` is reported exactly when it ends in a space or a tab. */
  lemma {:induction false} TrailingLinesSpec(lines: seq<string>, n: nat)
    requires n <= |lines|
    ensures forall i :: 0 <= i < n ==> (i + 1 in TrailingLines(lines, n) <==> TrailingBlank(lines[i]))
  {
    if n > 0 {
      TrailingLinesSpec(lines, n - 1);
    }
  }

  function TrailingMessage(path: string, n: nat): string {
    path + ":" + NatToString(n) + ": Trailing whitespace"
  }

  function TrailingWarnings(path: string, lines: seq<string>, n: nat): (w: seq<string>)
    requires n <= |lines|
    ensures |w| == |TrailingLines(lines, n)|
  {
    if n == 0 then []
    else TrailingWarnings(path, lines, n - 1) + (if TrailingBlank(lines[n - 1]) then [TrailingMessage(path, n)] else [])
  }

  /** The `k`-th trailing-whitespace warning carries the number of the `k`-th such line. */
  lemma {:induction false} TrailingWarningsAt(path: string, lines: seq<string>, n: nat, k: nat)
    requires n <= |lines| && k < |TrailingLines(lines, n)|
    ensures TrailingWarnings(path, lines, n)[k] == TrailingMessage(path, TrailingLines(lines, n)[k])
  {
    if k < |TrailingLines(lines, n - 1)| {
      TrailingWarningsAt(path, lines, n - 1, k);
    }
  }

  function FinalNewlineWarnings(path: string, content: string): seq<string> {
    if content != "" && !EndsWith(content, "\n") then [path + ": Missing final newline"] else []
  }

  /** A line that toggles the code-block state: three backticks right after its indentation. */
  predicate IsFenceLine(line: string) {
    OccursAt(line, Ticks, SpacesEnd(line, 0))
  }

  /** A fence line is exactly one for which `line.strip().startswith("```")` holds. */
  lemma FenceLineIsStripped(line: string)
    ensures IsFenceLine(line) <==> StartsWith(Strip(line), Ticks)
  {
    var e := SpacesEnd(line, 0);
    var l := line[e..];
    var p := SpacesStart(l, |l|);
    assert Strip(line) == l[..p];
    if IsFenceLine(line) {
      assert l[..3] == Ticks;
      assert l[2] == '`';
      assert p >= 3;
      assert l[..p][..3] == Ticks;
    }
    if StartsWith(Strip(line), Ticks) {
      assert l[..p][..3] == l[..3];
      assert line[e..e + 3] == l[..3];
    }
  }

  /** Whether a code block is open after the first `n` lines: an odd number of them are fence lines. */
  function InBlock(lines: seq<string>, n: nat): bool
    requires n <= |lines|
  {
    if n == 0 then false
    else if IsFenceLine(lines[n - 1]) then !InBlock(lines, n - 1)
    else InBlock(lines, n - 1)
  }

  const MaxLineLength: nat := 120

  /** A line reported as too long: not a fence line, outside a code block, over 120 characters. */
  predicate TooLong(lines: seq<string>, i: nat)
    requires i < |lines|
  {
    !IsFenceLine(lines[i]) && !InBlock(lines, i) && |lines[i]| > MaxLineLength
  }

  /** The 1-based numbers of the lines among the first `n` reported as too long. */
  function LongLines(lines: seq<string>, n: nat): (nums: seq<nat>)
    requires n <= |lines|
    ensures forall k :: 0 <= k < |nums| ==> 1 <= nums[k] <= n
  {
    if n == 0 then []
    else LongLines(lines, n - 1) + (if TooLong(lines, n - 1) then [n] else [])
  }

  /**
   * Line `m` is reported exactly when it is longer than 120 characters, is not itself
   * a fence line and lies outside any code block opened before it.
   */
  lemma {:induction false} LongLinesSpec(lines: seq<string>, n: nat)
    requires n <= |lines|
    ensures forall i :: 0 <= i < n ==> (i + 1 in LongLines(lines, n) <==> TooLong(lines, i))
  {
    if n > 0 {
      LongLinesSpec(lines, n - 1);
    }
  }

  /** A fence line is never reported as too long, however long it is. */
  lemma FenceLineNeverLong(lines: seq<string>, i: nat)
    requires i < |lines| && IsFenceLine(lines[i])
    ensures i + 1 !in LongLines(lines, |lines|)
  {
    LongLinesSpec(lines, |lines|);
    assert !TooLong(lines, i);
  }

  /** Inside a block opened by a fence line, lines up to the closing fence are never reported. */
  lemma InsideBlockNeverLong(lines: seq<string>, open: nat, i: nat)
    requires open < i < |lines| && IsFenceLine(lines[open]) && !InBlock(lines, open)
    requires forall j :: open < j < i ==> !IsFenceLine(lines[j])
    ensures i + 1 !in LongLines(lines, |lines|)
  {
    LongLinesSpec(lines, |lines|);
    StillInBlock(lines, open, i);
    assert !TooLong(lines, i);
  }

  lemma {:induction false} StillInBlock(lines: seq<string>, open: nat, i: nat)
    requires open < i <= |lines| && IsFenceLine(lines[open]) && !InBlock(lines, open)
    requires forall j :: open < j < i ==> !IsFenceLine(lines[j])
    ensures InBlock(lines, i)
  {
    if i > open + 1 {
      StillInBlock(lines, open, i - 1);
    }
  }

  function LongMessage(path: string, n: nat, length: nat): string {
    path + ":" + NatToString(n) + ": Line too long (" + NatToString(length) + " chars)"
  }

  function LongWarnings(path: string, lines: seq<string>, n: nat): (w: seq<string>)
    requires n <= |lines|
    ensures |w| == |LongLines(lines, n)|
  {
    if n == 0 then []
    else LongWarnings(path, lines, n - 1) + (if TooLong(lines, n - 1) then [LongMessage(path, n, |lines[n - 1]|)] else [])
  }

  /** The `k`-th long-line warning carries the number and the length of the `k`-th such line. */
  lemma {:induction false} LongWarningsAt(path: string, lines: seq<string>, n: nat, k: nat)
    requires n <= |lines| && k < |LongLines(lines, n)|
    ensures var m := LongLines(lines, n)[k];
      LongWarnings(path, lines, n)[k] == LongMessage(path, m, |lines[m - 1]|)
  {
    if k < |LongLines(lines, n - 1)| {
      LongWarningsAt(path, lines, n - 1, k);
    }
  }

  function CommonWarnings(path: string, content: string): seq<string> {
    var lines := Split(content, '\n');
    TrailingWarnings(path, lines, |lines|) + FinalNewlineWarnings(path, content) + LongWarnings(path, lines, |lines|)
  }

  // ----- _validate_file, validate_all -----

  predicate IsYamlSuffix(suffix: string) {
    suffix == ".yaml" || suffix == ".yml"
  }

  /** The errors of one file: by suffix only; the common checks raise only warnings. */
  function FileErrors(path: string, content: string, load: string -> YamlLoad): seq<string> {
    var suffix := Suffix(path);
    if IsYamlSuffix(suffix) then YamlErrors(path, content, load)
    else if suffix == ".mdc" then MdcErrors(path, content, load)
    else if suffix == ".md" then MarkdownErrors(path, content)
    else []
  }

  /** The warnings of one file: those of its suffix, then the common ones. */
  function FileWarnings(path: string, content: string, load: string -> YamlLoad): seq<string> {
    var suffix := Suffix(path);
    (if IsYamlSuffix(suffix) then []
     else if suffix == ".mdc" then MdcWarnings(path, content, load)
     else if suffix == ".md" then MarkdownWarnings(path, content)
     else [])
    + CommonWarnings(path, content)
  }

  /** The findings of `check` on every file, in dictionary order. */
  function Collect(files: Dict<string>, check: (string, string) -> seq<string>): seq<string> {
    if files == [] then []
    else
      var n := |files| - 1;
      Collect(files[..n], check) + check(files[n].0, files[n].1)
  }

  /** Nothing is collected exactly when the check finds nothing in any file. */
  lemma {:induction false} CollectEmpty(files: Dict<string>, check: (string, string) -> seq<string>)
    ensures Collect(files, check) == [] <==> forall i :: 0 <= i < |files| ==> check(files[i].0, files[i].1) == []
  {
    if files != [] {
      var n := |files| - 1;
      var init := files[..n];
      CollectEmpty(init, check);
      assert forall i :: 0 <= i < n ==> init[i] == files[i];
    }
  }

  /** The errors of all files, in dictionary order. */
  function AllErrors(files: Dict<string>, load: string -> YamlLoad): seq<string> {
    Collect(files, (path, content) => FileErrors(path, content, load))
  }

  function AllWarnings(files: Dict<string>, load: string -> YamlLoad): seq<string> {
    Collect(files, (path, content) => FileWarnings(path, content, load))
  }

  /** The validation passes exactly when no single file has an error. */
  lemma NoErrorsIffEveryFileClean(files: Dict<string>, load: string -> YamlLoad)
    ensures AllErrors(files, load) == [] <==>
      forall i :: 0 <= i < |files| ==> FileErrors(files[i].0, files[i].1, load) == []
  {
    CollectEmpty(files, (path, content) => FileErrors(path, content, load));
  }

  /** One more file adds its own findings after those of the files before it. */
  lemma AllStep(files: Dict<string>, load: string -> YamlLoad, i: nat)
    requires i < |files|
    ensures AllErrors(files[..i + 1], load) == AllErrors(files[..i], load) + FileErrors(files[i].0, files[i].1, load)
    ensures AllWarnings(files[..i + 1], load) == AllWarnings(files[..i], load) + FileWarnings(files[i].0, files[i].1, load)
  {
    assert files[..i + 1][..i] == files[..i];
  }

  /** Every file gets the common checks, whatever its suffix. */
  lemma CommonChecksAlways(path: string, content: string, load: string -> YamlLoad)
    ensures var w := FileWarnings(path, content, load);
      var c := CommonWarnings(path, content);
      |c| <= |w| && w[|w| - |c|..] == c
  {
  }

  /** The checks of generated files, with the findings of the last run. */
  class Validator {
    var errors: seq<string>
    var warnings: seq<string>

    constructor ()
      ensures errors == [] && warnings == []
    {
      errors := [];
      warnings := [];
    }

    /**
     * `validate_all`: the findings of earlier runs are dropped, every file is checked
     * in turn, and the result is true exactly when no error was found; warnings never
     * change it.
     */
    method ValidateAll(files: Dict<string>, load: string -> YamlLoad) returns (ok: bool)
      modifies this
      ensures errors == AllErrors(files, load) && warnings == AllWarnings(files, load)
      ensures ok <==> errors == []
    {
      errors := [];
      warnings := [];
      var i := 0;
      while i < |files|
        invariant 0 <= i <= |files|
        invariant errors == AllErrors(files[..i], load) && warnings == AllWarnings(files[..i], load)
      {
        AllStep(files, load, i);
        ValidateFile(files[i].0, files[i].1, load);
        i := i + 1;
      }
      assert files[..i] == files;
      ok := |errors| == 0;
    }

    /** `_validate_file`: the checks of the suffix, then the common checks. */
    method ValidateFile(path: string, content: string, load: string -> YamlLoad)
      modifies this
      ensures errors == old(errors) + FileErrors(path, content, load)
      ensures warnings == old(warnings) + FileWarnings(path, content, load)
    {
      var suffix := Suffix(path);
      ghost var errors0, warnings0 := errors, warnings;
      if suffix == ".yaml" || suffix == ".yml" {
        ValidateYaml(path, content, load);
      } else if suffix == ".mdc" {
        ValidateMdc(path, content, load);
      } else if suffix == ".md" {
        ValidateMarkdown(path, content);
      }
      ghost var typed := warnings[|warnings0|..];
      assert warnings == warnings0 + typed;
      ValidateCommon(path, content);
      AppendAssoc(warnings0, typed, CommonWarnings(path, content));
    }

    /** `_validate_yaml` */
    method ValidateYaml(path: string, content: string, load: string -> YamlLoad)
      modifies this
      ensures errors == old(errors) + YamlErrors(path, content, load)
      ensures warnings == old(warnings)
    {
      match load(content)
      case Invalid(e) =>
        errors := errors + [path + ": Invalid YAML syntax: " + e];
      case Loaded(_) =>
    }

    /** `_validate_mdc` */
    method ValidateMdc(path: string, content: string, load: string -> YamlLoad)
      modifies this
      ensures errors == old(errors) + MdcErrors(path, content, load)
      ensures warnings == old(warnings) + MdcWarnings(path, content, load)
    {
      if !StartsWith(content, Delimiter) {
        errors := errors + [path + ": Missing YAML frontmatter"];
        return;
      }
      var second := Find(content, Delimiter, 3);
      if second.None? {
        errors := errors + [path + ": Invalid frontmatter structure"];
        return;
      }
      var j := second.value;
      var frontmatter := content[3..j];
      var markdownContent := content[j + 3..];
      ghost var errors0, warnings0 := errors, warnings;
      ghost var fe, fw := FrontmatterErrors(path, load(frontmatter)), FrontmatterWarnings(path, load(frontmatter));
      ghost var me, mw := MarkdownErrors(path, markdownContent), MarkdownWarnings(path, markdownContent);
      MdcClosed(path, content, load, j);
      match load(frontmatter) {
        case Loaded(metadata) =>
          if "priority" !in metadata {
            warnings := warnings + [path + ": Missing 'priority' in frontmatter"];
          }
          if "globs" !in metadata {
            warnings := warnings + [path + ": Missing 'globs' in frontmatter"];
          }
        case Invalid(e) =>
          errors := errors + [path + ": Invalid frontmatter YAML: " + e];
      }
      assert errors == errors0 + fe && warnings == warnings0 + fw;
      ValidateMarkdown(path, markdownContent);
      AppendAssoc(errors0, fe, me);
      AppendAssoc(warnings0, fw, mw);
    }

    /** `_validate_markdown` */
    method ValidateMarkdown(path: string, content: string)
      modifies this
      ensures errors == old(errors) + MarkdownErrors(path, content)
      ensures warnings == old(warnings) + MarkdownWarnings(path, content)
    {
      if CountTicks(content, 0) % 2 != 0 {
        errors := errors + [path + ": Unclosed code fence"];
      }
      var levels := Levels(content);
      var i := 1;
      ghost var start := warnings;
      while i < |levels|
        invariant errors == old(errors) + MarkdownErrors(path, content)
        invariant 1 <= i && (levels != [] ==> i <= |levels|)
        invariant warnings == start + SkipWarnings(path, levels[..if levels == [] then 0 else i])
      {
        SkipStep(path, levels, i);
        ghost var found := SkipWarnings(path, levels[..i]);
        if levels[i] > levels[i - 1] + 1 {
          AppendAssoc(start, found, [SkipMessage(path, levels[i - 1], levels[i])]);
          warnings := warnings + [SkipMessage(path, levels[i - 1], levels[i])];
        }
        i := i + 1;
      }
      if levels != [] {
        assert levels[..i] == levels;
      }
    }

    /** `_validate_common`: trailing whitespace, the final newline, then long lines. */
    method ValidateCommon(path: string, content: string)
      modifies this
      ensures errors == old(errors)
      ensures warnings == old(warnings) + CommonWarnings(path, content)
    {
      var lines := Split(content, '\n');
      ghost var start := warnings;
      CheckTrailingWhitespace(path, lines);
      if content != "" && !EndsWith(content, "\n") {
        warnings := warnings + [path + ": Missing final newline"];
      }
      ghost var trailing, final := TrailingWarnings(path, lines, |lines|), FinalNewlineWarnings(path, content);
      assert warnings == start + trailing + final;
      AppendAssoc(start, trailing, final);
      CheckLineLengths(path, lines);
      AppendAssoc(start, trailing + final, LongWarnings(path, lines, |lines|));
    }

    /** The first loop of `_validate_common`: one warning per line ending in whitespace. */
    method CheckTrailingWhitespace(path: string, lines: seq<string>)
      modifies this
      ensures errors == old(errors)
      ensures warnings == old(warnings) + TrailingWarnings(path, lines, |lines|)
    {
      var i := 0;
      while i < |lines|
        invariant 0 <= i <= |lines|
        invariant errors == old(errors)
        invariant warnings == old(warnings) + TrailingWarnings(path, lines, i)
      {
        if TrailingBlank(lines[i]) {
          AppendAssoc(old(warnings), TrailingWarnings(path, lines, i), [TrailingMessage(path, i + 1)]);
          warnings := warnings + [TrailingMessage(path, i + 1)];
        }
        i := i + 1;
      }
    }

    /**
     * The second loop of `_validate_common`: fence lines toggle the code-block state,
     * and a longer line outside a block draws a warning.
     */
    method CheckLineLengths(path: string, lines: seq<string>)
      modifies this
      ensures errors == old(errors)
      ensures warnings == old(warnings) + LongWarnings(path, lines, |lines|)
    {
      var inCodeBlock := false;
      var i := 0;
      while i < |lines|
        invariant 0 <= i <= |lines|
        invariant errors == old(errors)
        invariant inCodeBlock == InBlock(lines, i)
        invariant warnings == old(warnings) + LongWarnings(path, lines, i)
      {
        var line := lines[i];
        var isFence := StartsWith(Strip(line), Ticks);
        assert isFence == IsFenceLine(line) by {
          FenceLineIsStripped(line);
        }
        if isFence {
          inCodeBlock := !inCodeBlock;
        } else if !inCodeBlock && |line| > MaxLineLength {
          AppendAssoc(old(warnings), LongWarnings(path, lines, i), [LongMessage(path, i + 1, |line|)]);
          warnings := warnings + [LongMessage(path, i + 1, |line|)];
        }
        i := i + 1;
      }
    }
  }

  /** One round of the heading loop, in terms of the prefix of levels seen so far. */
  lemma SkipStep(path: string, levels: seq<nat>, i: nat)
    requires 1 <= i < |levels|
    ensures SkipWarnings(path, levels[..i + 1]) == SkipWarnings(path, levels[..i])
      + (if levels[i] > levels[i - 1] + 1 then [SkipMessage(path, levels[i - 1], levels[i])] else [])
  {
    assert levels[..i + 1][..i] == levels[..i];
  }
}
