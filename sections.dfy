/**
 * Splitting a standards document into `## ` sections and a section into `### `
 * subsections (parser.py, `_split_into_sections` and `_split_into_subsections`).
 *
 * The text is cut into lines at "\n". A header line starts a segment; the segment's
 * body is every following line up to the next header line of the same level. Lines
 * before the first header belong to no segment. The header's title is the rest of the
 * header line, stripped, with its leading number removed. Segments whose title comes
 * out empty are dropped (Python treats "" like None), and each remaining segment is
 * stored in an insertion-ordered dictionary under its title, with the body lines
 * joined by "\n".
 */
module Sections {
  import opened Text
  import opened Dict

  datatype Level = Section | Subsection

  function Marker(level: Level): string {
    match level
    case Section => "## "
    case Subsection => "### "
  }

  /**
   * `line.startswith(marker)` for the marker of `level`, spelled out character by
   * character (`HeaderIsStartsWith` states the equivalence).
   */
  predicate IsHeader(line: string, level: Level) {
    match level
    case Section => |line| >= 3 && line[0] == '#' && line[1] == '#' && line[2] == ' '
    case Subsection =>
      |line| >= 4 && line[0] == '#' && line[1] == '#' && line[2] == '#' && line[3] == ' '
  }

  lemma HeaderIsStartsWith(line: string, level: Level)
    ensures IsHeader(line, level) <==> StartsWith(line, Marker(level))
  {
    if StartsWith(line, Marker(level)) {
      var m := Marker(level);
      assert line[..|m|] == m;
      assert forall k :: 0 <= k < |m| ==> line[k] == m[k];
    }
  }

  /** A `### ` line never starts a `## ` section: its third character is '#', not ' '. */
  lemma SubsectionLineIsNotSectionHeader(line: string)
    requires IsHeader(line, Subsection)
    ensures !IsHeader(line, Section)
  {
  }

  /** End of the run of ASCII digits that starts at index `i`. */
  function DigitsEnd(s: string, i: nat): (j: nat)
    requires i <= |s|
    decreases |s| - i
    ensures i <= j <= |s|
    ensures forall k :: i <= k < j ==> IsDigit(s[k])
    ensures j < |s| ==> !IsDigit(s[j])
  {
    if i < |s| && IsDigit(s[i]) then DigitsEnd(s, i + 1) else i
  }

  /** `re.sub(r"^\d+\.\s*", "", s)` */
  function StripSectionNumber(s: string): string {
    var n := DigitsEnd(s, 0);
    if 0 < n < |s| && s[n] == '.' then LStrip(s[n + 1..]) else s
  }

  /** `re.sub(r"^\d+\.\d+\s*", "", s)` */
  function StripSubsectionNumber(s: string): string {
    var n := DigitsEnd(s, 0);
    if 0 < n < |s| && s[n] == '.' && DigitsEnd(s, n + 1) > n + 1
    then s[SpacesEnd(s, DigitsEnd(s, n + 1))..]
    else s
  }

  /** Digits followed by text that does not start with a digit. */
  lemma {:induction false} DigitsEndOf(d: string, rest: string, i: nat)
    requires i <= |d|
    requires forall k :: i <= k < |d| ==> IsDigit(d[k])
    requires rest == [] || !IsDigit(rest[0])
    decreases |d| - i
    ensures DigitsEnd(d + rest, i) == |d|
  {
    if i < |d| {
      DigitsEndOf(d, rest, i + 1);
    }
  }

  /** "3. Bash Standards" becomes "Bash Standards": digits, a dot and spaces are removed. */
  lemma SectionNumberRemoved(d: string, ws: string, rest: string)
    requires |d| > 0 && forall k :: 0 <= k < |d| ==> IsDigit(d[k])
    requires IsBlank(ws)
    requires rest == [] || !IsSpace(rest[0])
    ensures StripSectionNumber(d + "." + ws + rest) == rest
  {
    var s := d + "." + ws + rest;
    assert s == d + ("." + ws + rest);
    DigitsEndOf(d, "." + ws + rest, 0);
    assert s[|d| + 1..] == ws + rest;
    LStripBlankPrefix(ws, rest);
  }

  /** "3.1 Naming" becomes "Naming": digits, a dot, digits and spaces are removed. */
  lemma SubsectionNumberRemoved(d: string, e: string, ws: string, rest: string)
    requires |d| > 0 && forall k :: 0 <= k < |d| ==> IsDigit(d[k])
    requires |e| > 0 && forall k :: 0 <= k < |e| ==> IsDigit(e[k])
    requires IsBlank(ws)
    requires rest == [] || (!IsSpace(rest[0]) && !IsDigit(rest[0]))
    ensures StripSubsectionNumber(d + "." + e + ws + rest) == rest
  {
    var s := d + "." + e + ws + rest;
    DigitsEndOf(d, "." + e + ws + rest, 0);
    assert s == d + ("." + e + ws + rest);
    var p := d + "." + e;
    assert s == p + (ws + rest);
    DigitsEndOf(p, ws + rest, |d| + 1);
    SpacesEndOf(p + ws, rest, |p|);
    assert s == (p + ws) + rest;
  }

  /** Titles that do not start with a digit are left alone. */
  lemma UnnumberedTitleKept(s: string)
    requires s == [] || !IsDigit(s[0])
    ensures StripSectionNumber(s) == s && StripSubsectionNumber(s) == s
  {
  }

  /** Python's slice `s[n:]`, which is "" when `n` is past the end. */
  function Drop(s: string, n: nat): string {
    if n <= |s| then s[n..] else ""
  }

  /** The title of a header line: `line[len(marker):].strip()` without its number. */
  function HeaderTitle(line: string, level: Level): string {
    var t := Strip(Drop(line, |Marker(level)|));
    match level
    case Section => StripSectionNumber(t)
    case Subsection => StripSubsectionNumber(t)
  }

  /** A header line and the lines that follow it up to the next header. */
  datatype Segment = Segment(header: string, body: seq<string>)

  /** Index of the first header line, or |lines| when there is none. */
  function FirstHeader(lines: seq<string>, level: Level): (n: nat)
    ensures n <= |lines|
    ensures n < |lines| ==> IsHeader(lines[n], level)
  {
    if |lines| == 0 then 0
    else if IsHeader(lines[0], level) then 0
    else 1 + FirstHeader(lines[1..], level)
  }

  /** No line before the first header is a header. */
  lemma {:induction false} FirstHeaderIsFirst(lines: seq<string>, level: Level, k: nat)
    requires k < FirstHeader(lines, level)
    ensures !IsHeader(lines[k], level)
  {
    if k > 0 {
      FirstHeaderIsFirst(lines[1..], level, k - 1);
    }
  }

  /** Appending a line moves the first header only when there was none before. */
  lemma {:induction false} FirstHeaderSnoc(lines: seq<string>, x: string, level: Level)
    ensures FirstHeader(lines + [x], level) ==
      if FirstHeader(lines, level) < |lines| then FirstHeader(lines, level)
      else if IsHeader(x, level) then |lines| else |lines| + 1
  {
    if |lines| > 0 {
      assert (lines + [x])[1..] == lines[1..] + [x];
      FirstHeaderSnoc(lines[1..], x, level);
    }
  }

  /**
   * One step of the scan: a header line opens a new segment, any other line joins the
   * body of the last segment, and a line before the first header is dropped.
   */
  function Extend(segs: seq<Segment>, x: string, level: Level): seq<Segment> {
    if IsHeader(x, level) then segs + [Segment(x, [])]
    else if segs == [] then []
    else segs[..|segs| - 1] + [Segment(segs[|segs| - 1].header, segs[|segs| - 1].body + [x])]
  }

  /** The segments of `lines`, in order. */
  function Segments(lines: seq<string>, level: Level): seq<Segment> {
    if lines == [] then []
    else Extend(Segments(lines[..|lines| - 1], level), lines[|lines| - 1], level)
  }

  /** Extending the lines by the next one extends the segments by one scan step. */
  lemma SegmentsStep(lines: seq<string>, i: nat, level: Level)
    requires i < |lines|
    ensures Segments(lines[..i + 1], level) == Extend(Segments(lines[..i], level), lines[i], level)
  {
    assert lines[..i + 1][..i] == lines[..i];
  }

  predicate WellFormed(segs: seq<Segment>, level: Level) {
    forall k :: 0 <= k < |segs| ==>
      IsHeader(segs[k].header, level) &&
      forall j :: 0 <= j < |segs[k].body| ==> !IsHeader(segs[k].body[j], level)
  }

  /** Every segment starts at a header line and no body line is a header. */
  lemma {:induction false} SegmentsWellFormed(lines: seq<string>, level: Level)
    ensures WellFormed(Segments(lines, level), level)
  {
    if lines != [] {
      SegmentsWellFormed(lines[..|lines| - 1], level);
    }
  }

  /** The lines of the segments, each header followed by its body. */
  function Flatten(segs: seq<Segment>): (r: seq<string>)
    ensures segs != [] ==> r != []
  {
    if segs == [] then []
    else Flatten(segs[..|segs| - 1]) + [segs[|segs| - 1].header] + segs[|segs| - 1].body
  }

  /** Unless the line is dropped, one scan step appends exactly that line. */
  lemma FlattenExtend(segs: seq<Segment>, x: string, level: Level)
    requires segs != [] || IsHeader(x, level)
    ensures Flatten(Extend(segs, x, level)) == Flatten(segs) + [x]
  {
    var r := Extend(segs, x, level);
    if IsHeader(x, level) {
      assert r[..|r| - 1] == segs;
    } else {
      assert r[..|r| - 1] == segs[..|segs| - 1];
    }
  }

  /**
   * Partition law: every line from the first header on lands in exactly one segment,
   * in order; together with `SegmentsWellFormed` this pins the segments down.
   */
  lemma {:induction false} SegmentsPartition(lines: seq<string>, level: Level)
    ensures lines[FirstHeader(lines, level)..] == Flatten(Segments(lines, level))
  {
    if lines != [] {
      var init := lines[..|lines| - 1];
      var x := lines[|lines| - 1];
      assert lines == init + [x];
      SegmentsPartition(init, level);
      FirstHeaderSnoc(init, x, level);
      var p := FirstHeader(init, level);
      if p < |init| || IsHeader(x, level) {
        FlattenExtend(Segments(init, level), x, level);
        assert lines[FirstHeader(lines, level)..] == init[p..] + [x];
      }
    }
  }

  /** Each segment's title and its body joined by "\n", in document order. */
  function Entries(segs: seq<Segment>, level: Level): (pairs: seq<(string, string)>)
    ensures |pairs| == |segs|
  {
    seq(|segs|, k requires 0 <= k < |segs| => (HeaderTitle(segs[k].header, level), Join(segs[k].body, "\n")))
  }

  lemma EntriesPrefix(segs: seq<Segment>, level: Level, n: nat)
    requires n <= |segs|
    ensures Entries(segs[..n], level) == Entries(segs, level)[..n]
  {
  }

  /** The dictionary the segments produce, filled in document order. */
  function Collect(segs: seq<Segment>, level: Level): Dict<string> {
    Assign(Entries(segs, level))
  }

  /** What the split produces for `content`. */
  function HeaderSplit(content: string, level: Level): Dict<string> {
    Collect(Segments(Split(content, '\n'), level), level)
  }

  /** The titles of a split are non-empty and distinct. */
  lemma HeaderSplitKeys(content: string, level: Level)
    ensures DistinctKeys(HeaderSplit(content, level))
    ensures forall i :: 0 <= i < |HeaderSplit(content, level)| ==> HeaderSplit(content, level)[i].0 != ""
  {
    AssignKeys(Entries(Segments(Split(content, '\n'), level), level));
  }

  /** When titles are non-empty and distinct, each segment becomes one entry, in order. */
  lemma CollectDistinct(segs: seq<Segment>, level: Level)
    requires forall k :: 0 <= k < |segs| ==> HeaderTitle(segs[k].header, level) != ""
    requires forall i, j :: 0 <= i < j < |segs| ==>
      HeaderTitle(segs[i].header, level) != HeaderTitle(segs[j].header, level)
    ensures Collect(segs, level) == Entries(segs, level)
  {
    AssignDistinct(Entries(segs, level));
  }

  /** The state of the line scan once it has built the segments `segs`. */
  ghost predicate ScanState(segs: seq<Segment>, level: Level, found: Dict<string>, current: string, body: seq<string>) {
    if segs == [] then found == [] && current == ""
    else
      var last := segs[|segs| - 1];
      && found == Collect(segs[..|segs| - 1], level)
      && current == HeaderTitle(last.header, level)
      && (current != "" ==> body == last.body)
  }

  /** Storing the open segment (when titled) yields the dictionary of all segments so far. */
  lemma ScanStore(segs: seq<Segment>, level: Level, found: Dict<string>, current: string, body: seq<string>)
    requires ScanState(segs, level, found, current, body)
    ensures Collect(segs, level) == if current != "" then Put(found, current, Join(body, "\n")) else found
  {
    if segs != [] {
      var n := |segs| - 1;
      var pairs := Entries(segs, level);
      EntriesPrefix(segs, level, n);
      assert pairs[n] == (current, Join(segs[n].body, "\n"));
    }
  }

  /** A header line stores the open segment (if titled) and opens a new one. */
  lemma ScanHeader(segs: seq<Segment>, x: string, level: Level, found: Dict<string>, current: string, body: seq<string>)
    requires ScanState(segs, level, found, current, body)
    requires IsHeader(x, level)
    ensures ScanState(Extend(segs, x, level), level,
      if current != "" then Put(found, current, Join(body, "\n")) else found,
      HeaderTitle(x, level), [])
  {
    ScanStore(segs, level, found, current, body);
    var next := segs + [Segment(x, [])];
    assert next[..|next| - 1] == segs;
  }

  /** Any other line joins the open segment's body when that segment is titled. */
  lemma ScanBody(segs: seq<Segment>, x: string, level: Level, found: Dict<string>, current: string, body: seq<string>)
    requires ScanState(segs, level, found, current, body)
    requires !IsHeader(x, level)
    ensures ScanState(Extend(segs, x, level), level, found, current,
      if current != "" then body + [x] else body)
  {
    if segs != [] {
      var next := Extend(segs, x, level);
      assert next[..|next| - 1] == segs[..|segs| - 1];
    }
  }

  /**
   * The shared loop of `_split_into_sections` and `_split_into_subsections`;
   * `current` is "" while no titled header has been seen (Python's None and "" are
   * both falsy there).
   */
  method SplitByHeaders(content: string, level: Level) returns (found: Dict<string>)
    ensures found == HeaderSplit(content, level)
  {
    var lines := Split(content, '\n');
    found := ScanLines(lines, level);
  }

  /** The line loop of the split. */
  method ScanLines(lines: seq<string>, level: Level) returns (found: Dict<string>)
    ensures found == Collect(Segments(lines, level), level)
  {
    found := [];
    var current := "";
    var body: seq<string> := [];
    var i := 0;
    assert lines[..0] == [];
    while i < |lines|
      invariant 0 <= i <= |lines|
      invariant ScanState(Segments(lines[..i], level), level, found, current, body)
    {
      found, current, body := ScanLine(lines, i, level, found, current, body);
      i := i + 1;
    }
    ScanStore(Segments(lines[..i], level), level, found, current, body);
    if current != "" {
      found := Put(found, current, Join(body, "\n"));
    }
    assert lines[..i] == lines;
  }

  /** One pass of the loop body, for the line `lines[i]`. */
  method ScanLine(lines: seq<string>, i: nat, level: Level,
                  found: Dict<string>, current: string, body: seq<string>)
    returns (found': Dict<string>, current': string, body': seq<string>)
    requires i < |lines|
    requires ScanState(Segments(lines[..i], level), level, found, current, body)
    ensures ScanState(Segments(lines[..i + 1], level), level, found', current', body')
  {
    var line := lines[i];
    SegmentsStep(lines, i, level);
    found', current', body' := found, current, body;
    if IsHeader(line, level) {
      ScanHeader(Segments(lines[..i], level), line, level, found, current, body);
      if current != "" {
        found' := Put(found, current, Join(body, "\n"));
      }
      current' := HeaderTitle(line, level);
      body' := [];
    } else {
      ScanBody(Segments(lines[..i], level), line, level, found, current, body);
      if current != "" {
        body' := body + [line];
      }
    }
  }

  /** `ContextParser._split_into_sections` */
  method SplitIntoSections(content: string) returns (sections: Dict<string>)
    ensures sections == HeaderSplit(content, Section)
  {
    sections := SplitByHeaders(content, Section);
  }

  /** `ContextParser._split_into_subsections` */
  method SplitIntoSubsections(content: string) returns (subsections: Dict<string>)
    ensures subsections == HeaderSplit(content, Subsection)
  {
    subsections := SplitByHeaders(content, Subsection);
  }
}
