# Standards synchronisation, modelled in Dafny

The repository keeps one hand-written standards document, `CONTEXT.md`, and
generates the configuration files of several AI coding assistants from it. This
project models the text pipeline at its core:

- **The parser** (`scripts/sync_standards/parser.py`) cuts the document into `## `
  sections and `### ` subsections and drops their numbers. It splits each body at its
  code fences into prose and examples, and judges each example correct or incorrect
  from the text before it and from its comments. It builds one rule per subsection,
  or one per section that has no subsection. Each rule gets the priority, file scope
  and tags its section's title selects from ordered keyword tables.
- **The text filters of the transformer base** (`transformers/base.py`) cover:
  - imperative wording, with whole-word, case-insensitive replacements;
  - conversational wording;
  - one-sentence summaries;
  - comment wrapping;
  - the "why this matters" reasoning;
  - the explanations of correct and incorrect examples.
- **The five transformers** each lay the rendered rules out in their own files:
  - Cursor writes one `.mdc` file per rule group, chosen from the section or the tags;
  - Claude and Copilot write one document each, grouped by section;
  - Continue.dev writes one YAML list;
  - Aider writes one commented YAML file.
- **The validator** (`validator.py`) checks the generated files:
  - YAML syntax;
  - `.mdc` front matter;
  - unclosed Markdown fences and skipped heading levels;
  - trailing whitespace, the final newline, and long lines outside code blocks.

  It collects findings as errors, which make the validation fail, or as warnings.
- **The proof-of-concept script** (`scripts/sync-standards-poc.py`) recognises two
  fixed rules by a phrase of the document. It has its own Cursor, Claude and Copilot
  writers: front matter, fixed markers, and a plain `str.replace` imperative.

Each Python file is a module:

| Dafny module | Python file |
|---|---|
| `Parser` | `parser.py` |
| `Sections` | `parser.py` (section splitting) |
| `Fences` | `parser.py` (example extraction) |
| `Filters` | `transformers/base.py` |
| `Cursor` | `transformers/cursor.py` |
| `Claude` | `transformers/claude.py` |
| `Copilot` | `transformers/copilot.py` |
| `Sectioned` | the section grouping that the Claude and Copilot transformers share |
| `ContinueDev` | `transformers/continue_dev.py` |
| `Aider` | `transformers/aider.py` |
| `Validation` | `validator.py` |
| `Poc` | `scripts/sync-standards-poc.py` |

`Text`, `Dict`, `Grouping` and `Wrappers` model Python's string methods, its
insertion-ordered `dict`, `defaultdict(list)` grouping, and `Option`.

Functions and methods follow the shape of the Python code:

- Loops become methods whose invariants tie them to a specification function.
- The validator, whose methods append to its `errors` and `warnings` lists, is a
  class with those two fields.
- A Python `dict` is a sequence of key/value pairs. Assigning a key that is already
  present keeps its first position.
- Jinja2 template rendering is a parameter `render: Rule -> string`.
- `yaml.safe_load` is a parameter `load` that returns the top-level keys of a
  document or the message of its syntax error.

## Model

| member | source | states |
|---|---|---|
| Parser.FirstMatch | scripts/sync_standards/parser.py:292-304 | the index of the first table key contained, case-insensitively, in the section; no earlier key matches; the table length when none matches |
| Parser.Lookup | scripts/sync_standards/parser.py:292-304 | the value of the first matching key wins, and the default comes back when no key matches |
| Parser.GetPriority | scripts/sync_standards/parser.py:292-297 | every section gets a priority between 40 and 100 |
| Parser.GetScope | scripts/sync_standards/parser.py:299-304 | every section gets a non-empty scope |
| Parser.LookupIgnoresCase | scripts/sync_standards/parser.py:295 | a section and its lower-cased form select the same table entry |
| Parser.SecurityFirst | scripts/sync_standards/parser.py:42-51 | a section mentioning "security" in any case gets priority 100 |
| Parser.ScopeAllIffNoKey | scripts/sync_standards/parser.py:299-304 | the scope is ["all"] exactly when no scope key occurs in the section |
| Parser.TagsFrom | scripts/sync_standards/parser.py:320-322 | at most one tag per remaining table entry |
| Parser.TagsFromMembers | scripts/sync_standards/parser.py:320-322 | a tag is listed exactly when one of its keywords occurs in the lower-cased section |
| Parser.TagsFromBounds | scripts/sync_standards/parser.py:320-322 | each tag listed from entry i on comes from an entry at or after i |
| Parser.TagsFromOrdered | scripts/sync_standards/parser.py:320-322 | tags are listed in table order |
| Parser.TagMapDistinct | scripts/sync_standards/parser.py:311-318 | the tag table names each tag once |
| Parser.GetTags | scripts/sync_standards/parser.py:306-324 | at most one tag per table entry |
| Parser.GetTagsSpec | scripts/sync_standards/parser.py:306-324 | exactly the tags whose keywords occur, each once, in table order |
| Parser.SentenceEnd | scripts/sync_standards/parser.py:282 | the first `[.!?]` followed by whitespace from i on; no sentence break before it |
| Parser.ExtractTitle | scripts/sync_standards/parser.py:276-290 | the stripped first sentence; one over 60 characters becomes its first 57 characters and "..." |
| Parser.ShortSentenceIsTitle | scripts/sync_standards/parser.py:282-288 | a short stripped sentence without a bullet or a sentence break is its own title |
| Parser.BulletDropped | scripts/sync_standards/parser.py:279 | a leading "- " bullet does not reach the title |
| Parser.CreateRule | scripts/sync_standards/parser.py:180-209 | no rule exactly when the prose is blank; otherwise every field comes from its input, the content is the stripped prose, and the title is the subsection name, or the extracted title when there is none |
| Parser.Kept | scripts/sync_standards/parser.py:136-137 | no rule gives the empty list; a rule gives the list holding exactly that rule |
| Parser.SubsectionRules | scripts/sync_standards/parser.py:125-137 | at most one rule per subsection |
| Parser.SubsectionRulesSnoc | scripts/sync_standards/parser.py:127-137 | one more subsection appends its rule, if any, at the end |
| Parser.SubsectionRulesFields | scripts/sync_standards/parser.py:128-135 | every rule carries the section, a subsection of the section, and the section's priority, scope and tags, and has content |
| Parser.AddSubsectionRule | scripts/sync_standards/parser.py:127-137 | one loop round extends the rules to one more subsection |
| Parser.ParseSection | scripts/sync_standards/parser.py:113-151 | the rules of a section, built by the loop over its subsections |
| Parser.NoSubsectionsOneRule | scripts/sync_standards/parser.py:138-149 | a section without subsections gives at most one rule, and that rule has no subsection |
| Parser.SubsectionRuleTitled | scripts/sync_standards/parser.py:198 | a named subsection titles its rule |
| Parser.SubsectionRulesTitled | scripts/sync_standards/parser.py:125-137 | every rule of a subdivided section is titled by one of its subsections |
| Parser.SubsectionRulesInOrder | scripts/sync_standards/parser.py:127-137 | rules come in the order of their subsections |
| Parser.SectionsRulesSnoc | scripts/sync_standards/parser.py:79-82 | one more section appends its rules at the end |
| Parser.SectionRulesFields | scripts/sync_standards/parser.py:113-151 | the rules of a section carry its title, priority, scope and tags |
| Parser.SectionsRulesFields | scripts/sync_standards/parser.py:72-84 | every rule comes from one of the sections and carries that section's settings |
| Parser.SectionRules | scripts/sync_standards/parser.py:113-151 | what `_parse_section` returns; Parser.ParseSection, Parser.NoSubsectionsOneRule and Parser.SectionRulesFields state its properties |
| Parser.SectionsRules | scripts/sync_standards/parser.py:79-82 | the rules of each section in turn; Parser.SectionsRulesSnoc and Parser.SectionsRulesFields state its properties |
| Parser.Parse | scripts/sync_standards/parser.py:72-84 | the loop over the sections yields all their rules in order |
| Parser.ParsedRulesWellFormed | scripts/sync_standards/parser.py:72-84 | every parsed rule has content, a priority between 40 and 100, a non-empty scope, and a section of the document |
| Sections.HeaderIsStartsWith | scripts/sync_standards/parser.py:94 | a header line is exactly one that starts with the marker |
| Sections.SubsectionLineIsNotSectionHeader | scripts/sync_standards/parser.py:161 | a `### ` line never opens a `## ` section |
| Sections.DigitsEnd | scripts/sync_standards/parser.py:102 | the end of the run of digits at i |
| Sections.SectionNumberRemoved | scripts/sync_standards/parser.py:101-102 | "3. Bash Standards" loses its digits, dot and spaces |
| Sections.SubsectionNumberRemoved | scripts/sync_standards/parser.py:168-169 | "3.1 Naming" loses its digits, dot, digits and spaces |
| Sections.UnnumberedTitleKept | scripts/sync_standards/parser.py:100-102 | a title that does not start with a digit is left alone |
| Sections.StripSectionNumber | scripts/sync_standards/parser.py:102 | `re.sub(r"^\d+\.\s*", "", s)`; its lemmas are Sections.SectionNumberRemoved and Sections.UnnumberedTitleKept |
| Sections.StripSubsectionNumber | scripts/sync_standards/parser.py:169 | `re.sub(r"^\d+\.\d+\s*", "", s)`; its lemma is Sections.SubsectionNumberRemoved |
| Sections.HeaderTitle | scripts/sync_standards/parser.py:100-102 | the stripped header text after the marker, without its number; Sections.HeaderSplitKeys shows the split's keys are these titles |
| Sections.FirstHeader | scripts/sync_standards/parser.py:92-105 | the first header line, or the end |
| Sections.FirstHeaderIsFirst | scripts/sync_standards/parser.py:104-105 | no line before the first header is a header, so those lines are dropped |
| Sections.Segments | scripts/sync_standards/parser.py:92-105 | a header line opens a segment and any other line joins the open one; Sections.SegmentsStep, Sections.SegmentsWellFormed and Sections.SegmentsPartition state its properties |
| Sections.SegmentsStep | scripts/sync_standards/parser.py:92-105 | one more line is one more scan step |
| Sections.SegmentsWellFormed | scripts/sync_standards/parser.py:92-105 | every segment opens at a header line and no body line is a header |
| Sections.SegmentsPartition | scripts/sync_standards/parser.py:92-105 | from the first header on, the segments hold every line once, in order |
| Sections.HeaderSplitKeys | scripts/sync_standards/parser.py:96-109 | the titles of the split are non-empty and distinct |
| Sections.CollectDistinct | scripts/sync_standards/parser.py:96-109 | with non-empty, distinct titles, each segment is one entry, in document order |
| Sections.ScanStore | scripts/sync_standards/parser.py:107-109 | saving the open segment gives the dictionary of all segments |
| Sections.ScanHeader | scripts/sync_standards/parser.py:94-103 | a header line saves the open segment and opens a new one |
| Sections.ScanBody | scripts/sync_standards/parser.py:104-105 | any other line joins the open segment |
| Sections.ScanLine | scripts/sync_standards/parser.py:92-105 | one pass of the loop keeps the scan state |
| Sections.ScanLines | scripts/sync_standards/parser.py:92-109 | the loop yields the dictionary of the segments |
| Sections.SplitByHeaders | scripts/sync_standards/parser.py:86-111 | the split of the document's lines by header level |
| Sections.SplitIntoSections | scripts/sync_standards/parser.py:86-111 | the `## ` split |
| Sections.SplitIntoSubsections | scripts/sync_standards/parser.py:153-178 | the `### ` split |
| Fences.WordEnd | scripts/sync_standards/parser.py:219 | `(\w+)?` stops at the first non-word character |
| Fences.CloseAt | scripts/sync_standards/parser.py:219 | the lazy `.*?` stops at the first closing backticks |
| Fences.FenceAt | scripts/sync_standards/parser.py:219 | a match at p ends after p, within the text |
| Fences.FenceAtText | scripts/sync_standards/parser.py:219 | a match covers exactly its fence's text |
| Fences.SplitFrom | scripts/sync_standards/parser.py:219 | a split is never empty |
| Fences.SplitFences | scripts/sync_standards/parser.py:219 | a split is one text piece, then groups of language, code and text |
| Fences.SplitFromLength | scripts/sync_standards/parser.py:219 | split length is one more than a multiple of three |
| Fences.SkipPlainText | scripts/sync_standards/parser.py:219 | a stretch without backticks starts no match |
| Fences.CloseAtFirst | scripts/sync_standards/parser.py:219 | the closing fence is the first backticks after the code |
| Fences.SplitAtFence | scripts/sync_standards/parser.py:219 | a match closes the current text piece and adds its two groups |
| Fences.SplitAtEnd | scripts/sync_standards/parser.py:219 | the rest of the text is the last piece |
| Fences.UnsplitSplitFrom | scripts/sync_standards/parser.py:219 | putting the fences back into the pieces from `start` gives back the text |
| Fences.UnsplitSplitFences | scripts/sync_standards/parser.py:219 | the split loses nothing: putting the fences back gives the text |
| Fences.OneFence | scripts/sync_standards/parser.py:219 | a text with one fence splits into before, language, code, after |
| Fences.OneFenceAt | scripts/sync_standards/parser.py:219 | the same, for a fence given by its positions |
| Fences.LastLines | scripts/sync_standards/parser.py:256 | `lines[-n:]`: at most n lines, from the end |
| Fences.LastLinesAppend | scripts/sync_standards/parser.py:256 | earlier lines do not reach the last n |
| Fences.LastThreeLinesOnly | scripts/sync_standards/parser.py:255-257 | only the last three lines of the preceding text decide |
| Fences.IncorrectBeatsCorrect | scripts/sync_standards/parser.py:259-265 | "incorrect" also contains "correct", yet the example is judged incorrect |
| Fences.CorrectInsideIncorrect | scripts/sync_standards/parser.py:244-253 | every "incorrect" holds a "correct" |
| Fences.DefaultIsCorrect | scripts/sync_standards/parser.py:267-274 | no indicator and no marker comment: the example is correct |
| Fences.NoHashNoMarker | scripts/sync_standards/parser.py:268-271 | code without '#' has no marker comment |
| Fences.IsCorrectExample | scripts/sync_standards/parser.py:241-274 | an incorrect indicator in the last three lines wins, then a correct one, then the code's markers, else correct; Fences.IncorrectBeatsCorrect, Fences.LastThreeLinesOnly and Fences.DefaultIsCorrect state its properties |
| Fences.MakeExample | scripts/sync_standards/parser.py:225-236 | the code is stripped; the language is the fence's word, or "text" when the fence has none; the example is judged by the text piece before it; there is no explanation |
| Fences.ExtractedText | scripts/sync_standards/parser.py:222-224 | a text piece is appended to the prose |
| Fences.ExtractedLanguage | scripts/sync_standards/parser.py:221-225 | a language piece adds nothing |
| Fences.ExtractedExample | scripts/sync_standards/parser.py:225-236 | a code piece adds its example |
| Fences.ExampleOfPieces | scripts/sync_standards/parser.py:226-232 | the example is judged against the text piece just before its fence |
| Fences.ExtractPiece | scripts/sync_standards/parser.py:221-236 | one loop round keeps the extraction state |
| Fences.ExtractContentAndExamples | scripts/sync_standards/parser.py:211-239 | the loop's prose and examples are those of the split |
| Fences.ContentAndExamples | scripts/sync_standards/parser.py:211-239 | the prose and the examples of a split; Fences.ExtractContentAndExamples proves the loop computes it and Fences.OneFenceExample and Fences.NoFenceNoExamples show its results |
| Fences.NoFenceNoExamples | scripts/sync_standards/parser.py:211-239 | text without backticks is all prose and has no examples |
| Fences.OneFenceExample | scripts/sync_standards/parser.py:211-239 | one fence gives the prose around it and one example |
| Filters.ReplaceWordNone | scripts/sync_standards/transformers/base.py:76-77 | with no whole-word match, the text is unchanged |
| Filters.ReplaceWordCopy | scripts/sync_standards/transformers/base.py:77 | a stretch where no match starts is copied |
| Filters.ReplaceWordSkip | scripts/sync_standards/transformers/base.py:77 | where no match starts, the character is copied |
| Filters.ReplaceWordLeftmost | scripts/sync_standards/transformers/base.py:66-77 | the leftmost whole-word match is replaced and the scan resumes after it |
| Filters.ReplaceWordsUnchanged | scripts/sync_standards/transformers/base.py:76-77 | substitutions whose words do not occur change nothing |
| Filters.MakeImperativeUnchanged | scripts/sync_standards/transformers/base.py:62-79 | a text without any modal word is left as it is |
| Filters.MakeImperative | scripts/sync_standards/transformers/base.py:62-79 | the substitution table applied entry by entry in its order; Filters.ReplaceWordLeftmost and Filters.MakeImperativeUnchanged state its properties |
| Filters.ConversationalStartsWithYou | scripts/sync_standards/transformers/base.py:81-97 | the result, lower-cased, starts with "you" |
| Filters.ConversationalKeepsYou | scripts/sync_standards/transformers/base.py:88-95 | a stripped text that already says "you" is kept |
| Filters.ConversationalTrimmed | scripts/sync_standards/transformers/base.py:84 | the result of a non-blank text has no surrounding whitespace |
| Filters.ConversationalIdempotent | scripts/sync_standards/transformers/base.py:81-97 | applying it twice is applying it once |
| Filters.MakeConversational | scripts/sync_standards/transformers/base.py:81-97 | `_make_conversational`; Filters.ConversationalStartsWithYou, Filters.ConversationalKeepsYou, Filters.ConversationalTrimmed and Filters.ConversationalIdempotent state its properties |
| Filters.Period | scripts/sync_standards/transformers/base.py:105-106 | the summary ends with a period; a piece that already ends with one is kept as it is, any other gets one period appended |
| Filters.FirstPiece | scripts/sync_standards/transformers/base.py:102-104 | the prefix up to the first sentence break |
| Filters.FirstPieceNoBreak | scripts/sync_standards/transformers/base.py:102 | the first piece contains no sentence break |
| Filters.FirstPieceWhole | scripts/sync_standards/transformers/base.py:102 | a text without breaks is its own first piece |
| Filters.SummarizeIdempotent | scripts/sync_standards/transformers/base.py:99-108 | a summary is its own summary |
| Filters.Summarize | scripts/sync_standards/transformers/base.py:99-108 | the first piece of the stripped text, closed by a period; Filters.FirstPiece, Filters.Period and Filters.SummarizeIdempotent state its properties |
| Filters.CommentWrapLines | scripts/sync_standards/transformers/base.py:110-115 | one line out per line in; text lines get the prefix, blank lines the stripped prefix |
| Filters.CommentWrap | scripts/sync_standards/transformers/base.py:110-115 | `_comment_wrap`; Filters.CommentWrapLines states its lines |
| Filters.FirstKeyword | scripts/sync_standards/transformers/base.py:134-136 | the first table keyword found in the lowered content |
| Filters.KeywordLookup | scripts/sync_standards/transformers/base.py:132-138 | the value of the first keyword found, else the default |
| Filters.KeywordLookupDefault | scripts/sync_standards/transformers/base.py:132-138 | the default exactly when no keyword occurs |
| Filters.FirstKnownTag | scripts/sync_standards/transformers/base.py:128-130 | the first tag with a reasoning |
| Filters.FirstKnownTagAt | scripts/sync_standards/transformers/base.py:128-130 | the tag before which no tag is known is the one found |
| Filters.ReasoningFromFirstTag | scripts/sync_standards/transformers/base.py:127-130 | the first tag with a reasoning decides, whatever the content |
| Filters.ReasoningFromContent | scripts/sync_standards/transformers/base.py:132-138 | without such a tag, the content keywords decide, else the default |
| Filters.GenerateReasoning | scripts/sync_standards/transformers/base.py:117-138 | the first tag with a reasoning, else the first keyword in the content, else the default; Filters.ReasoningFromFirstTag and Filters.ReasoningFromContent state it |
| Filters.ExplainCorrectDefault | scripts/sync_standards/transformers/base.py:140-155 | the default explanation exactly when no keyword occurs |
| Filters.ExplainIncorrectDefault | scripts/sync_standards/transformers/base.py:157-172 | the default explanation exactly when no keyword occurs |
| Filters.ExplainCorrect | scripts/sync_standards/transformers/base.py:140-155 | the first table keyword found in the lower-cased content decides; Filters.ExplainCorrectDefault states when the default is used |
| Filters.ExplainIncorrect | scripts/sync_standards/transformers/base.py:157-172 | the same lookup in the incorrect-example table; Filters.ExplainIncorrectDefault states when the default is used |
| Grouping.GroupStep | scripts/sync_standards/transformers/cursor.py:36-40 | one more item is appended to its key's group |
| Grouping.AppendKeys | scripts/sync_standards/transformers/claude.py:26-29 | keys stay distinct, and a new key goes last |
| Grouping.GroupKeys | scripts/sync_standards/transformers/cursor.py:34-40 | groups are keyed once each, in order of first occurrence |
| Grouping.GroupGet | scripts/sync_standards/transformers/cursor.py:34-40 | a key's group is exactly its items' values, in order, and is absent when there are none |
| Grouping.FilterHas | scripts/sync_standards/transformers/cursor.py:36-40 | every value lands in its own key's group |
| Grouping.TotalAppend | scripts/sync_standards/transformers/claude.py:27-29 | appending adds one value |
| Grouping.GroupTotal | scripts/sync_standards/transformers/claude.py:25-29 | no value is lost or duplicated |
| Grouping.Group | scripts/sync_standards/transformers/cursor.py:34-40 | every item appended to its key's group, in order; Grouping.GroupKeys, Grouping.GroupGet and Grouping.GroupTotal state its properties |
| Grouping.AddToGroup | scripts/sync_standards/transformers/cursor.py:40 | `groups[key].append(v)` |
| Cursor.TagFile | scripts/sync_standards/transformers/cursor.py:57-66 | the tag fallback always names a rule file |
| Cursor.GetOutputFile | scripts/sync_standards/transformers/cursor.py:50-66 | every rule gets one of the seven rule files |
| Cursor.OutputFileBySection | scripts/sync_standards/transformers/cursor.py:52-55 | the first mapping key found in the section decides |
| Cursor.OutputFileByTags | scripts/sync_standards/transformers/cursor.py:57-66 | with no key, tags decide in the order security, bash, python; otherwise the workspace file |
| Cursor.YamlAndJsonShareFile | scripts/sync_standards/transformers/cursor.py:20-29 | YAML and JSON sections share the config file |
| Cursor.OneRuleNoSeparator | scripts/sync_standards/transformers/cursor.py:77 | a single rule is written without a separator |
| Cursor.FileContent | scripts/sync_standards/transformers/cursor.py:68-77 | the renderings joined by a horizontal rule; Cursor.OneRuleNoSeparator and Cursor.FileContentKeepsRule state its properties |
| Cursor.FileContentKeepsRule | scripts/sync_standards/transformers/cursor.py:68-77 | every rule's rendering is in its file |
| Cursor.GenerateFileContent | scripts/sync_standards/transformers/cursor.py:68-77 | the loop's renderings joined by the horizontal rule |
| Cursor.Outputs | scripts/sync_standards/transformers/cursor.py:43-46 | the output files are named exactly by the group keys, in group order, and each holds its group's content |
| Cursor.OutputsStep | scripts/sync_standards/transformers/cursor.py:44-46 | each group's file is new to the output and goes last |
| Cursor.TransformSpec | scripts/sync_standards/transformers/cursor.py:31-48 | what `transform` returns; Cursor.TransformFiles, Cursor.TransformContent and Cursor.TransformKeepsRule state its properties |
| Cursor.Transform | scripts/sync_standards/transformers/cursor.py:31-48 | both loops together: group, then render |
| Cursor.TransformFiles | scripts/sync_standards/transformers/cursor.py:31-48 | exactly the files some rule went to, each once, in order of first use |
| Cursor.OutputsGet | scripts/sync_standards/transformers/cursor.py:43-46 | looking up a file finds its group's content |
| Cursor.TransformContent | scripts/sync_standards/transformers/cursor.py:31-48 | each file holds exactly its rules' renderings, in input order; a file no rule went to is absent |
| Cursor.TransformKeepsRule | scripts/sync_standards/transformers/cursor.py:36-46 | every rule's rendering is in its own file |
| Sectioned.GroupBySection | scripts/sync_standards/transformers/claude.py:24-29 | the loop groups the rules by section (same as copilot.py:23-28) |
| Sectioned.SectionPartsCount | scripts/sync_standards/transformers/claude.py:31-39 | one heading per section and one part per rule |
| Sectioned.AppendRules | scripts/sync_standards/transformers/claude.py:35-39 | the inner loop appends the rules' parts |
| Sectioned.SectionPartsStep | scripts/sync_standards/transformers/claude.py:32-39 | one section adds its heading and parts at the end |
| Sectioned.AppendSections | scripts/sync_standards/transformers/claude.py:31-39 | the outer loop appends every section |
| Sectioned.GroupedParts | scripts/sync_standards/transformers/claude.py:24-39 | one heading per distinct section, in first-occurrence order, plus one part per rule |
| Sectioned.SectionPartsHeading | scripts/sync_standards/transformers/claude.py:33 | every section contributes its heading |
| Sectioned.SectionPartsRule | scripts/sync_standards/transformers/claude.py:35-39 | every rule contributes its stripped rendering |
| Sectioned.GroupedPartsKeepRule | scripts/sync_standards/transformers/claude.py:24-39 | no rule is lost |
| Sectioned.SectionParts | scripts/sync_standards/transformers/claude.py:31-39 | each section's heading followed by its rules' stripped renderings (same as copilot.py:30-38); Sectioned.SectionPartsCount, Sectioned.SectionPartsStep, Sectioned.SectionPartsHeading and Sectioned.SectionPartsRule state its properties |
| Sectioned.Transform | scripts/sync_standards/transformers/claude.py:19-43 | group, lay out and join, as both transformers do |
| Sectioned.Content | scripts/sync_standards/transformers/claude.py:31-42 | the stripped header and the section parts joined by blank lines, with a final newline; Sectioned.ContentShape, Sectioned.ContentNoRules and Sectioned.ContentKeepsRule state its properties |
| Sectioned.ContentShape | scripts/sync_standards/transformers/claude.py:22-42 | the document starts with the stripped header and ends with a newline |
| Sectioned.ContentNoRules | scripts/sync_standards/transformers/claude.py:22-42 | without rules, the document is the stripped header and a newline |
| Sectioned.ContentKeepsRule | scripts/sync_standards/transformers/claude.py:19-43 | every rule's section heading and rendering appear in the document |
| Claude.BuildHeader | scripts/sync_standards/transformers/claude.py:45-67 | the fixed preamble, line for line; Sectioned.ContentShape states that the document opens with it, stripped of its trailing newline |
| Claude.Transform | scripts/sync_standards/transformers/claude.py:19-43 | exactly one file, CLAUDE.md at the top of the project (no directory in its path), with `## ` section headings |
| Copilot.BuildHeader | scripts/sync_standards/transformers/copilot.py:44-51 | the fixed preamble, line for line; Sectioned.ContentShape states that the document opens with it, stripped of its trailing newline |
| Copilot.Transform | scripts/sync_standards/transformers/copilot.py:19-42 | exactly one file, the Copilot instructions inside the `.github/` directory, with `# ` section headings |
| ContinueDev.IndentedUpTo | scripts/sync_standards/transformers/continue_dev.py:32-38 | one indented line per rendered line |
| ContinueDev.IndentedAt | scripts/sync_standards/transformers/continue_dev.py:32-38 | the first line gets the item prefix; later lines get four spaces, or become empty when blank |
| ContinueDev.IndentBlockLines | scripts/sync_standards/transformers/continue_dev.py:29-39 | the item has as many lines as the rendering, laid out as above |
| ContinueDev.IndentBlock | scripts/sync_standards/transformers/continue_dev.py:29-39 | a rendering re-indented as one list item; ContinueDev.IndentBlockLines states its lines |
| ContinueDev.IndentRule | scripts/sync_standards/transformers/continue_dev.py:29-39 | the inner loop builds that item |
| ContinueDev.Parts | scripts/sync_standards/transformers/continue_dev.py:21-39 | the header, the `rules:` key and one item per rule |
| ContinueDev.PartsSnoc | scripts/sync_standards/transformers/continue_dev.py:26-39 | one more rule appends its item |
| ContinueDev.Transform | scripts/sync_standards/transformers/continue_dev.py:19-42 | exactly one file, the configuration |
| ContinueDev.BuildHeader | scripts/sync_standards/transformers/continue_dev.py:44-50 | the fixed preamble, line for line; ContinueDev.ContentShape states that the file opens with it |
| ContinueDev.Content | scripts/sync_standards/transformers/continue_dev.py:21-41 | the header, `rules:` and the items, joined by newlines; ContinueDev.ContentShape and ContinueDev.PartsSnoc state its properties |
| ContinueDev.ContentShape | scripts/sync_standards/transformers/continue_dev.py:19-42 | the file opens with the header, and holds `rules:` and every rule's item |
| Aider.Transform | scripts/sync_standards/transformers/aider.py:19-31 | exactly one file, the configuration |
| Aider.BuildHeader | scripts/sync_standards/transformers/aider.py:33-39 | the fixed preamble, line for line; Aider.ContentShape states that the file opens with it |
| Aider.Parts | scripts/sync_standards/transformers/aider.py:21-28 | the header, the banner and one rendering per rule; Aider.PartsLayout states its layout |
| Aider.Content | scripts/sync_standards/transformers/aider.py:21-30 | the parts joined by newlines; Aider.ContentShape states its properties |
| Aider.PartsLayout | scripts/sync_standards/transformers/aider.py:21-28 | the header, then the banner, then one rendering per rule, in order |
| Aider.ContentShape | scripts/sync_standards/transformers/aider.py:19-31 | the file opens with the header, and holds the banner and every rule's rendering |
| Validation.LastIndex | scripts/sync_standards/validator.py:46 | the last occurrence of a character before j, or -1 |
| Validation.LastIndexIsLast | scripts/sync_standards/validator.py:46 | no occurrence of the character lies after the index found, so -1 means the character does not occur at all |
| Validation.Name | scripts/sync_standards/validator.py:46 | `Path(filepath).name`; Validation.NameIsLastComponent and Validation.NameEndsWith state its properties |
| Validation.NameIsLastComponent | scripts/sync_standards/validator.py:46 | the name is a slash-free end of the path, either the whole path or preceded by a slash |
| Validation.NameEndsWith | scripts/sync_standards/validator.py:46 | a path's name ends with its last component |
| Validation.NameSuffix | scripts/sync_standards/validator.py:49-53 | the name's suffix; Validation.NameSuffixShape and Validation.NameSuffixOf state it in both directions |
| Validation.NameSuffixShape | scripts/sync_standards/validator.py:49-53 | a suffix is empty or a dot and at least one dot-free character, ending the name after some other character |
| Validation.NameSuffixOf | scripts/sync_standards/validator.py:49-53 | a name ending in a dotted extension has that suffix |
| Validation.SuffixOf | scripts/sync_standards/validator.py:46-54 | the suffix of directory + stem + extension is the extension |
| Validation.Suffix | scripts/sync_standards/validator.py:46-54 | `Path(filepath).suffix`, the suffix of the name; Validation.SuffixOf, Poc.CursorSuffixes, Poc.ClaudeSuffix and Poc.CopilotSuffix state it for concrete paths |
| Validation.YamlErrors | scripts/sync_standards/validator.py:59-64 | at most one error, present exactly when the document does not load |
| Validation.CountTicksSkip | scripts/sync_standards/validator.py:99-101 | backtick-free stretches do not change the count |
| Validation.CountTicks | scripts/sync_standards/validator.py:99-101 | `len(re.findall("```", s))`; Validation.CountTicksSkip, Validation.ClosedFenceCountsTwo and Validation.FenceAt state its properties |
| Validation.ClosedFenceCountsTwo | scripts/sync_standards/validator.py:98-102 | a closed fence counts two |
| Validation.FenceAt | scripts/sync_standards/validator.py:99-101 | two fences with no backtick between them count two |
| Validation.NoBacktickNoFence | scripts/sync_standards/validator.py:98-102 | a text without backticks has no fence |
| Validation.HeadingAt | scripts/sync_standards/validator.py:105 | a heading at the start of a line has a level from 1 to 6 |
| Validation.LevelsInRange | scripts/sync_standards/validator.py:105-107 | every level is between 1 and 6 |
| Validation.Levels | scripts/sync_standards/validator.py:105-107 | the heading levels in text order; Validation.HeadingAt, Validation.LevelsInRange and Validation.FirstHeading state its properties |
| Validation.FirstHeading | scripts/sync_standards/validator.py:105-107 | a text opening with n hashes and a space has level n first |
| Validation.Skips | scripts/sync_standards/validator.py:108-109 | positions of skips within the levels |
| Validation.SkipsSpec | scripts/sync_standards/validator.py:108-112 | a skip is reported exactly where the level rises by more than one |
| Validation.SkipWarnings | scripts/sync_standards/validator.py:108-112 | one warning per skip |
| Validation.SkipWarningsAt | scripts/sync_standards/validator.py:110-112 | each warning names the levels on both sides of its skip |
| Validation.NoSkipNoWarning | scripts/sync_standards/validator.py:104-112 | no warning exactly when no level rises by more than one |
| Validation.SkipStep | scripts/sync_standards/validator.py:108-112 | one loop round adds the warning of its index, if any |
| Validation.MissingFrontmatter | scripts/sync_standards/validator.py:69-71 | without the opening delimiter, the only finding is the missing front matter |
| Validation.MdcClosed | scripts/sync_standards/validator.py:73-94 | once both delimiters are found, the findings are those of the YAML between them followed by those of the Markdown after the second |
| Validation.FrontmatterErrors | scripts/sync_standards/validator.py:83-91 | at most one error, present exactly when the front matter does not load |
| Validation.FrontmatterWarnings | scripts/sync_standards/validator.py:84-89 | none when the front matter does not load; otherwise one per missing required key, none exactly when both `priority` and `globs` are present |
| Validation.MdcErrors | scripts/sync_standards/validator.py:66-94 | the errors of `_validate_mdc`; Validation.MissingFrontmatter, Validation.UnclosedFrontmatter, Validation.MdcClosed and Validation.ClosedFrontmatter state them |
| Validation.MdcWarnings | scripts/sync_standards/validator.py:66-94 | the warnings of `_validate_mdc`; Validation.MissingFrontmatter, Validation.UnclosedFrontmatter and Validation.MdcClosed state them |
| Validation.MarkdownErrors | scripts/sync_standards/validator.py:98-102 | an odd number of fences is the one error |
| Validation.FenceErrors | scripts/sync_standards/validator.py:98-102 | the unclosed-fence error when the count of triple backticks is odd; Validation.NoBacktickNoFence, Validation.ClosedFenceCountsTwo and Validation.FenceAt state the count |
| Validation.MarkdownWarnings | scripts/sync_standards/validator.py:104-112 | one warning per skipped heading level; Validation.SkipWarnings, Validation.SkipWarningsAt and Validation.NoSkipNoWarning state them |
| Validation.UnclosedFrontmatter | scripts/sync_standards/validator.py:74-77 | without a second delimiter, the only finding is the invalid structure |
| Validation.ClosedFrontmatter | scripts/sync_standards/validator.py:74-94 | a second delimiter is found, and the YAML between and the Markdown after are checked |
| Validation.TrailingLines | scripts/sync_standards/validator.py:118-120 | the reported line numbers are 1-based |
| Validation.TrailingLinesSpec | scripts/sync_standards/validator.py:117-120 | a line is reported exactly when it ends in a space or a tab |
| Validation.TrailingWarnings | scripts/sync_standards/validator.py:118-120 | one warning per such line |
| Validation.TrailingWarningsAt | scripts/sync_standards/validator.py:118-120 | each warning carries its line's number |
| Validation.FinalNewlineWarnings | scripts/sync_standards/validator.py:122-124 | the missing-final-newline warning for non-empty content without a final newline; Validation.CommonWarnings places it between the other common warnings |
| Validation.FenceLineIsStripped | scripts/sync_standards/validator.py:129 | a fence line is one whose stripped text starts with three backticks |
| Validation.LongLines | scripts/sync_standards/validator.py:127-136 | the reported line numbers are 1-based |
| Validation.LongLinesSpec | scripts/sync_standards/validator.py:127-136 | a line is reported exactly when it is over 120 characters, outside a code block, and not a fence line |
| Validation.FenceLineNeverLong | scripts/sync_standards/validator.py:129-131 | fence lines are never reported |
| Validation.InsideBlockNeverLong | scripts/sync_standards/validator.py:127-136 | lines inside a code block are never reported |
| Validation.StillInBlock | scripts/sync_standards/validator.py:129-130 | a block stays open until the next fence line |
| Validation.InBlock | scripts/sync_standards/validator.py:127-131 | the code-block state after the first n lines; Validation.StillInBlock and Validation.LongLinesSpec state its properties |
| Validation.LongWarnings | scripts/sync_standards/validator.py:133-136 | one warning per long line |
| Validation.LongWarningsAt | scripts/sync_standards/validator.py:133-136 | each warning carries its line's number and length |
| Validation.CommonWarnings | scripts/sync_standards/validator.py:114-136 | the trailing-whitespace warnings, then the final-newline warning, then the long-line warnings |
| Validation.CollectEmpty | scripts/sync_standards/validator.py:39-42 | nothing is collected exactly when no file has a finding |
| Validation.NoErrorsIffEveryFileClean | scripts/sync_standards/validator.py:36-42 | validation passes exactly when no single file has an error |
| Validation.AllStep | scripts/sync_standards/validator.py:39-40 | each file's findings follow those of the files before it |
| Validation.CommonChecksAlways | scripts/sync_standards/validator.py:44-57 | every file gets the common checks, whatever its suffix |
| Validation.FileErrors | scripts/sync_standards/validator.py:44-57 | the errors of the check the suffix selects; Validation.CommonChecksAlways and Validation.NoErrorsIffEveryFileClean use it |
| Validation.FileWarnings | scripts/sync_standards/validator.py:44-57 | the warnings of the check the suffix selects, then the common ones; Validation.CommonChecksAlways states it |
| Validation.Validator.constructor | scripts/sync_standards/validator.py:22-25 | both lists start empty |
| Validation.Validator.ValidateAll | scripts/sync_standards/validator.py:27-42 | the lists are reset to the findings of all files; the result is true exactly when there is no error |
| Validation.Validator.ValidateFile | scripts/sync_standards/validator.py:44-57 | appends the file's findings: those of its suffix, then the common ones |
| Validation.Validator.ValidateYaml | scripts/sync_standards/validator.py:59-64 | one error for a syntax error, no warning |
| Validation.Validator.ValidateMdc | scripts/sync_standards/validator.py:66-94 | appends the front matter and Markdown findings |
| Validation.Validator.ValidateMarkdown | scripts/sync_standards/validator.py:96-112 | appends an unclosed-fence error and the heading-skip warnings |
| Validation.Validator.ValidateCommon | scripts/sync_standards/validator.py:114-136 | appends warnings only |
| Validation.Validator.CheckTrailingWhitespace | scripts/sync_standards/validator.py:117-120 | the first line loop |
| Validation.Validator.CheckLineLengths | scripts/sync_standards/validator.py:126-136 | the second line loop, with its code-block state |
| Poc.Parse | scripts/sync-standards-poc.py:37-70 | the security rule exactly when the secrets phrase occurs, the bash rule exactly when the bash phrase occurs, no other rule, security first |
| Poc.CursorTarget | scripts/sync-standards-poc.py:90-98 | only the security and bash files are targets |
| Poc.CursorTargetSpec | scripts/sync-standards-poc.py:90-98 | exactly "Security" and "Bash Standards" are mapped; every other section is skipped |
| Poc.FrontmatterDelimited | scripts/sync-standards-poc.py:111-118 | the front matter is the rule's YAML between two delimiter lines |
| Poc.BuildFrontmatter | scripts/sync-standards-poc.py:111-118 | the priority and the first glob between two delimiter lines; Poc.FrontmatterDelimited states its delimiters |
| Poc.Glob | scripts/sync-standards-poc.py:113-117 | `globs[0]`: every file for scope `["all"]`, else the first pattern; Poc.BuildFrontmatter writes it |
| Poc.FrontmatterYaml | scripts/sync-standards-poc.py:114-117 | the priority and the glob; Poc.FrontmatterDelimited states that it sits between the delimiter lines |
| Poc.ImperativeLeavesNoLowercase | scripts/sync-standards-poc.py:151-157 | no lower-case "must", "should" or "never" is left |
| Poc.ImperativeUnchanged | scripts/sync-standards-poc.py:151-157 | a text without those words is unchanged |
| Poc.MakeImperative | scripts/sync-standards-poc.py:151-161 | the three `str.replace` calls in order; Poc.ImperativeLeavesNoLowercase and Poc.ImperativeUnchanged state its properties |
| Poc.MdcLayout | scripts/sync-standards-poc.py:120-149 | title and text first; each example block is present exactly when its list is non-empty, showing the first example in the scope's fence |
| Poc.FenceBashIffShell | scripts/sync-standards-poc.py:137 | the fence is bash exactly when the scope holds `*.sh` |
| Poc.Fence | scripts/sync-standards-poc.py:137 | the example fence; Poc.FenceBashIffShell states when it is bash |
| Poc.MdcLines | scripts/sync-standards-poc.py:120-149 | one rule's .mdc lines; Poc.MdcLayout states their layout |
| Poc.MdcShowsExamples | scripts/sync-standards-poc.py:133-149 | the first correct and first incorrect examples appear in the rendering |
| Poc.BuildMdcContent | scripts/sync-standards-poc.py:120-149 | the .mdc lines joined; Poc.MdcLayout and Poc.MdcShowsExamples state its properties |
| Poc.Accumulate | scripts/sync-standards-poc.py:103-107 | keeps the file keys distinct |
| Poc.AccumulateSame | scripts/sync-standards-poc.py:103-107 | a rule extends its file, or starts it with the front matter |
| Poc.AccumulateOther | scripts/sync-standards-poc.py:103-107 | other files are untouched |
| Poc.CursorFiles | scripts/sync-standards-poc.py:84-109 | file keys are distinct, and every file some rule is sent to is present |
| Poc.CursorTransform | scripts/sync-standards-poc.py:84-109 | the loop builds the files |
| Poc.SentTo | scripts/sync-standards-poc.py:87-98 | every rule sent to a file is one of the input rules, and its section maps to that file |
| Poc.SentToComplete | scripts/sync-standards-poc.py:87-98 | every rule whose section maps to the file is sent to it |
| Poc.SentToAppend | scripts/sync-standards-poc.py:87-98 | the rules sent from a concatenation are those of the first part followed by those of the second, so input order is kept |
| Poc.CursorFileContent | scripts/sync-standards-poc.py:84-109 | a file holds the first sent rule's front matter, then all sent renderings, in order; a file nothing is sent to is absent |
| Poc.CursorFilesKnown | scripts/sync-standards-poc.py:90-98 | only the two mapped files are written |
| Poc.ConversationalSpec | scripts/sync-standards-poc.py:222-227 | the result starts with "You"; a text that already does is kept; any other is lowered after "You "; applying it twice is applying it once |
| Poc.MakeConversational | scripts/sync-standards-poc.py:222-227 | `_make_conversational`; Poc.ConversationalSpec states its properties |
| Poc.ReasoningSpec | scripts/sync-standards-poc.py:229-235 | each parsed rule gets its reasoning; an unknown title gets the default |
| Poc.GenerateReasoning | scripts/sync-standards-poc.py:229-235 | the reasoning the map holds for the title, else the default; Poc.ReasoningSpec states it |
| Poc.ExplainExample | scripts/sync-standards-poc.py:237-242 | one fixed sentence for correct examples and another for incorrect ones, whatever the example |
| Poc.ClaudeLayout | scripts/sync-standards-poc.py:180-220 | title, text and reasoning first; each do/don't block is present exactly when its example exists, always fenced as python |
| Poc.ClaudeLines | scripts/sync-standards-poc.py:180-220 | one rule's lines; Poc.ClaudeLayout states their layout |
| Poc.BuildClaudeContent | scripts/sync-standards-poc.py:180-220 | the lines joined; Poc.ClaudeLayout states their layout and Poc.ClaudeTextShape that each rule's rendering is in the document |
| Poc.ClaudeHeader | scripts/sync-standards-poc.py:173-178 | the fixed preamble; Poc.ClaudeParts and Poc.ClaudeTextShape state that the document opens with it |
| Poc.ClaudeParts | scripts/sync-standards-poc.py:163-171 | the header, then one rendering per rule, in order |
| Poc.ClaudeTransform | scripts/sync-standards-poc.py:163-171 | exactly one file, CLAUDE.md |
| Poc.ClaudeTextShape | scripts/sync-standards-poc.py:163-178 | the document opens with the header and holds every rule's rendering |
| Poc.ClaudeText | scripts/sync-standards-poc.py:163-171 | the header and every rendering joined by blank lines, as the loop's `+=` builds it; Poc.ClaudeTransform, Poc.ClaudeParts and Poc.ClaudeTextShape state its properties |
| Poc.SummarizeSpec | scripts/sync-standards-poc.py:282-286 | exactly one period, at the end; a text with a period gives the text up to and including its first period; a text without one is kept whole with a period added |
| Poc.Summarize | scripts/sync-standards-poc.py:282-286 | `text.split(".")[0] + "."`; Poc.SummarizeSpec states its properties |
| Poc.CopilotBeforeAfter | scripts/sync-standards-poc.py:270-280 | the before/after block is present exactly when both examples exist; incorrect comes before correct |
| Poc.CopilotLines | scripts/sync-standards-poc.py:258-280 | the lines of one rule; Poc.CopilotBeforeAfter and Poc.CopilotDocKeepsRules state them |
| Poc.CopilotDocLines | scripts/sync-standards-poc.py:248-256 | the title and a blank line come first |
| Poc.CopilotTransform | scripts/sync-standards-poc.py:248-256 | exactly one file, the instructions |
| Poc.CopilotDocKeepsRules | scripts/sync-standards-poc.py:252-254 | every rule's title line and summary are among the lines |
| Poc.CopilotContentShape | scripts/sync-standards-poc.py:248-256 | the file opens with the title and holds every title and summary |
| Poc.ParsedFramable | scripts/sync-standards-poc.py:111-117 | the first rule sent to each Cursor file by the parsed rules has a non-empty scope |
| Poc.FramablePrefix | scripts/sync-standards-poc.py:103-107 | what holds of all the rules holds of the rules seen so far by the loop |
| Poc.FirstSentScope | scripts/sync-standards-poc.py:103-107 | a rule that opens its file is the first one sent there, so its scope can be indexed |
| Poc.AccumulateKeys | scripts/sync-standards-poc.py:103-107 | adding a rule keeps every file there is and creates the one written to |
| Poc.CursorSuffixes | scripts/sync-standards-poc.py:91-92 | both rule files have the `.mdc` suffix |
| Poc.ClaudeSuffix | scripts/sync-standards-poc.py:165 | CLAUDE.md has the `.md` suffix, so the validator checks it as Markdown |
| Poc.CopilotSuffix | scripts/sync-standards-poc.py:256 | the Copilot instructions file has the `.md` suffix, so the validator checks it as Markdown |
| Poc.CursorFileDelimited | scripts/sync-standards-poc.py:104-118 | every rule file opens with the delimiter, which occurs again after it |
| Poc.CursorFilesFramed | scripts/sync_standards/validator.py:66-94 | every POC rule file passes the front matter structure check; its errors are only those of its YAML and its Markdown |
| Text.LowerIdempotent | scripts/sync_standards/parser.py:309 | lowering twice is lowering once |
| Text.LowerChanges | scripts/sync_standards/parser.py:295 | `.lower()` changes exactly the ASCII capitals, each into its small letter, and leaves none behind |
| Text.Find | scripts/sync_standards/validator.py:74 | the index found is an occurrence at or after `from` |
| Text.FindFirstOccurrence | scripts/sync_standards/validator.py:74 | the first occurrence is found |
| Text.ContainsFind | scripts/sync_standards/validator.py:74 | an occurrence exists exactly when one is found |
| Text.JoinSplit | scripts/sync_standards/parser.py:92-97 | joining the split lines gives back the text |
| Text.SplitJoin | scripts/sync_standards/transformers/continue_dev.py:29-39 | splitting joined lines without separators gives them back |
| Text.Split | scripts/sync_standards/parser.py:92 | `s.split(sep)` on one character, never empty; Text.JoinSplit and Text.SplitJoin make it the inverse of Join |
| Text.Join | scripts/sync_standards/parser.py:97 | `sep.join(parts)`; Text.JoinSplit and Text.SplitJoin make it the inverse of Split |
| Text.Strip | scripts/sync_standards/parser.py:194 | no surrounding whitespace is left |
| Text.StripIdempotent | scripts/sync_standards/parser.py:204 | stripping twice is stripping once |
| Text.StripEmptyIffBlank | scripts/sync_standards/parser.py:194 | a stripped text is empty exactly when the text is all whitespace |
| Text.ReplaceAllAbsent | scripts/sync-standards-poc.py:154-156 | replacing an absent word changes nothing |
| Text.ReplaceAll | scripts/sync-standards-poc.py:154-156 | `s.replace(pat, rep)`, left to right without overlap; Text.ReplaceAllAbsent and Poc.ImperativeLeavesNoLowercase state its properties |
| Text.NatToString | scripts/sync_standards/validator.py:111 | a number's text is a non-empty run of digits |
| Text.NatToStringValue | scripts/sync_standards/validator.py:111 | `str(n)`'s digits denote n, and the text starts with 0 only for 0 itself |
| Text.NatToStringInjective | scripts/sync_standards/validator.py:120 | different line numbers are written differently |
| Text.IntToStringValue | scripts/sync-standards-poc.py:114 | `str(i)` is a minus sign exactly for negative i, followed by the digits of its magnitude |
| Dict.Put | scripts/sync_standards/parser.py:97 | assigning an existing key keeps the key order; a new key goes last; keys stay distinct |
| Dict.PutGet | scripts/sync_standards/parser.py:97 | looking up after assigning finds the new value for that key, and the old value for any other |
| Dict.GetSomeIffKey | scripts/sync-standards-poc.py:103 | a lookup succeeds exactly when the key is present |
| Dict.AssignDistinct | scripts/sync_standards/parser.py:96-109 | assigning distinct non-empty keys in order gives those pairs |

## Left out

- Template rendering: the Jinja2 templates and environment (`transformers/base.py` lines 22-58) are not part of this model. Rendering is the parameter `render`, so every transformer is proved for any template. The registered filters are modelled as functions.
- YAML parsing: `yaml.safe_load` is the parameter `load`. Its result is reduced to the list of top-level keys, or the message of a syntax error.
- Validation.FrontmatterWarnings: a front matter that loads to something other than a mapping is modelled as its list of keys. In the source, an empty front matter, which loads as `None`, makes `"priority" not in metadata` raise `TypeError`, and a scalar string would be searched as text.
- File and console I/O are left out, because they are effects outside the text pipeline:
  - reading `CONTEXT.md` (`parser.py` lines 61-70);
  - the generator that writes the files and drives the transformers (`generator.py` and `sync-standards.py` are not part of this model);
  - `Validator.print_results`;
  - the proof-of-concept script's `main` (lines 289-352), which reads the file, prints and writes.
- Regular expressions are written out by hand for the patterns the code uses:
  - `\s`, `str.strip()` and `str.isspace()` share one whitespace test, Text.IsSpace, which holds for the characters Python counts as whitespace: the ASCII ones, \x1c-\x1f, U+0085, U+00A0, U+1680, U+2000-U+200A, U+2028, U+2029, U+202F, U+205F and U+3000;
  - `\w` is ASCII letters, digits and `_`, and `\d` is the ASCII digits;
  - `.lower()` lowers only ASCII letters.

  Unicode case folding and Unicode word characters are not modelled.
- Filters.MakeImperative: `re.IGNORECASE` matching and `\b` word boundaries are modelled on ASCII letters, digits and `_` only.
- Path handling: `Path.suffix` is the text from the last dot of the last path component, when that dot is neither the first nor the last character of the name. Path normalisation, such as a trailing slash, is left out.
- `ValidationError` (`validator.py` lines 13-16) is never raised by the code, so it is not modelled.
- The loops of `_validate_markdown` and `_validate_common` are split into helper methods of the `Validator` class. Each helper states its share of the appended findings.
- Heading levels are computed on positions in the text, at the start of each line, rather than by the regex engine's scan. The two agree because whitespace never starts a heading.
- Poc.CursorFiles, Poc.CursorTransform: these require that the first rule sent to each Cursor file has a non-empty scope, because only that rule's front matter is built, and the source indexes `globs[0]` there (lines 103-107 and 116). On an empty scope the source raises `IndexError`; the model states this failure as a precondition instead of modelling it. Later rules sent to the same file may have any scope. Poc.ParsedFramable shows that the rules the parser produces meet the requirement.
- The generator's choice of transformers, its output directories and its dry-run mode are left out (`generator.py` is not part of this model).
