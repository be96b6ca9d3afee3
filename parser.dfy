/**
 * The rule extractor of parser.py (`ContextParser`): a standards document becomes a
 * list of rules, one per `### ` subsection of each `## ` section (or one for a whole
 * section without subsections), each carrying the section's priority, file scope and
 * tags, looked up case-insensitively in ordered keyword tables.
 */
module Parser {
  import opened Wrappers
  import opened Text
  import opened Dict
  import opened Sections
  import opened Fences

  /** One rule of the standards document. */
  datatype Rule = Rule(
    section: string,
    subsection: Option<string>,
    title: string,
    content: string,
    examples: seq<CodeExample>,
    priority: int,
    scope: seq<string>,
    tags: seq<string>)

  const SectionPriorities: seq<(string, int)> := [
    ("Security", 100), ("Pre-commit", 90), ("Bash Standards", 70), ("Python Standards", 70),
    ("Design Principles", 60), ("YAML", 50), ("JSON", 50), ("Documentation", 40)]

  const SectionScopes: seq<(string, seq<string>)> := [
    ("Bash Standards", ["*.sh", "*.bash"]), ("Python Standards", ["*.py"]),
    ("YAML", ["*.yaml"]), ("JSON", ["*.json"])]

  const TagMap: seq<(string, seq<string>)> := [
    ("bash", ["bash", "shell", "script"]), ("python", ["python"]),
    ("security", ["security", "secret", "credential"]), ("yaml", ["yaml"]),
    ("json", ["json"]), ("documentation", ["documentation", "doc"])]

  const DefaultPriority: int := 50
  const DefaultScope: seq<string> := ["all"]

  /** `key.lower() in section.lower()` */
  predicate KeyMatches(key: string, section: string) {
    Contains(Lower(section), Lower(key))
  }

  /** Index of the first table entry, from `i` on, whose key matches the section. */
  function FirstMatch<V>(table: seq<(string, V)>, section: string, i: nat): (n: nat)
    requires i <= |table|
    decreases |table| - i
    ensures i <= n <= |table|
    ensures forall k :: i <= k < n ==> !KeyMatches(table[k].0, section)
    ensures n < |table| ==> KeyMatches(table[n].0, section)
  {
    if i == |table| then i
    else if KeyMatches(table[i].0, section) then i
    else FirstMatch(table, section, i + 1)
  }

  /**
   * The early-return scan of `_get_priority` and `_get_scope`: the value of the first
   * entry whose key matches, or the default when none does.
   */
  function Lookup<V>(table: seq<(string, V)>, section: string, default: V): (v: V)
    ensures (forall k :: 0 <= k < |table| ==> !KeyMatches(table[k].0, section)) ==> v == default
    ensures forall k ::
      (0 <= k < |table| && KeyMatches(table[k].0, section) &&
       forall j :: 0 <= j < k ==> !KeyMatches(table[j].0, section)) ==> v == table[k].1
  {
    var n := FirstMatch(table, section, 0);
    if n < |table| then table[n].1 else default
  }

  /** `_get_priority` */
  function GetPriority(section: string): (p: int)
    ensures 40 <= p <= 100
  {
    assert forall k :: 0 <= k < |SectionPriorities| ==> 40 <= SectionPriorities[k].1 <= 100;
    Lookup(SectionPriorities, section, DefaultPriority)
  }

  /** `_get_scope` */
  function GetScope(section: string): (scope: seq<string>)
    ensures scope != []
  {
    Lookup(SectionScopes, section, DefaultScope)
  }

  /** Matching ignores case: a section and its lower-cased form look up the same. */
  lemma LookupIgnoresCase<V>(table: seq<(string, V)>, section: string, default: V)
    ensures Lookup(table, Lower(section), default) == Lookup(table, section, default)
  {
    LowerIdempotent(section);
  }

  /** Any section mentioning "security", in any case, gets the highest priority. */
  lemma SecurityFirst(section: string)
    requires Contains(Lower(section), "security")
    ensures GetPriority(section) == 100
  {
    assert Lower("Security") == "security";
    assert KeyMatches(SectionPriorities[0].0, section);
  }

  /** The scope is ["all"] exactly when no scope key occurs in the section. */
  lemma ScopeAllIffNoKey(section: string)
    ensures GetScope(section) == DefaultScope <==>
      forall k :: 0 <= k < |SectionScopes| ==> !KeyMatches(SectionScopes[k].0, section)
  {
    var n := FirstMatch(SectionScopes, section, 0);
    if n < |SectionScopes| {
      assert SectionScopes[n].1 != DefaultScope;
    }
  }

  /** The tags of `table` from entry `i` on whose keywords occur in `lower`. */
  function TagsFrom(table: seq<(string, seq<string>)>, lower: string, i: nat): (tags: seq<string>)
    requires i <= |table|
    decreases |table| - i
    ensures |tags| <= |table| - i
  {
    if i == |table| then []
    else
      var rest := TagsFrom(table, lower, i + 1);
      if ContainsAny(lower, table[i].1) then [table[i].0] + rest else rest
  }

  /** A tag is listed exactly when one of its keywords occurs. */
  lemma {:induction false} TagsFromMembers(table: seq<(string, seq<string>)>, lower: string, i: nat)
    requires i <= |table|
    decreases |table| - i
    ensures forall t :: t in TagsFrom(table, lower, i) <==>
      exists k :: i <= k < |table| && table[k].0 == t && ContainsAny(lower, table[k].1)
  {
    if i < |table| {
      TagsFromMembers(table, lower, i + 1);
    }
  }

  /** With distinct table keys, every tag listed from entry `i` on sits at or after `i`. */
  lemma {:induction false} TagsFromBounds(table: seq<(string, seq<string>)>, lower: string, i: nat)
    requires i <= |table| && DistinctKeys(table)
    decreases |table| - i
    ensures forall a :: 0 <= a < |TagsFrom(table, lower, i)| ==>
      i <= KeyIndex(table, TagsFrom(table, lower, i)[a]) < |table|
  {
    if i < |table| {
      var rest := TagsFrom(table, lower, i + 1);
      TagsFromBounds(table, lower, i + 1);
      KeyIndexAt(table, table[i].0, i);
      if ContainsAny(lower, table[i].1) {
        var tags := [table[i].0] + rest;
        assert tags == TagsFrom(table, lower, i);
        forall a | 0 < a < |tags|
          ensures i < KeyIndex(table, tags[a]) < |table|
        {
          assert tags[a] == rest[a - 1];
        }
      }
    }
  }

  /** With distinct table keys, the tags come in table order. */
  lemma {:induction false} TagsFromOrdered(table: seq<(string, seq<string>)>, lower: string, i: nat)
    requires i <= |table| && DistinctKeys(table)
    decreases |table| - i
    ensures forall a, b :: 0 <= a < b < |TagsFrom(table, lower, i)| ==>
      KeyIndex(table, TagsFrom(table, lower, i)[a]) < KeyIndex(table, TagsFrom(table, lower, i)[b])
  {
    if i < |table| {
      var rest := TagsFrom(table, lower, i + 1);
      TagsFromOrdered(table, lower, i + 1);
      if ContainsAny(lower, table[i].1) {
        TagsFromBounds(table, lower, i + 1);
        KeyIndexAt(table, table[i].0, i);
        var tags := [table[i].0] + rest;
        assert tags == TagsFrom(table, lower, i);
        forall a, b | 0 <= a < b < |tags|
          ensures KeyIndex(table, tags[a]) < KeyIndex(table, tags[b])
        {
          assert tags[b] == rest[b - 1];
          if a > 0 {
            assert tags[a] == rest[a - 1];
          }
        }
      }
    }
  }

  /** The tag table names each tag once. */
  lemma TagMapDistinct()
    ensures DistinctKeys(TagMap)
  {
  }

  /** `_get_tags` */
  function GetTags(section: string): (tags: seq<string>)
    ensures |tags| <= |TagMap|
  {
    TagsFrom(TagMap, Lower(section), 0)
  }

  /**
   * The tags of a section are those of the table whose keywords occur in the
   * lower-cased section, each once and in table order.
   */
  lemma GetTagsSpec(section: string)
    ensures forall t :: t in GetTags(section) <==>
      exists k :: 0 <= k < |TagMap| && TagMap[k].0 == t && ContainsAny(Lower(section), TagMap[k].1)
    ensures forall a, b :: 0 <= a < b < |GetTags(section)| ==>
      KeyIndex(TagMap, GetTags(section)[a]) < KeyIndex(TagMap, GetTags(section)[b])
    ensures forall a, b :: 0 <= a < b < |GetTags(section)| ==> GetTags(section)[a] != GetTags(section)[b]
  {
    TagsFromMembers(TagMap, Lower(section), 0);
    TagMapDistinct();
    TagsFromBounds(TagMap, Lower(section), 0);
    TagsFromOrdered(TagMap, Lower(section), 0);
  }

  /** `[.!?]\s` at index `j`: where `re.split(r"[.!?]\s+", text)` cuts first. */
  predicate IsSentenceBreak(s: string, j: nat) {
    j + 1 < |s| && (s[j] == '.' || s[j] == '!' || s[j] == '?') && IsSpace(s[j + 1])
  }

  /** The first sentence break at or after `i`, or |s| when there is none. */
  function SentenceEnd(s: string, i: nat): (j: nat)
    requires i <= |s|
    decreases |s| - i
    ensures i <= j <= |s|
    ensures forall k :: i <= k < j ==> !IsSentenceBreak(s, k)
    ensures j < |s| ==> IsSentenceBreak(s, j)
  {
    if i == |s| || IsSentenceBreak(s, i) then i else SentenceEnd(s, i + 1)
  }

  /** `re.sub(r"^[-*]\s*", "", t)`: one leading dash or star and the whitespace after it. */
  function DropBullet(t: string): string {
    if |t| > 0 && (t[0] == '-' || t[0] == '*') then LStrip(t[1..]) else t
  }

  /** `re.split(r"[.!?]\s+", text)[0]` after stripping and dropping the bullet. */
  function FirstSentence(text: string): string {
    var t := DropBullet(Strip(text));
    t[..SentenceEnd(t, 0)]
  }

  const MaxTitle: nat := 60

  /**
   * `_extract_title`: the first sentence, stripped; one longer than 60 characters is
   * cut to its first 57 characters followed by "...". The split always yields at
   * least one piece, so the "Rule" fallback of the source is never taken.
   */
  function ExtractTitle(text: string): (title: string)
    ensures |title| <= MaxTitle
    ensures var s := Strip(FirstSentence(text));
      |s| <= MaxTitle ==> title == s
    ensures var s := Strip(FirstSentence(text));
      |s| > MaxTitle ==> |title| == MaxTitle && title[..57] == s[..57] && title[57..] == "..."
  {
    var s := Strip(FirstSentence(text));
    if |s| > MaxTitle then s[..57] + "..." else s
  }

  /** A short sentence without a break, bullet or surrounding whitespace is its own title. */
  lemma ShortSentenceIsTitle(s: string)
    requires s != [] && Strip(s) == s && s[0] != '-' && s[0] != '*'
    requires forall k :: 0 <= k < |s| ==> !IsSentenceBreak(s, k)
    requires |s| <= MaxTitle
    ensures ExtractTitle(s) == s
  {
    assert SentenceEnd(s, 0) == |s|;
    assert s[..|s|] == s;
  }

  /** A leading "- " bullet does not reach the title. */
  lemma BulletDropped(s: string)
    requires s != [] && Strip(s) == s && s[0] != '-' && s[0] != '*'
    ensures ExtractTitle("- " + s) == ExtractTitle(s)
  {
    var b := "- " + s;
    assert !IsSpace(s[0]) && !IsSpace(s[|s| - 1]);
    assert SpacesEnd(b, 0) == 0;
    assert LStrip(b) == b;
    assert SpacesStart(b, |b|) == |b|;
    assert Strip(b) == b;
    assert b[1..] == " " + s;
    LStripBlankPrefix(" ", s);
    assert DropBullet(b) == s;
  }

  /** The prose of a rule's content, once the code examples are taken out. */
  function Prose(content: string): string {
    ContentAndExamples(content).0
  }

  /**
   * `_create_rule`: no rule when the prose is blank; otherwise the rule takes the
   * subsection as its title, or the title extracted from the prose when there is no
   * subsection, and the stripped prose as its content.
   */
  function CreateRule(section: string, subsection: Option<string>, content: string,
                      priority: int, scope: seq<string>, tags: seq<string>): (r: Option<Rule>)
    ensures r.None? <==> IsBlank(Prose(content))
    ensures r.Some? ==>
      && r.value.section == section && r.value.subsection == subsection
      && r.value.content == Strip(Prose(content)) && r.value.content != ""
      && r.value.examples == ContentAndExamples(content).1
      && r.value.priority == priority && r.value.scope == scope && r.value.tags == tags
      && (subsection.Some? && subsection.value != "" ==> r.value.title == subsection.value)
      && (subsection.None? ==> r.value.title == ExtractTitle(Prose(content)))
  {
    var (text, examples) := ContentAndExamples(content);
    StripEmptyIffBlank(text);
    if Strip(text) == "" then None
    else
      var title := if subsection.Some? && subsection.value != "" then subsection.value else ExtractTitle(text);
      Some(Rule(section, subsection, title, Strip(text), examples, priority, scope, tags))
  }

  /** `if rule: rules.append(rule)` */
  function Kept(rule: Option<Rule>): (rules: seq<Rule>)
    ensures rule.None? ==> rules == []
    ensures rule.Some? ==> rules == [rule.value]
  {
    if rule.Some? then [rule.value] else []
  }

  /** The rules of the subsections `subs`, in order, without the blank ones. */
  function SubsectionRules(section: string, subs: Dict<string>, priority: int,
                           scope: seq<string>, tags: seq<string>): (rules: seq<Rule>)
    decreases |subs|
    ensures |rules| <= |subs|
  {
    if subs == [] then []
    else
      var n := |subs| - 1;
      SubsectionRules(section, subs[..n], priority, scope, tags)
        + Kept(CreateRule(section, Some(subs[n].0), subs[n].1, priority, scope, tags))
  }

  /** One more subsection adds its rule, if it has one, at the end. */
  lemma SubsectionRulesSnoc(section: string, subs: Dict<string>, i: nat, priority: int,
                            scope: seq<string>, tags: seq<string>)
    requires i < |subs|
    ensures SubsectionRules(section, subs[..i + 1], priority, scope, tags)
         == SubsectionRules(section, subs[..i], priority, scope, tags)
            + Kept(CreateRule(section, Some(subs[i].0), subs[i].1, priority, scope, tags))
  {
    assert subs[..i + 1][..i] == subs[..i];
  }

  /**
   * Every rule of a subsection carries the section, one of the subsection names, the
   * section's priority, scope and tags, and some content.
   */
  lemma {:induction false} SubsectionRulesFields(section: string, subs: Dict<string>, priority: int,
                                                 scope: seq<string>, tags: seq<string>)
    decreases |subs|
    ensures forall r :: r in SubsectionRules(section, subs, priority, scope, tags) ==>
      && r.section == section && r.subsection.Some? && r.subsection.value in Keys(subs)
      && r.priority == priority && r.scope == scope && r.tags == tags && r.content != ""
  {
    if subs != [] {
      var n := |subs| - 1;
      SubsectionRulesFields(section, subs[..n], priority, scope, tags);
      KeysPrefix(subs, n);
      assert subs[n].0 == Keys(subs)[n];
    }
  }

  /** What `_parse_section` returns. */
  function SectionRules(title: string, content: string): seq<Rule> {
    var subs := HeaderSplit(content, Subsection);
    var priority, scope, tags := GetPriority(title), GetScope(title), GetTags(title);
    if |subs| > 0 then SubsectionRules(title, subs, priority, scope, tags)
    else Kept(CreateRule(title, None, content, priority, scope, tags))
  }

  /** One round of the loop of `_parse_section`: the rule of subsection `i`, if any. */
  method AddSubsectionRule(title: string, subsections: Dict<string>, i: nat, priority: int,
                           scope: seq<string>, tags: seq<string>, rules: seq<Rule>) returns (rules': seq<Rule>)
    requires i < |subsections|
    requires rules == SubsectionRules(title, subsections[..i], priority, scope, tags)
    ensures rules' == SubsectionRules(title, subsections[..i + 1], priority, scope, tags)
  {
    var (name, body) := subsections[i];
    var rule := CreateRule(title, Some(name), body, priority, scope, tags);
    SubsectionRulesSnoc(title, subsections, i, priority, scope, tags);
    rules' := rules;
    if rule.Some? {
      rules' := rules + [rule.value];
    }
  }

  /** `_parse_section` */
  method ParseSection(title: string, content: string) returns (rules: seq<Rule>)
    ensures rules == SectionRules(title, content)
  {
    rules := [];
    var priority := GetPriority(title);
    var scope := GetScope(title);
    var tags := GetTags(title);
    var subsections := SplitIntoSubsections(content);
    if |subsections| > 0 {
      var i := 0;
      while i < |subsections|
        invariant 0 <= i <= |subsections|
        invariant rules == SubsectionRules(title, subsections[..i], priority, scope, tags)
      {
        rules := AddSubsectionRule(title, subsections, i, priority, scope, tags, rules);
        i := i + 1;
      }
      assert subsections[..i] == subsections;
    } else {
      var rule := CreateRule(title, None, content, priority, scope, tags);
      if rule.Some? {
        rules := [rule.value];
      }
    }
  }

  /** A section without subsections yields at most one rule, and it has no subsection. */
  lemma NoSubsectionsOneRule(title: string, content: string)
    requires HeaderSplit(content, Subsection) == []
    ensures |SectionRules(title, content)| <= 1
    ensures forall r :: r in SectionRules(title, content) ==> r.subsection.None? && r.section == title
  {
  }

  /** A subsection with a name gives its rule that name as title. */
  lemma SubsectionRuleTitled(section: string, name: string, body: string, priority: int,
                             scope: seq<string>, tags: seq<string>)
    requires name != ""
    ensures forall r :: r in Kept(CreateRule(section, Some(name), body, priority, scope, tags)) ==>
      r.subsection == Some(name) && r.title == name
  {
  }

  /** Every rule of a section with subsections is titled by one of its subsections. */
  lemma {:induction false} SubsectionRulesTitled(section: string, subs: Dict<string>, priority: int,
                                                 scope: seq<string>, tags: seq<string>)
    requires forall i :: 0 <= i < |subs| ==> subs[i].0 != ""
    decreases |subs|
    ensures forall r :: r in SubsectionRules(section, subs, priority, scope, tags) ==>
      r.subsection == Some(r.title) && KeyIndex(subs, r.title) < |subs|
  {
    if subs != [] {
      var n := |subs| - 1;
      var init := subs[..n];
      SubsectionRulesTitled(section, init, priority, scope, tags);
      var rules := SubsectionRules(section, init, priority, scope, tags);
      forall r | r in rules ensures KeyIndex(subs, r.title) < n {
        KeyIndexPrefix(subs, n, r.title);
      }
      SubsectionRuleTitled(section, subs[n].0, subs[n].1, priority, scope, tags);
      SubsectionRulesSnoc(section, subs, n, priority, scope, tags);
      assert subs[..n + 1] == subs;
    }
  }

  /**
   * A section with distinct subsection names yields rules in the order of its
   * subsections.
   */
  lemma {:induction false} SubsectionRulesInOrder(section: string, subs: Dict<string>, priority: int,
                                                  scope: seq<string>, tags: seq<string>)
    requires DistinctKeys(subs)
    requires forall i :: 0 <= i < |subs| ==> subs[i].0 != ""
    decreases |subs|
    ensures forall a, b :: 0 <= a < b < |SubsectionRules(section, subs, priority, scope, tags)| ==>
      KeyIndex(subs, SubsectionRules(section, subs, priority, scope, tags)[a].title) <
      KeyIndex(subs, SubsectionRules(section, subs, priority, scope, tags)[b].title)
  {
    if subs != [] {
      var n := |subs| - 1;
      var init := subs[..n];
      SubsectionRulesInOrder(section, init, priority, scope, tags);
      SubsectionRulesTitled(section, init, priority, scope, tags);
      var rules := SubsectionRules(section, init, priority, scope, tags);
      forall r | r in rules ensures KeyIndex(subs, r.title) < n {
        KeyIndexPrefix(subs, n, r.title);
      }
      var last := Kept(CreateRule(section, Some(subs[n].0), subs[n].1, priority, scope, tags));
      KeyIndexAt(subs, subs[n].0, n);
      SubsectionRuleTitled(section, subs[n].0, subs[n].1, priority, scope, tags);
      var all := rules + last;
      SubsectionRulesSnoc(section, subs, n, priority, scope, tags);
      assert subs[..n + 1] == subs;
      forall a, b | 0 <= a < b < |all| ensures KeyIndex(subs, all[a].title) < KeyIndex(subs, all[b].title) {
        assert all[a] == rules[a] && all[a] in rules;
        if b < |rules| {
          assert all[b] == rules[b] && all[b] in rules;
          assert KeyIndex(init, rules[a].title) < KeyIndex(init, rules[b].title);
          KeyIndexPrefix(subs, n, rules[a].title);
          KeyIndexPrefix(subs, n, rules[b].title);
        } else {
          assert all[b] in last;
        }
      }
    }
  }

  /** The rules of the sections `sections`, in order. */
  function SectionsRules(sections: Dict<string>): seq<Rule>
    decreases |sections|
  {
    if sections == [] then []
    else
      var n := |sections| - 1;
      SectionsRules(sections[..n]) + SectionRules(sections[n].0, sections[n].1)
  }

  lemma SectionsRulesSnoc(sections: Dict<string>, i: nat)
    requires i < |sections|
    ensures SectionsRules(sections[..i + 1])
         == SectionsRules(sections[..i]) + SectionRules(sections[i].0, sections[i].1)
  {
    assert sections[..i + 1][..i] == sections[..i];
  }

  /** Every rule of a section carries the section's title, priority, scope and tags. */
  lemma SectionRulesFields(title: string, content: string)
    ensures forall r :: r in SectionRules(title, content) ==>
      && r.section == title && r.content != ""
      && r.priority == GetPriority(title) && r.scope == GetScope(title) && r.tags == GetTags(title)
  {
    SubsectionRulesFields(title, HeaderSplit(content, Subsection), GetPriority(title), GetScope(title), GetTags(title));
  }

  /** Every rule of a document comes from one of its sections and carries that section's settings. */
  lemma {:induction false} SectionsRulesFields(sections: Dict<string>)
    decreases |sections|
    ensures forall r :: r in SectionsRules(sections) ==>
      && r.section in Keys(sections) && r.content != ""
      && r.priority == GetPriority(r.section) && r.scope == GetScope(r.section) && r.tags == GetTags(r.section)
  {
    if sections != [] {
      var n := |sections| - 1;
      SectionsRulesFields(sections[..n]);
      SectionRulesFields(sections[n].0, sections[n].1);
      KeysPrefix(sections, n);
      assert sections[n].0 == Keys(sections)[n];
    }
  }

  /** What `parse` returns for a document. */
  function ParseRules(content: string): seq<Rule> {
    SectionsRules(HeaderSplit(content, Section))
  }

  /** `ContextParser.parse`, on the document's text. */
  method Parse(content: string) returns (rules: seq<Rule>)
    ensures rules == ParseRules(content)
  {
    rules := [];
    var sections := SplitIntoSections(content);
    var i := 0;
    while i < |sections|
      invariant 0 <= i <= |sections|
      invariant rules == SectionsRules(sections[..i])
    {
      var (title, body) := sections[i];
      var sectionRules := ParseSection(title, body);
      SectionsRulesSnoc(sections, i);
      rules := rules + sectionRules;
      i := i + 1;
    }
    assert sections[..i] == sections;
  }

  /** Every parsed rule has content and the priority, scope and tags of its section. */
  lemma ParsedRulesWellFormed(content: string)
    ensures forall r :: r in ParseRules(content) ==>
      && r.content != "" && 40 <= r.priority <= 100 && r.scope != []
      && r.section in Keys(HeaderSplit(content, Section))
  {
    SectionsRulesFields(HeaderSplit(content, Section));
  }
}
