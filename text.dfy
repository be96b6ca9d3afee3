/**
 * Python `str` operations used by the standards-sync pipeline, restricted to what the
 * pipeline relies on: ASCII lower-casing, whitespace as `str.isspace` sees it,
 * `startswith`/`endswith`/`in`, `find`, `split` on one character,
 * `join`, `strip` and `replace`, and decimal rendering of integers.
 */
module Text {
  import opened Wrappers

  /**
   * `str.isspace`, which is also what `\s` matches in a `str` pattern: space, \t \n
   * \v \f \r, the separators \x1c-\x1f, NEL, the no-break space, the Ogham space
   * mark, the spaces U+2000 to U+200A, the line and paragraph separators, the narrow
   * no-break space, the medium mathematical space and the ideographic space.
   */
  predicate IsSpace(c: char) {
    || c == ' ' || ('\t' <= c <= '\r') || ('\U{1C}' <= c <= '\U{1F}')
    || c == '\U{85}' || c == '\U{A0}' || c == '\U{1680}'
    || ('\U{2000}' <= c <= '\U{200A}') || c == '\U{2028}' || c == '\U{2029}'
    || c == '\U{202F}' || c == '\U{205F}' || c == '\U{3000}'
  }

  predicate IsDigit(c: char) {
    '0' <= c <= '9'
  }

  /** The regular-expression class `\w`, restricted to ASCII. */
  predicate IsWordChar(c: char) {
    ('a' <= c <= 'z') || ('A' <= c <= 'Z') || IsDigit(c) || c == '_'
  }

  /** A string made of whitespace only (Python: `not s.strip()`). */
  predicate IsBlank(s: string) {
    forall i :: 0 <= i < |s| ==> IsSpace(s[i])
  }

  function LowerChar(c: char): (d: char)
    ensures IsWordChar(d) == IsWordChar(c)
    ensures IsSpace(d) == IsSpace(c)
  {
    if 'A' <= c <= 'Z' then (c as int + 32) as char else c
  }

  /** `str.lower()` on ASCII letters; every other character is left as it is. */
  function Lower(s: string): (r: string)
    ensures |r| == |s|
    ensures forall i :: 0 <= i < |s| ==> r[i] == LowerChar(s[i])
  {
    seq(|s|, i requires 0 <= i < |s| => LowerChar(s[i]))
  }

  lemma LowerAppend(a: string, b: string)
    ensures Lower(a + b) == Lower(a) + Lower(b)
  {
    assert forall i :: 0 <= i < |a + b| ==> Lower(a + b)[i] == (Lower(a) + Lower(b))[i];
  }

  /**
   * Lower-casing changes exactly the ASCII capitals, each into its small letter, and
   * leaves no ASCII capital behind.
   */
  lemma LowerChanges(s: string)
    ensures forall i :: 0 <= i < |s| ==>
      (Lower(s)[i] != s[i] <==> 'A' <= s[i] <= 'Z')
      && ('A' <= s[i] <= 'Z' ==> Lower(s)[i] as int == s[i] as int + ('a' as int - 'A' as int))
    ensures forall i :: 0 <= i < |s| ==> !('A' <= Lower(s)[i] <= 'Z')
  {
  }

  /** Lower-casing twice is lower-casing once. */
  lemma LowerIdempotent(s: string)
    ensures Lower(Lower(s)) == Lower(s)
  {
  }

  predicate StartsWith(s: string, prefix: string) {
    |prefix| <= |s| && s[..|prefix|] == prefix
  }

  predicate EndsWith(s: string, suffix: string) {
    |suffix| <= |s| && s[|s| - |suffix|..] == suffix
  }

  /** `sub` occurs in `s` starting at index `i`. */
  predicate OccursAt(s: string, sub: string, i: nat) {
    i + |sub| <= |s| && s[i..i + |sub|] == sub
  }

  /** Python's `sub in s`. */
  predicate Contains(s: string, sub: string) {
    exists i: nat :: i <= |s| && OccursAt(s, sub, i)
  }

  /** Python's `s.find(sub, from)`: the first occurrence at or after `from`. */
  function Find(s: string, sub: string, from: nat): (r: Option<nat>)
    decreases |s| - from
    ensures r.Some? ==> from <= r.value && OccursAt(s, sub, r.value)
  {
    if from + |sub| > |s| then None
    else if OccursAt(s, sub, from) then Some(from)
    else Find(s, sub, from + 1)
  }

  /** `Find` gives the first occurrence, and finds none only when there is none. */
  lemma {:induction false} FindFirstOccurrence(s: string, sub: string, from: nat)
    decreases |s| - from
    ensures var r := Find(s, sub, from);
      && (r.Some? ==> forall j :: from <= j < r.value ==> !OccursAt(s, sub, j))
      && (r.None? ==> forall j: nat :: from <= j ==> !OccursAt(s, sub, j))
  {
    if from + |sub| <= |s| && !OccursAt(s, sub, from) {
      FindFirstOccurrence(s, sub, from + 1);
    }
  }

  lemma ContainsFind(s: string, sub: string)
    ensures Contains(s, sub) <==> Find(s, sub, 0).Some?
  {
    FindFirstOccurrence(s, sub, 0);
    if Find(s, sub, 0).Some? {
      assert OccursAt(s, sub, Find(s, sub, 0).value);
    }
  }

  /** Any of `words` occurs in `s` (Python: `any(w in s for w in words)`). */
  predicate ContainsAny(s: string, words: seq<string>) {
    exists k :: 0 <= k < |words| && Contains(s, words[k])
  }

  /**
   * `s.split(sep)` for a one-character separator, read from the back: the last
   * character either closes a piece or extends the last piece. There is always at
   * least one piece.
   */
  function Split(s: string, sep: char): (parts: seq<string>)
    decreases |s|
    ensures |parts| >= 1
  {
    if s == [] then [""]
    else
      var init := Split(s[..|s| - 1], sep);
      var c := s[|s| - 1];
      if c == sep then init + [""]
      else init[..|init| - 1] + [init[|init| - 1] + [c]]
  }

  /** `sep.join(parts)`, read from the back. */
  function Join(parts: seq<string>, sep: string): string
    decreases |parts|
  {
    if |parts| == 0 then ""
    else if |parts| == 1 then parts[0]
    else Join(parts[..|parts| - 1], sep) + sep + parts[|parts| - 1]
  }

  /** Adding a character that is not the separator extends the last piece. */
  lemma SplitSnoc(s: string, c: char, sep: char)
    requires c != sep
    ensures var init := Split(s, sep);
      Split(s + [c], sep) == init[..|init| - 1] + [init[|init| - 1] + [c]]
  {
    assert (s + [c])[..|s|] == s;
  }

  /** No piece of a split holds the separator. */
  lemma {:induction false} SplitPiecesFree(s: string, sep: char)
    decreases |s|
    ensures forall k :: 0 <= k < |Split(s, sep)| ==> sep !in Split(s, sep)[k]
  {
    if s != [] {
      SplitPiecesFree(s[..|s| - 1], sep);
    }
  }

  /** A text without the separator is one piece. */
  lemma {:induction false} SplitNoSep(s: string, sep: char)
    requires sep !in s
    ensures Split(s, sep) == [s]
  {
    if s != [] {
      var n := |s| - 1;
      SplitNoSep(s[..n], sep);
      assert s[..n] + [s[n]] == s;
    }
  }

  /** Splitting on a character and joining with it again gives back the text. */
  lemma {:induction false} JoinSplit(s: string, sep: char)
    decreases |s|
    ensures Join(Split(s, sep), [sep]) == s
  {
    if s != [] {
      var n := |s| - 1;
      var init := Split(s[..n], sep);
      JoinSplit(s[..n], sep);
      if s[n] != sep {
        var m := |init| - 1;
        if m > 0 {
          assert (init[..m] + [init[m] + [s[n]]])[..m] == init[..m];
        }
      }
      assert s[..n] + [s[n]] == s;
    }
  }

  /** In a text that holds the separator, the first piece stops at its first occurrence. */
  lemma {:induction false} SplitFirst(s: string, sep: char)
    requires sep in s
    decreases |s|
    ensures |Split(s, sep)[0]| < |s| && s[|Split(s, sep)[0]|] == sep
  {
    var n := |s| - 1;
    var init := Split(s[..n], sep);
    if sep in s[..n] {
      SplitFirst(s[..n], sep);
      if |init| == 1 {
        SplitPiecesFree(s[..n], sep);
        JoinSplit(s[..n], sep);
        assert false;
      }
      assert Split(s, sep)[0] == init[0];
    } else {
      assert s[n] == sep;
      SplitNoSep(s[..n], sep);
    }
  }

  /** Adding the separator starts a new, empty piece. */
  lemma SplitSnocSep(s: string, sep: char)
    ensures Split(s + [sep], sep) == Split(s, sep) + [""]
  {
    assert (s + [sep])[..|s|] == s;
  }

  /** Splitting a text with a separator in it splits each side separately. */
  lemma {:induction false} SplitAppend(u: string, v: string, sep: char)
    decreases |v|
    ensures Split(u + [sep] + v, sep) == Split(u, sep) + Split(v, sep)
  {
    if v == [] {
      assert u + [sep] + v == u + [sep];
      SplitSnocSep(u, sep);
    } else {
      var n := |v| - 1;
      SplitAppend(u, v[..n], sep);
      SplitAppendStep(u, v[..n], v[n], sep);
      assert v[..n] + [v[n]] == v;
    }
  }

  lemma SplitAppendStep(u: string, w: string, c: char, sep: char)
    requires Split(u + [sep] + w, sep) == Split(u, sep) + Split(w, sep)
    ensures Split(u + [sep] + (w + [c]), sep) == Split(u, sep) + Split(w + [c], sep)
  {
    if c != sep {
      SplitAppendChar(u, w, c, sep);
    } else {
      SplitAppendSep(u, w, sep);
    }
  }

  lemma SplitAppendChar(u: string, w: string, c: char, sep: char)
    requires c != sep
    requires Split(u + [sep] + w, sep) == Split(u, sep) + Split(w, sep)
    ensures Split(u + [sep] + (w + [c]), sep) == Split(u, sep) + Split(w + [c], sep)
  {
    SnocAssoc(u + [sep], w, c);
    SplitSnoc(u + [sep] + w, c, sep);
    SplitSnoc(w, c, sep);
    ExtendLastAppend(Split(u, sep), Split(w, sep), c);
  }

  lemma SplitAppendSep(u: string, w: string, sep: char)
    requires Split(u + [sep] + w, sep) == Split(u, sep) + Split(w, sep)
    ensures Split(u + [sep] + (w + [sep]), sep) == Split(u, sep) + Split(w + [sep], sep)
  {
    SnocAssoc(u + [sep], w, sep);
    SplitSnocSep(u + [sep] + w, sep);
    SplitSnocSep(w, sep);
  }

  lemma SnocAssoc(x: string, w: string, c: char)
    ensures x + (w + [c]) == (x + w) + [c]
  {
  }

  lemma ExtendLastAppend(a: seq<string>, b: seq<string>, c: char)
    requires |b| >= 1
    ensures var ab := a + b;
      ab[..|ab| - 1] + [ab[|ab| - 1] + [c]] == a + (b[..|b| - 1] + [b[|b| - 1] + [c]])
  {
    var ab := a + b;
    assert ab[..|ab| - 1] == a + b[..|b| - 1];
  }

  /** Joining pieces free of the separator and splitting again gives back the pieces. */
  lemma {:induction false} SplitJoin(parts: seq<string>, sep: char)
    requires |parts| >= 1
    requires forall k :: 0 <= k < |parts| ==> sep !in parts[k]
    decreases |parts|
    ensures Split(Join(parts, [sep]), sep) == parts
  {
    var n := |parts| - 1;
    SplitNoSep(parts[n], sep);
    if n > 0 {
      var init := Join(parts[..n], [sep]);
      assert Join(parts, [sep]) == init + [sep] + parts[n];
      SplitJoin(parts[..n], sep);
      SplitAppend(init, parts[n], sep);
      assert Split(init, sep) + Split(parts[n], sep) == parts[..n] + [parts[n]];
      assert parts[..n] + [parts[n]] == parts;
    }
  }

  /** Text found in a prefix is still found once more text follows. */
  lemma OccursInPrefix(a: string, b: string, w: string, i: nat)
    requires OccursAt(a, w, i)
    ensures OccursAt(a + b, w, i)
  {
    assert (a + b)[i..i + |w|] == a[i..i + |w|];
  }

  /** `sep.join(parts)` begins with the first part. */
  /** `sep.join` of one more part: the separator and the part go last. */
  lemma JoinSnoc(parts: seq<string>, x: string, sep: string)
    requires parts != []
    ensures Join(parts + [x], sep) == Join(parts, sep) + sep + x
  {
    assert (parts + [x])[..|parts|] == parts;
  }

  /** Concatenation regrouped, for findings appended to a list. */
  lemma AppendAssoc<T>(a: seq<T>, b: seq<T>, c: seq<T>)
    ensures a + b + c == a + (b + c)
  {
  }

  lemma {:induction false} JoinStartsWith(parts: seq<string>, sep: string)
    requires |parts| >= 1
    decreases |parts|
    ensures StartsWith(Join(parts, sep), parts[0])
  {
    var n := |parts| - 1;
    if n > 0 {
      var init := Join(parts[..n], sep);
      JoinStartsWith(parts[..n], sep);
      OccursInPrefix(init, sep + parts[n], parts[0], 0);
      assert init + (sep + parts[n]) == Join(parts, sep);
    }
  }

  /** `sep.join(parts)` keeps every part: each occurs in the joined text. */
  lemma {:induction false} JoinKeepsParts(parts: seq<string>, sep: string, i: nat)
    requires i < |parts|
    decreases |parts|
    ensures Contains(Join(parts, sep), parts[i])
  {
    var n := |parts| - 1;
    if n == 0 {
      assert OccursAt(Join(parts, sep), parts[i], 0);
    } else {
      var init := Join(parts[..n], sep);
      assert Join(parts, sep) == (init + sep) + parts[n];
      if i == n {
        assert OccursAt(Join(parts, sep), parts[i], |init + sep|);
      } else {
        JoinKeepsParts(parts[..n], sep, i);
        var k: nat :| k <= |init| && OccursAt(init, parts[i], k);
        OccursInPrefix(init, sep + parts[n], parts[i], k);
        assert init + (sep + parts[n]) == Join(parts, sep);
        assert OccursAt(Join(parts, sep), parts[i], k);
      }
    }
  }

  /** A part of `sep.join(parts)` is still found once more text follows the join. */
  lemma JoinThenKeeps(parts: seq<string>, sep: string, tail: string, w: string)
    requires w in parts
    ensures Contains(Join(parts, sep) + tail, w)
  {
    var a :| 0 <= a < |parts| && parts[a] == w;
    JoinKeepsParts(parts, sep, a);
    var joined := Join(parts, sep);
    var k: nat :| k <= |joined| && OccursAt(joined, w, k);
    OccursInPrefix(joined, tail, w, k);
  }

  /** The number of lines of a text, as `len(text.split("\n"))`. */
  function LineCount(s: string): nat {
    |Split(s, '\n')|
  }

  /** End of the run of whitespace that starts at index `i`. */
  function SpacesEnd(s: string, i: nat): (j: nat)
    requires i <= |s|
    decreases |s| - i
    ensures i <= j <= |s|
    ensures forall k :: i <= k < j ==> IsSpace(s[k])
    ensures j < |s| ==> !IsSpace(s[j])
  {
    if i < |s| && IsSpace(s[i]) then SpacesEnd(s, i + 1) else i
  }

  /** Start of the run of whitespace that ends just before index `j`. */
  function SpacesStart(s: string, j: nat): (i: nat)
    requires j <= |s|
    ensures i <= j
    ensures forall k :: i <= k < j ==> IsSpace(s[k])
    ensures 0 < i ==> !IsSpace(s[i - 1])
  {
    if 0 < j && IsSpace(s[j - 1]) then SpacesStart(s, j - 1) else j
  }

  /** `s.lstrip()` */
  function LStrip(s: string): string {
    s[SpacesEnd(s, 0)..]
  }

  /** `s.rstrip()` */
  function RStrip(s: string): string {
    s[..SpacesStart(s, |s|)]
  }

  /** `s.strip()`: what lies between the leading and the trailing whitespace. */
  function Strip(s: string): (r: string)
    ensures r == [] || (!IsSpace(r[0]) && !IsSpace(r[|r| - 1]))
    ensures forall c :: c in r ==> c in s
  {
    RStrip(LStrip(s))
  }

  /** Leading whitespace followed by text that does not start with whitespace. */
  lemma {:induction false} SpacesEndOf(ws: string, rest: string, i: nat)
    requires i <= |ws|
    requires forall k :: i <= k < |ws| ==> IsSpace(ws[k])
    requires rest == [] || !IsSpace(rest[0])
    decreases |ws| - i
    ensures SpacesEnd(ws + rest, i) == |ws|
  {
    if i < |ws| {
      SpacesEndOf(ws, rest, i + 1);
    }
  }

  /** `lstrip` removes exactly a blank prefix. */
  lemma LStripBlankPrefix(ws: string, rest: string)
    requires IsBlank(ws)
    requires rest == [] || !IsSpace(rest[0])
    ensures LStrip(ws + rest) == rest
  {
    SpacesEndOf(ws, rest, 0);
  }

  /** Whitespace that stops inside `s` stops at the same place in `s + t`. */
  lemma {:induction false} SpacesEndPrefix(s: string, t: string, i: nat)
    requires i <= |s| && SpacesEnd(s, i) < |s|
    decreases |s| - i
    ensures SpacesEnd(s + t, i) == SpacesEnd(s, i)
  {
    if IsSpace(s[i]) {
      SpacesEndPrefix(s, t, i + 1);
    }
  }

  /**
   * Stripping a text whose last line `b` is already stripped: whatever comes before
   * the last line break either disappears entirely or keeps its line break.
   */
  lemma StripBeforeLine(a: string, b: string)
    requires b != [] && Strip(b) == b
    ensures Strip(a + "\n" + b) == b || Strip(a + "\n" + b) == LStrip(a) + "\n" + b
  {
    var s := a + "\n" + b;
    assert !IsSpace(b[0]) && !IsSpace(b[|b| - 1]);
    var e := SpacesEnd(a, 0);
    var l: string;
    if e == |a| {
      SpacesEndOf(a + "\n", b, 0);
      assert s == (a + "\n") + b;
      l := b;
    } else {
      SpacesEndPrefix(a, "\n" + b, 0);
      assert s == a + ("\n" + b);
      assert s[e..] == a[e..] + "\n" + b;
      l := LStrip(a) + "\n" + b;
    }
    assert LStrip(s) == l;
    assert l[|l| - 1] == b[|b| - 1];
    assert SpacesStart(l, |l|) == |l|;
    assert RStrip(l) == l;
  }

  /** A text without whitespace at either end is its own strip. */
  lemma StripTrimmed(s: string)
    requires s == [] || (!IsSpace(s[0]) && !IsSpace(s[|s| - 1]))
    ensures Strip(s) == s
  {
    if s != [] {
      assert SpacesEnd(s, 0) == 0;
      assert LStrip(s) == s;
      assert SpacesStart(s, |s|) == |s|;
    }
  }

  /** Stripping twice is stripping once. */
  lemma StripIdempotent(s: string)
    ensures Strip(Strip(s)) == Strip(s)
  {
    StripTrimmed(Strip(s));
  }

  /** Stripping leaves nothing exactly when the text is blank. */
  lemma StripEmptyIffBlank(s: string)
    ensures Strip(s) == [] <==> IsBlank(s)
  {
    var l := LStrip(s);
    if !IsBlank(s) {
      var k :| 0 <= k < |s| && !IsSpace(s[k]);
      assert l[k - (|s| - |l|)] == s[k];
    }
  }

  /**
   * `s.replace(pat, rep)`: every occurrence of `pat`, found left to right without
   * overlap, is replaced by `rep`.
   */
  function ReplaceAll(s: string, pat: string, rep: string): (r: string)
    requires |pat| > 0
    decreases |s|
  {
    if |s| < |pat| then s
    else if s[..|pat|] == pat then rep + ReplaceAll(s[|pat|..], pat, rep)
    else [s[0]] + ReplaceAll(s[1..], pat, rep)
  }

  lemma ReplaceAllAbsent(s: string, pat: string, rep: string)
    requires |pat| > 0
    requires !Contains(s, pat)
    ensures ReplaceAll(s, pat, rep) == s
  {
    if |s| >= |pat| {
      assert !OccursAt(s, pat, 0);
      assert forall j: nat :: !OccursAt(s[1..], pat, j) by {
        forall j: nat | OccursAt(s[1..], pat, j) ensures false {
          assert s[1..][j..j + |pat|] == s[j + 1..j + 1 + |pat|];
          assert OccursAt(s, pat, j + 1);
        }
      }
      ReplaceAllAbsent(s[1..], pat, rep);
    }
  }

  /** An occurrence in `x + y` that starts inside `y` is an occurrence in `y`. */
  lemma OccursInSuffix(x: string, y: string, w: string, i: nat)
    requires |x| <= i
    ensures OccursAt(x + y, w, i) <==> OccursAt(y, w, i - |x|)
  {
    if i + |w| <= |x + y| {
      assert (x + y)[i..i + |w|] == y[i - |x|..i - |x| + |w|];
    }
  }

  /** No occurrence of a non-empty `w` starts inside `x` when `x` shares no character with `w`. */
  lemma NotStartingIn(x: string, y: string, w: string, i: nat)
    requires |w| > 0 && i < |x|
    requires forall c :: c in x ==> c !in w
    ensures !OccursAt(x + y, w, i)
  {
    assert x[i] in x;
    assert (x + y)[i] == x[i];
    assert i + |w| <= |x + y| ==> (x + y)[i..i + |w|][0] == x[i];
  }

  /** A text without occurrence of `w` has none in any of its suffixes. */
  lemma AbsentFromSuffix(s: string, w: string, d: nat)
    requires d <= |s|
    requires forall j: nat :: !OccursAt(s, w, j)
    ensures forall j: nat :: !OccursAt(s[d..], w, j)
  {
    forall j: nat | OccursAt(s[d..], w, j) ensures false {
      assert s[d..][j..j + |w|] == s[j + d..j + d + |w|];
      assert OccursAt(s, w, j + d);
    }
  }

  /**
   * A prefix of `ReplaceAll(s, pat, rep)` that holds no character of `rep` was copied
   * unchanged from `s` (a replacement would have put `rep[0]` there).
   */
  lemma {:induction false} ReplaceAllKeptPrefix(s: string, pat: string, rep: string, m: nat)
    requires |pat| > 0 && |rep| > 0
    requires m <= |ReplaceAll(s, pat, rep)|
    requires forall k :: 0 <= k < m ==> ReplaceAll(s, pat, rep)[k] !in rep
    decreases |s|
    ensures m <= |s| && ReplaceAll(s, pat, rep)[..m] == s[..m]
  {
    var r := ReplaceAll(s, pat, rep);
    if |s| < |pat| {
    } else if s[..|pat|] == pat {
      assert r[0] == rep[0] && rep[0] in rep;
    } else if m > 0 {
      var tail := ReplaceAll(s[1..], pat, rep);
      assert r == [s[0]] + tail;
      forall k | 0 <= k < m - 1 ensures tail[k] !in rep {
        assert tail[k] == r[k + 1];
      }
      ReplaceAllKeptPrefix(s[1..], pat, rep, m - 1);
      assert r[..m] == [s[0]] + tail[..m - 1];
    }
  }

  /**
   * An occurrence of `w`, none of whose characters is in `rep`, at the start of the
   * replaced text was copied unchanged from the start of `s`.
   */
  lemma KeptOccurrence(s: string, pat: string, rep: string, w: string)
    requires |pat| > 0 && |rep| > 0 && |w| > 0
    requires forall c :: c in rep ==> c !in w
    ensures OccursAt(ReplaceAll(s, pat, rep), w, 0) ==> OccursAt(s, w, 0)
  {
    var r := ReplaceAll(s, pat, rep);
    if OccursAt(r, w, 0) {
      forall k | 0 <= k < |w| ensures r[k] !in rep {
        assert r[..|w|][k] == w[k];
      }
      ReplaceAllKeptPrefix(s, pat, rep, |w|);
    }
  }

  /**
   * Replacing creates no new occurrence of a word `w` when `rep` shares no character
   * with `w`, and leaves no occurrence of `pat` when `rep` shares no character with
   * `pat`.
   */
  lemma {:induction false} ReplaceAllNoOccurrence(s: string, pat: string, rep: string, w: string, i: nat)
    requires |pat| > 0 && |rep| > 0 && |w| > 0
    requires forall c :: c in rep ==> c !in w
    requires w == pat || forall j: nat :: !OccursAt(s, w, j)
    decreases |s|
    ensures !OccursAt(ReplaceAll(s, pat, rep), w, i)
  {
    if |s| < |pat| {
    } else if s[..|pat|] == pat {
      var tail := ReplaceAll(s[|pat|..], pat, rep);
      assert ReplaceAll(s, pat, rep) == rep + tail;
      if i < |rep| {
        NotStartingIn(rep, tail, w, i);
      } else {
        OccursInSuffix(rep, tail, w, i);
        if w != pat {
          AbsentFromSuffix(s, w, |pat|);
        }
        ReplaceAllNoOccurrence(s[|pat|..], pat, rep, w, i - |rep|);
      }
    } else {
      var tail := ReplaceAll(s[1..], pat, rep);
      assert ReplaceAll(s, pat, rep) == [s[0]] + tail;
      if i == 0 {
        KeptOccurrence(s, pat, rep, w);
      } else {
        OccursInSuffix([s[0]], tail, w, i);
        if w != pat {
          AbsentFromSuffix(s, w, 1);
        }
        ReplaceAllNoOccurrence(s[1..], pat, rep, w, i - 1);
      }
    }
  }

  function DigitChar(d: nat): char
    requires d < 10
  {
    ('0' as int + d) as char
  }

  /** `str(n)` for a natural number. */
  function NatToString(n: nat): (r: string)
    ensures |r| >= 1
    ensures forall k :: 0 <= k < |r| ==> IsDigit(r[k])
  {
    if n < 10 then [DigitChar(n)] else NatToString(n / 10) + [DigitChar(n % 10)]
  }

  /** The number a string of decimal digits denotes, most significant digit first. */
  function DigitsValue(s: string): nat
    requires forall k :: 0 <= k < |s| ==> IsDigit(s[k])
  {
    if s == [] then 0
    else
      assert IsDigit(s[|s| - 1]);
      DigitsValue(s[..|s| - 1]) * 10 + (s[|s| - 1] as int - '0' as int)
  }

  /**
   * `str(n)` is the decimal notation of `n`: its digits denote `n`, and it has no
   * leading zero unless it is "0" itself.
   */
  lemma {:induction false} NatToStringValue(n: nat)
    decreases n
    ensures DigitsValue(NatToString(n)) == n
    ensures NatToString(n)[0] == '0' <==> n == 0
  {
    var r := NatToString(n);
    if n >= 10 {
      var prefix := NatToString(n / 10);
      NatToStringValue(n / 10);
      assert r[..|r| - 1] == prefix;
      assert r[0] == prefix[0];
    }
  }

  /** Different numbers are written differently. */
  lemma NatToStringInjective(m: nat, n: nat)
    requires NatToString(m) == NatToString(n)
    ensures m == n
  {
    NatToStringValue(m);
    NatToStringValue(n);
  }

  /** `str(i)` for an integer. */
  function IntToString(i: int): string {
    if i < 0 then "-" + NatToString(-i) else NatToString(i)
  }

  /** `str(i)` is a minus sign exactly for negative numbers, then the digits of `|i|`. */
  lemma IntToStringValue(i: int)
    ensures var r := IntToString(i);
      && (i < 0 ==> r[0] == '-' && DigitsValue(r[1..]) == -i)
      && (i >= 0 ==> DigitsValue(r) == i)
  {
    if i < 0 {
      NatToStringValue(-i);
      assert IntToString(i)[1..] == NatToString(-i);
    } else {
      NatToStringValue(i);
    }
  }
}
