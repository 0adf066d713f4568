// Normalisation of a comment's text before it becomes a description block
// (`add_comment`). Four regular-expression substitutions run in order:
//
//   1. `^//`          a leading line-comment opener;
//   2. `^/\*\s*`      a leading block opener and the whitespace after it;
//   3. `\s*\*/$`      the block closer and the whitespace before it;
//   4. `^\s*\*[ ]*`   with MULTILINE: at every line start, whitespace, one
//                     star and the spaces after it (the "gutter").
//
// Each substitution is written out as the scan Python's `re.sub` performs, so
// the edge cases are those of the source: `^` without MULTILINE matches only at
// the start, `$` without MULTILINE matches at the end or before a final "\n",
// and the `\s*` of the gutter pattern runs across line ends.
module DocComment {
  import opened Lines

  /** `\s` of Python 2's `re` on a byte string. */
  predicate IsSpace(c: char) {
    c == ' ' || c == '\t' || c == '\n' || c == '\r' || c == '\U{000B}' || c == '\U{000C}'
  }

  predicate StartsWith(s: string, p: string) {
    |p| <= |s| && s[..|p|] == p
  }

  predicate EndsWith(s: string, p: string) {
    |p| <= |s| && s[|s| - |p|..] == p
  }

  /** Length of the run of `\s` at the start of s. */
  function LeadingSpaces(s: string): (n: nat)
    ensures n <= |s|
    ensures forall j :: 0 <= j < n ==> IsSpace(s[j])
    ensures n < |s| ==> !IsSpace(s[n])
    decreases |s|
  {
    if s == [] || !IsSpace(s[0]) then 0 else 1 + LeadingSpaces(s[1..])
  }

  /** Length of the run of blanks (`[ ]`, the space character only) at the start of s. */
  function LeadingBlanks(s: string): (n: nat)
    ensures n <= |s|
    ensures forall j :: 0 <= j < n ==> s[j] == ' '
    ensures n < |s| ==> s[n] != ' '
    decreases |s|
  {
    if s == [] || s[0] != ' ' then 0 else 1 + LeadingBlanks(s[1..])
  }

  /** Start of the run of `\s` that ends just before position c. */
  function SpaceRunStart(s: string, c: nat): (q: nat)
    requires c <= |s|
    ensures q <= c
    ensures forall j :: q <= j < c ==> IsSpace(s[j])
    ensures q == 0 || !IsSpace(s[q - 1])
    decreases c
  {
    if c > 0 && IsSpace(s[c - 1]) then SpaceRunStart(s, c - 1) else c
  }

  /** Step 1, `re.sub('^//', '', text)`: at most one opener, and only at the very start. */
  function StripLineOpener(s: string): (r: string)
    ensures StartsWith(s, "//") ==> s == "//" + r
    ensures !StartsWith(s, "//") ==> r == s
  {
    if StartsWith(s, "//") then s[2..] else s
  }

  /**
   Step 2, `re.sub('^/\*\s*', '', text)`: the opener and all whitespace after
   it, line ends included.
   */
  function StripBlockOpener(s: string): (r: string)
    ensures StartsWith(s, "/*") ==>
      |r| <= |s| - 2 && r == s[|s| - |r|..]
      && (forall j :: 2 <= j < |s| - |r| ==> IsSpace(s[j]))
      && (r == [] || !IsSpace(r[0]))
    ensures !StartsWith(s, "/*") ==> r == s
  {
    if StartsWith(s, "/*") then
      var rest := s[2..];
      var n := LeadingSpaces(rest);
      assert forall j :: 2 <= j < 2 + n ==> s[j] == rest[j - 2];
      rest[n..]
    else s
  }

  /**
   Step 3, `re.sub` of `\s*`, a star, a slash and `$`: the closer at the end
   and the whitespace before it. Without MULTILINE, `$` matches at the end of
   the text or just before a final "\n", so the closer is either the last two
   characters or the two before a final "\n" (never both). The leftmost match
   begins where the whitespace run before the closer begins; everything after
   the closer, that is the final "\n" if any, stays.
   */
  function StripBlockCloser(s: string): (r: string)
    ensures EndsWith(s, "*/") ==>
      |r| <= |s| - 2 && r == s[..|r|]
      && (forall j :: |r| <= j < |s| - 2 ==> IsSpace(s[j]))
      && (r == [] || !IsSpace(r[|r| - 1]))
    ensures EndsWith(s, "*/\n") ==>
      1 <= |r| <= |s| - 2 && r == s[..|r| - 1] + "\n"
      && (forall j :: |r| - 1 <= j < |s| - 3 ==> IsSpace(s[j]))
      && (|r| == 1 || !IsSpace(r[|r| - 2]))
    ensures !EndsWith(s, "*/") && !EndsWith(s, "*/\n") ==> r == s
  {
    if EndsWith(s, "*/") then
      s[..SpaceRunStart(s, |s| - 2)]
    else if EndsWith(s, "*/\n") then
      var q := SpaceRunStart(s, |s| - 3);
      var r := s[..q] + "\n";
      assert r[..|r| - 1] == s[..q];
      r
    else s
  }

  /**
   Length of the gutter match `\s*\*[ ]*` at the start of s, 0 when the
   pattern does not match there. The whitespace may span line ends; a match
   exists exactly when the first non-whitespace character is a star.
   */
  function GutterLength(s: string): (n: nat)
    ensures n <= |s|
    ensures n > 0 <==> LeadingSpaces(s) < |s| && s[LeadingSpaces(s)] == '*'
    ensures n > 0 ==> n > LeadingSpaces(s) && s[n - 1] != '\n'
  {
    var w := LeadingSpaces(s);
    if w < |s| && s[w] == '*' then
      var b := LeadingBlanks(s[w + 1..]);
      assert b > 0 ==> s[w + b] == s[w + 1..][b - 1];
      w + 1 + b
    else 0
  }

  /**
   How far a gutter match reaches: past the whitespace and the star, exactly
   the longest run of blanks that follows, and nothing else.
   */
  lemma GutterExtent(s: string)
    requires GutterLength(s) > 0
    ensures forall j :: LeadingSpaces(s) < j < GutterLength(s) ==> s[j] == ' '
    ensures GutterLength(s) == |s| || s[GutterLength(s)] != ' '
  {
    var w := LeadingSpaces(s);
    assert GutterLength(s) == w + 1 + LeadingBlanks(s[w + 1..]);
    BlanksAt(s, w + 1);
  }

  /** The run of blanks counted from position p, read back in s itself. */
  lemma BlanksAt(s: string, p: nat)
    requires p <= |s|
    ensures forall j :: p <= j < p + LeadingBlanks(s[p..]) ==> s[j] == ' '
    ensures p + LeadingBlanks(s[p..]) == |s| || s[p + LeadingBlanks(s[p..])] != ' '
  {
    var t := s[p..];
    var b := LeadingBlanks(t);
    forall j | p <= j < p + b
      ensures s[j] == ' '
    {
      assert s[j] == t[j - p];
    }
    if p + b < |s| {
      assert s[p + b] == t[b];
    }
  }

  /**
   Step 4, `re.sub(re.compile('^\s*\*[ ]*', re.M), '', text)`. The scan goes
   left to right; `^` holds where the ORIGINAL text starts a line (position 0
   or just after a "\n"). A match never ends with "\n", so the position just
   after a match is never a line start.
   */
  function StripGutters(s: string, atLineStart: bool): (r: string)
    ensures |r| <= |s|
    decreases |s|
  {
    if s == [] then []
    else if atLineStart && GutterLength(s) > 0 then
      StripGutters(s[GutterLength(s)..], false)
    else
      [s[0]] + StripGutters(s[1..], s[0] == '\n')
  }

  /** Without a star the gutter pattern never matches, so the text is unchanged. */
  lemma {:induction false} StripGuttersStarFree(s: string, atLineStart: bool)
    requires forall j :: 0 <= j < |s| ==> s[j] != '*'
    ensures StripGutters(s, atLineStart) == s
    decreases |s|
  {
    if s != [] {
      assert GutterLength(s) == 0 by {
        var w := LeadingSpaces(s);
        if w < |s| { assert s[w] != '*'; }
      }
      assert forall j :: 0 <= j < |s[1..]| ==> s[1..][j] == s[j + 1];
      StripGuttersStarFree(s[1..], s[0] == '\n');
      assert [s[0]] + s[1..] == s;
    }
  }

  /** The comment text after the four substitutions of `add_comment`. */
  function Normalize(text: string): (r: string)
    ensures |r| <= |text|
  {
    StripGutters(StripBlockCloser(StripBlockOpener(StripLineOpener(text))), true)
  }

  /** A comment without a star that does not start with "//" passes through unchanged. */
  lemma NormalizeStarFree(text: string)
    requires forall j :: 0 <= j < |text| ==> text[j] != '*'
    requires !StartsWith(text, "//")
    ensures Normalize(text) == text
  {
    StarFreeDelimiters(text);
    StripGuttersStarFree(text, true);
  }

  /** Without a star and without a leading "//", steps 1 to 3 find nothing to remove. */
  lemma StarFreeDelimiters(text: string)
    requires forall j :: 0 <= j < |text| ==> text[j] != '*'
    requires !StartsWith(text, "//")
    ensures StripBlockCloser(StripBlockOpener(StripLineOpener(text))) == text
  {
    assert StripLineOpener(text) == text;
    assert !StartsWith(text, "/*") by {
      if |text| >= 2 { assert text[..2][1] == text[1]; }
    }
    assert StripBlockOpener(text) == text;
    StarFreeCloser(text);
  }

  /** Step 3 finds no closer in a text without a star. */
  lemma StarFreeCloser(text: string)
    requires forall j :: 0 <= j < |text| ==> text[j] != '*'
    ensures StripBlockCloser(text) == text
  {
    assert !EndsWith(text, "*/") by {
      if |text| >= 2 { assert text[|text| - 2..][0] == text[|text| - 2]; }
    }
    assert !EndsWith(text, "*/\n") by {
      if |text| >= 3 { assert text[|text| - 3..][0] == text[|text| - 3]; }
    }
  }

  /** The description lines of a comment: its normalised text cut by `splitlines`. */
  function DescriptionLines(text: string): (lines: seq<string>)
    ensures forall i :: 0 <= i < |lines| ==> NoBreaks(lines[i])
  {
    SplitLines(Normalize(text))
  }

  // ---------------------------------------------------------------------
  // The comment formats PHP documentation is written in, and what the
  // normalisation makes of them.

  /** A line of description text as the round trips below admit it. */
  predicate IsBodyLine(l: string) {
    NoBreaks(l) && (l == [] || l[0] != ' ')
  }

  /** The last line of a block: not empty and not ending in whitespace, which step 3 would eat. */
  predicate IsClosingLine(l: string) {
    IsBodyLine(l) && l != [] && !IsSpace(l[|l| - 1])
  }

  /** Indentation in front of a doc block's gutters: blanks and tabs. */
  predicate IsMargin(m: string) {
    forall j :: 0 <= j < |m| ==> m[j] == ' ' || m[j] == '\t'
  }

  /** Each line on a fresh line, behind the margin and a " * " gutter. */
  function GutterLines(margin: string, lines: seq<string>): string
    decreases |lines|
  {
    if lines == [] then "" else "\n" + (margin + " * " + lines[0] + GutterLines(margin, lines[1..]))
  }

  /**
   A multi-line doc block as PHP sources write it: the opener on its own
   line, one gutter per line, the closer alone on the last line; the margin
   is the indentation of the declaration it documents.
   */
  function DocBlock(margin: string, lines: seq<string>): string {
    "/**" + GutterLines(margin, lines) + "\n" + margin + " */"
  }

  /** Each line preceded by "\n". */
  function NewlineEach(lines: seq<string>): string
    decreases |lines|
  {
    if lines == [] then "" else "\n" + lines[0] + NewlineEach(lines[1..])
  }

  lemma {:induction false} NewlineEachIsJoin(lines: seq<string>)
    requires |lines| > 0
    ensures NewlineEach(lines) == "\n" + JoinLines(lines)
    decreases |lines|
  {
    if |lines| > 1 {
      NewlineEachIsJoin(lines[1..]);
    }
  }

  lemma {:induction false} GutterLinesLast(margin: string, lines: seq<string>)
    requires |lines| > 0 && lines[|lines| - 1] != []
    ensures var g := GutterLines(margin, lines); |g| > 0 && g[|g| - 1] == lines[|lines| - 1][|lines[|lines| - 1]| - 1]
    decreases |lines|
  {
    if |lines| > 1 {
      GutterLinesLast(margin, lines[1..]);
    }
  }

  lemma {:induction false} LeadingSpacesAfter(w: string, rest: string)
    requires forall j :: 0 <= j < |w| ==> IsSpace(w[j])
    ensures LeadingSpaces(w + rest) == |w| + LeadingSpaces(rest)
    decreases |w|
  {
    if w == [] {
      assert w + rest == rest;
    } else {
      assert (w + rest)[0] == w[0];
      assert (w + rest)[1..] == w[1..] + rest;
      LeadingSpacesAfter(w[1..], rest);
    }
  }

  lemma {:induction false} SpaceRunStartAfter(a: string, w: string, rest: string)
    requires forall j :: 0 <= j < |w| ==> IsSpace(w[j])
    requires a == [] || !IsSpace(a[|a| - 1])
    ensures SpaceRunStart(a + w + rest, |a| + |w|) == |a|
    decreases |w|
  {
    var s := a + w + rest;
    if w == [] {
      assert a != [] ==> s[|a| - 1] == a[|a| - 1];
    } else {
      var w' := w[..|w| - 1];
      assert s[|a| + |w| - 1] == w[|w| - 1];
      assert s == a + w' + ([w[|w| - 1]] + rest);
      SpaceRunStartAfter(a, w', [w[|w| - 1]] + rest);
    }
  }

  /** Text without a line end passes the gutter scan untouched when the scan is not at a line start. */
  lemma {:induction false} StripGuttersMidLine(a: string, b: string)
    requires forall j :: 0 <= j < |a| ==> a[j] != '\n'
    ensures StripGutters(a + b, false) == a + StripGutters(b, false)
    decreases |a|
  {
    if a != [] {
      assert (a + b)[0] == a[0];
      assert (a + b)[1..] == a[1..] + b;
      StripGuttersMidLine(a[1..], b);
    } else {
      assert a + b == b;
    }
  }

  /** Whitespace, then "* " in front of a body line: the gutter match is all of it, nothing more. */
  lemma GutterAfterSpaces(w: string, l: string, g: string)
    requires forall j :: 0 <= j < |w| ==> IsSpace(w[j])
    requires IsBodyLine(l)
    requires g == [] || g[0] == '\n'
    ensures GutterLength(w + "* " + l + g) == |w| + 2
  {
    var rest := "* " + l + g;
    assert w + "* " + l + g == w + rest;
    GutterShift(w, rest);
    StarGutter(l, g);
  }

  /** Whitespace in front of a star only lengthens the gutter match. */
  lemma GutterShift(w: string, rest: string)
    requires forall j :: 0 <= j < |w| ==> IsSpace(w[j])
    requires rest != [] && rest[0] == '*'
    ensures GutterLength(w + rest) == |w| + GutterLength(rest)
  {
    var t := w + rest;
    LeadingSpacesAfter(w, rest);
    assert LeadingSpaces(rest) == 0;
    assert t[|w|] == '*';
    assert t[|w| + 1..] == rest[1..];
  }

  /** "* " before a body line: the star and the one blank. */
  lemma StarGutter(l: string, g: string)
    requires IsBodyLine(l)
    requires g == [] || g[0] == '\n'
    ensures GutterLength("* " + l + g) == 2
  {
    var rest := "* " + l + g;
    assert LeadingSpaces(rest) == 0;
    var u := rest[1..];
    assert u == " " + l + g;
    assert l != [] ==> u[1] == l[0];
    assert l == [] && g != [] ==> u[1] == g[0];
    assert LeadingBlanks(u[1..]) == 0;
    assert LeadingBlanks(u) == 1;
  }

  /** At a line start, the margin and gutter go and the rest of the line is kept. */
  lemma StripGutterAtLineStart(margin: string, l: string, g: string)
    requires IsMargin(margin)
    requires IsBodyLine(l)
    requires g == [] || g[0] == '\n'
    ensures StripGutters(margin + " * " + l + g, true) == l + StripGutters(g, false)
  {
    var w := margin + " ";
    RegroupGutter(margin, l, g);
    assert forall j :: 0 <= j < |w| ==> IsSpace(w[j]) by {
      assert forall j :: 0 <= j < |margin| ==> w[j] == margin[j];
    }
    StripGutterAfterSpaces(w, l, g);
  }

  /** At a line start, whitespace and "* " go and the rest of the line is kept. */
  lemma StripGutterAfterSpaces(w: string, l: string, g: string)
    requires forall j :: 0 <= j < |w| ==> IsSpace(w[j])
    requires IsBodyLine(l)
    requires g == [] || g[0] == '\n'
    ensures StripGutters(w + "* " + l + g, true) == l + StripGutters(g, false)
  {
    var t := w + "* " + l + g;
    GutterAfterSpaces(w, l, g);
    StripGuttersSkip(t, |w| + 2);
    SuffixAfter(w, "* ", l, g);
    BodyLineMidLine(l, g);
  }

  /** At a line start where the gutter matches, the scan resumes just after the match. */
  lemma StripGuttersSkip(t: string, n: nat)
    requires n > 0 && GutterLength(t) == n
    ensures StripGutters(t, true) == StripGutters(t[n..], false)
  {
  }

  lemma SuffixAfter<T>(a: seq<T>, b: seq<T>, c: seq<T>, d: seq<T>)
    ensures |a + b + c + d| >= |a| + |b| && (a + b + c + d)[|a| + |b|..] == c + d
  {
    assert a + b + c + d == (a + b) + (c + d);
  }

  /** A body line passes the gutter scan untouched when the scan is not at a line start. */
  lemma BodyLineMidLine(l: string, g: string)
    requires IsBodyLine(l)
    ensures StripGutters(l + g, false) == l + StripGutters(g, false)
  {
    assert forall j :: 0 <= j < |l| ==> l[j] != '\n' by {
      assert NoBreaks(l);
    }
    StripGuttersMidLine(l, g);
  }

  /**
   A blank line before a gutter line is lost: the `\s*` of the gutter
   pattern runs from the blank line's start across its line end, so the
   match takes the blank line along with the next line's margin and gutter.
   */
  lemma BlankLineSwallowed(margin: string, l: string, g: string)
    requires IsMargin(margin)
    requires IsBodyLine(l)
    requires g == [] || g[0] == '\n'
    ensures StripGutters("\n" + ("\n" + margin + " * " + l + g), false) == "\n" + (l + StripGutters(g, false))
  {
    var w := "\n" + margin + " ";
    assert forall j :: 0 <= j < |w| ==> IsSpace(w[j]) by {
      assert forall j :: 1 <= j < |w| - 1 ==> w[j] == margin[j - 1];
    }
    StripGutterAfterSpaces(w, l, g);
    StripGuttersNewline(w + "* " + l + g);
    RegroupGutter("\n" + margin, l, g);
  }

  lemma RegroupGutter(a: string, l: string, g: string)
    ensures a + " " + "* " + l + g == a + " * " + l + g
  {
    assert a + " " + "* " == a + " * ";
  }

  /** A "\n" is copied, and the scan is at a line start after it. */
  lemma StripGuttersNewline(t: string)
    ensures StripGutters("\n" + t, false) == "\n" + StripGutters(t, true)
  {
    assert ("\n" + t)[0] == '\n';
    assert ("\n" + t)[1..] == t;
  }

  lemma {:induction false} StripGutterLines(margin: string, lines: seq<string>)
    requires IsMargin(margin)
    requires forall i :: 0 <= i < |lines| ==> IsBodyLine(lines[i])
    ensures StripGutters(GutterLines(margin, lines), false) == NewlineEach(lines)
    decreases |lines|
  {
    if lines != [] {
      var g := GutterLines(margin, lines[1..]);
      assert g != [] ==> g[0] == '\n';
      StripGuttersNewline(margin + " * " + lines[0] + g);
      StripGutterAtLineStart(margin, lines[0], g);
      StripGutterLines(margin, lines[1..]);
    }
  }

  /** Steps 1 to 3 on a doc block: only the leading "/" and the closing line go. */
  lemma DocBlockDelimiters(margin: string, lines: seq<string>)
    requires IsMargin(margin)
    requires |lines| > 0
    requires IsClosingLine(lines[|lines| - 1])
    ensures StripBlockCloser(StripBlockOpener(StripLineOpener(DocBlock(margin, lines)))) == "*" + GutterLines(margin, lines)
  {
    var g := GutterLines(margin, lines);
    var t2 := "*" + g + "\n" + margin + " */";
    DocBlockOpener(margin, lines);
    DocBlockCloser(margin, lines, t2);
  }

  /**
   Steps 1 and 2 on a doc block: no "//" to strip, and of the opener only
   the slash and the first star, since a second star follows them.
   */
  lemma DocBlockOpener(margin: string, lines: seq<string>)
    ensures StripBlockOpener(StripLineOpener(DocBlock(margin, lines)))
            == "*" + GutterLines(margin, lines) + "\n" + margin + " */"
  {
    var s := DocBlock(margin, lines);
    var t2 := "*" + GutterLines(margin, lines) + "\n" + margin + " */";
    assert s[1] == '*';
    assert StripLineOpener(s) == s;
    assert s[2..] == t2;
    assert LeadingSpaces(t2) == 0;
  }

  /**
   Step 3 on a doc block: the closer and the whitespace "\n", margin, " "
   before it.
   */
  lemma DocBlockCloser(margin: string, lines: seq<string>, t2: string)
    requires IsMargin(margin)
    requires |lines| > 0
    requires IsClosingLine(lines[|lines| - 1])
    requires t2 == "*" + GutterLines(margin, lines) + "\n" + margin + " */"
    ensures StripBlockCloser(t2) == "*" + GutterLines(margin, lines)
  {
    var g := GutterLines(margin, lines);
    GutterLinesLast(margin, lines);
    var t3 := "*" + g;
    var w := "\n" + margin + " ";
    assert t3[|t3| - 1] == g[|g| - 1];
    assert forall j :: 0 <= j < |w| ==> IsSpace(w[j]);
    RegroupCloser("*" + g, margin);
    CloserAfterSpaces(t3, w);
  }

  lemma RegroupCloser(a: string, margin: string)
    ensures a + "\n" + margin + " */" == a + ("\n" + margin + " ") + "*/"
  {
    assert " */" == " " + "*/";
  }

  /** Step 3 on text ending in whitespace and the closer: both go, and nothing before them. */
  lemma CloserAfterSpaces(a: string, w: string)
    requires forall j :: 0 <= j < |w| ==> IsSpace(w[j])
    requires a == [] || !IsSpace(a[|a| - 1])
    ensures StripBlockCloser(a + w + "*/") == a
  {
    var t := a + w + "*/";
    assert t[|t| - 2..] == "*/";
    SpaceRunStartAfter(a, w, "*/");
    assert t[..|a|] == a;
  }

  /**
   A multi-line doc block yields its lines, preceded by one empty line: the
   opener's own line survives as an empty line because step 2 takes only
   the "/" and the first star when a second star follows them.
   */
  lemma DocBlockDescription(margin: string, lines: seq<string>)
    requires IsMargin(margin)
    requires |lines| > 0
    requires forall i :: 0 <= i < |lines| ==> IsBodyLine(lines[i])
    requires IsClosingLine(lines[|lines| - 1])
    ensures DescriptionLines(DocBlock(margin, lines)) == [""] + lines
  {
    var g := GutterLines(margin, lines);
    DocBlockDelimiters(margin, lines);
    // step 4: the lone star of the opener's line, then every gutter
    LoneStar(g);
    StripGutterLines(margin, lines);
    NewlineEachIsJoin(lines);
    assert Normalize(DocBlock(margin, lines)) == "\n" + JoinLines(lines);
    // splitlines: the leading "\n" closes an empty first line
    SplitAfterNewline(JoinLines(lines));
    SplitJoin(lines);
  }

  /** A star alone at the start, before a line end, is a whole gutter match. */
  lemma LoneStar(g: string)
    requires g != [] && g[0] == '\n'
    ensures StripGutters("*" + g, true) == StripGutters(g, false)
  {
    var t := "*" + g;
    assert LeadingSpaces(t) == 0;
    assert t[1..] == g;
    assert LeadingBlanks(g) == 0;
    assert GutterLength(t) == 1;
  }

  lemma SplitAfterNewline(rest: string)
    ensures SplitLines("\n" + rest) == [""] + SplitLines(rest)
  {
    var n := "\n" + rest;
    assert FirstBreak(n) == 0;
    assert n[..0] == "";
    assert n[1..] == rest;
  }

  /**
   A one-line doc block, "/** text */", yields exactly its text.
   */
  lemma OneLineDocBlockDescription(l: string)
    requires IsClosingLine(l)
    ensures DescriptionLines("/** " + l + " */") == [l]
  {
    OneLineDelimiters(l);
    OneLineGutter(l);
    assert Normalize("/** " + l + " */") == l;
    FirstBreakNone(l);
  }

  /**
   Step 4 on what is left of a one-line doc block: the star and one blank.
   */
  lemma OneLineGutter(l: string)
    requires IsClosingLine(l)
    ensures StripGutters("* " + l, true) == l
  {
    var t3 := "* " + l;
    assert t3[2..] == l;
    assert t3[1..] == " " + l;
    assert LeadingBlanks(t3[1..]) == 1 by {
      assert t3[1..][1..] == l;
    }
    assert GutterLength(t3) == 2;
    assert forall j :: 0 <= j < |l| ==> l[j] != '\n' by {
      assert NoBreaks(l);
    }
    StripGuttersMidLine(l, "");
    assert l + "" == l;
  }

  /**
   Steps 1 to 3 on a one-line doc block: the opener's slash and first star
   go, and so do the closer and the blank before it.
   */
  lemma OneLineDelimiters(l: string)
    requires IsClosingLine(l)
    ensures StripBlockCloser(StripBlockOpener(StripLineOpener("/** " + l + " */"))) == "* " + l
  {
    var s := "/** " + l + " */";
    assert s[1] == '*';
    assert StripLineOpener(s) == s;
    var t2 := "* " + l + " */";
    assert s[2..] == t2;
    assert LeadingSpaces(t2) == 0;
    assert StripBlockOpener(s) == t2;
    var c := |t2| - 2;
    assert EndsWith(t2, "*/");
    assert t2[c - 1] == ' ' && t2[c - 2] == l[|l| - 1];
    assert SpaceRunStart(t2, c) == c - 1;
    assert t2[..c - 1] == "* " + l;
  }

  /** A `//` comment without stars yields its text after the two slashes, leading spaces kept. */
  lemma LineCommentDescription(l: string)
    requires NoBreaks(l) && l != []
    requires forall j :: 0 <= j < |l| ==> l[j] != '*'
    ensures DescriptionLines("//" + l) == [l]
  {
    var s := "//" + l;
    assert StartsWith(s, "//");
    assert s[2..] == l;
    assert !StartsWith(l, "/*") by {
      if |l| >= 2 { assert l[1] != '*'; }
    }
    assert !EndsWith(l, "*/") by {
      if |l| >= 2 { assert l[|l| - 2] != '*'; }
    }
    assert !EndsWith(l, "*/\n") by {
      if |l| >= 3 { assert l[|l| - 3] != '*'; }
    }
    StripGuttersStarFree(l, true);
    assert Normalize(s) == l;
    FirstBreakNone(l);
  }

  /**
   A `//` comment that ends with its line end yields one line: the text after
   the slashes, without the separator. An empty comment yields one empty line.
   */
  lemma LineCommentEndedDescription(l: string, sep: string)
    requires NoBreaks(l) && IsSeparator(sep)
    requires forall j :: 0 <= j < |l| ==> l[j] != '*'
    ensures DescriptionLines("//" + l + sep) == [l]
  {
    var s := "//" + l + sep;
    var t := l + sep;
    assert s[..2] == "//";
    assert s[2..] == t;
    assert forall j :: 0 <= j < |t| ==> t[j] != '*' by {
      forall j | 0 <= j < |t| ensures t[j] != '*' {
        if j < |l| { assert t[j] == l[j]; } else { assert t[j] in sep; }
      }
    }
    assert StripLineOpener(s) == t;
    assert !StartsWith(t, "/*") by {
      if |t| >= 2 { assert t[..2][1] == t[1]; }
    }
    StarFreeCloser(t);
    StripGuttersStarFree(t, true);
    assert Normalize(s) == t;
    SplitLinesLast(l, sep);
  }
}
