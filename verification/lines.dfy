/**
 Python 2 `str.splitlines()` on byte strings: the text is cut at "\n", "\r"
 and "\r\n"; the separators are dropped; a trailing separator does not open
 an empty last line, and the empty string has no lines at all.
 */
module Lines {

  predicate IsLineBreak(c: char) {
    c == '\n' || c == '\r'
  }

  /** A line as `splitlines` returns it: no separator character inside. */
  predicate NoBreaks(s: string) {
    forall j :: 0 <= j < |s| ==> !IsLineBreak(s[j])
  }

  /** Index of the first separator character, or |s| when there is none. */
  function FirstBreak(s: string): (i: nat)
    ensures i <= |s|
    ensures NoBreaks(s[..i])
    ensures i < |s| ==> IsLineBreak(s[i])
    decreases |s|
  {
    if s == [] then 0
    else if IsLineBreak(s[0]) then 0
    else
      var k := 1 + FirstBreak(s[1..]);
      assert s[..k] == [s[0]] + s[1..][..k - 1];
      k
  }

  function SplitLines(s: string): (lines: seq<string>)
    ensures forall i :: 0 <= i < |lines| ==> NoBreaks(lines[i])
    ensures |lines| <= |s|
    ensures s != [] ==> |lines| > 0
    decreases |s|
  {
    if s == [] then []
    else
      var i := FirstBreak(s);
      if i == |s| then [s]
      else
        var next := if s[i] == '\r' && i + 1 < |s| && s[i + 1] == '\n' then i + 2 else i + 1;
        [s[..i]] + SplitLines(s[next..])
  }

  /** The lines glued back together with "\n" between neighbours. */
  function JoinLines(lines: seq<string>): string
    decreases |lines|
  {
    if lines == [] then ""
    else if |lines| == 1 then lines[0]
    else lines[0] + "\n" + JoinLines(lines[1..])
  }

  lemma FirstBreakOfJoin(a: string, b: string)
    requires NoBreaks(a)
    requires b != [] && IsLineBreak(b[0])
    ensures FirstBreak(a + b) == |a|
  {
    var s := a + b;
    assert forall j :: 0 <= j < |a| ==> s[j] == a[j];
    assert s[|a|] == b[0];
  }

  lemma FirstBreakNone(s: string)
    requires NoBreaks(s)
    ensures FirstBreak(s) == |s|
  {
  }

  /** The three separators `splitlines` recognises. */
  predicate IsSeparator(sep: string) {
    sep == "\n" || sep == "\r" || sep == "\r\n"
  }

  /**
   A line, a separator and the rest: the line comes out alone and the rest is
   cut on its own. "\r\n" is one separator, so a lone "\r" only separates
   like this when the rest does not start with "\n".
   */
  lemma SplitLinesCons(a: string, sep: string, b: string)
    requires NoBreaks(a)
    requires IsSeparator(sep)
    requires sep == "\r" ==> b == [] || b[0] != '\n'
    ensures SplitLines(a + sep + b) == [a] + SplitLines(b)
  {
    var s := a + sep + b;
    assert s == a + (sep + b);
    FirstBreakOfJoin(a, sep + b);
    assert s[..|a|] == a;
    assert s[|a| + |sep|..] == b;
  }

  /** A separator at the very end opens no empty last line. */
  lemma SplitLinesLast(a: string, sep: string)
    requires NoBreaks(a)
    requires IsSeparator(sep)
    ensures SplitLines(a + sep) == [a]
  {
    SplitLinesCons(a, sep, "");
    assert a + sep + "" == a + sep;
  }

  /** A non-empty text without separators is one line. */
  lemma SplitLinesSingle(a: string)
    requires NoBreaks(a)
    requires a != []
    ensures SplitLines(a) == [a]
  {
    FirstBreakNone(a);
  }

  /**
   Cutting joined lines apart gives the lines back, provided none holds a
   separator and the last one is not empty (a trailing empty line leaves
   only a trailing "\n", which `splitlines` does not report).
   */
  lemma {:induction false} SplitJoin(lines: seq<string>)
    requires |lines| > 0
    requires forall i :: 0 <= i < |lines| ==> NoBreaks(lines[i])
    requires lines[|lines| - 1] != ""
    ensures SplitLines(JoinLines(lines)) == lines
    decreases |lines|
  {
    if |lines| == 1 {
      FirstBreakNone(lines[0]);
    } else {
      var rest := JoinLines(lines[1..]);
      var s := lines[0] + "\n" + rest;
      assert s == lines[0] + ("\n" + rest);
      FirstBreakOfJoin(lines[0], "\n" + rest);
      assert s[..|lines[0]|] == lines[0];
      assert s[|lines[0]| + 1..] == rest;
      SplitJoin(lines[1..]);
    }
  }

  /**
   Joining the lines of a text gives the text back when it uses "\n" only
   and does not end with a separator.
   */
  lemma {:induction false} JoinSplit(s: string)
    requires forall j :: 0 <= j < |s| ==> s[j] != '\r'
    requires s == [] || s[|s| - 1] != '\n'
    ensures JoinLines(SplitLines(s)) == s
    decreases |s|
  {
    if s != [] {
      var i := FirstBreak(s);
      if i < |s| {
        var tail := s[i + 1..];
        assert s[i] == '\n';
        assert s == s[..i] + "\n" + tail;
        SplitLinesCons(s[..i], "\n", tail);
        JoinSplit(tail);
        JoinLinesCons(s[..i], SplitLines(tail));
      } else {
        SplitLinesSingle(s);
      }
    }
  }

  lemma JoinLinesCons(a: string, lines: seq<string>)
    requires lines != []
    ensures JoinLines([a] + lines) == a + "\n" + JoinLines(lines)
  {
    assert ([a] + lines)[1..] == lines;
  }
}
