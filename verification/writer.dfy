/**
 The output buffer of the directive and the three ways lines get into it:
 `add_line` (append behind the directive's indent, which `run` sets to the
 empty string), `add_directive_header` (a directive line and a blank line) and
 `add_comment` (the description block). Alongside each writer sits the parser
 that reads its lines back, so that what was written is recoverable from the
 output.
 */
module DocWriter {
  import opened PhpAst
  import opened Lines
  import opened DocComment

  /** The directive domain: the directive never sets one, so the default applies. */
  const Domain: string := "php"

  /** The prefix `add_line` puts in front of every line; `run` sets it to "" and nothing changes it. */
  const Indent: string := ""

  /** The three spaces in front of every description line. */
  const DescriptionIndent: string := "   "

  predicate IsKind(k: string) {
    k == "function" || k == "class" || k == "method"
  }

  /** `add_line`: appends the line as given, with nothing in front of it. */
  function AddLine(buffer: seq<string>, line: string): (r: seq<string>)
    ensures r == buffer + [line]
  {
    assert Indent + line == line;
    buffer + [Indent + line]
  }

  /** The first line of a directive entry, `.. php:<kind>:: <name>`. */
  function HeaderLine(kind: string, name: string): string {
    ".. " + Domain + ":" + kind + ":: " + name
  }

  const HeaderPrefix: string := ".. " + Domain + ":"

  predicate IsHeaderLine(l: string) {
    StartsWith(l, HeaderPrefix)
  }

  /** A line of a description block: the description indent in front. */
  predicate IsDescriptionLine(l: string) {
    StartsWith(l, DescriptionIndent)
  }

  /** Every line the directive writes is blank, a directive line or a description line. */
  predicate IsOutputLine(l: string) {
    l == "" || IsHeaderLine(l) || IsDescriptionLine(l)
  }

  predicate AllOutputLines(s: seq<string>) {
    forall i :: 0 <= i < |s| ==> IsOutputLine(s[i])
  }

  lemma AllOutputLinesAppend(a: seq<string>, b: seq<string>)
    requires AllOutputLines(a) && AllOutputLines(b)
    ensures AllOutputLines(a + b)
  {
    forall i | 0 <= i < |a + b|
      ensures IsOutputLine((a + b)[i])
    {
      if i < |a| {
        assert (a + b)[i] == a[i];
      } else {
        assert (a + b)[i] == b[i - |a|];
      }
    }
  }

  /** `add_directive_header`: exactly two lines, the directive line and a blank line. */
  function DirectiveHeader(kind: string, name: string): (r: seq<string>)
    ensures |r| == 2 && IsHeaderLine(r[0]) && r[1] == ""
    ensures r[0][|HeaderPrefix|..] == kind + ":: " + name
    ensures AllOutputLines(r)
  {
    var line := HeaderLine(kind, name);
    assert line[..|HeaderPrefix|] == HeaderPrefix;
    [line, ""]
  }

  /** The name after `<kind>:: `, when the text starts with it. */
  function AfterKind(rest: string, kind: string): (r: Option<string>)
    ensures r.Some? ==> rest == kind + ":: " + r.value
  {
    var p := kind + ":: ";
    if StartsWith(rest, p) then Some(rest[|p|..]) else None
  }

  /** Reads a directive line back into its kind and name. */
  function ParseHeader(line: string): (r: Option<(string, string)>)
    ensures r.Some? ==> IsKind(r.value.0) && line == HeaderLine(r.value.0, r.value.1)
  {
    if !IsHeaderLine(line) then None
    else
      var rest := line[|HeaderPrefix|..];
      assert line == HeaderPrefix + rest;
      match AfterKind(rest, "function")
      case Some(n) => Some(("function", n))
      case None =>
        match AfterKind(rest, "class")
        case Some(n) => Some(("class", n))
        case None =>
          match AfterKind(rest, "method")
          case Some(n) => Some(("method", n))
          case None => None
  }

  /** A directive line names its kind and its name unambiguously. */
  lemma ParseHeaderLine(kind: string, name: string)
    requires IsKind(kind)
    ensures ParseHeader(HeaderLine(kind, name)) == Some((kind, name))
  {
    var line := HeaderLine(kind, name);
    var rest := kind + ":: " + name;
    assert line == HeaderPrefix + rest;
    assert line[|HeaderPrefix|..] == rest;
    AfterOwnKind(kind, name);
    if kind != "function" {
      AfterOtherKind(kind, name, "function");
    }
    if kind == "method" {
      AfterOtherKind(kind, name, "class");
    }
  }

  lemma AfterOwnKind(kind: string, name: string)
    ensures AfterKind(kind + ":: " + name, kind) == Some(name)
  {
    var p := kind + ":: ";
    assert (p + name)[..|p|] == p;
    assert (p + name)[|p|..] == name;
  }

  /** The kinds differ in their first letter, so no directive line reads as another kind. */
  lemma AfterOtherKind(kind: string, name: string, other: string)
    requires IsKind(kind) && IsKind(other) && kind != other
    ensures AfterKind(kind + ":: " + name, other) == None
  {
    var rest := kind + ":: " + name;
    assert rest[0] == kind[0];
    var p := other + ":: ";
    if |p| <= |rest| {
      assert rest[..|p|][0] == rest[0];
      assert p[0] == other[0];
    }
  }

  /** Every line behind the description indent. */
  function IndentLines(lines: seq<string>): (r: seq<string>)
    ensures |r| == |lines|
    ensures forall i :: 0 <= i < |r| ==> r[i] == DescriptionIndent + lines[i]
    decreases |lines|
  {
    if lines == [] then [] else [DescriptionIndent + lines[0]] + IndentLines(lines[1..])
  }

  /** The lines `add_comment` writes for a comment of the given description lines. */
  function CommentBlock(lines: seq<string>): (r: seq<string>)
    ensures |r| == |lines| + 1 && r[|lines|] == ""
    ensures forall i :: 0 <= i < |lines| ==> IsDescriptionLine(r[i]) && r[i][|DescriptionIndent|..] == lines[i]
    ensures AllOutputLines(r)
  {
    var r := IndentLines(lines) + [""];
    assert forall i :: 0 <= i < |lines| ==> r[i][..|DescriptionIndent|] == DescriptionIndent;
    r
  }

  /**
   Reads a description block back: indented lines up to the blank line that
   closes it. Yields the lines without their indent and what follows the
   blank line.
   */
  function TakeBlock(lines: seq<string>): (r: Option<(seq<string>, seq<string>)>)
    ensures r.Some? ==> |r.value.1| < |lines| && lines == CommentBlock(r.value.0) + r.value.1
    decreases |lines|
  {
    if lines == [] then None
    else if lines[0] == "" then
      assert lines == CommentBlock([]) + lines[1..];
      Some(([], lines[1..]))
    else if IsDescriptionLine(lines[0]) then
      match TakeBlock(lines[1..])
      case None => None
      case Some(p) =>
        var l := lines[0][|DescriptionIndent|..];
        assert lines[0] == DescriptionIndent + l;
        CommentBlockCons(l, p.0);
        Some(([l] + p.0, p.1))
    else None
  }

  lemma CommentBlockCons(l: string, lines: seq<string>)
    ensures CommentBlock([l] + lines) == [DescriptionIndent + l] + CommentBlock(lines)
  {
    assert ([l] + lines)[1..] == lines;
  }

  /** A description block followed by anything reads back as its lines and that remainder. */
  lemma {:induction false} TakeCommentBlock(lines: seq<string>, more: seq<string>)
    ensures TakeBlock(CommentBlock(lines) + more) == Some((lines, more))
    decreases |lines|
  {
    if lines == [] {
      var b := CommentBlock(lines) + more;
      assert b == [""] + more;
      assert b[1..] == more;
    } else {
      var l := lines[0];
      var x := DescriptionIndent + l;
      CommentBlockCons(l, lines[1..]);
      assert [l] + lines[1..] == lines;
      var b := [x] + (CommentBlock(lines[1..]) + more);
      assert CommentBlock(lines) + more == b;
      assert x[..|DescriptionIndent|] == DescriptionIndent;
      assert x[|DescriptionIndent|..] == l;
      assert b[0] == x && b[1..] == CommentBlock(lines[1..]) + more;
      TakeCommentBlock(lines[1..], more);
    }
  }

  /** `add_directive_header`, line by line through `add_line`. */
  method AddDirectiveHeader(buffer: seq<string>, kind: string, name: string) returns (out: seq<string>)
    ensures |out| == |buffer| + 2 && out[..|buffer|] == buffer
    ensures IsKind(kind) ==> ParseHeader(out[|buffer|]) == Some((kind, name))
    ensures out[|buffer|] == HeaderLine(kind, name) && out[|buffer| + 1] == ""
  {
    out := AddLine(buffer, HeaderLine(kind, name));
    out := AddLine(out, "");
    if IsKind(kind) {
      ParseHeaderLine(kind, name);
    }
  }

  /** `add_comment`: normalise the comment text, then one indented line per line and a closing blank line. */
  method AddComment(buffer: seq<string>, comment: Node) returns (out: seq<string>)
    requires comment.Comment?
    ensures out == buffer + CommentBlock(DescriptionLines(comment.text))
  {
    out := AddBlock(buffer, DescriptionLines(comment.text));
  }

  /** The loop of `add_comment` over the lines `splitlines` produced. */
  method AddBlock(buffer: seq<string>, lines: seq<string>) returns (out: seq<string>)
    ensures out == buffer + CommentBlock(lines)
  {
    out := buffer;
    var i := 0;
    while i < |lines|
      invariant 0 <= i <= |lines|
      invariant out == buffer + IndentLines(lines[..i])
    {
      out := AddLine(out, DescriptionIndent + lines[i]);
      assert lines[..i + 1] == lines[..i] + [lines[i]];
      IndentLinesSnoc(lines[..i], lines[i]);
      assert out == buffer + (IndentLines(lines[..i]) + [DescriptionIndent + lines[i]]);
      i := i + 1;
    }
    assert lines[..i] == lines;
    out := AddLine(out, "");
    assert out == buffer + (IndentLines(lines) + [""]);
  }

  lemma IndentLinesSnoc(lines: seq<string>, l: string)
    ensures IndentLines(lines + [l]) == IndentLines(lines) + [DescriptionIndent + l]
  {
    var a := IndentLines(lines + [l]);
    var b := IndentLines(lines) + [DescriptionIndent + l];
    assert |a| == |b|;
    assert forall i :: 0 <= i < |a| ==> a[i] == b[i];
  }
}
