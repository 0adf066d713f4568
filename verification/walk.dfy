/**
 The tree walk of the directive (`_parse`): siblings are visited in order and
 the previous sibling is remembered. Each function, class and method gets a
 directive header. If the sibling just before it is a comment, that comment
 follows the header as the description. A class's members are then walked as
 a sibling sequence of their own, starting with no previous sibling.

 Beside the walk sit two independent views of its output. `Entries` lists the
 directive entries by position: the declaration at index i is paired with the
 sibling at index i - 1. `Decode` reads an output back into entries. The
 lemmas show that the walk writes exactly the rendering of `Entries` and that
 `Decode` recovers them.
 */
module Autodoc {
  import opened PhpAst
  import opened Lines
  import opened DocComment
  import opened DocWriter

  // ---------------------------------------------------------------------
  // The walk

  /** The description written after a header: the previous sibling's block, if it is a comment. */
  function Description(last: Option<Node>): (r: seq<string>)
    ensures AllOutputLines(r)
  {
    if last.Some? && last.value.Comment? then CommentBlock(DescriptionLines(last.value.text)) else []
  }

  /** The lines one declaration writes for itself: its header, then the description, if any. */
  function EntryLines(kind: string, name: string, last: Option<Node>): (r: seq<string>)
    ensures AllOutputLines(r)
  {
    var h := DirectiveHeader(kind, name);
    AllOutputLinesAppend(h, Description(last));
    h + Description(last)
  }

  /**
   What one node writes itself, given the sibling before it: a declaration
   its entry, a class then its members walked from no previous sibling, any
   other node nothing.
   */
  function Visit(node: Node, last: Option<Node>): (r: seq<string>)
    ensures AllOutputLines(r)
    decreases node, 1
  {
    match node
    case Function(name) => EntryLines("function", name, last)
    case Class(name, members) =>
      var inner := Walk(members, None);
      AllOutputLinesAppend(EntryLines("class", name, last), inner);
      EntryLines("class", name, last) + inner
    case Method(name) => EntryLines("method", name, last)
    case _ => []
  }

  /**
   `_parse` over a sibling sequence, with `last` the sibling visited before
   the first one. Every node becomes `last` for the next, whether or not it
   wrote anything.
   */
  function Walk(nodes: seq<Node>, last: Option<Node>): (r: seq<string>)
    ensures AllOutputLines(r)
    decreases nodes, 0
  {
    if nodes == [] then []
    else
      var node := nodes[0];
      var here := Visit(node, last);
      var rest := Walk(nodes[1..], Some(node));
      AllOutputLinesAppend(here, rest);
      here + rest
  }

  /** The lines the directive writes for a parsed file: the walk of its top-level nodes. */
  function Document(tree: seq<Node>): seq<string> {
    Walk(tree, None)
  }

  // ---------------------------------------------------------------------
  // Entries: the pairing stated by position

  /** One directive entry: kind, name, and the description lines if there is a description. */
  datatype Entry = Entry(kind: string, name: string, description: Option<seq<string>>)

  /** The sibling before index i, as `last` holds it when the walk reaches i. */
  function Prev(nodes: seq<Node>, i: nat): Option<Node>
    requires i <= |nodes|
  {
    if i == 0 then None else Some(nodes[i - 1])
  }

  /** The description of the declaration at index i: present exactly when index i - 1 holds a comment. */
  function Preceding(nodes: seq<Node>, i: nat): Option<seq<string>>
    requires i <= |nodes|
  {
    if i > 0 && nodes[i - 1].Comment? then Some(DescriptionLines(nodes[i - 1].text)) else None
  }

  function EntryFor(nodes: seq<Node>, i: nat): Entry
    requires i < |nodes| && IsDeclaration(nodes[i])
  {
    Entry(KindOf(nodes[i]), nodes[i].name, Preceding(nodes, i))
  }

  /**
   The entries of the siblings from index i on: each declaration's own entry,
   then, for a class, the entries of its members, then the later siblings.
   */
  function EntriesFrom(nodes: seq<Node>, i: nat): seq<Entry>
    requires i <= |nodes|
    decreases nodes, |nodes| - i
  {
    if i == |nodes| then []
    else
      (if IsDeclaration(nodes[i]) then [EntryFor(nodes, i)] else [])
      + (if nodes[i].Class? then EntriesFrom(nodes[i].nodes, 0) else [])
      + EntriesFrom(nodes, i + 1)
  }

  function Entries(nodes: seq<Node>): seq<Entry> {
    EntriesFrom(nodes, 0)
  }

  predicate WellKinded(es: seq<Entry>) {
    forall k :: 0 <= k < |es| ==> IsKind(es[k].kind)
  }

  // ---------------------------------------------------------------------
  // Rendering entries and reading them back

  function RenderDescription(d: Option<seq<string>>): seq<string> {
    if d.Some? then CommentBlock(d.value) else []
  }

  function RenderEntry(e: Entry): seq<string> {
    DirectiveHeader(e.kind, e.name) + RenderDescription(e.description)
  }

  function Render(es: seq<Entry>): seq<string>
    decreases |es|
  {
    if es == [] then [] else RenderEntry(es[0]) + Render(es[1..])
  }

  /**
   Reads an output back into entries: a directive line and a blank line open
   an entry; a description block follows when the next line is blank or
   indented. Anything else is not output of the directive.
   */
  function Decode(lines: seq<string>): (r: Option<seq<Entry>>)
    ensures r.Some? ==> Render(r.value) == lines && WellKinded(r.value)
    decreases |lines|
  {
    if lines == [] then Some([])
    else if |lines| < 2 || lines[1] != "" then None
    else
      match ParseHeader(lines[0])
      case None => None
      case Some(h) =>
        var rest := lines[2..];
        if rest != [] && (rest[0] == "" || IsDescriptionLine(rest[0])) then
          match TakeBlock(rest)
          case None => None
          case Some(p) =>
            match Decode(p.1)
            case None => None
            case Some(es) =>
              var e := Entry(h.0, h.1, Some(p.0));
              DecodedEntry(lines, e, p.1, es);
              Some([e] + es)
        else
          match Decode(rest)
          case None => None
          case Some(es) =>
            var e := Entry(h.0, h.1, None);
            DecodedEntry(lines, e, rest, es);
            Some([e] + es)
  }

  /** The step of `Decode`: an entry read off the front, then the entries of what follows it. */
  lemma DecodedEntry(lines: seq<string>, e: Entry, tail: seq<string>, es: seq<Entry>)
    requires |lines| >= 2 && lines[0] == HeaderLine(e.kind, e.name) && lines[1] == ""
    requires lines[2..] == RenderDescription(e.description) + tail
    requires Render(es) == tail
    ensures Render([e] + es) == lines
  {
    assert ([e] + es)[0] == e;
    assert ([e] + es)[1..] == es;
    assert lines == DirectiveHeader(e.kind, e.name) + lines[2..];
    AppendAssoc(DirectiveHeader(e.kind, e.name), RenderDescription(e.description), tail);
  }

  lemma {:induction false} RenderAppend(a: seq<Entry>, b: seq<Entry>)
    ensures Render(a + b) == Render(a) + Render(b)
    decreases |a|
  {
    if a == [] {
      assert a + b == b;
    } else {
      assert (a + b)[0] == a[0];
      assert (a + b)[1..] == a[1..] + b;
      RenderAppend(a[1..], b);
    }
  }

  /** A directive line is neither blank nor indented. */
  lemma HeaderLineIsNotDescription(l: string)
    requires IsHeaderLine(l)
    ensures l != "" && !IsDescriptionLine(l)
  {
    assert l[0] == HeaderPrefix[0];
  }

  lemma {:induction false} DecodeEntry(e: Entry, more: seq<string>)
    requires IsKind(e.kind)
    requires more == [] || IsHeaderLine(more[0])
    ensures Decode(RenderEntry(e) + more) == (match Decode(more) case None => None case Some(es) => Some([e] + es))
  {
    var lines := RenderEntry(e) + more;
    ParseHeaderLine(e.kind, e.name);
    RenderedHead(e, more);
    if e.description.Some? {
      DecodeDescribed(lines, e, more);
    } else {
      DecodeBare(lines, e, more);
    }
  }

  /** The first two lines of a rendered entry are its header; the rest is its description and what follows. */
  lemma RenderedHead(e: Entry, more: seq<string>)
    ensures var lines := RenderEntry(e) + more;
      && |lines| >= 2 && lines[0] == HeaderLine(e.kind, e.name) && lines[1] == ""
      && lines[2..] == RenderDescription(e.description) + more
  {
  }

  /** `Decode` on an entry with a description: the block is taken, then the rest is decoded. */
  lemma DecodeDescribed(lines: seq<string>, e: Entry, more: seq<string>)
    requires e.description.Some?
    requires |lines| >= 2 && ParseHeader(lines[0]) == Some((e.kind, e.name)) && lines[1] == ""
    requires lines[2..] == CommentBlock(e.description.value) + more
    ensures Decode(lines) == (match Decode(more) case None => None case Some(es) => Some([e] + es))
  {
    var rest := lines[2..];
    var b := CommentBlock(e.description.value);
    assert rest[0] == b[0];
    TakeCommentBlock(e.description.value, more);
  }

  /** `Decode` on an entry without a description: the next directive line follows at once. */
  lemma DecodeBare(lines: seq<string>, e: Entry, more: seq<string>)
    requires e.description.None?
    requires |lines| >= 2 && ParseHeader(lines[0]) == Some((e.kind, e.name)) && lines[1] == ""
    requires lines[2..] == more
    requires more == [] || IsHeaderLine(more[0])
    ensures Decode(lines) == (match Decode(more) case None => None case Some(es) => Some([e] + es))
  {
    if more != [] {
      HeaderLineIsNotDescription(more[0]);
    }
  }

  /** Rendered entries start with a directive line. */
  lemma RenderStartsWithHeader(es: seq<Entry>)
    ensures Render(es) == [] || IsHeaderLine(Render(es)[0])
  {
    if es != [] {
      assert Render(es)[0] == DirectiveHeader(es[0].kind, es[0].name)[0];
    }
  }

  /** Decoding undoes rendering: the entries are recoverable from the lines. */
  lemma {:induction false} DecodeRender(es: seq<Entry>)
    requires WellKinded(es)
    ensures Decode(Render(es)) == Some(es)
    decreases |es|
  {
    if es != [] {
      DecodeRender(es[1..]);
      RenderStartsWithHeader(es[1..]);
      DecodeEntry(es[0], Render(es[1..]));
      assert [es[0]] + es[1..] == es;
    }
  }

  // ---------------------------------------------------------------------
  // The walk writes the entries


  lemma WalkUnfold(nodes: seq<Node>, last: Option<Node>)
    requires nodes != []
    ensures Walk(nodes, last) == Visit(nodes[0], last) + Walk(nodes[1..], Some(nodes[0]))
  {
  }

  lemma VisitRendersOwnEntries(nodes: seq<Node>, i: nat)
    requires i < |nodes|
    requires nodes[i].Class? ==> Walk(nodes[i].nodes, None) == Render(Entries(nodes[i].nodes))
    ensures Visit(nodes[i], Prev(nodes, i)) == Render(OwnEntries(nodes, i))
  {
    var node := nodes[i];
    var last := Prev(nodes, i);
    assert Description(last) == RenderDescription(Preceding(nodes, i));
    if IsDeclaration(node) {
      var e := EntryFor(nodes, i);
      assert Render([e]) == RenderEntry(e);
      assert EntryLines(e.kind, e.name, last) == RenderEntry(e);
      if node.Class? {
        RenderAppend([e], Entries(node.nodes));
      }
    }
  }

  lemma {:induction false} WalkFromIndex(nodes: seq<Node>, i: nat)
    requires i <= |nodes|
    ensures Walk(nodes[i..], Prev(nodes, i)) == Render(EntriesFrom(nodes, i))
    decreases nodes, |nodes| - i, 1
  {
    if i < |nodes| {
      WalkFromIndex(nodes, i + 1);
      MembersRenderEntries(nodes, i);
      WalkStep(nodes, i);
    }
  }

  /** One step of the walk: the node at index i and the walk after it render the entries from i. */
  lemma WalkStep(nodes: seq<Node>, i: nat)
    requires i < |nodes|
    requires Walk(nodes[i + 1..], Prev(nodes, i + 1)) == Render(EntriesFrom(nodes, i + 1))
    requires nodes[i].Class? ==> Walk(nodes[i].nodes, None) == Render(Entries(nodes[i].nodes))
    ensures Walk(nodes[i..], Prev(nodes, i)) == Render(EntriesFrom(nodes, i))
  {
    WalkAt(nodes, i);
    VisitRendersOwnEntries(nodes, i);
    EntriesFromUnfold(nodes, i);
    RenderAppend(OwnEntries(nodes, i), EntriesFrom(nodes, i + 1));
  }

  /** The walk from index i: the node there, then the walk from i + 1 with that node as `last`. */
  lemma WalkAt(nodes: seq<Node>, i: nat)
    requires i < |nodes|
    ensures Walk(nodes[i..], Prev(nodes, i)) == Visit(nodes[i], Prev(nodes, i)) + Walk(nodes[i + 1..], Prev(nodes, i + 1))
  {
    assert nodes[i..][0] == nodes[i];
    assert nodes[i..][1..] == nodes[i + 1..];
    WalkUnfold(nodes[i..], Prev(nodes, i));
  }

  /** The entries from index i: those of the node there, then those from i + 1. */
  lemma EntriesFromUnfold(nodes: seq<Node>, i: nat)
    requires i < |nodes|
    ensures EntriesFrom(nodes, i) == OwnEntries(nodes, i) + EntriesFrom(nodes, i + 1)
  {
  }

  /** A class body, walked from no previous sibling, renders its own entries. */
  lemma {:induction false} MembersRenderEntries(nodes: seq<Node>, i: nat)
    requires i < |nodes|
    ensures nodes[i].Class? ==> Walk(nodes[i].nodes, None) == Render(Entries(nodes[i].nodes))
    decreases nodes, |nodes| - i, 0
  {
    if nodes[i].Class? {
      var members := nodes[i].nodes;
      WalkFromIndex(members, 0);
      assert members[0..] == members;
    }
  }

  /**
   The walk's output is the rendering of the positional entries: each
   declaration's header, with the preceding sibling's comment as its
   description when that sibling is a comment, in document order, each class
   followed by its members.
   */
  lemma DocumentRendersEntries(tree: seq<Node>)
    ensures Document(tree) == Render(Entries(tree))
  {
    WalkFromIndex(tree, 0);
    assert tree[0..] == tree;
  }

  lemma {:induction false} EntriesFromWellKinded(nodes: seq<Node>, i: nat)
    requires i <= |nodes|
    ensures WellKinded(EntriesFrom(nodes, i))
    decreases nodes, |nodes| - i
  {
    if i < |nodes| {
      EntriesFromWellKinded(nodes, i + 1);
      if nodes[i].Class? {
        EntriesFromWellKinded(nodes[i].nodes, 0);
      }
      OwnEntriesWellKinded(nodes, i);
      EntriesFromUnfold(nodes, i);
      WellKindedAppend(OwnEntries(nodes, i), EntriesFrom(nodes, i + 1));
    }
  }

  lemma OwnEntriesWellKinded(nodes: seq<Node>, i: nat)
    requires i < |nodes|
    requires nodes[i].Class? ==> WellKinded(EntriesFrom(nodes[i].nodes, 0))
    ensures WellKinded(OwnEntries(nodes, i))
  {
    if nodes[i].Class? {
      WellKindedAppend([EntryFor(nodes, i)], EntriesFrom(nodes[i].nodes, 0));
    }
  }

  lemma WellKindedAppend(a: seq<Entry>, b: seq<Entry>)
    requires WellKinded(a) && WellKinded(b)
    ensures WellKinded(a + b)
  {
    forall k | 0 <= k < |a + b|
      ensures IsKind((a + b)[k].kind)
    {
      if k < |a| {
        assert (a + b)[k] == a[k];
      } else {
        assert (a + b)[k] == b[k - |a|];
      }
    }
  }

  /** The output reads back as exactly the positional entries. */
  lemma DecodeDocument(tree: seq<Node>)
    ensures Decode(Document(tree)) == Some(Entries(tree))
  {
    DocumentRendersEntries(tree);
    EntriesFromWellKinded(tree, 0);
    DecodeRender(Entries(tree));
  }

  // ---------------------------------------------------------------------
  // Counting and positions

  /** The entries a single sibling contributes: its own, then its members' if it is a class. */
  function OwnEntries(nodes: seq<Node>, i: nat): seq<Entry>
    requires i < |nodes|
    decreases nodes, 0
  {
    (if IsDeclaration(nodes[i]) then [EntryFor(nodes, i)] else [])
    + (if nodes[i].Class? then EntriesFrom(nodes[i].nodes, 0) else [])
  }

  lemma {:induction false} EntriesFromCount(nodes: seq<Node>, i: nat)
    requires i <= |nodes|
    ensures |EntriesFrom(nodes, i)| == CountDecls(nodes[i..])
    decreases nodes, |nodes| - i
  {
    if i < |nodes| {
      assert nodes[i..][0] == nodes[i];
      assert nodes[i..][1..] == nodes[i + 1..];
      EntriesFromCount(nodes, i + 1);
      if nodes[i].Class? {
        EntriesFromCount(nodes[i].nodes, 0);
        assert nodes[i].nodes[0..] == nodes[i].nodes;
      }
    }
  }

  /** One entry per declaration the walk reaches: top-level ones and class members, recursively. */
  lemma EntriesCount(tree: seq<Node>)
    ensures |Entries(tree)| == CountDecls(tree)
  {
    EntriesFromCount(tree, 0);
    assert tree[0..] == tree;
  }

  /** Dropping the entries of the siblings before index i leaves the entries from i on. */
  lemma {:induction false} EntriesFromSuffix(nodes: seq<Node>, j: nat, i: nat)
    requires j <= i <= |nodes|
    ensures CountDecls(nodes[j..i]) <= |EntriesFrom(nodes, j)|
    ensures EntriesFrom(nodes, j)[CountDecls(nodes[j..i])..] == EntriesFrom(nodes, i)
    decreases i - j
  {
    if j == i {
      assert nodes[j..i] == [];
    } else {
      var own := OwnEntries(nodes, j);
      assert EntriesFrom(nodes, j) == own + EntriesFrom(nodes, j + 1);
      OwnEntriesCount(nodes, j, i);
      EntriesFromSuffix(nodes, j + 1, i);
    }
  }

  /** The first sibling of nodes[j..i] accounts for exactly its own entries in the count. */
  lemma OwnEntriesCount(nodes: seq<Node>, j: nat, i: nat)
    requires j < i <= |nodes|
    ensures |OwnEntries(nodes, j)| + CountDecls(nodes[j + 1..i]) == CountDecls(nodes[j..i])
  {
    assert nodes[j..i][0] == nodes[j];
    assert nodes[j..i][1..] == nodes[j + 1..i];
    if nodes[j].Class? {
      EntriesFromCount(nodes[j].nodes, 0);
      assert nodes[j].nodes[0..] == nodes[j].nodes;
    }
  }

  /**
   Pairing: the declaration at top-level index i owns entry number
   CountDecls(tree[..i]) of the output, with its own kind and bare name, and
   that entry carries a description exactly when the sibling at i - 1 is a
   comment; the description is then that comment's lines.
   */
  lemma DescriptionIffPrecedingComment(tree: seq<Node>, i: nat)
    requires i < |tree| && IsDeclaration(tree[i])
    ensures Decode(Document(tree)).Some?
    ensures var es := Decode(Document(tree)).value;
      var k := CountDecls(tree[..i]);
      && k < |es|
      && es[k].kind == KindOf(tree[i])
      && es[k].name == tree[i].name
      && (es[k].description.Some? <==> i > 0 && tree[i - 1].Comment?)
      && (i > 0 && tree[i - 1].Comment? ==> es[k].description == Some(DescriptionLines(tree[i - 1].text)))
  {
    DecodeDocument(tree);
    EntriesAt(tree, i);
    assert EntriesFrom(tree, i)[0] == EntryFor(tree, i);
  }

  /**
   Ordering: a class's entry is followed at once by the entries of its
   members, which are the entries of the member list taken on its own; so a
   first member is never paired with a comment outside the class.
   */
  lemma ClassMembersFollowClass(tree: seq<Node>, i: nat)
    requires i < |tree| && tree[i].Class?
    ensures CountDecls(tree[..i]) + 1 + CountDecls(tree[i].nodes) <= |Entries(tree)|
    ensures Entries(tree)[CountDecls(tree[..i])] == EntryFor(tree, i)
    ensures Entries(tree)[CountDecls(tree[..i]) + 1..CountDecls(tree[..i]) + 1 + CountDecls(tree[i].nodes)]
            == Entries(tree[i].nodes)
    ensures tree[i].nodes != [] && IsDeclaration(tree[i].nodes[0]) ==>
            Entries(tree)[CountDecls(tree[..i]) + 1].description.None?
  {
    ClassEntryPosition(tree, i);
    if tree[i].nodes != [] && IsDeclaration(tree[i].nodes[0]) {
      ClassFirstMember(tree, i);
    }
  }

  /** The entry just after a class's own is its first member's, with no description. */
  lemma ClassFirstMember(tree: seq<Node>, i: nat)
    requires i < |tree| && tree[i].Class?
    requires tree[i].nodes != [] && IsDeclaration(tree[i].nodes[0])
    ensures CountDecls(tree[..i]) + 1 < |Entries(tree)|
    ensures Entries(tree)[CountDecls(tree[..i]) + 1].description.None?
  {
    EntriesAt(tree, i);
    ClassEntriesFrom(tree, i);
    FirstMemberUndocumented(tree[i].nodes);
    UndocumentedAfter(Entries(tree), CountDecls(tree[..i]), EntryFor(tree, i), Entries(tree[i].nodes),
                      EntriesFrom(tree, i + 1));
  }

  lemma UndocumentedAfter(es: seq<Entry>, k: nat, x: Entry, ms: seq<Entry>, rest: seq<Entry>)
    requires k <= |es| && es[k..] == [x] + ms + rest
    requires |ms| > 0 && ms[0].description.None?
    ensures k + 1 < |es| && es[k + 1].description.None?
  {
    assert es[k..][1] == es[k + 1];
  }

  /** The class's entry and its members' entries, by position in the output. */
  lemma ClassEntryPosition(tree: seq<Node>, i: nat)
    requires i < |tree| && tree[i].Class?
    ensures CountDecls(tree[..i]) + 1 + CountDecls(tree[i].nodes) <= |Entries(tree)|
    ensures Entries(tree)[CountDecls(tree[..i])] == EntryFor(tree, i)
    ensures Entries(tree)[CountDecls(tree[..i]) + 1..CountDecls(tree[..i]) + 1 + CountDecls(tree[i].nodes)]
            == Entries(tree[i].nodes)
  {
    ClassEntryAt(tree, i);
    ClassMembersAt(tree, i);
  }

  /** The class's own entry sits where the entries of the siblings before it end. */
  lemma ClassEntryAt(tree: seq<Node>, i: nat)
    requires i < |tree| && tree[i].Class?
    ensures CountDecls(tree[..i]) < |Entries(tree)|
    ensures Entries(tree)[CountDecls(tree[..i])] == EntryFor(tree, i)
  {
    ClassSuffix(tree, i);
    HeadOfSuffix(Entries(tree), CountDecls(tree[..i]), EntryFor(tree, i),
                 Entries(tree[i].nodes), EntriesFrom(tree, i + 1));
  }

  /** The members' entries follow the class's own entry. */
  lemma ClassMembersAt(tree: seq<Node>, i: nat)
    requires i < |tree| && tree[i].Class?
    ensures CountDecls(tree[..i]) + 1 + CountDecls(tree[i].nodes) <= |Entries(tree)|
    ensures Entries(tree)[CountDecls(tree[..i]) + 1..CountDecls(tree[..i]) + 1 + CountDecls(tree[i].nodes)]
            == Entries(tree[i].nodes)
  {
    MembersSuffix(tree, i);
    PrefixOfSuffix(Entries(tree), CountDecls(tree[..i]) + 1, Entries(tree[i].nodes),
                   EntriesFrom(tree, i + 1), CountDecls(tree[i].nodes));
  }

  /** All entries after the class's own: its members', then its later siblings'. */
  lemma MembersSuffix(tree: seq<Node>, i: nat)
    requires i < |tree| && tree[i].Class?
    ensures CountDecls(tree[..i]) + 1 <= |Entries(tree)|
    ensures Entries(tree)[CountDecls(tree[..i]) + 1..] == Entries(tree[i].nodes) + EntriesFrom(tree, i + 1)
    ensures |Entries(tree[i].nodes)| == CountDecls(tree[i].nodes)
  {
    ClassSuffix(tree, i);
    DropHead(Entries(tree), CountDecls(tree[..i]), EntryFor(tree, i), Entries(tree[i].nodes), EntriesFrom(tree, i + 1));
  }

  lemma DropHead<T>(s: seq<T>, k: nat, x: T, m: seq<T>, rest: seq<T>)
    requires k <= |s| && s[k..] == [x] + m + rest
    ensures k + 1 <= |s| && s[k + 1..] == m + rest
  {
    assert s[k..][1..] == s[k + 1..];
    assert ([x] + m + rest)[1..] == m + rest;
  }

  lemma PrefixOfSuffix<T>(s: seq<T>, j: nat, m: seq<T>, rest: seq<T>, n: nat)
    requires j <= |s| && s[j..] == m + rest && |m| == n
    ensures j + n <= |s| && s[j..j + n] == m
  {
    assert s[j..j + n] == s[j..][..n];
  }

  lemma HeadOfSuffix<T>(s: seq<T>, k: nat, x: T, m: seq<T>, rest: seq<T>)
    requires k <= |s| && s[k..] == [x] + m + rest
    ensures k < |s| && s[k] == x
  {
    assert s[k..][0] == s[k];
  }

  /** All entries, from the class's position on: the class's, its members', then its later siblings'. */
  lemma ClassSuffix(tree: seq<Node>, i: nat)
    requires i < |tree| && tree[i].Class?
    ensures CountDecls(tree[..i]) <= |Entries(tree)|
    ensures Entries(tree)[CountDecls(tree[..i])..]
            == [EntryFor(tree, i)] + Entries(tree[i].nodes) + EntriesFrom(tree, i + 1)
    ensures |Entries(tree[i].nodes)| == CountDecls(tree[i].nodes)
  {
    EntriesAt(tree, i);
    ClassEntriesFrom(tree, i);
  }

  /** The first member of a class body is paired with nothing: it has no sibling before it. */
  lemma FirstMemberUndocumented(members: seq<Node>)
    requires members != [] && IsDeclaration(members[0])
    ensures |Entries(members)| > 0 && Entries(members)[0].description.None?
  {
    assert Entries(members)[0] == EntryFor(members, 0);
  }

  /** The entries from a class on: the class's own, its members', then its later siblings'. */
  lemma ClassEntriesFrom(tree: seq<Node>, i: nat)
    requires i < |tree| && tree[i].Class?
    ensures var m := Entries(tree[i].nodes);
      && |m| == CountDecls(tree[i].nodes)
      && EntriesFrom(tree, i) == [EntryFor(tree, i)] + m + EntriesFrom(tree, i + 1)
      && EntriesFrom(tree, i)[0] == EntryFor(tree, i)
      && EntriesFrom(tree, i)[1..1 + |m|] == m
  {
    var members := tree[i].nodes;
    EntriesFromCount(members, 0);
    assert members[0..] == members;
    var m := Entries(members);
    var from := EntriesFrom(tree, i);
    assert from == [EntryFor(tree, i)] + m + EntriesFrom(tree, i + 1);
    assert from[1..1 + |m|] == m;
  }

  /** The entries from index i on are the tail of all entries, after CountDecls(tree[..i]) of them. */
  lemma EntriesAt(tree: seq<Node>, i: nat)
    requires i <= |tree|
    ensures CountDecls(tree[..i]) <= |Entries(tree)|
    ensures Entries(tree)[CountDecls(tree[..i])..] == EntriesFrom(tree, i)
  {
    EntriesFromSuffix(tree, 0, i);
    assert tree[0..i] == tree[..i];
  }

  /** Lines that are directive lines. */
  function CountHeaders(lines: seq<string>): nat
    decreases |lines|
  {
    if lines == [] then 0 else (if IsHeaderLine(lines[0]) then 1 else 0) + CountHeaders(lines[1..])
  }

  lemma {:induction false} CountHeadersAppend(a: seq<string>, b: seq<string>)
    ensures CountHeaders(a + b) == CountHeaders(a) + CountHeaders(b)
    decreases |a|
  {
    if a == [] {
      assert a + b == b;
    } else {
      assert (a + b)[0] == a[0];
      assert (a + b)[1..] == a[1..] + b;
      CountHeadersAppend(a[1..], b);
    }
  }

  lemma {:induction false} CommentBlockHasNoHeader(lines: seq<string>)
    ensures CountHeaders(CommentBlock(lines)) == 0
    decreases |lines|
  {
    if lines == [] {
      assert CommentBlock(lines) == [""];
    } else {
      CommentBlockCons(lines[0], lines[1..]);
      assert [lines[0]] + lines[1..] == lines;
      var x := DescriptionIndent + lines[0];
      assert x[0] == ' ';
      assert !IsHeaderLine(x);
      assert ([x] + CommentBlock(lines[1..]))[1..] == CommentBlock(lines[1..]);
      CommentBlockHasNoHeader(lines[1..]);
    }
  }

  lemma {:induction false} RenderHeaderCount(es: seq<Entry>)
    ensures CountHeaders(Render(es)) == |es|
    decreases |es|
  {
    if es != [] {
      var e := es[0];
      var h := DirectiveHeader(e.kind, e.name);
      var d := RenderDescription(e.description);
      assert RenderEntry(e) == h + d;
      assert CountHeaders(h) == 1 by {
        assert h[1..] == [""];
        assert CountHeaders([""]) == 0;
      }
      if e.description.Some? {
        CommentBlockHasNoHeader(e.description.value);
      }
      CountHeadersAppend(h, d);
      CountHeadersAppend(RenderEntry(e), Render(es[1..]));
      RenderHeaderCount(es[1..]);
    }
  }

  /**
   One directive line per declaration reached: the other node kinds, comments
   included, write no header of their own.
   */
  lemma HeaderCount(tree: seq<Node>)
    ensures CountHeaders(Document(tree)) == CountDecls(tree)
  {
    DocumentRendersEntries(tree);
    RenderHeaderCount(Entries(tree));
    EntriesCount(tree);
  }

  // ---------------------------------------------------------------------
  // `_parse` as the source writes it: a loop with a mutable previous sibling

  /**
   Appends to the buffer what `_parse` appends for the sibling sequence:
   the loop keeps `last`, the previous sibling, and recurses into class
   bodies with the same buffer.
   */
  method ParseInto(buffer: seq<string>, tree: seq<Node>) returns (out: seq<string>)
    ensures out == buffer + Walk(tree, None)
    decreases tree, 1
  {
    out := buffer;
    var last: Option<Node> := None;
    var i := 0;
    while i < |tree|
      invariant 0 <= i <= |tree|
      invariant last == Prev(tree, i)
      invariant out + Walk(tree[i..], last) == buffer + Walk(tree, None)
    {
      ghost var before := out;
      out := VisitInto(out, tree, i, last);
      assert tree[i..][0] == tree[i];
      assert tree[i..][1..] == tree[i + 1..];
      WalkUnfold(tree[i..], last);
      AppendAssoc(before, Visit(tree[i], last), Walk(tree[i + 1..], Some(tree[i])));
      last := Some(tree[i]);
      i := i + 1;
    }
    assert tree[i..] == [];
  }

  /** The loop body of `_parse` for the sibling at index i, with `last` the sibling before it. */
  method VisitInto(buffer: seq<string>, tree: seq<Node>, i: nat, last: Option<Node>) returns (out: seq<string>)
    requires i < |tree|
    ensures out == buffer + Visit(tree[i], last)
    decreases tree, 0
  {
    match tree[i] {
      case Function(name) =>
        out := AddEntry(buffer, "function", name, last);
      case Class(name, members) =>
        out := AddEntry(buffer, "class", name, last);
        out := ParseInto(out, members);
        AppendAssoc(buffer, EntryLines("class", name, last), Walk(members, None));
      case Method(name) =>
        out := AddEntry(buffer, "method", name, last);
      case _ =>
        out := buffer;
    }
  }

  /** One branch of the loop body of `_parse`: the header, then the previous sibling if it is a comment. */
  method AddEntry(buffer: seq<string>, kind: string, name: string, last: Option<Node>) returns (out: seq<string>)
    ensures out == buffer + EntryLines(kind, name, last)
  {
    var header := DirectiveHeader(kind, name);
    out := AddDirectiveHeader(buffer, kind, name);
    assert out == buffer + header;
    var d := Description(last);
    if last.Some? && last.value.Comment? {
      assert d == CommentBlock(DescriptionLines(last.value.text));
      out := AddComment(out, last.value);
      assert out == buffer + header + d;
    } else {
      assert d == [];
      assert out == out + d;
    }
    AppendAssoc(buffer, header, d);
  }

  lemma AppendAssoc<X>(a: seq<X>, b: seq<X>, c: seq<X>)
    ensures a + b + c == a + (b + c)
  {
  }

  /** `_parse` on a parsed file, starting from the empty buffer `run` creates. */
  method ParseTree(tree: seq<Node>) returns (lines: seq<string>)
    ensures Decode(lines) == Some(Entries(tree))
    ensures CountHeaders(lines) == CountDecls(tree)
  {
    lines := ParseInto([], tree);
    assert lines == Document(tree);
    DecodeDocument(tree);
    HeaderCount(tree);
  }
}
