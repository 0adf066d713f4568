# phpautodoc: the `phpautodoc` directive's document writer, in Dafny

`sphinxcontrib_phpautodoc` is a Sphinx extension. Its `phpautodoc` directive
reads a PHP file, parses it with phply and writes reStructuredText for the
PHP domain. Every function, class and method gets a `.. php:<kind>:: <name>`
directive. When the syntax-tree node just before a declaration is a comment,
the comment's text becomes the directive's description.

This project models the part of the directive that turns a parsed syntax tree
into output lines:

- `_parse`, the walk over sibling nodes that remembers the previous sibling
  and recurses into class bodies;
- `add_directive_header`;
- `add_comment`, with its four regular-expression substitutions and its
  `splitlines`;
- `add_line`, with the indent `run` sets to the empty string.

Modules:

- `PhpAst` (`ast.dfy`): the syntax tree as the walk sees it. Functions,
  classes with their member nodes, methods and comments; every other node kind
  is one `Other` constructor.
- `Lines` (`lines.dfy`): Python 2 `str.splitlines`, stated line by line
  ("\n", "\r" and "\r\n" each end one line; a final separator opens no
  empty line), and joining lines with "\n" as its inverse.
- `DocComment` (`comment.dfy`): the comment normalisation of `add_comment`.
  Each `re.sub` is written out as the left-to-right scan Python performs:
  - `\s` is the ASCII whitespace set of a byte string;
  - `^` without MULTILINE matches only at the start of the text;
  - `$` without MULTILINE also matches before a final "\n";
  - the MULTILINE gutter pattern decides where a line starts from the text it
    was given, and its `\s*` runs across line ends.

  Next to it are the two comment formats PHP documentation uses: the
  multi-line doc block with " * " gutters and the one-line `/** text */`. For
  each, lemmas give the description lines it yields.
- `DocWriter` (`writer.dfy`): the output buffer and its three writers
  `add_line`, `add_directive_header` and `add_comment`. The lines of
  `add_directive_header` are read back by `ParseHeader`, and those of
  `add_comment` by `TakeBlock`.
- `Autodoc` (`walk.dfy`):
  - `Walk`, a function that computes the lines `_parse` appends.
  - `ParseInto`, `VisitInto` and `AddEntry`, methods that follow the loop of
    `_parse` statement by statement, proved to append exactly `Walk`'s lines.
  - `Entries`, a reference definition by index: which entry each
    declaration gets and which comment it is paired with.
  - `Render` and its inverse `Decode`.

  Together these prove:
  - the output is exactly the rendering of the positional entries;
  - the output parses back into those entries;
  - a declaration gets a description exactly when its previous sibling is a
    comment;
  - a class's members follow its entry at once;
  - the number of directive lines is the number of declarations.

Two behaviours of the code are worth knowing.

- A multi-line doc block `"/**\n * text\n */"` gives the description lines
  `["", "text"]`. Step 2 (`^/\*\s*`) removes only "/" and the first star,
  because a second star follows. The gutter step then leaves the opener's
  line empty, so the first description line written is "   ", three blanks.
  `DocComment.DocBlockDescription` states this for every doc block of the
  common shape:
  - a margin of blanks and tabs;
  - a " * " gutter on every line;
  - body lines that do not start with a blank;
  - a last line that is not empty and does not end in whitespace.

  reST ignores the whitespace-only line.
- Blank lines inside a comment can be lost. The `\s*` of the MULTILINE gutter
  pattern (`src/sphinxcontrib_phpautodoc.py:48`) runs across line ends. So an
  empty line just before a gutter line is removed along with that line's
  margin and gutter; `DocComment.BlankLineSwallowed` states this. Steps 2 and
  3 (`:45-46`) likewise remove blank lines just after `/*` and just before
  `*/`. `splitlines` (`:51`) opens no line after a final line end.

## What this revision of the code does not do

- Any comment node before a declaration becomes its description. The code
  does not check for the `/**` opener (`src/sphinxcontrib_phpautodoc.py:76`,
  `:82`, `:90`).
- There is no `@access private` handling: no tag hides an entry or a class
  body.
- Comments are cleaned by four regular-expression substitutions over the
  whole text and then cut into lines (`:42-52`). No line-by-line border
  pattern is matched.
- A function or method entry names the node alone (`:73-74`, `:87-88`). No
  signature is formatted, and there are no `attr` entries for class
  variables.
- Class members are written at the same indentation as the class. No depth
  is tracked, and `add_line` always uses the empty indent (`:21`, `:35`).
- A failure while reading, parsing or walking is swallowed by a bare
  `except: pass` (`:60-66`).
- There is no parse cache.

## Model

| member | source | states |
|---|---|---|
| PhpAst.KindOf | src/sphinxcontrib_phpautodoc.py:73-91 | the directive name is "function", "class" or "method" exactly for a function, class or method node, and these are the only names |
| Lines.SplitLines | src/sphinxcontrib_phpautodoc.py:51 | `splitlines` gives lines that hold no "\n" or "\r"; there are no more lines than characters; a non-empty text has at least one line |
| Lines.SplitLinesCons | src/sphinxcontrib_phpautodoc.py:51 | a line without separators, one separator ("\n", "\r\n", or "\r" not followed by "\n") and the rest split into that line followed by the lines of the rest; "\r\n" is one separator, not two |
| Lines.SplitLinesLast | src/sphinxcontrib_phpautodoc.py:51 | a separator at the very end opens no empty last line: the text splits into the one line before it |
| Lines.SplitLinesSingle | src/sphinxcontrib_phpautodoc.py:51 | a non-empty text without separators is a single line |
| Lines.SplitJoin | src/sphinxcontrib_phpautodoc.py:51 | cutting lines joined with "\n" gives them back, when no line holds a separator and the last line is not empty |
| Lines.JoinSplit | src/sphinxcontrib_phpautodoc.py:51 | joining a text's lines with "\n" gives the text back, when it has no "\r" and does not end in "\n" |
| DocComment.StripLineOpener | src/sphinxcontrib_phpautodoc.py:44 | a leading "//" is removed once, and only at the start; any other text is unchanged |
| DocComment.StripBlockOpener | src/sphinxcontrib_phpautodoc.py:45 | after a leading "/*", the result is a suffix of the text; everything skipped after the opener is whitespace; the result does not start with whitespace; without the opener the text is unchanged |
| DocComment.StripBlockCloser | src/sphinxcontrib_phpautodoc.py:46 | a closing "*/" at the end, or just before a final "\n", goes together with the whitespace run before it; a final "\n" stays, and what comes before it does not end in whitespace (without a final "\n", the result itself does not); any other text is unchanged |
| DocComment.GutterLength | src/sphinxcontrib_phpautodoc.py:48 | the gutter pattern matches at a position exactly when the first non-whitespace character there is a star; a match never ends with "\n" |
| DocComment.GutterExtent | src/sphinxcontrib_phpautodoc.py:48 | a gutter match reaches past the whitespace and the star over exactly the longest run of blanks that follows, and no further |
| DocComment.StripGutterAfterSpaces | src/sphinxcontrib_phpautodoc.py:48-49 | at a line start, any whitespace (line ends included), a star and one blank before a body line are removed together, and the rest of the line is kept |
| DocComment.BlankLineSwallowed | src/sphinxcontrib_phpautodoc.py:48-49 | after a line end, an empty line followed by a gutter line leaves only one line end: the empty line is lost |
| DocComment.StripGutters | src/sphinxcontrib_phpautodoc.py:48-49 | the MULTILINE substitution never lengthens the text |
| DocComment.StripGuttersStarFree | src/sphinxcontrib_phpautodoc.py:48-49 | the MULTILINE substitution leaves a text without stars unchanged, whether or not it starts at a line start |
| DocComment.Normalize | src/sphinxcontrib_phpautodoc.py:43-49 | the four substitutions never lengthen the comment |
| DocComment.NormalizeStarFree | src/sphinxcontrib_phpautodoc.py:43-49 | a comment with no star that does not start with "//" passes through the four substitutions unchanged |
| DocComment.StarFreeDelimiters | src/sphinxcontrib_phpautodoc.py:44-46 | without a star and without a leading "//", the first three substitutions find nothing to remove |
| DocComment.StarFreeCloser | src/sphinxcontrib_phpautodoc.py:46 | a text without a star has no closer for step 3 to remove |
| DocComment.DescriptionLines | src/sphinxcontrib_phpautodoc.py:43-51 | every description line `add_comment` writes is free of line separators |
| DocComment.DocBlockDescription | src/sphinxcontrib_phpautodoc.py:43-51 | a multi-line doc block with a margin of blanks and tabs, " * " gutters, body lines that do not start with a blank and a last line that is not empty and does not end in whitespace yields an empty line and then exactly its lines |
| DocComment.OneLineDocBlockDescription | src/sphinxcontrib_phpautodoc.py:43-51 | a one-line doc block "/** text */" yields exactly one line, its text |
| DocComment.LineCommentDescription | src/sphinxcontrib_phpautodoc.py:43-51 | a non-empty one-line "//" comment without stars or line ends yields exactly its text after the slashes, leading blanks kept |
| DocComment.LineCommentEndedDescription | src/sphinxcontrib_phpautodoc.py:43-51 | a one-line "//" comment without stars that ends with its line end ("\n", "\r" or "\r\n") yields exactly its text after the slashes, without the line end; an empty one yields one empty line |
| DocWriter.AddLine | src/sphinxcontrib_phpautodoc.py:21-35 | `add_line` appends the line unchanged, since the indent is empty |
| DocWriter.DirectiveHeader | src/sphinxcontrib_phpautodoc.py:37-40 | the header is two lines, the directive line in the php domain naming the kind and the name, then a blank line |
| DocWriter.ParseHeader | src/sphinxcontrib_phpautodoc.py:37-40 | a line read as a directive line has one of the three kinds and is exactly the directive line for that kind and name |
| DocWriter.ParseHeaderLine | src/sphinxcontrib_phpautodoc.py:37-40 | a directive line reads back as its kind and name |
| DocWriter.AddDirectiveHeader | src/sphinxcontrib_phpautodoc.py:37-40 | the buffer grows by two lines and keeps its earlier lines; the first new line is the directive line, and for a known kind it reads back as the kind and name; the second is blank |
| DocWriter.CommentBlock | src/sphinxcontrib_phpautodoc.py:51-54 | one line per description line, that line behind three blanks, and a closing blank line |
| DocWriter.TakeCommentBlock | src/sphinxcontrib_phpautodoc.py:51-54 | a description block followed by any lines reads back as its description lines and those following lines |
| DocWriter.AddBlock | src/sphinxcontrib_phpautodoc.py:51-54 | the loop appends the indented lines in order and then a blank line |
| DocWriter.AddComment | src/sphinxcontrib_phpautodoc.py:42-54 | `add_comment` appends the description block of the comment's normalised, split text |
| Autodoc.Walk | src/sphinxcontrib_phpautodoc.py:68-93 | every line the walk writes is blank, a directive line or a description line |
| Autodoc.VisitInto | src/sphinxcontrib_phpautodoc.py:72-93 | one loop iteration appends what its node writes: its header, the previous sibling's comment if there is one, and for a class its body |
| Autodoc.AddEntry | src/sphinxcontrib_phpautodoc.py:74-77 | one branch appends the header and then the description exactly when the previous sibling is a comment |
| Autodoc.ParseInto | src/sphinxcontrib_phpautodoc.py:68-93 | the loop with `last_node` and the recursion into class bodies append exactly the walk's lines |
| Autodoc.ParseTree | src/sphinxcontrib_phpautodoc.py:21-22 | on a fresh buffer, the output reads back as exactly the positional entries of the tree and holds one directive line per declaration |
| Autodoc.Decode | src/sphinxcontrib_phpautodoc.py:37-54 | whatever is read back renders to exactly the lines read, with known kinds |
| Autodoc.DecodeRender | src/sphinxcontrib_phpautodoc.py:37-54 | rendered entries with known kinds read back as themselves |
| Autodoc.WalkFromIndex | src/sphinxcontrib_phpautodoc.py:71-93 | the walk from any sibling index, given that index's previous sibling, writes the rendering of the entries from that index on |
| Autodoc.DocumentRendersEntries | src/sphinxcontrib_phpautodoc.py:68-93 | the walk of a tree is the rendering of its positional entries |
| Autodoc.DecodeDocument | src/sphinxcontrib_phpautodoc.py:68-93 | the output of a tree reads back as exactly its positional entries |
| Autodoc.EntriesCount | src/sphinxcontrib_phpautodoc.py:72-93 | there is one entry per declaration, top-level or inside a class body |
| Autodoc.DescriptionIffPrecedingComment | src/sphinxcontrib_phpautodoc.py:71-93 | the declaration at top-level index i owns the entry after those of the earlier siblings; the entry has its kind and name; it has a description exactly when the sibling at i - 1 is a comment, and the description is that comment's lines |
| Autodoc.ClassMembersFollowClass | src/sphinxcontrib_phpautodoc.py:79-85 | a class's entry is followed at once by the entries of its members, taken as a tree of their own; a first member is never paired with a comment outside the class |
| Autodoc.ClassFirstMember | src/sphinxcontrib_phpautodoc.py:71-85 | the entry just after a class's own belongs to its first member when that member is a declaration, and it has no description, since `last_node` starts empty in the recursive call |
| Autodoc.HeaderCount | src/sphinxcontrib_phpautodoc.py:72-93 | the output holds exactly one directive line per declaration |

## Left out

- `run` (lines 20-32) is left out: it builds the file name and hands the buffer to docutils' nested parse. The model starts from the empty buffer `run` creates, and keeps the indent it sets.
- `parse` (lines 56-66) is left out. It covers file I/O and the phply lexer and parser, so the model takes the syntax tree as input. The bare `except: pass` is not modelled either: when a failure is swallowed, the lines already appended stay in the output.
- `setup` (lines 96-97) is left out: it only registers the directive.
- The `'<phpautodoc>'` source label and the line numbers `add_line` passes along with each line (line 35) are left out. They only tell docutils where to report errors, and the model's output is the line text alone.
- The `getattr(self, 'domain', 'php')` hook at line 38 is fixed to "php", since nothing in the repository sets `domain`.
- Non-ASCII bytes in a comment are not modelled. In Python 2, `u'   ' + line` decodes the byte string as ASCII, so such a byte raises an error, which `parse` swallows. The model treats text as plain characters.
- Other syntax-tree node kinds (statements, class variables, constants) are one `Other` constructor. The walk never looks inside them; it only remembers them as the previous sibling.
- Autodoc.Walk: its own contract states only the shape of every output line. What it writes is stated by `DocumentRendersEntries` and `DecodeDocument`.
- DocComment.StripGutters: its own contract states only that the text does not grow. The star-free case is `StripGuttersStarFree`; what it does to doc blocks is stated through `DocBlockDescription` and `OneLineDocBlockDescription`.
- DocComment.Normalize: its own contract states only that the text does not grow. The star-free case is `NormalizeStarFree`; other comment shapes are covered by the three description lemmas.
- Lines.JoinSplit: does not cover texts with "\r" or a trailing separator, where `splitlines` loses information.
