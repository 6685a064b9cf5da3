# Static site generator core, modelled in Dafny

This project models three self-contained pieces of a Markdown-to-HTML static
site generator written in Python, and proves properties of the models.

- **HTML nodes** (`html_node.dfy`, module `HtmlNode`). A `LeafNode` is an
  optional tag around a text value. A `ParentNode` is a tag around an
  ordered, non-empty list of child nodes. Both classes check their fields
  when they are constructed, and check them again when `to_html` renders
  them. A node is the datatype `Node`. Construction is `NewLeaf` and
  `NewParent`, with the exceptions as `Err` values. Rendering is the
  recursive function `ToHtml`. The rendering loop of `ParentNode.to_html`
  is the method `Render`, which is proved equal to `ToHtml`.
- **Inline delimiter splitting** (`inline.dfy`, module `Inline`).
  `split_nodes_delimiter` splits every plain-text span on a delimiter. The
  pieces become alternating plain and target-type spans. A span that
  splits into an even number of pieces raises "Invalid markdown syntax".
  Python's `str.split` with a separator is modelled as leftmost,
  non-overlapping matching (`FindFirst`, `Split`). It is characterised by
  a join round trip and a uniqueness lemma. The nested loops are the
  methods `SplitNodesDelimiter` and `AppendPieces`, proved equal to the
  function `SplitNodes`.
- **Title extraction** (`title.dfy`, module `Title`). `extract_title`
  returns the stripped text after `"# "` on the first line that starts
  with `"# "`. With no such line it raises "Title must have h1 tag".
  `str.splitlines` and `str.strip` are written out with Python's
  character sets (`SplitLines`, `Strip`). Where `SplitLines` cuts is
  characterised by `LinesOf`: the text is its lines joined by one
  terminator each, and that cutting is unique. The loop is `ExtractTitle`,
  proved equal to the function `TitleOf`.

`wrappers.dfy` holds the `Option` and `Result` datatypes. Every exception
the source raises is an `Err` value carrying an error datatype. Each error
has a `Message()` that gives the exact Python message.

Two behaviours of the code worth noting:
- `ParentNode.to_html` rejects only a `None` tag at render time
  (`src/parentnode.py:11`), not an empty one. Only construction rejects
  the empty tag (`src/parentnode.py:6`).
- `split_nodes_delimiter` keeps empty pieces at every position
  (`src/inline.py:9-11`). It never drops an empty plain piece.

## Model

| member | source | states |
|---|---|---|
| HtmlNode.NewLeaf | src/LeafNode.py:4-6 | construction fails with "add value" exactly when the value is `None`, and the empty string is accepted; a built leaf keeps its tag, value and attributes, is a `Leaf` (which has no child field) and satisfies the construction invariant |
| HtmlNode.NewParent | src/parentnode.py:5-8 | construction fails exactly when the tag is absent or empty or the children are absent or empty; the tag is checked first ("no tag received"), then the children ("parent needs at least one child"); a built parent is valid exactly when all its children are |
| HtmlNode.Valid | src/parentnode.py:6-7 | definition: the invariant construction establishes, all the way down; a leaf has a value (`src/LeafNode.py:6`), and a parent has a non-empty tag and a non-empty list of valid children; `NewLeaf`, `NewParent` and `ToHtml` state their contracts in terms of it |
| HtmlNode.PropsToHtml | src/LeafNode.py:12 | attribute serialisation, which comes from a file outside this model: the result is empty exactly when there are no attributes, and otherwise starts with a space |
| HtmlNode.PropsToHtmlSingle | src/LeafNode.py:12 | one attribute is written as a space, its name, `=` and its value in double quotes, as in `href="https://www.example.com"` |
| HtmlNode.PropsToHtmlAppend | src/LeafNode.py:12 | attributes are serialised in the given order: the output for `a + b` is the output for `a` followed by the output for `b` |
| HtmlNode.ToHtml | src/LeafNode.py:9-12 | a node that satisfies the construction invariant always renders, so the render-time re-checks never fire on validly built nodes |
| HtmlNode.ChildrenHtml | src/parentnode.py:13-15 | when every child is valid, the children's HTML renders without error |
| HtmlNode.LeafHtml | src/LeafNode.py:9-12 | a leaf fails to render exactly when it has no value; without a tag it renders its value verbatim; with a tag it renders `"<" + tag + attributes + ">" + value + "</" + tag + ">"` |
| HtmlNode.ChildrenHtmlConcat | src/parentnode.py:13-15 | when every child renders, the children's HTML is the concatenation of their HTML in list order |
| HtmlNode.ChildrenHtmlAllOk | src/parentnode.py:13-15 | the children's HTML renders exactly when every child renders |
| HtmlNode.ChildrenHtmlFirstError | src/parentnode.py:13-15 | when child `k` fails and every earlier child renders, the result is child `k`'s error |
| HtmlNode.ChildrenHtmlPrefixErr | src/parentnode.py:13-15 | once a prefix of the children fails, the whole list fails with the same error |
| HtmlNode.ParentHtml | src/parentnode.py:10-16 | a tagged parent with children renders as its opening tag with attributes, the children's HTML in order, and its closing tag |
| HtmlNode.ParentFailsOnlyThroughChildren | src/parentnode.py:10-16 | a parent with a tag and children fails to render exactly when one of its children fails |
| HtmlNode.NestedParentHtml | src/parentnode.py:14-15 | a parent nested inside a parent renders entirely between the outer opening and closing tags |
| HtmlNode.Render | src/parentnode.py:10-16 | the `to_html` methods of both classes, with the loop that accumulates `children_html`, compute exactly `ToHtml` |
| HtmlNode.RenderTimeChecks | src/parentnode.py:11-12 | rendering a parent with no tag fails with "no tag received", whatever its children; rendering a parent with any tag and no children fails with "parent node needs children"; rendering a leaf with any tag and no value fails with "add value" |
| HtmlNode.LeafTaggedExample | src/test_leafnode.py:7-10 | `LeafNode("p", "This is a paragraph.")` renders as `<p>This is a paragraph.</p>` |
| HtmlNode.LeafRawTextExample | src/test_leafnode.py:17-20 | an untagged leaf renders as its raw text |
| HtmlNode.LeafEmptyValueExample | src/test_leafnode.py:22-25 | an empty value with a `src` attribute renders as `<img src="image.png"></img>` |
| Inline.FindFirst | src/inline.py:7 | an index returned by the search is an occurrence of the delimiter |
| Inline.FindFirstLeftmost | src/inline.py:7 | the occurrence found is the leftmost one, and none is found exactly when the delimiter does not occur |
| Inline.Split | src/inline.py:7 | `s.split(d)` for a non-empty separator: there is always at least one piece; where it cuts is fixed by `SplitJoin`, `SplitPieces` and `SplitUnique` |
| Inline.SplitJoin | src/inline.py:7 | joining the pieces of `s.split(d)` with `d` gives back `s` |
| Inline.SplitPieces | src/inline.py:7 | no piece contains the delimiter, and every piece but the last ends at the leftmost remaining occurrence |
| Inline.SplitProperties | src/inline.py:7 | the join round trip and the leftmost, non-overlapping piece properties together |
| Inline.SplitUnique | src/inline.py:7 | any cutting of `s` with those properties is exactly `Split(s, d)`, so leftmost non-overlapping splitting is fully determined |
| Inline.SplitCount | src/inline.py:7 | a text with `k` non-overlapping delimiter occurrences splits into `k + 1` pieces |
| Inline.Count | src/inline.py:7 | definition: the number of leftmost, non-overlapping occurrences of the delimiter; `SplitCount` ties it to the number of pieces |
| Inline.Tagged | src/inline.py:9-11 | definition: piece `i` becomes a span of the target type when `i` is odd and a plain span when `i` is even, in piece order; `AppendPieces` is proved against it |
| Inline.Unbalanced | src/inline.py:8 | definition: a plain span whose text splits into an even number of pieces |
| Inline.SplitNode | src/inline.py:6-12 | definition: one span's contribution; a span that is not plain is itself, an unbalanced plain span is the "Invalid markdown syntax" error, and any other plain span is its tagged pieces; its properties are `SplitNodeOther` and `SplitNodeText` |
| Inline.SplitNodes | src/inline.py:3-13 | definition: the contributions of the spans in input order, or the error of the first unbalanced span; its properties are the `SplitNodes…` lemmas, and the loops are proved equal to it |
| Inline.SplitNodesDelimiter | src/inline.py:3-13 | the nested loops compute exactly `SplitNodes`: every span's contribution in input order, or the error with no partial result |
| Inline.AppendPieces | src/inline.py:9-11 | the inner loop appends the pieces in order, those at odd positions with the target type and those at even positions as plain text |
| Inline.SplitNodesStep | src/inline.py:5-12 | one more input span appends its contribution after what the spans before it produced |
| Inline.SplitNodesPrefixErr | src/inline.py:8 | once an earlier span is unbalanced, the whole call fails with that error |
| Inline.SplitNodeOther | src/inline.py:12 | a span that is not plain text is copied to the output unchanged |
| Inline.SplitNodeText | src/inline.py:7-11 | a balanced plain span with `k` delimiter occurrences yields exactly `k + 1` spans, an odd number; their texts are the split pieces with none dropped, and they join back to the original text; odd positions get the target type and even positions stay plain |
| Inline.SplitNodesAppend | src/inline.py:4-13 | output order follows input order: the output for `a + b` is the output for `a` followed by that for `b`, and the first error wins |
| Inline.SplitNodesFails | src/inline.py:8 | the call fails exactly when some plain span splits into an even number of pieces |
| Inline.SplitNodesLength | src/inline.py:4-13 | the output has at least as many spans as the input |
| Inline.SplitNodesNoText | src/inline.py:12 | with no plain span in the input, the output is the input |
| Inline.SplitNodesKeepsOthers | src/inline.py:6 | the spans of every type other than plain and the target type come out exactly as they went in, in order, so a second pass with another delimiter leaves the spans typed by a first pass alone |
| Title.LineEnd | src/main.py:7 | the first line ends before the first line-break character, or at the end of the text |
| Title.IsLineBreak | src/main.py:7 | definition: the characters `str.splitlines` ends a line at, by code point |
| Title.SplitLines | src/main.py:7 | no line contains a line break, and the empty text has no lines; where the lines are cut is fixed by `SplitLinesCuts` and `SplitLinesUnique` |
| Title.SplitLinesKeepsText | src/main.py:7 | the lines put together are the text with its line breaks removed, so splitting loses no character of a line |
| Title.LinesOf | src/main.py:7 | definition: a cutting of a text into lines, each followed by its terminator, as `splitlines` cuts; joined back they give the text, no line holds a break, every terminator is CR LF or one break character, only a non-empty last line may end at the end of the text instead, and a lone CR is never followed by an LF |
| Title.LineTerms | src/main.py:7 | definition: the terminator after each line `SplitLines` returns, empty for a last line that ends at the end of the text |
| Title.SplitLinesCuts | src/main.py:7 | `SplitLines`, with `LineTerms`, is a cutting as `LinesOf` describes: the text is its lines joined by exactly one terminator each, CR LF counting as one, with an optional final terminator |
| Title.SplitLinesUnique | src/main.py:7 | any cutting with the `LinesOf` properties is exactly `SplitLines` with `LineTerms`, so where the lines are cut is fully determined |
| Title.FirstLineOf | src/main.py:7 | a line without breaks, then a terminator that is not a lone CR before an LF, then a rest: the lines are that line followed by the lines of the rest |
| Title.CutAtLineEnd | src/main.py:7 | the first line of a text with a break ends at its first break, and the following lines are those of the text after the whole terminator |
| Title.TermAtLineEnd | src/main.py:7 | the first terminator is the break at the end of the first line, CR LF taken whole |
| Title.BreakIsTerminator | src/main.py:7 | the break taken at a line-break character is CR LF or that one character, consists of break characters only, and never leaves the LF of a CR LF pair behind |
| Title.LinesOfCons | src/main.py:7 | a line and a terminator in front of a cutting of the rest give a cutting of the whole text |
| Title.LinesOfHead | src/main.py:7 | the first line of a cutting has no break and is followed by a terminator, or is the non-empty last line at the end of the text |
| Title.LinesOfTail | src/main.py:7 | dropping the first line of a cutting leaves a cutting of the rest of the text |
| Title.LinesOfLast | src/main.py:7 | a non-empty text without breaks is one line ended by the end of the text |
| Title.Leading | src/main.py:9 | counts exactly the leading whitespace characters |
| Title.TrimEnd | src/main.py:9 | removes exactly the trailing whitespace characters |
| Title.IsSpace | src/main.py:9 | definition: the whitespace characters `str.strip()` removes, by code point |
| Title.Strip | src/main.py:9 | the stripped text is the run of the input between its leading and its trailing whitespace, and it neither starts nor ends with whitespace |
| Title.StripNoBreak | src/main.py:9 | stripping a text without line breaks yields a text without line breaks |
| Title.IsH1 | src/main.py:8 | definition: `line.startswith('# ')`, as `"# "` being a prefix of the line |
| Title.FirstH1 | src/main.py:7-8 | the index found is the first line that starts with `"# "`, and none is found exactly when no line does |
| Title.TitleOf | src/main.py:6-10 | fails with "Title must have h1 tag" exactly when no line starts with `"# "`; otherwise the title is the stripped rest of the earliest such line |
| Title.ExtractTitle | src/main.py:6-10 | the loop with its early return computes exactly `TitleOf` |
| Title.StrippedRest | src/main.py:9 | `line[2:].strip()` of a line without breaks has no whitespace at either end, no line break, and is a run of characters of that line |
| Title.TitleShape | src/main.py:7-9 | a title has no whitespace at either end, is a run of characters of one line of the document, and contains no line break |
| Title.SubheadingIsNotH1 | src/main.py:8 | a line starting with `"## "` does not qualify |
| Title.TitleOfFirstLine | src/test_main.py:7-21 | when the first line is `"# "` followed by a heading, the title is that heading stripped, whatever follows |
| Title.SubheadingFirstLine | src/test_main.py:23-28 | a first line that starts with `"## "` is passed over, and the title is that of the rest of the document |
| Title.EmptyHasNoTitle | src/test_main.py:30-35 | the empty document has no title |

## Left out

- `recursive_copy`, `generate_page`, `generate_pages_recursive` and `main()` (`src/main.py:13-105`) are left out. They are file-system I/O, `shutil` copies, printing and template substitution.
- Block parsing (`block.py`), link and image extraction, `TextNode`/`TextType` (`textnode.py`) and `HTMLNode` (`htmlnode.py`) are not part of this model. Only the minimal `TextType` and attribute serialisation that the modelled code depends on are included.
- HtmlNode.PropsToHtml: `props_to_html` lives in `htmlnode.py`, which is not part of this model. The assumed behaviour is that each attribute is written as ` name="value"` in the given order, and that no attributes give the empty string. That assumption comes from the expected renderings at `src/test_leafnode.py:14-15` and `src/test_leafnode.py:24-25`.
- Attributes are a sequence of pairs in insertion order, and `props=None` is the empty sequence. Dictionary key uniqueness is not modelled.
- At render time a parent's children are a sequence. A child list replaced by `None` after construction is not representable, but the empty list is, and it gives "parent node needs children".
- Open polymorphism over the node capability (the mock children of the parent-node tests) is replaced by the closed `Node` datatype.
- `ParentNode.__repr__` (`src/parentnode.py:18-19`) is left out. It is debug output.
- `TextType` has only the four kinds the splitter is used with: plain text, bold, italic and code.
- Inline.SplitNodesDelimiter: the delimiter must be non-empty. Python's `str.split("")` raises `ValueError`, and that error path is not modelled. The precondition also excludes calls with an empty delimiter that Python completes, because no plain span reaches `split`: with no plain span the input comes back unchanged (for example, the empty list gives the empty list), and the model does not cover those calls.
- Inline.AppendPieces: the inner `for` loop of `split_nodes_delimiter` is this separate method. It appends the same spans in the same order as the nested loop.
- Exceptions are `Err` results. The Python exception classes (`ValueError`, `Exception`) are not distinguished beyond their messages.
- Unicode handling in `str.splitlines` and `str.strip` is taken from Python's documented character sets. Character-database properties beyond the listed code points are not modelled.
- Concrete renderings of the longer unit-test strings are left out. The parent, splitter and title tests are covered by the general lemmas above (`ParentHtml`, `NestedParentHtml`, `SplitNodeText`, `SplitNodesKeepsOthers`, `TitleOfFirstLine`, `SubheadingFirstLine`) rather than by literal instances.
