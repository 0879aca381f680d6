# static_site Markdown-to-HTML core in Dafny

This project models the Markdown-to-HTML pipeline of `static_site`, together with the HTML node tree that the pipeline builds and renders. The pipeline works in four stages:

- The document is cut into blocks at empty lines (`markdown_to_blocks`).
- Each block is classified (`block_to_block_type`): heading, code, quote, unordered list, ordered list or paragraph.
- Each block is built into an HTML node by the builder for its kind. Inline text goes through the tokenizer (`text_to_textnodes`), which runs three delimiter passes (`**`, `*`, `` ` ``) and then the image and link passes. The tokenizer's spans become leaves (`text_node_to_html_node`).
- The nodes are wrapped in a root `div` (`markdown_to_html_node`).

`extract_title` finds the page title. The node tree is the base `HTMLNode` with its `LeafNode` and `ParentNode` subclasses: `props_to_html`, `to_html` and `__eq__`.

Modules:

| file | module | what it holds |
|---|---|---|
| `wrappers.dfy` | `Wrappers` | `Option`, `Result` |
| `errors.dfy` | `Errors` | the exceptions the pipeline raises, as one `Error` value type with the source's messages |
| `strings.dfy` | `Strings` | the Python string operations used: `split`, `join`, `replace`, `strip`/`lstrip`/`rstrip`, `split(sep, 1)` via `IndexOf`, slicing, `str(int)` |
| `htmlnode.dfy` | `HtmlNode` | `Node = Html \| Leaf \| Parent`, `props_to_html`, `to_html`, `__eq__` |
| `textnode.dfy` | `TextNodes` | `TextNode` and `TextType` |
| `scanner.dfy` | `Scanner` | the image and link regular expressions, as leftmost lazy scanners |
| `inline.dfy` | `Inline` | `split_nodes_delimiter`, `split_nodes_image`, `split_nodes_link`, `text_node_to_html_node`, `text_to_textnodes` |
| `blocks.dfy` | `Blocks` | `markdown_to_blocks`, `block_to_block_type` |
| `builders.dfy` | `Builders` | the six block builders, `markdown_to_html_node`, `extract_title` |

The parts of the source that change state step by step are methods with loops. Each method is proved equal to a specification function, and the properties are proved about that function. These methods are:

- `PropsToHtml`, the `props_to_html` accumulator;
- `ToHtml`, the `ParentNode.to_html` loop;
- `SplitNodesDelimiter`;
- `SplitNodesImage` and `SplitNodesLink`, whose inner loop (`SplitAtMarkers`) rebinds `node`;
- `IsOrderedList`, the flag loop of `block_to_block_type`;
- `ListToHtmlNode`, the list builders' `append` loop;
- `ExtractTitle`.

Everything else is pure functions.

Exceptions are values. Every operation that can raise returns a `Result`, and the model follows the error paths the code takes:

- `MarkdownFormattingError` for an unclosed delimiter or a missing title;
- `ValueError` from `to_html`;
- `NotImplementedError` from the base `to_html`;
- `IndexError` from `x[0]` on an empty line, and from `[1]` of a `split(markup, 1)` that found nothing;
- `AttributeError` from reading `.text` of an `HTMLNode`.

The model keeps these quirks of the code:

- `markdown_to_blocks` keeps empty blocks; its `if text is not None` filter never drops anything. An empty block then makes `block_to_block_type` raise `IndexError`, so the whole document fails.
- The heading test `(?<!.)(#{1,6} )` and the title test `(?<!.)(# )` match at the start of *any* line, not only at the start of the block.
- `extract_title` returns `block[2:]`, not the text after the `# `.
- The heading level is `len(block) - len(block.lstrip("# ")) - 1`. Spaces after the hashes raise it, and a heading found on a later line gets level -1.
- The heading leaf holds the raw heading text whenever the tokenizer yields one span of *any* type.
- The code test's `` ```$ `` also matches before a final newline.
- `split_nodes_delimiter` re-splits every `TextNode`, whatever its type.
- A piece's type comes from the parity of `list.index(piece)`, the first equal piece, rather than from its own position.
- `split_nodes_image` and `split_nodes_link` drop empty-text nodes only once, at the end.
- `extract_markdown_links` removes only the *first* image before it searches for links.

## Model

| member | source | states |
|---|---|---|
| `HtmlNode.NewHtmlNode` | src/htmlnode.py:7-17 | tag and value are stored as given. Missing children or props become empty containers; given ones are kept. |
| `HtmlNode.PropsText` | src/htmlnode.py:23-30 | The attribute text is empty exactly when there are no props; otherwise it starts with a space. |
| `HtmlNode.PropsToHtml` | src/htmlnode.py:23-30 | The `result +=` loop yields `PropsText`: one ` key="value"` per entry, in insertion order, unescaped. |
| `HtmlNode.PropsTextConcat` | src/htmlnode.py:28-29 | The attributes of `a + b` are those of `a` followed by those of `b`, so entries keep insertion order. |
| `HtmlNode.PropsTextOne` | src/htmlnode.py:29 | A one-entry dictionary renders as ` key="value"`. |
| `HtmlNode.PropsTextPairs` | src/htmlnode.py:28-29 | A two-entry dictionary renders both entries in insertion order. |
| `HtmlNode.RenderLeaf` | src/leafnode.py:14-20 | The leaf fails ("Leaf node has no value") exactly when the value is empty and the tag is not `img`. An untagged leaf with a value renders the value verbatim. A tagged leaf renders `<tag` + props + `>` + value + `</tag>`. |
| `HtmlNode.ToHtml` | src/parentnode.py:16-25 | `to_html` of any node, with the parent's `output +=` loop recursing into each child, equals the recursive `Render` definition. |
| `HtmlNode.RenderAllPrefixErr` | src/parentnode.py:22-23 | Once a prefix of the children fails, rendering all of them fails with that error. |
| `HtmlNode.RenderAllFirstError` | src/parentnode.py:22-23 | If children before `k` render and child `k` fails, the children fail with child `k`'s error. |
| `HtmlNode.RenderAllConcat` | src/parentnode.py:22-23 | Children that render to `outs` render together to the concatenation of `outs`, in order. |
| `HtmlNode.ParentRendersChildrenInOrder` | src/parentnode.py:21-25 | A parent with a tag and children renders its opening tag with props, the children's HTML in order with no separator, then its closing tag. |
| `HtmlNode.ParentPropagatesChildError` | src/parentnode.py:22-23 | A parent fails with the error of its first failing child. |
| `HtmlNode.RenderFailures` | src/htmlnode.py:19-21 | The base `HTMLNode` never renders. A parent without a tag fails with "ParentNode has no tag"; one with a tag but no children fails with "ParentNode has no children". |
| `HtmlNode.EqualReflexive` | src/htmlnode.py:38-46 | Every node equals itself under `__eq__`. |
| `HtmlNode.EqualIgnoresProps` | src/htmlnode.py:38-46 | Replacing either side's props never changes `__eq__`, because the props test compares `self.props` with itself. |
| `HtmlNode.EqualUpToProps` | src/htmlnode.py:38-46 | Two nodes that differ only in props are equal. |
| `HtmlNode.EqualAcrossClasses` | src/htmlnode.py:38-46 | `__eq__` ignores the class: a leaf equals a bare node with the same tag and value and no children. |
| `TextNodes.TextNodeEquality` | src/test_textnode.py:9-37 | Two text nodes are equal exactly when text, type and url all agree. |
| `Strings.Split` | src/markdown_operations.py:51 | `str.split(sep)` gives one more piece than there are occurrences, and joining the pieces with `sep` gives the text back. Joining them with nothing gives the text with every occurrence deleted. |
| `Strings.SplitFromAvoids` | src/markdown_operations.py:51 | No piece of a split contains the separator. |
| `Strings.SplitAround` | src/markdown_operations.py:51 | Splitting `x + sep + y`, where `x` cannot start an occurrence, cuts right after `x`. |
| `Strings.SplitJoinChar` | src/markdown_operations.py:65 | Splitting lines joined by a character none of them holds gives the lines back. |
| `Strings.CountWithout` | src/markdown_operations.py:202 | Text without the separator's first character holds no occurrence. |
| `Strings.SplitWithout` | src/markdown_operations.py:202-205 | Text with no occurrence splits into itself alone. |
| `Strings.ReplaceRemovesChar` | src/markdown_operations.py:122 | `replace(c, r)` leaves no `c` unless `r` brings one. |
| `Strings.IndexOf` | src/markdown_operations.py:242 | A found position leaves room for the separator inside the text. |
| `Strings.IndexOfOccurs` | src/markdown_operations.py:242 | The separator occurs at the position found. |
| `Strings.IndexOfSplits` | src/markdown_operations.py:242-250 | The text is the part before the position found, the separator, and the part after it; these are `split(markup, 1)`'s two parts. |
| `Strings.IndexOfAbsent` | src/markdown_operations.py:242 | A separator that occurs nowhere is not found. |
| `Strings.IndexOfLeftmost` | src/markdown_operations.py:242 | No occurrence starts before the position found, so `split(markup, 1)` cuts at the leftmost occurrence. |
| `Strings.IndexOfNone` | src/markdown_operations.py:242 | A separator that is not found occurs nowhere; with `IndexOfAbsent`, the search fails exactly when there is no occurrence. |
| `Strings.IndexOfAfter` | src/markdown_operations.py:273 | An occurrence right after a prefix that cannot start one is the leftmost. |
| `Strings.LStrip` | src/markdown_operations.py:102 | `lstrip(cs)` returns a suffix. Everything it removed is in `cs`, and what is left does not start with a character of `cs`. |
| `Strings.RStrip` | src/markdown_operations.py:53 | `rstrip(cs)` returns a prefix. Everything it removed is in `cs`, and what is left does not end with a character of `cs`. |
| `Strings.StripChars` | src/markdown_operations.py:114 | `strip(cs)` leaves neither end in `cs`. |
| `Strings.Strip` | src/markdown_operations.py:53 | `strip()` leaves no whitespace, in Python's `isspace` sense, at either end. |
| `Strings.LStripPrefix` | src/markdown_operations.py:102 | `lstrip` removes exactly the leading run of `cs`. |
| `Strings.RStripSuffix` | src/markdown_operations.py:53 | `rstrip` removes exactly the trailing run of `cs`. |
| `Strings.StripCharsKeeps` | src/markdown_operations.py:53 | Text whose ends are already outside `cs` is left as it is. |
| `Strings.StripAvoids` | src/markdown_operations.py:53 | Stripping cannot create an occurrence of a separator. |
| `Strings.Take` | src/markdown_operations.py:68 | `s[:n]` has length `min(n, len(s))` and is a prefix of `s`. |
| `Strings.Drop` | src/markdown_operations.py:131 | `s[n:]` has length `max(len(s) - n, 0)` and is a suffix of `s`. |
| `Strings.NatToString` | src/markdown_operations.py:72 | `str(n)` is one or more decimal digits, at least two from 10 on. |
| `Scanner.MatchUrl` | src/markdown_operations.py:23 | The lazy `(.*?)\)` captures the shortest newline-free text that a `)` follows; the capture holds no `)`. |
| `Scanner.MatchAltUrl` | src/markdown_operations.py:23 | The lazy `(.*?)\]\((.*?)\)` match is a prefix spelling `alt](url)`, with no newline in either group and no `)` in the url. |
| `Scanner.FindAllClean` | src/markdown_operations.py:22-25 | Every `findall` match lies on one line, and its url stops at the first `)`. |
| `Scanner.MatchUrlOf` | src/markdown_operations.py:23 | A url without `)` or newline, followed by `)`, is read back exactly. |
| `Scanner.MatchAltUrlOf` | src/markdown_operations.py:23 | A clean `alt](url)` is read back as exactly that alt text and url. |
| `Scanner.FindAllSkips` | src/markdown_operations.py:22-25 | Text that cannot start a marker adds no match. |
| `Scanner.FindAllMarker` | src/markdown_operations.py:22-25 | A clean marker at the front is reported with its alt and url, and the scan resumes right after it. |
| `Scanner.FindAllAtMatch` | src/markdown_operations.py:22-25 | Where the pattern matches at the front, that match comes first and the scan resumes after it. |
| `Scanner.FindAllInterleaved` | src/markdown_operations.py:22-25 | In text built from plain gaps and clean markers, `re.findall` reports exactly those markers, left to right. |
| `Scanner.ExtractImagesInterleaved` | src/markdown_operations.py:19-25 | `extract_markdown_images` of such a text returns its images in order. |
| `Scanner.RemoveFirstImageSkips` | src/markdown_operations.py:32-37 | Text without `!` in front of the first image is kept as it is. |
| `Scanner.RemoveLeadingImage` | src/markdown_operations.py:32-37 | An image at the front is what `re.search` finds, and it is cut out. |
| `Scanner.RemoveImageBetween` | src/markdown_operations.py:32-37 | The first image is cut out and nothing else changes. |
| `Scanner.ExtractLinksAfterImage` | src/markdown_operations.py:28-41 | `extract_markdown_links` never reports the first image as a link, and it still finds the links before and after it. |
| `Scanner.ExtractLinksOfImage` | src/markdown_operations.py:28-41 | A lone image yields no link. |
| `Scanner.ExtractLinksSeesSecondImage` | src/markdown_operations.py:28-41 | Only the first image is removed, so the bracketed part of a second image is reported as a link. |
| `Scanner.LinkInsideImage` | src/markdown_operations.py:38-41 | The link pattern matches the bracketed part of an image. |
| `Scanner.FindAllWithoutBracket` | src/markdown_operations.py:22-25 | Text without `[` holds no image and no link. |
| `Scanner.RemoveFirstImageWithoutBracket` | src/markdown_operations.py:32-37 | Text without `[` has no image to remove. |
| `Scanner.RemoveFirstImageWithoutBang` | src/markdown_operations.py:32-37 | Text without `!` has no image to remove. |
| `Inline.FirstIndex` | src/markdown_operations.py:213 | `list.index` returns the first position holding the value. |
| `Inline.PieceType` | src/markdown_operations.py:211-219 | A piece with no equal piece before it is plain text at an even position and the target type at an odd one. |
| `Inline.PieceNodes` | src/markdown_operations.py:211-220 | The comprehension with its filter yields nodes with non-empty text and no url, each plain or of the target type. Their texts concatenate to the pieces' concatenation. |
| `Inline.SplitDelimiterItem` | src/markdown_operations.py:198-220 | A non-text node passes unchanged, and so does a text node with no delimiter. One delimiter raises "No closing delimiter" with the node's text. Two or more give nodes with non-empty text, each plain or of the target type, spelling the text with every delimiter deleted. |
| `Inline.SplitNodesDelimiter` | src/markdown_operations.py:191-222 | The loop over the list equals `SplitDelimiter`: the elements' results in order, or the first element's error. |
| `Inline.SplitDelimiterPrefixErr` | src/markdown_operations.py:206-210 | Once an element raises, the whole call raises that error. |
| `Inline.SplitDelimiterItemCases` | src/markdown_operations.py:202-220 | Per element, the result by piece count: one piece keeps the node, two raise, three or more give the piece nodes. |
| `Inline.SplitDelimiterStep` | src/markdown_operations.py:198-220 | Each element extends the output by its own result, or ends the call with its error. |
| `Inline.SplitDelimiterConcat` | src/markdown_operations.py:198-220 | Splitting `a + b` gives the split of `a` followed by the split of `b`, so order is preserved. |
| `Inline.SplitDelimiterSnoc` | src/markdown_operations.py:198-220 | The list with one more element succeeds exactly when the list and that element do; the output is the list's output followed by the element's. |
| `Inline.SplitDelimiterWellFormed` | src/markdown_operations.py:211-220 | For a non-link, non-image target, only links and images carry a url before and after the pass. |
| `Inline.SplitDelimiterKeeps` | src/markdown_operations.py:203-205 | Text nodes without the delimiter pass through unchanged. |
| `Inline.SplitDelimiterOnePieces` | src/markdown_operations.py:211-220 | A one-element list whose text splits into three or more pieces gives exactly that text's piece nodes. |
| `Inline.ResplitsEveryType` | src/markdown_operations.py:199 | A bold node with single stars inside is re-split by the italic pass, losing its bold type. |
| `Inline.ThreePieces` | src/markdown_operations.py:211-219 | `a`, `b`, `c` joined by a delimiter split back into them, and the middle one takes the target type. |
| `Inline.RepeatedPieceTakesFirstType` | src/markdown_operations.py:213 | In ``a`a` `` the code piece `a` equals the first piece, so it comes out as plain text. |
| `Inline.RepeatedPieces` | src/markdown_operations.py:211-220 | ``a`a` `` splits into `a`, `a` and an empty piece, which give two plain `a` nodes. |
| `Inline.SplitMarkersSplits` | src/markdown_operations.py:239-250 | When every marker's markup is found, plain and marker nodes alternate, with one marker node per found marker in order. Written back as Markdown, the nodes give the text. |
| `Inline.MarkerSplitCons` | src/markdown_operations.py:242-250 | The text before a marker, the marker node and a split of the text after it make a split of the whole text. |
| `Inline.KeepText` | src/markdown_operations.py:253 | The filter keeps only nodes with non-empty text, each one from the input; `KeepTextComplete` and `KeepTextConcat` state that all of them are kept, in order. |
| `Inline.KeepTextComplete` | src/markdown_operations.py:253 | Every input node with non-empty text is kept. |
| `Inline.KeepTextConcat` | src/markdown_operations.py:253 | Filtering `a + b` gives the filtered `a` followed by the filtered `b`, so the kept nodes keep their input order. |
| `Inline.KeepTextOne` | src/markdown_operations.py:253 | A single node is kept exactly when its text is non-empty. |
| `Inline.SplitMarkedItem` | src/markdown_operations.py:230-251 | A non-text node or a text with no marker passes unchanged. Otherwise a successful split is a marker split of the text at the markers extracted from it. |
| `Inline.SplitMarked` | src/markdown_operations.py:225-253 | A successful `split_nodes_image` or `split_nodes_link` never returns a node with empty text. |
| `Inline.SplitMarkedSnoc` | src/markdown_operations.py:230-251 | One more element extends the output by its result; the first element that fails decides the error. |
| `Inline.SplitMarkedPrefixErr` | src/markdown_operations.py:230-251 | Once an element fails, the outer loop fails with that error. |
| `Inline.PrependPrepend` | src/markdown_operations.py:243-250 | Emitting `xs` and then `ys` in front of a result is emitting `xs + ys`. |
| `Inline.PrependNothing` | src/markdown_operations.py:243-250 | Emitting nothing leaves a result as it is. |
| `Inline.SplitNodesMarked` | src/markdown_operations.py:225-282 | The outer loop and the closing filter of either function equal `SplitMarked`. |
| `Inline.ScanMarkersSplits` | src/markdown_operations.py:239-250 | The source's inner loop, with `node` rebound to the text after each marker, emits what it emitted so far followed by the split of the remaining text at the remaining markers. |
| `Inline.ScanFound` | src/markdown_operations.py:242-250 | The same, at a marker whose markup is found. |
| `Inline.ScanMissing` | src/markdown_operations.py:242-243 | A markup that `split(markup, 1)` does not find makes `[1]` raise `IndexError`. |
| `Inline.ScanLast` | src/markdown_operations.py:245-248 | The last marker emits the text before it, itself, and the text after it. |
| `Inline.ScanNext` | src/markdown_operations.py:249-250 | Any other marker emits the text before it and itself, and the loop goes on over the text after it. |
| `Inline.LastMarkerRest` | src/markdown_operations.py:245-248 | Past the last marker, the rest of the text closes the list. |
| `Inline.MarkerMissing` | src/markdown_operations.py:242-243 | The split fails with `IndexError` when the markup is not found. |
| `Inline.MarkerFound` | src/markdown_operations.py:242-250 | A found markup emits the text before it and its marker node, followed by the split of the text after it. |
| `Inline.MarkerFirst` | src/markdown_operations.py:242-250 | The same, for the first marker of a list. |
| `Inline.SplitAtMarkers` | src/markdown_operations.py:239-250 | The inner loop returns exactly the split of the node's text at its markers, or `IndexError`. |
| `Inline.CutMarker` | src/markdown_operations.py:240-250 | One pass of the inner loop. It fails only where the markup is missing. The last marker closes the list; any other carries the text after it to the next pass. |
| `Inline.KeepTextNodes` | src/markdown_operations.py:253 | The closing comprehension keeps nodes with non-empty text, or raises `AttributeError` on a non-text node. |
| `Inline.SplitNodesImage` | src/markdown_operations.py:225-253 | `split_nodes_image` equals `SplitMarked` for images. |
| `Inline.SplitNodesLink` | src/markdown_operations.py:256-282 | `split_nodes_link` equals `SplitMarked` for links. |
| `Inline.SplitMarkedAllKeeps` | src/markdown_operations.py:232-238 | Elements that are not text nodes, or whose text holds no marker, pass through unchanged. |
| `Inline.SplitMarkedKeeps` | src/markdown_operations.py:236-253 | Text nodes without markers come out as they went in, less the empty ones. |
| `Inline.KeepTextAll` | src/markdown_operations.py:253 | Nodes that all have text are all kept. |
| `Inline.KeepTextEmpty` | src/markdown_operations.py:253 | Nodes that all have empty text are all dropped. |
| `Inline.KeepTextPadded` | src/markdown_operations.py:253 | A node with text between two empty plain nodes is the only one kept. |
| `Inline.SplitMarkersInterleaved` | src/markdown_operations.py:239-250 | Cutting text built from plain gaps and markers gives back alternating plain and marker nodes. |
| `Inline.SplitMarkedInterleaved` | src/markdown_operations.py:225-282 | Each clean marker becomes one image or link node with `text = alt` and `url = url`, in left-to-right order. The text around the markers becomes plain nodes, and empty nodes are dropped. For links the text holds no `!`. |
| `Inline.SplitMarkedItemInterleaved` | src/markdown_operations.py:235-251 | The element step of that property: the node becomes the alternating nodes. |
| `Inline.ExtractInterleaved` | src/markdown_operations.py:19-41 | The extractors return exactly the markers the text was built from. |
| `Inline.SplitMarkedOne` | src/markdown_operations.py:230-253 | A one-element list is split as its element is, then filtered. |
| `Inline.EmptyAltImageDropped` | src/markdown_operations.py:244-253 | An image with an empty alt text is dropped by the closing filter. |
| `Inline.LinkAroundImageFails` | src/markdown_operations.py:266-273 | For `[a![i](u)](v)` the image is removed before the link is read. The markup `[a](v)` is then not in the text, and `split_nodes_link` raises `IndexError`. |
| `Inline.ImageInsideLinkRemoved` | src/markdown_operations.py:32-37 | Removing the first image from `[a![i](u)](v)` leaves `[a](v)`. |
| `Inline.ImageInsideLinkSpelled` | src/markdown_operations.py:32-37 | `[a![i](u)](v)` is `[a`, an image, then `](v)`. |
| `Inline.ImageInsideLinkFound` | src/markdown_operations.py:28-41 | The one link extracted from `[a![i](u)](v)` is `("a", "v")`. |
| `Inline.LinkAroundImageCut` | src/markdown_operations.py:270-273 | Cutting `[a![i](u)](v)` at that link fails with `IndexError`. |
| `Inline.LinkMarkupAbsent` | src/markdown_operations.py:273 | The markup `[a](v)` does not occur in `[a![i](u)](v)`. |
| `Inline.SplitMarkedAllWellFormed` | src/markdown_operations.py:243-250 | Well-formed text nodes stay well formed through the outer loop. |
| `Inline.SplitMarkedWellFormed` | src/markdown_operations.py:225-282 | Every node the image or link pass returns is well formed: it has a url exactly when it is a link or an image. |
| `Inline.FormattedSpanRendering` | src/markdown_operations.py:289-293 | Plain, bold, italic and code spans with text render as the bare text, or inside `<b>`, `<i>` or `<code>`. |
| `Inline.LinkRendering` | src/markdown_operations.py:294-298 | A link renders as `<a>`, with an `href` attribute exactly when its url is non-empty. |
| `Inline.LinkOpenTag` | src/markdown_operations.py:294-298 | The opening tag of a link with a url. |
| `Inline.BareLinkOpenTag` | src/markdown_operations.py:294-298 | The opening tag of a link without a url. |
| `Inline.ImageRendering` | src/markdown_operations.py:299-306 | An image renders without error, even with empty alt text, as `<img src="…" alt="…"></img>`. |
| `Inline.ImageOpenTag` | src/markdown_operations.py:299-306 | The `src` attribute comes before `alt`. |
| `Inline.EmptySpanFails` | src/markdown_operations.py:289-293 | Any non-image span with empty text fails to render with "Leaf node has no value". |
| `Inline.TextToTextNodes` | src/markdown_operations.py:312-321 | A successful tokenization never yields a span with empty text. |
| `Inline.TextToTextNodesWellFormed` | src/markdown_operations.py:312-321 | Only links and images carry a url in the tokenizer's output. |
| `Inline.TokenizeSteps` | src/markdown_operations.py:315-321 | The tokenizer is its five passes in order: `**`, `*`, `` ` ``, images, links. |
| `Inline.PlainSpansPass` | src/markdown_operations.py:316-321 | Spans without `*`, a backtick or `[` pass every later pass unchanged, less the empty ones. |
| `Inline.PlainTextIsOneNode` | src/markdown_operations.py:312-321 | Text without Markdown syntax becomes one plain text node. |
| `Inline.UnmarkedPassesKeep` | src/markdown_operations.py:316-319 | Text without `*`, a backtick or `!` passes the delimiter and image passes unchanged. |
| `Inline.LoneLinkSplit` | src/markdown_operations.py:256-282 | The text of one link becomes that link node. |
| `Inline.LoneLinkIsOneNode` | src/markdown_operations.py:312-321 | Text that is one link becomes one link node. |
| `Inline.EmptyTextHasNoNodes` | src/markdown_operations.py:312-321 | Empty text gives no node at all. |
| `Inline.EmptySpanKept` | src/markdown_operations.py:203-205 | An empty span passes a delimiter pass unchanged. |
| `Inline.EmptySpanDropped` | src/markdown_operations.py:253 | The image pass drops an empty span. |
| `Inline.NoSpansSplitToNothing` | src/markdown_operations.py:256-282 | The link pass over no spans gives nothing. |
| `Inline.BoldBetweenText` | src/markdown_operations.py:312-321 | `a**b**c` becomes plain `a`, bold `b` and plain `c`, when `b` differs from its neighbours. |
| `Inline.BoldPass` | src/markdown_operations.py:316 | The bold pass cuts `a**b**c` into three spans, with the middle one bold. |
| `Inline.UnclosedBoldFails` | src/markdown_operations.py:206-210 | An opened but unclosed `**` raises "No closing delimiter" with the text. |
| `Blocks.MarkdownToBlocks` | src/markdown_operations.py:44-55 | There is one block per occurrence of `\n\n` plus one, with empty blocks kept. Each block has no surrounding whitespace and no empty line inside. |
| `Blocks.Sanitize` | src/markdown_operations.py:53 | `strip().lstrip("\n")` equals `strip()`, whose result is stripped. |
| `Blocks.PiecesAvoidBlankLine` | src/markdown_operations.py:51-53 | No stripped piece holds an empty line. |
| `Blocks.SplitAtBlankLine` | src/markdown_operations.py:51 | The split cuts right after a separable block. |
| `Blocks.SplitAlone` | src/markdown_operations.py:51 | A separable block on its own is one piece. |
| `Blocks.SplitJoinBlocks` | src/markdown_operations.py:51 | Splitting separable blocks joined by empty lines gives them back. |
| `Blocks.BlocksRoundTrip` | src/markdown_operations.py:44-55 | `markdown_to_blocks` undoes joining blocks with empty lines, for any blocks it can produce, in order. |
| `Blocks.BlankRunGivesEmptyBlock` | src/markdown_operations.py:52-54 | Four newlines in a row leave an empty block between the two texts. |
| `Blocks.AllQuoted` | src/markdown_operations.py:66 | `all(">" == x[0] …)` is true exactly when every line starts with `>`. It raises `IndexError` exactly when an empty line comes before any line that does not start with `>`. |
| `Blocks.BlockType` | src/markdown_operations.py:58-74 | The kinds are tested in precedence order. Heading holds exactly when some line starts with one to six `#` and a space. Code holds exactly when the block is not a heading and is fenced. An error is `IndexError`, caused by an empty line. Quote, unordered and ordered lists imply their line conditions. |
| `Blocks.BlockToBlockType` | src/markdown_operations.py:58-74 | The source's sequence of tests and its flag loop equal `BlockType`. |
| `Blocks.IsOrderedList` | src/markdown_operations.py:70-74 | The flag survives the loop exactly when line `i` starts with `f"{i+1}. "` within its first three characters. |
| `Blocks.EmptyBlockFails` | src/markdown_operations.py:66 | An empty block raises `IndexError`. |
| `Blocks.SeparableBlockHasKind` | src/markdown_operations.py:58-74 | A non-empty block that `markdown_to_blocks` can produce always gets a kind. |
| `Blocks.LinesNonEmpty` | src/markdown_operations.py:65 | The lines of such a block are all non-empty. |
| `Blocks.NoBlankLineSuffix` | src/markdown_operations.py:65 | A suffix of text without an empty line has none either. |
| `Blocks.JoinFirstChar` | src/markdown_operations.py:63 | Joined lines start with the first line's first character. |
| `Blocks.PlainStartsPassEarlyTests` | src/markdown_operations.py:61-67 | Lines starting with none of `#`, a backtick or `>` pass the heading, code and quote tests. |
| `Blocks.QuoteLines` | src/markdown_operations.py:66-67 | Lines all starting with `>` make a quote. |
| `Blocks.NoHashNoHeading` | src/markdown_operations.py:61 | A block none of whose lines starts with `#` is no heading. |
| `Blocks.UnorderedLines` | src/markdown_operations.py:68-69 | Lines all starting with `* ` or `- ` make an unordered list. |
| `Blocks.NumberedLines` | src/markdown_operations.py:70-74 | Items numbered `1. ` to `9. ` in order make an ordered list. |
| `Blocks.TenLinesNeverOrdered` | src/markdown_operations.py:72 | A block of ten or more lines is never an ordered list, because `x[:3]` cannot hold `10. `. |
| `Blocks.MixedLinesAreParagraph` | src/markdown_operations.py:68-74 | Lines that pass the early tests but are neither all bullets nor all correctly numbered make a paragraph. |
| `Blocks.SkippedNumberIsParagraph` | src/markdown_operations.py:70-74 | `1. a` followed by `3. b` is a paragraph. |
| `Blocks.SevenHashesIsParagraph` | src/markdown_operations.py:61 | Seven `#` make a paragraph. |
| `Blocks.HeadingOnLaterLine` | src/markdown_operations.py:61 | A `# ` line after a first line makes the block a heading. |
| `Blocks.PlainLineIsParagraph` | src/markdown_operations.py:58-74 | A plain line that starts no other kind is a paragraph. |
| `Builders.HtmlNodes` | src/markdown_operations.py:107 | `map(text_node_to_html_node, …)` converts each node in order. |
| `Builders.HeadingToHtml` | src/markdown_operations.py:99-108 | The heading fails exactly when its text fails to tokenize. Otherwise the node is tagged `h` followed by the level, with no props. |
| `Builders.Hashes` | src/markdown_operations.py:102 | `k` hash characters. |
| `Builders.HeadingLevelOfHashes` | src/markdown_operations.py:102-103 | `k` hashes and a space before the text strip to the text and give level `k`. |
| `Builders.PlainHeading` | src/markdown_operations.py:99-106 | A heading of plain text is an `h1` to `h6` leaf holding the text. |
| `Builders.TaggedLeaf` | src/leafnode.py:20 | A tagged leaf without props renders as the value between its tags. |
| `Builders.WrappedChild` | src/parentnode.py:21-25 | A parent with one child wraps the child's HTML in its tag. |
| `Builders.BareOpenTag` | src/parentnode.py:21 | The opening tag without props is `<tag>`. |
| `Builders.ExtraSpaceRaisesLevel` | src/markdown_operations.py:102-103 | `#  x` is level 2, because `lstrip("# ")` eats the extra space. |
| `Builders.HeadingAfterTextHasLevelMinusOne` | src/markdown_operations.py:102-106 | A block that is a heading because of a later `# ` line gets the tag `h-1`. |
| `Builders.UnstrippedLevel` | src/markdown_operations.py:103 | A block starting with neither `#` nor a space has level -1. |
| `Builders.MinusOne` | src/markdown_operations.py:106 | `str(-1)` is `-1`. |
| `Builders.LoneLinkHeadingKeepsMarkup` | src/markdown_operations.py:104-106 | A heading that is one link is a leaf holding the raw `[alt](url)` text. |
| `Builders.CodeText` | src/markdown_operations.py:114 | The code text has no whitespace at either end. |
| `Builders.CodeToHtml` | src/markdown_operations.py:111-116 | The node is a `pre` parent of exactly one `code` leaf holding the code text. |
| `Builders.FencedCode` | src/markdown_operations.py:111-116 | A fenced block renders as its body inside `<pre><code>`. |
| `Builders.CodeRendered` | src/markdown_operations.py:115-116 | A `pre` around a `code` leaf renders both tags around the code. |
| `Builders.FencesStripped` | src/markdown_operations.py:114 | Stripping the backticks leaves the newlines inside the fences. |
| `Builders.NewlinesStripped` | src/markdown_operations.py:114 | `strip()` removes those newlines. |
| `Builders.QuoteText` | src/markdown_operations.py:122 | The quote text holds no `>`. |
| `Builders.QuoteToHtml` | src/markdown_operations.py:119-123 | The node is one `blockquote` leaf whose text holds no `>`. |
| `Builders.ReplaceKeepsOut` | src/markdown_operations.py:122 | Replacing cannot bring in a character that neither the text nor the replacement has. |
| `Builders.SplitFromKeepsOut` | src/markdown_operations.py:122 | No split piece holds a character the text does not have. |
| `Builders.StripKeepsOut` | src/markdown_operations.py:122 | Stripping cannot bring in a character. |
| `Builders.QuoteLine` | src/markdown_operations.py:119-123 | `> text` becomes a blockquote of `text`. |
| `Builders.QuoteTwoLines` | src/markdown_operations.py:119-123 | Two quoted lines become one blockquote whose lines are joined by a space. |
| `Builders.ReplaceAbsent` | src/markdown_operations.py:122 | Replacing a target that cannot start anywhere changes nothing. |
| `Builders.StripLeadingSpace` | src/markdown_operations.py:122 | `strip()` removes a leading space. |
| `Builders.UnmarkLine` | src/markdown_operations.py:122 | Removing `>` from `> text` leaves ` text`. |
| `Builders.UnmarkTwoLines` | src/markdown_operations.py:122 | Removing `>` from two quoted lines leaves both texts, each behind a space. |
| `Builders.JoinQuotedLines` | src/markdown_operations.py:122 | Replacing `\n ` with a space joins the two lines. |
| `Builders.MapAllCons` | src/markdown_operations.py:132 | For `list(map(f, xs))`, the first result goes in front of the rest's, and the whole fails exactly when some element fails. |
| `Builders.TokenizeAll` | src/markdown_operations.py:132 | Every item text is tokenized in order, and the whole fails exactly when some text fails. |
| `Builders.ItemTexts` | src/markdown_operations.py:130-131 | There is one item per line, and each item is the line past its marker. |
| `Builders.ListToHtml` | src/markdown_operations.py:126-157 | The list fails exactly when some item fails to tokenize. Otherwise it is a `ul`/`ol` parent with one `li` per line, in order: a leaf of the single span's text, or a parent of the spans' HTML. |
| `Builders.ListItems` | src/markdown_operations.py:133-139 | There is one `li` per entry, in order. |
| `Builders.ListToHtmlNode` | src/markdown_operations.py:126-140 | The builders' append loop equals `ListToHtml`. |
| `Builders.BuildListItems` | src/markdown_operations.py:133-139 | The loop appends exactly one `li` per entry. |
| `Builders.UnorderedListToHtml` | src/markdown_operations.py:126-140 | The items follow a two-character marker, under `ul`. |
| `Builders.OrderedListToHtml` | src/markdown_operations.py:143-157 | The items follow a three-character number, under `ol`. |
| `Builders.PlainUnorderedList` | src/markdown_operations.py:126-140 | A list of plain items is a `ul` with one `li` leaf per item, in order. |
| `Builders.PlainOrderedList` | src/markdown_operations.py:143-157 | Items numbered `1. ` to `9. ` make an `ol` with one `li` leaf per item, in order. |
| `Builders.PlainItems` | src/markdown_operations.py:129-140 | Lines whose items are plain give one `li` leaf each. |
| `Builders.PlainTokenized` | src/markdown_operations.py:132 | Plain items tokenize to one text node each. |
| `Builders.PlainListItems` | src/markdown_operations.py:137-138 | One text node per entry gives one `li` leaf per entry. |
| `Builders.EmptyItemCannotRender` | src/markdown_operations.py:134-136 | An empty item gets no span and becomes an `li` parent without children, which cannot render. |
| `Builders.ParagraphText` | src/markdown_operations.py:163 | The paragraph text has no line break. |
| `Builders.ParagraphToHtml` | src/markdown_operations.py:160-176 | The paragraph fails exactly when its text fails to tokenize. |
| `Builders.UnwrappedParagraph` | src/markdown_operations.py:165-174 | Only a paragraph that is one link or one image with a url comes out without `p`, and it is then a leaf. |
| `Builders.UnwrappedNodes` | src/markdown_operations.py:165-174 | The same, for the tokenizer's named result. |
| `Builders.PlainParagraph` | src/markdown_operations.py:160-174 | A plain one-line paragraph is a `p` leaf of its text. |
| `Builders.OneLineParagraphText` | src/markdown_operations.py:163 | A stripped line is its own paragraph text. |
| `Builders.TwoLineParagraph` | src/markdown_operations.py:160-174 | The lines of a paragraph are joined by a space. |
| `Builders.TwoLineParagraphText` | src/markdown_operations.py:163 | The paragraph text of two lines is the lines joined by a space. |
| `Builders.OneTextNodeParagraph` | src/markdown_operations.py:165-174 | A paragraph whose text is one plain node is a `p` leaf. |
| `Builders.OneLinkParagraph` | src/markdown_operations.py:166-169 | A paragraph that is one link with a url is an `a` leaf with `href`. |
| `Builders.LoneLinkParagraph` | src/markdown_operations.py:160-169 | A paragraph that is one link is that link, with no `p` around it. |
| `Builders.KindsOf` | src/markdown_operations.py:81-83 | There is one kind per block, in order. The whole fails with `IndexError` exactly when some block fails to classify. |
| `Builders.BuildAllSpec` | src/markdown_operations.py:84-95 | The nodes are the chosen builders' results block by block, and the whole fails exactly when some builder fails. |
| `Builders.BuildAllCons` | src/markdown_operations.py:92-95 | The first block's node goes in front of the rest's nodes. |
| `Builders.MarkdownToHtml` | src/markdown_operations.py:77-96 | The result is a `div` with one child per block, each the builder result for the block's kind. It succeeds exactly when every block is classified and its builder succeeds. A document with an empty block fails with `IndexError`. |
| `Builders.BuildsAll` | src/markdown_operations.py:92-95 | Once every block has its kind, building them all succeeds exactly when each block builds. |
| `Builders.EmptyBlocksFail` | src/markdown_operations.py:81-83 | Any empty block makes classification fail. |
| `Builders.EmptyDocumentFails` | src/markdown_operations.py:77-96 | The empty document fails. |
| `Builders.NonEmptyBlocksClassify` | src/markdown_operations.py:80-83 | A document whose blocks are all non-empty gets a kind for every block. |
| `Builders.PlainLineDocument` | src/markdown_operations.py:77-96 | A document of one plain line is a `div` holding one `p` leaf. |
| `Builders.ParagraphDispatch` | src/markdown_operations.py:90-93 | The paragraph kind dispatches to the paragraph builder. |
| `Builders.LineIsOneBlock` | src/markdown_operations.py:44-55 | A stripped line is a document of one block. |
| `Builders.LineIsSeparable` | src/markdown_operations.py:51-53 | A stripped line is a block on its own. |
| `Builders.OneBlockDocument` | src/markdown_operations.py:77-96 | A one-block document is a `div` of that block's node. |
| `Builders.KindsOfOne` | src/markdown_operations.py:81-83 | One block gives its one kind. |
| `Builders.BuildAllOne` | src/markdown_operations.py:92-95 | One block gives its one node. |
| `Builders.ParagraphRendered` | src/parentnode.py:21-25 | A `div` of one `p` leaf renders as `<div><p>…</p></div>`. |
| `Builders.FirstTitle` | src/markdown_operations.py:183-185 | The index found is a title block with no title block before it, and nothing is found exactly when no block is a title block. |
| `Builders.Title` | src/markdown_operations.py:179-188 | `extract_title` returns `block[2:]` of the first block with a `# ` line. When no block has one, it raises "Markdown document has no title" carrying the document. |
| `Builders.ExtractTitle` | src/markdown_operations.py:179-188 | The loop that returns at the first title block equals `Title`. |
| `Builders.FindTitle` | src/markdown_operations.py:183-185 | The loop finds the first title block. |
| `Builders.NoFirstTitle` | src/markdown_operations.py:186-188 | Without a title block, none is found. |
| `Builders.TitleIs` | src/markdown_operations.py:183-185 | The title comes from the first title block. |
| `Builders.NoTitleIs` | src/markdown_operations.py:186-188 | Without a title block, the error is raised. |
| `Builders.FirstTitleIs` | src/markdown_operations.py:183-185 | A title block with none before it is the one found. |
| `Builders.TitleOfHeadedDocument` | src/markdown_operations.py:179-185 | A document opening with `# title` has that title. |
| `Builders.TitleOnSecondLine` | src/markdown_operations.py:184-185 | A `# ` line after a first line still makes a title block. The title is then the block from its third character on, not the text after `# `. |
| `Builders.SecondLineTitleBlock` | src/markdown_operations.py:184 | `(?<!.)(# )` matches after a newline. |
| `Builders.NoHashNoTitle` | src/markdown_operations.py:179-188 | A document without `#` has no title. |
| `Builders.BlockOmitsChar` | src/markdown_operations.py:51-53 | A character the document lacks is in none of its blocks. |
| `Builders.LinesOmitChar` | src/markdown_operations.py:65 | A character a block lacks is in none of its lines. |

## Left out

- Page generation, copying static files and `main` are file-system I/O and printing. They are not part of this model: `src/page_generator.py`, `src/copy_directory_contents.py`, `src/main.py`.
- `HTMLNode.__repr__` is debugging output only.
- `textnode.py` is not part of this model. `TextNode` is a value type with the fields the pipeline uses: text, type, and an optional url that defaults to `None`. It has structural equality.
- Python's `re` engine is not modelled in general. The four patterns used are hand-written scanners that give the same matches: the image pattern, the link pattern, `(?<!.)(#{1,6} )` / `(?<!.)(# )`, and the code fences.
- `MarkdownFormattingError.markdown_text` is kept as the error's payload; the exception class hierarchy is not modelled.
- The source's dictionaries (`props`) are insertion-ordered lists of pairs. Duplicate keys, which a Python dictionary would merge, cannot arise from the builders.
- Node objects are values. The source never mutates a node after construction, so aliasing between nodes is not modelled.
- Python's `str.isspace` is taken as the fixed set of characters it accepts. Unicode normalisation and case are not involved anywhere in the pipeline.
- Blocks.BlockType: the quote, unordered and ordered results are stated one way only (the kind implies its line condition). The converse also depends on the tests before it; the lemmas `QuoteLines`, `UnorderedLines`, `NumberedLines` and `MixedLinesAreParagraph` state it for concrete shapes of lines.
- Builders.HeadingToHtml: the exact node is stated by the lemmas about concrete headings (`PlainHeading`, `LoneLinkHeadingKeepsMarkup`, `HeadingAfterTextHasLevelMinusOne`), not in general.
- Builders.ParagraphToHtml: the general contract states only the error case. The node shapes are stated by `UnwrappedParagraph` and the concrete paragraph lemmas.
