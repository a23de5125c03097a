# Markdown to HTML converter, modelled in Dafny

This project models the core of a small static-site generator: the part that
turns a Markdown document into a tree of HTML nodes and renders it, plus the
helper that picks the page title. It proves properties of that model.

- `wrappers.dfy` (`Wrappers`): `Option`, `Result`, the converter's error
  conditions (one constructor per exception the code raises), and two
  list combinators that stop at the first error.
- `strings.dfy` (`Strings`): the Python `str` operations the converter uses,
  written as functions on `seq<char>`. These are `find`, `split`, `join`,
  `startswith`, `endswith`, `strip`, `lstrip` of one character, slicing from
  an index, and `str(n)`. The file also holds the lemmas about them that the
  rest of the project needs.
- `htmlnode.dfy` (`HtmlNodes`): the HTML node tree. The base node, leaf nodes
  and parent nodes are one datatype, and `to_html` is a recursive function
  that returns an error where the code raises one.
- `textnode.dfy` (`TextNodes`): typed inline text nodes and their conversion
  to HTML nodes.
- `inline_markdown.dfy` (`InlineMarkdown`): the inline tokenizer.
  - Delimiter splitting: bold `**`, italic `_`, code `` ` ``.
  - The two fixed image and link patterns, as a left-to-right scanner.
  - Splitting text nodes around images and links.
  - The `text_to_textnodes` pipeline.
- `inline_legacy.dfy` (`InlineLegacy`): the older delimiter splitter, which
  keeps empty sections, and its relation to the current one.
- `block_markdown.dfy` (`BlockMarkdown`):
  - splitting a document into blocks;
  - classifying each block (heading, code, quote, unordered list, ordered
    list, paragraph);
  - building one HTML node per block inside a `div`.
- `gencontent.dfy` (`GenContent`): `extract_title`.

Code that loops and appends in the source is modelled as a Dafny `method`
with that loop. Each method's postcondition ties its result to a
specification function, and the source's promises are lemmas about those
functions. This covers `split_nodes_delimiter`, `split_nodes_image`,
`split_nodes_link`, `text_to_textnodes`, `markdown_to_blocks`,
`text_to_children`, the per-block branches of `markdown_to_html_node` with
their heading-level, list-item and quote-line loops, and `extract_title`.
Classification, node rendering and the pattern extraction are pure functions.

Some behaviours of the code that the model keeps as written:

- **Ordered-list items.** Each item is cut with a fixed `line[3:]`, which
  always drops exactly three characters whatever the item number is, so
  items 10 to 99 keep a leading space. `BlockMarkdown.OrderedListOf` proves
  this.
- **Code blocks.** The content is `block[3:-3]` with `lstrip("\n")`, which
  drops every leading newline after the opening fence.
  `BlockMarkdown.CodeNode` states that the fence is followed by one or more
  newlines, all of which are removed.
- **Empty sections.** The current delimiter splitter drops empty sections
  (the `section == ""` skip in `src/inline_markdown.py`). Some tests of the
  current module expect them kept, which is what the older splitter in
  `src/inline.py` does. `InlineLegacy.CurrentDropsEmpty` and
  `InlineLegacy.LeadingDelimiter` make the difference exact.

The image and link nodes' HTML form comes from a module that is not part of
this model. Everywhere that conversion is needed, it is a parameter
`media: TextNode -> HtmlNode`.

## Model

The table lists the members whose contracts state something. The functions
that define the converter itself carry no contract of their own; each is
covered by the rows of the lemmas and methods about it:

- `HtmlNodes.ToHtml` (src/htmlnode.py:9-52): `HtmlNodes.LeafRender`,
  `HtmlNodes.ChildrenConcat`, `HtmlNodes.ChildrenFirstError`,
  `HtmlNodes.ParentRender`, `HtmlNodes.RenderOkIffRenderable`.
- `HtmlNodes.PropsToHtml` (src/htmlnode.py:12-18): `HtmlNodes.PropsInOrder`,
  `HtmlNodes.PropsCases`.
- `TextNodes.TextNodeToHtml`: `TextNodes.TextNodeRender`.
- `BlockMarkdown.BlockToBlockType` (src/block_markdown.py:14-37):
  `BlockMarkdown.BlockTypeIff`, `BlockMarkdown.HeadingIff`,
  `BlockMarkdown.FirstCharacter`, `BlockMarkdown.NotHeadingNorCode`.
- `InlineMarkdown.DelimiterSplit`, `InlineMarkdown.Extract`,
  `InlineMarkdown.MediaPieces`, `InlineMarkdown.MediaSplit`,
  `InlineMarkdown.TextNodesOf`, `BlockMarkdown.BlocksOf`,
  `BlockMarkdown.BlockNode`, `BlockMarkdown.DocumentOf` and
  `GenContent.TitleOf`: the method that is proved equal to each, and the
  lemmas named after them below.

| member | source | states |
|---|---|---|
| InlineMarkdown.SplitNodesDelimiter | src/inline_markdown.py:4-20 | the loop's result is `DelimiterSplit`: each node is processed in order, non-text nodes are copied and text nodes are split on the delimiter, and the first odd count stops everything with an error |
| InlineMarkdown.KeepSections | src/inline_markdown.py:13-19 | the section loop emits one node per non-empty section, plain for even indices and the target type for odd ones |
| InlineMarkdown.SplitCount | src/inline_markdown.py:10 | a split on the delimiter has exactly one more section than the delimiter has occurrences |
| InlineMarkdown.OddDelimiterIsError | src/inline_markdown.py:10-12 | a text node fails exactly when the delimiter occurs an odd number of times, and the error is the missing closing delimiter |
| InlineMarkdown.KeptIsDropEmptyTyped | src/inline_markdown.py:13-19 | the emitted nodes are the index-typed sections with the empty ones removed, and no emitted node has empty text |
| InlineMarkdown.DelimiterRemovesDelimiters | src/inline_markdown.py:10-19 | for one text node, the concatenated output texts are the input with every literal occurrence of the delimiter deleted |
| InlineMarkdown.DelimiterKeepsOthers | src/inline_markdown.py:6-8 | a list with no plain-text node comes back unchanged, in the same order |
| InlineMarkdown.DelimiterSplitAppend | src/inline_markdown.py:5-8 | the split works node by node: the output for `a + b` is the output for `a` followed by the output for `b`, and an error in `a` wins |
| InlineMarkdown.DelimiterSplitErr | src/inline_markdown.py:10-12 | with a non-empty delimiter the only possible error is the missing closing delimiter |
| InlineMarkdown.DelimiterFreeText | src/inline_markdown.py:10-19 | a text without the delimiter passes as its single plain node, or as nothing when it is empty |
| InlineMarkdown.MatchFacts | src/inline_markdown.py:22-28 | each match is its token `![alt](url)`, or `[text](url)` for links, at its start; the caption has no bracket, the url no parenthesis, and a link match never has a `!` just before its `[` |
| InlineMarkdown.ScanSound | src/inline_markdown.py:22-28 | every reported match is the pattern's match at its own start, and the matches run left to right without overlap |
| InlineMarkdown.ScanComplete | src/inline_markdown.py:22-28 | no match is missed: every index where the pattern matches lies inside a reported match |
| InlineMarkdown.FindAllComplete | src/inline_markdown.py:23 | the `findall` search resuming after each match misses no match of any matcher |
| InlineMarkdown.ExtractMarkdownImages | src/inline_markdown.py:22-24 | the (alt, url) pairs have no bracket in the alt and no parenthesis in the url |
| InlineMarkdown.ExtractMarkdownLinks | src/inline_markdown.py:26-28 | the (text, url) pairs have no bracket in the text and no parenthesis in the url |
| InlineMarkdown.TokenMatches | src/inline_markdown.py:23 | a lone `![alt](url)` or `[text](url)` is matched as a whole at its start, an empty alt or text included |
| InlineMarkdown.TokenExtracted | src/inline_markdown.py:22-28 | extraction inverts the token syntax: a text that is one token yields exactly that token's pair |
| InlineMarkdown.TokenSplit | src/inline_markdown.py:30-80 | a text node that is one image or link token becomes exactly one image or link node with that caption and url |
| InlineMarkdown.MediaPiecesCut | src/inline_markdown.py:43-49 | one turn of the match loop fails when the token does not occur; otherwise it cuts at the leftmost occurrence, with no occurrence in the text before it, emits that text when non-empty and then the image or link node, and cuts the text after the token with the remaining pairs |
| InlineMarkdown.SplitMediaText | src/inline_markdown.py:42-52 | the loop over one node's matches computes `MediaPieces`, the cut of the text at each token in turn, with the non-empty rest last |
| InlineMarkdown.SplitNodesMedia | src/inline_markdown.py:30-54 | the node loop computes `MediaSplit`: non-text nodes and text without matches are copied, and other text nodes are cut |
| InlineMarkdown.MediaSplitKeeps | src/inline_markdown.py:33-40 | a list whose nodes are all non-text, or text without a match, comes back unchanged |
| InlineMarkdown.SplitNodesImage | src/inline_markdown.py:30-54 | split_nodes_image is `MediaSplit` with the image pattern |
| InlineMarkdown.SplitNodesLink | src/inline_markdown.py:56-80 | split_nodes_link is `MediaSplit` with the link pattern |
| InlineMarkdown.PiecesSource | src/inline_markdown.py:42-52 | writing the pieces back as markdown, with each image or link as its token, gives the cut text back |
| InlineMarkdown.PiecesMedia | src/inline_markdown.py:43-49 | the cut emits exactly one image or link node per extracted pair, in the pairs' order |
| InlineMarkdown.PiecesKinds | src/inline_markdown.py:47-52 | apart from those, the cut emits only non-empty plain text nodes |
| InlineMarkdown.PiecesPlainApart | src/inline_markdown.py:43-52 | the cut never emits two plain text nodes in a row, since each text before a token is followed by that token's node |
| InlineMarkdown.SplitMediaNodeOk | src/inline_markdown.py:45 | unpacking `remaining.split(token, 1)` never fails for one node, because each extracted token is still found |
| InlineMarkdown.MediaSplitNeverFails | src/inline_markdown.py:30-80 | split_nodes_image and split_nodes_link never fail on any node list |
| InlineMarkdown.SplitMediaNodeSource | src/inline_markdown.py:32-52 | one node's output, written back as markdown, is that node's markdown |
| InlineMarkdown.MediaSplitSource | src/inline_markdown.py:30-80 | splitting out images or links preserves the markdown that the whole node list stands for |
| InlineMarkdown.MediaSolid | src/inline_markdown.py:47-52 | the image and link splits keep every plain, bold, italic and code node non-empty |
| InlineMarkdown.DelimiterSolid | src/inline_markdown.py:14-19 | the delimiter split emits only non-empty plain and emphasis nodes |
| InlineMarkdown.TextToTextNodes | src/inline_markdown.py:82-89 | the pipeline is one plain node split on `**`, `_` and a backtick, then on images, then on links |
| InlineMarkdown.TextNodesErrors | src/inline_markdown.py:82-89 | text_to_textnodes fails only with the missing closing delimiter |
| InlineMarkdown.TextNodesWithoutEmphasis | src/inline_markdown.py:82-89 | text with no emphasis delimiter always succeeds, and its nodes written back as markdown are the text |
| InlineMarkdown.TextNodesEmpty | src/inline_markdown.py:82-89 | the empty text gives the empty node list |
| InlineMarkdown.TextNodesSolid | src/inline_markdown.py:82-89 | every plain, bold, italic or code node the pipeline returns has non-empty text |
| InlineLegacy.SplitNodesDelimiter | src/inline.py:3-17 | the older loop's result is `LegacyDelimiterSplit`, which copies non-text nodes and keeps every section of text nodes |
| InlineLegacy.TypeSections | src/inline.py:12-16 | the older section loop emits one node per section, empty ones included, typed by index parity |
| InlineLegacy.LegacyRoundTrip | src/inline.py:9-16 | one node per section, an odd count of them, types alternating from plain text, and the texts joined with the delimiter give the input back |
| InlineLegacy.LegacyErrorIffOdd | src/inline.py:9-11 | the older version fails exactly on an odd delimiter count, on the same inputs as the current version, with the missing closing delimiter |
| InlineLegacy.CurrentDropsEmpty | src/inline_markdown.py:14-15 | on a text node both versions succeed together, and the current output is the older output without its empty nodes |
| InlineLegacy.LegacyKeepsOthers | src/inline.py:5-7 | non-text nodes pass through the older version unchanged and in order |
| InlineLegacy.LeadingDelimiter | src/inline.py:12-16 | a delimiter at the very start gives an empty first node in the older version, and none in the current one |
| TextNodes.TextNodeRender | src/test_block_markdown.py:143 | plain text renders verbatim, and bold, italic and code render inside `b`, `i` and `code` tags |
| HtmlNodes.PropsInOrder | src/htmlnode.py:15-18 | props_to_html is the concatenation of ` key="value"` for each entry, in insertion order |
| HtmlNodes.PropsCases | src/htmlnode.py:12-18 | no props give the empty string, and adding an entry appends exactly its ` key="value"` |
| HtmlNodes.LeafRender | src/htmlnode.py:27-34 | a leaf without a value fails with "No value"; without a tag it is the value verbatim; otherwise it is the value between the opening tag with attributes and the closing tag |
| HtmlNodes.ChildrenConcat | src/htmlnode.py:48-50 | the children render exactly when each one renders, and then as their renderings concatenated in order with no separator |
| HtmlNodes.ChildrenFirstError | src/htmlnode.py:49-50 | a failing child makes the parent fail with the error of the first failing child |
| HtmlNodes.ParentRender | src/htmlnode.py:43-52 | a parent with a tag and a child list renders as open tag, children in order, close tag; an empty list gives `<tag></tag>` |
| HtmlNodes.RenderOkIffRenderable | src/htmlnode.py:9-52 | rendering fails exactly on the base node, on a leaf without a value, on a parent without a tag or a child list, and on their ancestors |
| BlockMarkdown.HeadingIff | src/block_markdown.py:16-17 | a block is marked as a heading iff it starts with 1 to 6 `#` and then a space |
| BlockMarkdown.HeadingPrefix | src/block_markdown.py:16 | starting with `k` hashes and a space means exactly `k` leading hashes followed by a space |
| BlockMarkdown.NotHeadingNorCode | src/block_markdown.py:16-19 | a block whose first character is neither `#` nor a backtick is neither heading nor code |
| BlockMarkdown.FirstCharacter | src/block_markdown.py:20-35 | quote, unordered-list and ordered-list blocks start with `>`, `-` and `1` respectively |
| BlockMarkdown.BlockTypeIff | src/block_markdown.py:14-37 | each type holds iff its rule holds and no earlier rule does: heading, code fence, every line `>`, every line `- `, line i starting with `"{i}. "`, and paragraph otherwise |
| BlockMarkdown.LeadingHashes | src/block_markdown.py:67-72 | the level is the length of the run of `#` at the start of the block |
| BlockMarkdown.CountLevel | src/block_markdown.py:67-72 | the counting loop stops at the first non-`#` and returns `LeadingHashes` |
| BlockMarkdown.MarkdownToBlocks | src/block_markdown.py:39-46 | the loop returns the stripped non-empty pieces of the split on a blank line, in order |
| BlockMarkdown.BlocksClean | src/block_markdown.py:39-46 | every block is non-empty, equals its own strip and contains no blank line |
| BlockMarkdown.BlocksRoundTrip | src/block_markdown.py:39-46 | joining the blocks with a blank line and splitting again gives the same blocks |
| BlockMarkdown.ConvertTextNodes | src/block_markdown.py:50-53 | the conversion loop maps every text node to its HTML node, in order |
| BlockMarkdown.TextToChildren | src/block_markdown.py:48-54 | text_to_children is the tokenizer followed by the node conversion, failing when the tokenizer fails |
| BlockMarkdown.ChildrenErrors | src/block_markdown.py:48-54 | text_to_children fails only with the missing closing delimiter |
| BlockMarkdown.CleanQuoteLines | src/block_markdown.py:106-109 | each quote line loses its leading `>` characters and is then stripped, in order |
| BlockMarkdown.ListItemsOf | src/block_markdown.py:81-86 | the item loop builds one `li` per line from the line without its first `width` characters, and stops at the first failure |
| BlockMarkdown.ListItemsShape | src/block_markdown.py:83-86 | the items succeed iff every line's text does, and item i is `li` over the children of line i minus its first `width` characters |
| BlockMarkdown.ListItemsErrors | src/block_markdown.py:83-86 | list items fail only with the missing closing delimiter |
| BlockMarkdown.ParentOfText | src/block_markdown.py:63-64 | a branch that tokenizes its content wraps the children in a parent with the branch's tag |
| BlockMarkdown.ParentOfItems | src/block_markdown.py:87 | a list branch wraps its items in a `ul` or `ol` parent |
| BlockMarkdown.NodeToHtml | src/block_markdown.py:61-113 | each branch builds the node that `NodeOfType` gives for its block type |
| BlockMarkdown.BlockToHtml | src/block_markdown.py:60-113 | one block's node is the branch chosen by its classification |
| BlockMarkdown.MarkdownToHtmlNode | src/block_markdown.py:56-115 | the block loop computes `DocumentOf`: a `div` over the blocks' nodes, failing at the first failing block |
| BlockMarkdown.DocumentShape | src/block_markdown.py:56-115 | the document is a `div` with no props and exactly one child per block in block order; it succeeds iff every block does |
| BlockMarkdown.BlockErrors | src/block_markdown.py:59-113 | a block fails only with the missing closing delimiter |
| BlockMarkdown.DocumentErrors | src/block_markdown.py:56-115 | the whole conversion fails only with the missing closing delimiter |
| BlockMarkdown.ParagraphOneLine | src/block_markdown.py:62 | a paragraph's content, its lines joined with a space, has no newline |
| BlockMarkdown.QuoteOneLine | src/block_markdown.py:106-110 | a quote's content, its cleaned lines joined with a space, has no newline |
| BlockMarkdown.HeadingShape | src/block_markdown.py:66-74 | a heading block is `level` hashes, a space, and its content, with a level from 1 to 6 |
| BlockMarkdown.HeadingNode | src/block_markdown.py:66-77 | a heading becomes `h1` to `h6` after its level, over the children of `block[level+1:]` |
| BlockMarkdown.FencedLength | src/block_markdown.py:18 | a code block has at least 7 characters and is a fence, a body starting with a newline, and a fence |
| BlockMarkdown.CodeBlockNode | src/block_markdown.py:100-103 | a code block becomes `pre` over `code` over one untagged leaf holding the literal content, which is never tokenized |
| BlockMarkdown.CodeFences | src/block_markdown.py:101 | the content is the block without its fences and without all of the one or more leading newlines |
| BlockMarkdown.CodeNode | src/block_markdown.py:100-103 | a code block always converts, and renders as `<pre><code>` + content + `</code></pre>` |
| BlockMarkdown.PreCodeRender | src/block_markdown.py:103 | the `pre`/`code` nesting around a plain leaf renders as the text between the two pairs of tags |
| BlockMarkdown.UnorderedListOf | src/block_markdown.py:80-88 | lines `- item` joined by newlines classify as an unordered list, split back into those lines, and each `line[2:]` is the item |
| BlockMarkdown.OrderedListOf | src/block_markdown.py:90-98 | lines `{i}. item` classify as an ordered list and split back into those lines; `line[3:]` is the item for items 1-9 and a space plus the item for items 10-99 |
| GenContent.ExtractTitle | src/gencontent.py:5-11 | the line loop returns at the first qualifying line, and the result is `TitleOf` |
| GenContent.TitleFromOk | src/gencontent.py:7-11 | the search succeeds iff some remaining line's strip starts with `"# "`; otherwise it fails with "No header in MD." |
| GenContent.TitleAtFirst | src/gencontent.py:7-10 | when line i is the first qualifying line, its title is the result |
| GenContent.FirstHeadingWins | src/gencontent.py:5-11 | extract_title returns the title of the document's first qualifying line, and fails with "No header in MD." exactly when no line qualifies |
| GenContent.TitleOfLine | src/gencontent.py:8-10 | the title of a qualifying line is non-empty, its own strip, and a slice of that line |
| GenContent.TitleShape | src/gencontent.py:5-10 | a page title is non-empty and carries no surrounding whitespace; it is copied verbatim out of the document, so inline markup stays raw |
| GenContent.DeeperHeadingsSkipped | src/gencontent.py:9 | a line whose strip starts with `##` never gives the title |
| GenContent.OneLine | src/gencontent.py:6-11 | a single-line document has a title exactly when its line qualifies |

## Left out

- `copystatic.py`, `main.py` and `generate_page`: file-system and template I/O with no logic beyond plumbing.
- The `__repr__` methods: they depend on Python's printing of lists and dictionaries.
- `textnode.py` is not part of this model. `TextNode` and `TextType` are taken from the places that build them. `text_node_to_html_node` is fixed only for plain, bold, italic and code nodes, as the rendered test outputs show. For links and images it is the parameter `media`, so their HTML form is not modelled.
- Regular expressions: there is no regex engine, only the two fixed image and link patterns as a scanner. The negative look-behind is the check on the preceding character.
- `str.splitlines`: modelled as a split on `"\n"` that drops the empty piece after a final newline. Python's other line boundaries (`\r`, `\x0b`, `\x0c`, `\x1c`-`\x1e`, `\x85`, `\u2028`, `\u2029`) are not modelled.
- `str.strip`: strips only ASCII whitespace. Python also strips Unicode spaces such as `\xa0`.
- Attribute dictionaries are modelled as lists of pairs in insertion order, so key uniqueness is not enforced.
- Python exceptions are `Err` values with one `Error` constructor per raise site. Exception classes and messages beyond those constructors are not modelled.
- `BlockMarkdown.OrderedListOf`: states what `line[3:]` leaves only for the first 99 items. From the 100th item on the source cuts into the number itself, and the model computes that too.
