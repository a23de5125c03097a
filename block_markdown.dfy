/** The block level: cutting a document into blocks on blank lines,
    classifying each block by its leading markers, and building one HTML
    node per block under a `div`. */
module BlockMarkdown {
  import opened Wrappers
  import opened Strings
  import opened HtmlNodes
  import opened TextNodes
  import opened InlineMarkdown

  datatype BlockType = Paragraph | Heading | CodeBlock | Quote | UnorderedList | OrderedList

  // =====================================================================
  // Classification

  /** The lines of a block, `block.split("\n")`. */
  function Lines(block: string): seq<string>
  {
    Split(block, "\n")
  }

  /** One of the six heading prefixes `# ` to `###### `. */
  predicate HeadingMarked(b: string)
  {
    StartsWith(b, "# ") || StartsWith(b, "## ") || StartsWith(b, "### ") ||
    StartsWith(b, "#### ") || StartsWith(b, "##### ") || StartsWith(b, "###### ")
  }

  /** An opening fence with its newline, and a closing fence. */
  predicate Fenced(b: string)
  {
    StartsWith(b, "```\n") && EndsWith(b, "```")
  }

  predicate EveryLineStarts(lines: seq<string>, p: string)
  {
    forall i :: 0 <= i < |lines| ==> StartsWith(lines[i], p)
  }

  /** The ordered-list marker of item `n`, `f"{n}. "`. */
  function Marker(n: nat): string
  {
    NatToString(n) + ". "
  }

  /** Line `i` (counting from 1) starts with the marker of item `i`. */
  predicate Numbered(lines: seq<string>)
  {
    forall i :: 0 <= i < |lines| ==> StartsWith(lines[i], Marker(i + 1))
  }

  /** block_to_block_type: the rules tried in order, the first that holds
      decides. */
  function BlockToBlockType(block: string): BlockType
  {
    var lines := Lines(block);
    if HeadingMarked(block) then Heading
    else if Fenced(block) then CodeBlock
    else if EveryLineStarts(lines, ">") then Quote
    else if EveryLineStarts(lines, "- ") then UnorderedList
    else if Numbered(lines) then OrderedList
    else Paragraph
  }

  /** Number of `#` characters the block starts with. */
  function LeadingHashes(b: string): (n: nat)
    ensures n <= |b|
    ensures forall i :: 0 <= i < n ==> b[i] == '#'
    ensures n == |b| || b[n] != '#'
    decreases |b|
  {
    if b != [] && b[0] == '#' then 1 + LeadingHashes(b[1..]) else 0
  }

  // ---------------------------------------------------------------------
  // Properties of the classification

  /** A count with the three properties of LeadingHashes is that count. */
  lemma {:induction false} LeadingHashesUnique(b: string, n: nat)
    requires n <= |b|
    requires forall i :: 0 <= i < n ==> b[i] == '#'
    requires n == |b| || b[n] != '#'
    ensures LeadingHashes(b) == n
    decreases n
  {
    if n > 0 {
      LeadingHashesUnique(b[1..], n - 1);
    }
  }

  function Hashes(k: nat): (r: string)
    ensures |r| == k
  {
    seq(k, _ => '#')
  }

  lemma HeadingPrefix(b: string, k: nat)
    requires 1 <= k
    ensures StartsWith(b, Hashes(k) + " ") <==> (k < |b| && LeadingHashes(b) == k && b[k] == ' ')
  {
    var p := Hashes(k) + " ";
    if StartsWith(b, p) {
      forall i | 0 <= i < k ensures b[i] == '#' {
        assert b[..k + 1][i] == p[i];
      }
      assert b[..k + 1][k] == p[k];
      LeadingHashesUnique(b, k);
    }
    if k < |b| && LeadingHashes(b) == k && b[k] == ' ' {
      assert b[..k + 1] == p;
    }
  }

  /** The six heading prefixes, spelled as a count of `#`. */
  lemma HashLiterals()
    ensures Hashes(1) + " " == "# " && Hashes(2) + " " == "## " && Hashes(3) + " " == "### "
    ensures Hashes(4) + " " == "#### " && Hashes(5) + " " == "##### " && Hashes(6) + " " == "###### "
  {
    assert Hashes(1) + " " == "# ";
    assert Hashes(2) + " " == "## ";
    assert Hashes(3) + " " == "### ";
    assert Hashes(4) + " " == "#### ";
    assert Hashes(5) + " " == "##### ";
    assert Hashes(6) + " " == "###### ";
  }

  /** A block is a heading exactly when it starts with one to six `#`
      followed by a space: `#NoSpace`, a `#` in mid-line and seven `#` are
      not headings. */
  lemma HeadingIff(b: string)
    ensures HeadingMarked(b) <==>
            1 <= LeadingHashes(b) <= 6 && LeadingHashes(b) < |b| && b[LeadingHashes(b)] == ' '
  {
    HashLiterals();
    HeadingPrefix(b, 1);
    HeadingPrefix(b, 2);
    HeadingPrefix(b, 3);
    HeadingPrefix(b, 4);
    HeadingPrefix(b, 5);
    HeadingPrefix(b, 6);
  }

  /** The first line is a prefix of the block. */
  lemma FirstLine(b: string)
    ensures StartsWith(b, Lines(b)[0])
  {
    SplitFirst(b, "\n");
  }

  /** What each line rule says about the block's first character. */
  lemma FirstCharacter(b: string)
    ensures EveryLineStarts(Lines(b), ">") ==> |b| > 0 && b[0] == '>'
    ensures EveryLineStarts(Lines(b), "- ") ==> |b| > 0 && b[0] == '-'
    ensures Numbered(Lines(b)) ==> |b| > 0 && b[0] == '1'
  {
    var first := Lines(b)[0];
    FirstLine(b);
    assert Marker(1) == "1. ";
    if |first| > 0 {
      assert b[..|first|][0] == first[0];
    }
    if StartsWith(first, ">") {
      assert first[..1][0] == first[0];
    }
    if StartsWith(first, "- ") {
      assert first[..2][0] == first[0];
    }
    if StartsWith(first, "1. ") {
      assert first[..3][0] == first[0];
    }
  }

  /** A block whose first character is neither `#` nor a backtick is no
      heading and no code block. */
  lemma NotHeadingNorCode(b: string)
    requires |b| > 0 && b[0] != '#' && b[0] != '`'
    ensures !HeadingMarked(b) && !Fenced(b)
  {
    forall n | 1 <= n <= |b| ensures b[..n][0] == b[0] {
    }
  }

  /** The order in which the rules are tried never matters: each block
      type holds exactly when its own rule does, because the rules demand
      different first characters; a paragraph is a block no rule accepts. */
  lemma BlockTypeIff(b: string)
    ensures BlockToBlockType(b) == Heading <==> HeadingMarked(b)
    ensures BlockToBlockType(b) == CodeBlock <==> Fenced(b)
    ensures BlockToBlockType(b) == Quote <==> EveryLineStarts(Lines(b), ">")
    ensures BlockToBlockType(b) == UnorderedList <==> EveryLineStarts(Lines(b), "- ")
    ensures BlockToBlockType(b) == OrderedList <==> Numbered(Lines(b))
    ensures BlockToBlockType(b) == Paragraph <==>
            !HeadingMarked(b) && !Fenced(b) && !EveryLineStarts(Lines(b), ">") &&
            !EveryLineStarts(Lines(b), "- ") && !Numbered(Lines(b))
  {
    var lines := Lines(b);
    FirstCharacter(b);
    if Fenced(b) {
      assert b[..4][0] == b[0];
      assert "```\n"[0] == '`';
      forall n | 1 <= n <= |b| ensures b[..n][0] == b[0] {
      }
    }
    if EveryLineStarts(lines, ">") || EveryLineStarts(lines, "- ") || Numbered(lines) {
      NotHeadingNorCode(b);
    }
  }

  // =====================================================================
  // Segmentation

  /** The blocks the first `k` pieces give: each piece stripped, the
      empty ones dropped. */
  function KeptBlocks(parts: seq<string>, k: nat): seq<string>
    requires k <= |parts|
    decreases k
  {
    if k == 0 then []
    else
      var block := Strip(parts[k - 1]);
      KeptBlocks(parts, k - 1) + (if block == "" then [] else [block])
  }

  /** markdown_to_blocks. */
  function BlocksOf(markdown: string): seq<string>
  {
    var parts := Split(markdown, "\n\n");
    KeptBlocks(parts, |parts|)
  }

  method MarkdownToBlocks(markdown: string) returns (blocks: seq<string>)
    ensures blocks == BlocksOf(markdown)
  {
    blocks := [];
    var parts := Split(markdown, "\n\n");
    for i := 0 to |parts|
      invariant blocks == KeptBlocks(parts, i)
    {
      var block := Strip(parts[i]);
      if block != "" {
        blocks := blocks + [block];
      }
    }
  }

  // =====================================================================
  // Block content and HTML

  /** The HTML nodes of a list of text nodes, in order. */
  function HtmlOf(nodes: seq<TextNode>, media: TextNode -> HtmlNode): (r: seq<HtmlNode>)
    ensures |r| == |nodes|
  {
    seq(|nodes|, i requires 0 <= i < |nodes| => TextNodeToHtml(nodes[i], media))
  }

  /** text_to_children: the inline pipeline, then one HTML node per text
      node. */
  function ChildrenOf(text: string, media: TextNode -> HtmlNode): Result<seq<HtmlNode>>
  {
    var nodes :- TextNodesOf(text);
    Ok(HtmlOf(nodes, media))
  }

  method TextToChildren(text: string, media: TextNode -> HtmlNode) returns (r: Result<seq<HtmlNode>>)
    ensures r == ChildrenOf(text, media)
  {
    var textNodes :- TextToTextNodes(text);
    var children := ConvertTextNodes(textNodes, media);
    return Ok(children);
  }

  /** The loop of text_to_children: one HTML node per text node. */
  method ConvertTextNodes(textNodes: seq<TextNode>, media: TextNode -> HtmlNode) returns (children: seq<HtmlNode>)
    ensures children == HtmlOf(textNodes, media)
  {
    children := [];
    for i := 0 to |textNodes|
      invariant children == HtmlOf(textNodes[..i], media)
    {
      var htmlNode := TextNodeToHtml(textNodes[i], media);
      children := children + [htmlNode];
      assert HtmlOf(textNodes[..i + 1], media) == HtmlOf(textNodes[..i], media) + [htmlNode];
    }
    assert textNodes[..|textNodes|] == textNodes;
  }

  /** A parent node with `tag`, no attributes and the children `r` carries. */
  function Wrap(tag: string, r: Result<seq<HtmlNode>>): Result<HtmlNode>
  {
    match r
    case Err(e) => Err(e)
    case Ok(cs) => Ok(Parent(Some(tag), Given(cs), None))
  }

  /** A paragraph's text: its lines joined with single spaces. */
  function ParagraphText(block: string): string
  {
    Join(SplitLines(block), " ")
  }

  /** A quote line without its leading `>` characters and surrounding
      whitespace. */
  function QuoteLine(line: string): string
  {
    Strip(LStripChar(line, '>'))
  }

  function QuoteLines(lines: seq<string>): (r: seq<string>)
    ensures |r| == |lines|
  {
    seq(|lines|, i requires 0 <= i < |lines| => QuoteLine(lines[i]))
  }

  /** A quote's text: its cleaned lines joined with single spaces. */
  function QuoteText(block: string): string
  {
    Join(QuoteLines(Lines(block)), " ")
  }

  /** `block[3:-3]`: the block without three characters at each end. */
  function CodeBody(block: string): string
  {
    if |block| >= 6 then block[3..|block| - 3] else ""
  }

  /** A code block's literal content: `block[3:-3].lstrip("\n")`. */
  function CodeText(block: string): string
  {
    LStripChar(CodeBody(block), '\n')
  }

  /** One list item: the line without its first `width` characters, as an
      `li` parent. */
  function ItemNode(line: string, width: nat, media: TextNode -> HtmlNode): Result<HtmlNode>
  {
    Wrap("li", ChildrenOf(Drop(line, width), media))
  }

  function ListItems(lines: seq<string>, width: nat, media: TextNode -> HtmlNode): Result<seq<HtmlNode>>
  {
    MapResult(lines, line => ItemNode(line, width, media))
  }

  /** The HTML node markdown_to_html_node builds for one block. */
  function BlockNode(block: string, media: TextNode -> HtmlNode): Result<HtmlNode>
  {
    NodeOfType(BlockToBlockType(block), block, media)
  }

  /** The node built for a block once its type is known. */
  function NodeOfType(t: BlockType, block: string, media: TextNode -> HtmlNode): Result<HtmlNode>
  {
    match t
    case Paragraph => Wrap("p", ChildrenOf(ParagraphText(block), media))
    case Heading =>
      var level := LeadingHashes(block);
      Wrap("h" + NatToString(level), ChildrenOf(Drop(block, level + 1), media))
    case UnorderedList => Wrap("ul", ListItems(Lines(block), 2, media))
    case OrderedList => Wrap("ol", ListItems(Lines(block), 3, media))
    case CodeBlock =>
      var child := TextNodeToHtml(Plain(CodeText(block)), media);
      Ok(Parent(Some("pre"), Given([Parent(Some("code"), Given([child]), None)]), None))
    case Quote => Wrap("blockquote", ChildrenOf(QuoteText(block), media))
  }

  /** markdown_to_html_node: a `div` holding one node per block. */
  function DocumentOf(markdown: string, media: TextNode -> HtmlNode): Result<HtmlNode>
  {
    var children :- MapResult(BlocksOf(markdown), block => BlockNode(block, media));
    Ok(Parent(Some("div"), Given(children), None))
  }

  /** The heading level loop: count the leading `#` characters. */
  method CountLevel(block: string) returns (level: nat)
    ensures level == LeadingHashes(block)
  {
    level := 0;
    while level < |block| && block[level] == '#'
      invariant level <= |block|
      invariant forall i :: 0 <= i < level ==> block[i] == '#'
    {
      level := level + 1;
    }
    LeadingHashesUnique(block, level);
  }

  /** The quote loop: every line cleaned, in order. */
  method CleanQuoteLines(lines: seq<string>) returns (newLines: seq<string>)
    ensures newLines == QuoteLines(lines)
  {
    newLines := [];
    for i := 0 to |lines|
      invariant newLines == QuoteLines(lines[..i])
    {
      newLines := newLines + [Strip(LStripChar(lines[i], '>'))];
      assert QuoteLines(lines[..i + 1]) == QuoteLines(lines[..i]) + [QuoteLine(lines[i])];
    }
    assert lines[..|lines|] == lines;
  }

  /** The list loops: one `li` per line; the first line whose text fails
      to tokenize decides the error. */
  method ListItemsOf(lines: seq<string>, width: nat, media: TextNode -> HtmlNode)
    returns (r: Result<seq<HtmlNode>>)
    ensures r == ListItems(lines, width, media)
  {
    ghost var f := line => ItemNode(line, width, media);
    var listItems: seq<HtmlNode> := [];
    for i := 0 to |lines|
      invariant MapResult(lines[..i], f) == Ok(listItems)
    {
      MapStep(lines, i, f);
      var text := Drop(lines[i], width);
      var children := TextToChildren(text, media);
      if children.Err? {
        MapPrefixErr(lines, i + 1, f);
        return Err(children.error);
      }
      listItems := listItems + [Parent(Some("li"), Given(children.value), None)];
    }
    assert lines[..|lines|] == lines;
    return Ok(listItems);
  }

  /** The body of the block loop of markdown_to_html_node. */
  method BlockToHtml(block: string, media: TextNode -> HtmlNode) returns (r: Result<HtmlNode>)
    ensures r == BlockNode(block, media)
  {
    var typeOfBlock := BlockToBlockType(block);
    r := NodeToHtml(typeOfBlock, block, media);
  }

  /** The per-type branches of block_to_html_node. */
  method NodeToHtml(typeOfBlock: BlockType, block: string, media: TextNode -> HtmlNode) returns (r: Result<HtmlNode>)
    ensures r == NodeOfType(typeOfBlock, block, media)
  {
    match typeOfBlock
    case Paragraph =>
      var content := Join(SplitLines(block), " ");
      r := ParentOfText("p", content, media);
    case Heading =>
      var level := CountLevel(block);
      var content := Drop(block, level + 1);
      r := ParentOfText("h" + NatToString(level), content, media);
    case UnorderedList =>
      var listItems := ListItemsOf(Split(block, "\n"), 2, media);
      r := ParentOfItems("ul", listItems);
    case OrderedList =>
      var listItems := ListItemsOf(Split(block, "\n"), 3, media);
      r := ParentOfItems("ol", listItems);
    case CodeBlock =>
      var content := LStripChar(CodeBody(block), '\n');
      var child := TextNodeToHtml(TextNode(content, Text, None), media);
      r := Ok(Parent(Some("pre"), Given([Parent(Some("code"), Given([child]), None)]), None));
    case Quote =>
      var newLines := CleanQuoteLines(Split(block, "\n"));
      var content := Join(newLines, " ");
      r := ParentOfText("blockquote", content, media);
  }

  /** `ParentNode(tag, text_to_children(content))`. */
  method ParentOfText(tag: string, content: string, media: TextNode -> HtmlNode) returns (r: Result<HtmlNode>)
    ensures r == Wrap(tag, ChildrenOf(content, media))
  {
    var children :- TextToChildren(content, media);
    r := Ok(Parent(Some(tag), Given(children), None));
  }

  /** `ParentNode(tag, list_items)` once every item has been built. */
  method ParentOfItems(tag: string, listItems: Result<seq<HtmlNode>>) returns (r: Result<HtmlNode>)
    ensures r == Wrap(tag, listItems)
  {
    var items :- listItems;
    r := Ok(Parent(Some(tag), Given(items), None));
  }

  method MarkdownToHtmlNode(markdown: string, media: TextNode -> HtmlNode) returns (r: Result<HtmlNode>)
    ensures r == DocumentOf(markdown, media)
  {
    var blocks := MarkdownToBlocks(markdown);
    ghost var f := block => BlockNode(block, media);
    var htmlChildren: seq<HtmlNode> := [];
    for i := 0 to |blocks|
      invariant MapResult(blocks[..i], f) == Ok(htmlChildren)
    {
      MapStep(blocks, i, f);
      var node := BlockToHtml(blocks[i], media);
      if node.Err? {
        MapPrefixErr(blocks, i + 1, f);
        return Err(node.error);
      }
      htmlChildren := htmlChildren + [node.value];
    }
    assert blocks[..|blocks|] == blocks;
    return Ok(Parent(Some("div"), Given(htmlChildren), None));
  }

  // ---------------------------------------------------------------------
  // Properties of the segmentation

  /** What every block satisfies: non-empty, its own strip, and free of
      blank-line separators. */
  predicate Clean(b: string)
  {
    b != "" && Strip(b) == b && Free(b, "\n\n")
  }

  lemma {:induction false} KeptBlocksClean(parts: seq<string>, k: nat)
    requires k <= |parts|
    requires forall i :: 0 <= i < |parts| ==> Free(parts[i], "\n\n")
    ensures forall j :: 0 <= j < |KeptBlocks(parts, k)| ==> Clean(KeptBlocks(parts, k)[j])
    decreases k
  {
    if k > 0 {
      KeptBlocksClean(parts, k - 1);
      StripIdempotent(parts[k - 1]);
      StripKeepsFree(parts[k - 1], "\n\n");
    }
  }

  /** markdown_to_blocks returns non-empty, stripped blocks, none of which
      contains a blank-line separator. */
  lemma BlocksClean(markdown: string)
    ensures forall j :: 0 <= j < |BlocksOf(markdown)| ==> Clean(BlocksOf(markdown)[j])
  {
    var parts := Split(markdown, "\n\n");
    SplitPiecesFree(markdown, "\n\n");
    KeptBlocksClean(parts, |parts|);
  }

  lemma CleanSeparated(b: string)
    requires Clean(b)
    ensures Separated(b, "\n\n")
  {
    var s := b + "\n\n";
    assert !IsSpace(b[|b| - 1]);
    forall k | 0 <= k < |b| ensures !OccursAt(s, "\n\n", k) {
      if k + 2 <= |b| {
        assert s[k..k + 2] == b[k..k + 2];
        assert !OccursAt(b, "\n\n", k);
      } else {
        assert s[k..k + 2][0] == b[|b| - 1];
      }
    }
  }

  lemma {:induction false} KeptClean(bs: seq<string>, k: nat)
    requires k <= |bs|
    requires forall i :: 0 <= i < |bs| ==> Clean(bs[i])
    ensures KeptBlocks(bs, k) == bs[..k]
    decreases k
  {
    if k > 0 {
      KeptClean(bs, k - 1);
      assert bs[..k] == bs[..k - 1] + [bs[k - 1]];
    }
  }

  /** Blocks joined back with blank lines segment into the same blocks:
      segmentation is idempotent. */
  lemma BlocksRoundTrip(markdown: string)
    ensures BlocksOf(Join(BlocksOf(markdown), "\n\n")) == BlocksOf(markdown)
  {
    var bs := BlocksOf(markdown);
    BlocksClean(markdown);
    if bs == [] {
      assert Split("", "\n\n") == [""];
    } else {
      forall i | 0 <= i < |bs| ensures Separated(bs[i], "\n\n") {
        CleanSeparated(bs[i]);
      }
      SplitOfJoin(bs, "\n\n");
      KeptClean(bs, |bs|);
    }
  }

  // ---------------------------------------------------------------------
  // Properties of the HTML built for blocks

  /** The document is a `div` with exactly one child per block, in block
      order; it fails exactly when some block fails. */
  lemma DocumentShape(markdown: string, media: TextNode -> HtmlNode)
    ensures DocumentOf(markdown, media).Ok? <==>
            forall i :: 0 <= i < |BlocksOf(markdown)| ==> BlockNode(BlocksOf(markdown)[i], media).Ok?
    ensures DocumentOf(markdown, media).Ok? ==>
            var d := DocumentOf(markdown, media).value;
            d.Parent? && d.tag == Some("div") && d.props == None && d.children.Given? &&
            |d.children.nodes| == |BlocksOf(markdown)| &&
            forall i :: 0 <= i < |BlocksOf(markdown)| ==>
              BlockNode(BlocksOf(markdown)[i], media) == Ok(DocumentOf(markdown, media).value.children.nodes[i])
  {
    MapResultOk(BlocksOf(markdown), block => BlockNode(block, media));
  }

  /** Inline conversion fails only on an unclosed delimiter. */
  lemma ChildrenErrors(text: string, media: TextNode -> HtmlNode)
    ensures ChildrenOf(text, media).Err? ==> ChildrenOf(text, media).error == MissingClosingDelimiter
  {
    TextNodesErrors(text);
  }

  lemma ListItemsErrors(lines: seq<string>, width: nat, media: TextNode -> HtmlNode)
    ensures ListItems(lines, width, media).Err? ==>
            ListItems(lines, width, media).error == MissingClosingDelimiter
  {
    var f := line => ItemNode(line, width, media);
    if ListItems(lines, width, media).Err? {
      MapResultErrFrom(lines, f);
      var i :| 0 <= i < |lines| && f(lines[i]) == Err(ListItems(lines, width, media).error);
      ChildrenErrors(Drop(lines[i], width), media);
    }
  }

  lemma BlockErrors(block: string, media: TextNode -> HtmlNode)
    ensures BlockNode(block, media).Err? ==> BlockNode(block, media).error == MissingClosingDelimiter
  {
    match BlockToBlockType(block)
    case Paragraph => ChildrenErrors(ParagraphText(block), media);
    case Heading => ChildrenErrors(Drop(block, LeadingHashes(block) + 1), media);
    case UnorderedList => ListItemsErrors(Lines(block), 2, media);
    case OrderedList => ListItemsErrors(Lines(block), 3, media);
    case CodeBlock =>
    case Quote => ChildrenErrors(QuoteText(block), media);
  }

  /** markdown_to_html_node fails only when some block's text has an
      unclosed bold, italic or code delimiter: links, images, headings,
      lists and code blocks never raise. */
  lemma DocumentErrors(markdown: string, media: TextNode -> HtmlNode)
    ensures DocumentOf(markdown, media).Err? ==> DocumentOf(markdown, media).error == MissingClosingDelimiter
  {
    var f := block => BlockNode(block, media);
    if DocumentOf(markdown, media).Err? {
      MapResultErrFrom(BlocksOf(markdown), f);
      var i :| 0 <= i < |BlocksOf(markdown)| && f(BlocksOf(markdown)[i]) == Err(DocumentOf(markdown, media).error);
      BlockErrors(BlocksOf(markdown)[i], media);
    }
  }

  /** A heading has a level from 1 to 6 and is that many `#`, a space
      and its content. */
  lemma HeadingShape(b: string)
    requires HeadingMarked(b)
    ensures 1 <= LeadingHashes(b) <= 6
    ensures b == Hashes(LeadingHashes(b)) + " " + Drop(b, LeadingHashes(b) + 1)
  {
    var level := LeadingHashes(b);
    HeadingIff(b);
    assert b == b[..level] + [b[level]] + b[level + 1..];
    assert b[..level] == Hashes(level);
  }

  /** A heading becomes an `h1` to `h6` node over its content. */
  lemma HeadingNode(b: string, media: TextNode -> HtmlNode)
    requires HeadingMarked(b)
    ensures 1 <= LeadingHashes(b) <= 6
    ensures BlockNode(b, media) ==
            Wrap("h" + [Digit(LeadingHashes(b))], ChildrenOf(Drop(b, LeadingHashes(b) + 1), media))
  {
    BlockTypeIff(b);
    HeadingIff(b);
    assert NatToString(LeadingHashes(b)) == [Digit(LeadingHashes(b))];
  }

  /** A fenced block is at least seven characters: the fences never
      overlap. */
  lemma FencedLength(b: string)
    requires Fenced(b)
    ensures |b| >= 7
    ensures b == "```" + CodeBody(b) + "```"
    ensures CodeBody(b) != "" && CodeBody(b)[0] == '\n'
  {
    assert b[..4][3] == b[3];
    assert b[|b| - 3..][0] == b[|b| - 3];
    assert |b| >= 7;
    assert b == b[..3] + b[3..|b| - 3] + b[|b| - 3..];
    assert b[..3] == b[..4][..3];
  }

  /** A code block is never tokenized: it becomes `pre > code` over its
      literal content, never fails, and renders as that content between
      the tags. The content is the block without its fences and without
      every leading newline. */
  lemma CodeNode(b: string, media: TextNode -> HtmlNode)
    requires Fenced(b)
    ensures BlockNode(b, media) ==
            Ok(Parent(Some("pre"), Given([Parent(Some("code"), Given([Leaf(None, Some(CodeText(b)), None)]), None)]), None))
    ensures ToHtml(BlockNode(b, media).value) == Ok("<pre><code>" + CodeText(b) + "</code></pre>")
    ensures var m := |CodeBody(b)| - |CodeText(b)|;
            m >= 1 && b == "```" + seq(m, _ => '\n') + CodeText(b) + "```"
    ensures CodeText(b) == "" || CodeText(b)[0] != '\n'
  {
    CodeBlockNode(b, media);
    CodeFences(b);
    PreCodeRender(CodeText(b));
  }

  lemma CodeBlockNode(b: string, media: TextNode -> HtmlNode)
    requires Fenced(b)
    ensures BlockNode(b, media) ==
            Ok(Parent(Some("pre"), Given([Parent(Some("code"), Given([Leaf(None, Some(CodeText(b)), None)]), None)]), None))
  {
    BlockTypeIff(b);
    assert BlockToBlockType(b) == CodeBlock;
  }

  lemma CodeFences(b: string)
    requires Fenced(b)
    ensures var m := |CodeBody(b)| - |CodeText(b)|;
            m >= 1 && b == "```" + seq(m, _ => '\n') + CodeText(b) + "```"
    ensures CodeText(b) == "" || CodeText(b)[0] != '\n'
  {
    FencedLength(b);
    LStripCharParts(CodeBody(b), '\n');
    assert CodeBody(b)[0] == '\n';
  }

  lemma PreCodeRender(t: string)
    ensures ToHtml(Parent(Some("pre"), Given([Parent(Some("code"), Given([Leaf(None, Some(t), None)]), None)]), None)) ==
            Ok("<pre><code>" + t + "</code></pre>")
  {
    var code := Parent(Some("code"), Given([Leaf(None, Some(t), None)]), None);
    var inner := "<code>" + t + "</code>";
    WrapOne("code", Leaf(None, Some(t), None), t);
    assert "<" + "code" + ">" == "<code>" && "</" + "code" + ">" == "</code>";
    WrapOne("pre", code, inner);
    assert "<" + "pre" + ">" == "<pre>" && "</" + "pre" + ">" == "</pre>";
    var a, z := "<pre>", "</pre>";
    assert a + inner + z == (a + "<code>") + t + ("</code>" + z);
    assert a + "<code>" == "<pre><code>" && "</code>" + z == "</code></pre>";
  }

  /** A parent with no attributes and one child renders as the child's
      rendering between the tags. */
  lemma WrapOne(tag: string, c: HtmlNode, x: string)
    requires ToHtml(c) == Ok(x)
    ensures ToHtml(Parent(Some(tag), Given([c]), None)) == Ok(("<" + tag + ">") + x + ("</" + tag + ">"))
  {
    var p := Parent(Some(tag), Given([c]), None);
    assert ChildrenHtml(p, 0) == Ok("");
    assert "" + x == x;
    assert ChildrenHtml(p, 1) == Ok(x);
    assert OpenTag(tag, None) == "<" + tag + ">";
  }

  /** A paragraph's text is a single line. */
  lemma ParagraphOneLine(b: string)
    ensures '\n' !in ParagraphText(b)
  {
    var pieces := Split(b, "\n");
    SplitCharFree(b, '\n');
    var lines := SplitLines(b);
    assert forall i :: 0 <= i < |lines| ==> lines[i] == pieces[i];
    JoinLacks(lines, " ", '\n');
  }

  /** A quote's text is a single line. */
  lemma QuoteOneLine(b: string)
    ensures '\n' !in QuoteText(b)
  {
    var lines := Lines(b);
    SplitCharFree(b, '\n');
    var cleaned := QuoteLines(lines);
    forall i | 0 <= i < |lines| ensures '\n' !in cleaned[i] {
      var line := lines[i];
      var rest := LStripChar(line, '>');
      LStripCharParts(line, '>');
      assert OccursAt(line, rest, |line| - |rest|);
      LacksSlice(line, rest, |line| - |rest|, '\n');
      var o := StripAt(rest);
      LacksSlice(rest, Strip(rest), o, '\n');
    }
    JoinLacks(cleaned, " ", '\n');
  }

  /** A list becomes one `li` per line, in order, each over the line
      without its marker width; it fails exactly when some item does. */
  lemma ListItemsShape(lines: seq<string>, width: nat, media: TextNode -> HtmlNode)
    ensures ListItems(lines, width, media).Ok? <==>
            forall i :: 0 <= i < |lines| ==> ChildrenOf(Drop(lines[i], width), media).Ok?
    ensures ListItems(lines, width, media).Ok? ==>
            |ListItems(lines, width, media).value| == |lines| &&
            forall i :: 0 <= i < |lines| ==>
              ListItems(lines, width, media).value[i] ==
              Parent(Some("li"), Given(ChildrenOf(Drop(lines[i], width), media).value), None)
  {
    MapResultOk(lines, line => ItemNode(line, width, media));
  }

  /** Lines `- item` joined with newlines form an unordered list whose
      items are exactly the texts after the markers. */
  lemma UnorderedListOf(items: seq<string>)
    requires |items| >= 1
    requires forall i :: 0 <= i < |items| ==> '\n' !in items[i]
    ensures var lines := seq(|items|, i requires 0 <= i < |items| => "- " + items[i]);
            BlockToBlockType(Join(lines, "\n")) == UnorderedList &&
            Lines(Join(lines, "\n")) == lines &&
            forall i :: 0 <= i < |items| ==> Drop(lines[i], 2) == items[i]
  {
    var lines := seq(|items|, i requires 0 <= i < |items| => "- " + items[i]);
    forall i | 0 <= i < |items| ensures '\n' !in lines[i] && StartsWith(lines[i], "- ") && Drop(lines[i], 2) == items[i] {
      assert lines[i][..2] == "- ";
      assert lines[i][2..] == items[i];
    }
    LinesOfJoin(lines);
    BlockTypeIff(Join(lines, "\n"));
  }

  /** Lines `1. item`, `2. item`, ... joined with newlines form an ordered
      list of any length, ten items and more included. The fixed
      three-character cut gives the exact item text for the first nine
      items only; from the tenth to the ninety-ninth it keeps the space
      after the marker. */
  lemma OrderedListOf(items: seq<string>)
    requires |items| >= 1
    requires forall i :: 0 <= i < |items| ==> '\n' !in items[i]
    ensures var lines := seq(|items|, i requires 0 <= i < |items| => Marker(i + 1) + items[i]);
            BlockToBlockType(Join(lines, "\n")) == OrderedList &&
            Lines(Join(lines, "\n")) == lines &&
            (forall i :: 0 <= i < |items| && i < 9 ==> Drop(lines[i], 3) == items[i]) &&
            (forall i :: 9 <= i < |items| && i < 99 ==> Drop(lines[i], 3) == " " + items[i])
  {
    var lines := seq(|items|, i requires 0 <= i < |items| => Marker(i + 1) + items[i]);
    forall i | 0 <= i < |items| ensures '\n' !in lines[i] && StartsWith(lines[i], Marker(i + 1)) {
      var mk := Marker(i + 1);
      NatToStringDigits(i + 1);
      assert '\n' !in mk;
      assert lines[i][..|mk|] == mk;
    }
    forall i | 0 <= i < |items| && i < 9 ensures Drop(lines[i], 3) == items[i] {
      assert |NatToString(i + 1)| == 1;
      assert lines[i][3..] == items[i];
    }
    forall i | 9 <= i < |items| && i < 99 ensures Drop(lines[i], 3) == " " + items[i] {
      var d := NatToString(i + 1);
      assert d == NatToString((i + 1) / 10) + [Digit((i + 1) % 10)];
      assert |d| == 2;
      assert lines[i] == d + ". " + items[i];
      assert lines[i][3..] == " " + items[i];
    }
    LinesOfJoin(lines);
    BlockTypeIff(Join(lines, "\n"));
  }
}
