/** Typed inline text nodes and their conversion to HTML nodes. The text
    node's own module is not part of this model: its shape is taken from
    the places that build nodes, and its conversion from the rendered
    output the block-level tests expect. */
module TextNodes {
  import opened Wrappers
  import opened HtmlNodes

  datatype TextType = Text | Bold | Italic | Code | Link | Image

  /** A span of inline text; `url` is set for links and images. Equality is
      structural, on all three fields. */
  datatype TextNode = TextNode(text: string, textType: TextType, url: Option<string>)

  /** A plain text node, as `TextNode(s, TextType.TEXT)` builds it. */
  function Plain(s: string): TextNode
  {
    TextNode(s, Text, None)
  }

  /** text_node_to_html_node: plain text is an untagged leaf and bold,
      italic and code are `b`, `i` and `code` leaves; for links and images
      the source is not available, so their HTML node is supplied by
      `media`. */
  function TextNodeToHtml(n: TextNode, media: TextNode -> HtmlNode): HtmlNode
  {
    match n.textType
    case Text => Leaf(None, Some(n.text), None)
    case Bold => Leaf(Some("b"), Some(n.text), None)
    case Italic => Leaf(Some("i"), Some(n.text), None)
    case Code => Leaf(Some("code"), Some(n.text), None)
    case Link => media(n)
    case Image => media(n)
  }

  /** The rendered forms the tests pin: plain text verbatim, bold, italic
      and code wrapped in their tag. */
  lemma TextNodeRender(s: string, media: TextNode -> HtmlNode)
    ensures ToHtml(TextNodeToHtml(Plain(s), media)) == Ok(s)
    ensures ToHtml(TextNodeToHtml(TextNode(s, Bold, None), media)) == Ok("<b>" + s + "</b>")
    ensures ToHtml(TextNodeToHtml(TextNode(s, Italic, None), media)) == Ok("<i>" + s + "</i>")
    ensures ToHtml(TextNodeToHtml(TextNode(s, Code, None), media)) == Ok("<code>" + s + "</code>")
  {
    assert OpenTag("b", None) + s + CloseTag("b") == "<b>" + s + "</b>";
    assert OpenTag("i", None) + s + CloseTag("i") == "<i>" + s + "</i>";
    assert OpenTag("code", None) + s + CloseTag("code") == "<code>" + s + "</code>";
  }
}
