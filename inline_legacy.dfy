/** The older delimiter split, which keeps every section as a node, empty
    ones included, and its relation to the current split. */
module InlineLegacy {
  import opened Wrappers
  import opened Strings
  import opened TextNodes
  import opened InlineMarkdown

  /** The older split_nodes_delimiter on one node: every section becomes a
      node, plain for even indices and `tt` for odd ones. */
  function LegacySplitNode(node: TextNode, d: string, tt: TextType): Result<seq<TextNode>>
  {
    if node.textType != Text then Ok([node])
    else if d == "" then Err(EmptySeparator)
    else
      var secs := Split(node.text, d);
      if |secs| % 2 == 0 then Err(MissingClosingDelimiter)
      else Ok(Typed(secs, tt))
  }

  /** The older split_nodes_delimiter on a list of nodes. */
  function LegacyDelimiterSplit(nodes: seq<TextNode>, d: string, tt: TextType): Result<seq<TextNode>>
  {
    FlatMapResult(nodes, n => LegacySplitNode(n, d, tt))
  }

  method SplitNodesDelimiter(oldNodes: seq<TextNode>, delimiter: string, textType: TextType)
    returns (r: Result<seq<TextNode>>)
    ensures r == LegacyDelimiterSplit(oldNodes, delimiter, textType)
  {
    ghost var f := n => LegacySplitNode(n, delimiter, textType);
    var newNodes: seq<TextNode> := [];
    for i := 0 to |oldNodes|
      invariant FlatMapResult(oldNodes[..i], f) == Ok(newNodes)
    {
      FlatMapStep(oldNodes, i, f);
      var node := oldNodes[i];
      if node.textType != Text {
        newNodes := newNodes + [node];
      } else {
        if delimiter == "" {
          FlatMapPrefixErr(oldNodes, i + 1, f);
          return Err(EmptySeparator);
        }
        var sections := Split(node.text, delimiter);
        if |sections| % 2 == 0 {
          FlatMapPrefixErr(oldNodes, i + 1, f);
          return Err(MissingClosingDelimiter);
        }
        var typed := TypeSections(sections, textType);
        newNodes := newNodes + typed;
      }
    }
    assert oldNodes[..|oldNodes|] == oldNodes;
    return Ok(newNodes);
  }

  /** The section loop of the older split: one node per section, in order. */
  method TypeSections(sections: seq<string>, textType: TextType) returns (typed: seq<TextNode>)
    ensures typed == Typed(sections, textType)
  {
    typed := [];
    for j := 0 to |sections|
      invariant typed == Typed(sections[..j], textType)
    {
      var section := sections[j];
      if j % 2 == 0 {
        typed := typed + [TextNode(section, Text, None)];
      } else {
        typed := typed + [TextNode(section, textType, None)];
      }
      assert Typed(sections[..j + 1], textType) == Typed(sections[..j], textType) + [SectionNode(sections, j, textType)];
    }
    assert sections[..|sections|] == sections;
  }

  // ---------------------------------------------------------------------
  // Properties

  /** The node texts, in order. */
  function Texts(nodes: seq<TextNode>): (r: seq<string>)
    ensures |r| == |nodes|
  {
    seq(|nodes|, i requires 0 <= i < |nodes| => nodes[i].text)
  }

  /** The older split loses nothing: one node per section, the types
      alternate starting with plain text, and joining the texts with the
      delimiter gives back the original text. */
  lemma LegacyRoundTrip(text: string, d: string, tt: TextType)
    requires |d| > 0
    requires LegacySplitNode(Plain(text), d, tt).Ok?
    ensures var nodes := LegacySplitNode(Plain(text), d, tt).value;
            |nodes| == CountOcc(text, d) + 1 && |nodes| % 2 == 1
    ensures forall i :: 0 <= i < |LegacySplitNode(Plain(text), d, tt).value| ==>
              LegacySplitNode(Plain(text), d, tt).value[i].textType == if i % 2 == 0 then Text else tt
    ensures Join(Texts(LegacySplitNode(Plain(text), d, tt).value), d) == text
  {
    var secs := Split(text, d);
    SplitCount(text, d);
    assert Texts(Typed(secs, tt)) == secs;
    SplitJoin(text, d);
  }

  /** Both versions raise "missing closing delimiter" on the same text
      nodes: those with an odd number of delimiters. */
  lemma LegacyErrorIffOdd(text: string, d: string, tt: TextType)
    requires |d| > 0
    ensures LegacySplitNode(Plain(text), d, tt).Err? <==> CountOcc(text, d) % 2 == 1
    ensures LegacySplitNode(Plain(text), d, tt).Err? <==> SplitDelimiterNode(Plain(text), d, tt).Err?
    ensures LegacySplitNode(Plain(text), d, tt).Err? ==>
            LegacySplitNode(Plain(text), d, tt).error == MissingClosingDelimiter
  {
    var secs := Split(text, d);
    SplitCount(text, d);
    Parity(|secs|, CountOcc(text, d));
    OddDelimiterIsError(text, d, tt);
  }

  /** The current split is the older one with the empty nodes dropped. */
  lemma CurrentDropsEmpty(node: TextNode, d: string, tt: TextType)
    requires node.textType == Text
    ensures LegacySplitNode(node, d, tt).Ok? <==> SplitDelimiterNode(node, d, tt).Ok?
    ensures LegacySplitNode(node, d, tt).Ok? ==>
            SplitDelimiterNode(node, d, tt).value == DropEmpty(LegacySplitNode(node, d, tt).value)
  {
    if d != "" {
      var secs := Split(node.text, d);
      KeptIsDropEmptyTyped(secs, |secs|, tt);
      assert secs[..|secs|] == secs;
    }
  }

  /** Nodes that are not plain text are copied through unchanged. */
  lemma {:induction false} LegacyKeepsOthers(nodes: seq<TextNode>, d: string, tt: TextType)
    requires forall i :: 0 <= i < |nodes| ==> nodes[i].textType != Text
    ensures LegacyDelimiterSplit(nodes, d, tt) == Ok(nodes)
    decreases |nodes|
  {
    if nodes != [] {
      var init := nodes[..|nodes| - 1];
      assert forall i :: 0 <= i < |init| ==> init[i] == nodes[i];
      LegacyKeepsOthers(init, d, tt);
      assert init + [nodes[|nodes| - 1]] == nodes;
    }
  }

  /** A delimiter at the very start of the text yields an empty first
      node, which the older version keeps and the current one drops. */
  lemma LeadingDelimiter(rest: string, d: string, tt: TextType)
    requires |d| > 0
    requires LegacySplitNode(Plain(d + rest), d, tt).Ok?
    ensures LegacySplitNode(Plain(d + rest), d, tt).value[0] == Plain("")
    ensures SplitDelimiterNode(Plain(d + rest), d, tt).Ok?
    ensures forall i :: 0 <= i < |SplitDelimiterNode(Plain(d + rest), d, tt).value| ==>
              SplitDelimiterNode(Plain(d + rest), d, tt).value[i].text != ""
  {
    var s := d + rest;
    assert s[..|d|] == d;
    assert Find(s, d) == Some(0);
    assert Split(s, d)[0] == "";
    CurrentDropsEmpty(Plain(s), d, tt);
    var secs := Split(s, d);
    KeptIsDropEmptyTyped(secs, |secs|, tt);
  }
}
