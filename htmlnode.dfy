/** The HTML node tree: the base node, leaf nodes and parent nodes, their
    attribute serialisation and their rendering to an HTML string. */
module HtmlNodes {
  import opened Wrappers
  import opened Strings

  /** An attribute dictionary in insertion order; None is a missing `props`. */
  type Props = Option<seq<(string, string)>>

  /** `Node` is the base class HTMLNode with all four fields; `Leaf` and
      `Parent` are its two subclasses, holding the fields they set. */
  datatype HtmlNode =
    | Node(tag: Option<string>, value: Option<string>, children: ChildList, props: Props)
    | Leaf(tag: Option<string>, value: Option<string>, props: Props)
    | Parent(tag: Option<string>, children: ChildList, props: Props)

  /** The `children` field: `Missing` is None, `Given` a Python list. */
  datatype ChildList = Missing | Given(nodes: seq<HtmlNode>)

  /** One attribute, ` key="value"`, with nothing escaped. */
  function Attr(p: (string, string)): string
  {
    " " + p.0 + "=\"" + p.1 + "\""
  }

  function AttrsToHtml(ps: seq<(string, string)>): string
    decreases |ps|
  {
    if ps == [] then "" else AttrsToHtml(ps[..|ps| - 1]) + Attr(ps[|ps| - 1])
  }

  /** HTMLNode.props_to_html. */
  function PropsToHtml(props: Props): string
  {
    match props
    case None => ""
    case Some(ps) => AttrsToHtml(ps)
  }

  function OpenTag(tag: string, props: Props): string
  {
    "<" + tag + PropsToHtml(props) + ">"
  }

  function CloseTag(tag: string): string
  {
    "</" + tag + ">"
  }

  /** to_html of every node class. */
  function ToHtml(n: HtmlNode): Result<string>
    decreases n, 1
  {
    match n
    case Node(_, _, _, _) => Err(NotImplemented)
    case Leaf(tag, value, props) =>
      if value.None? then Err(NoValue)
      else if tag.None? then Ok(value.value)
      else Ok(OpenTag(tag.value, props) + value.value + CloseTag(tag.value))
    case Parent(tag, children, props) =>
      if tag.None? then Err(NoTag)
      else if children.Missing? then Err(MissingChildren)
      else
        var inner :- ChildrenHtml(n, |children.nodes|);
        Ok(OpenTag(tag.value, props) + inner + CloseTag(tag.value))
  }

  /** The rendered first `k` children of parent `p`, concatenated; the first
      child that fails to render decides the error. */
  function ChildrenHtml(p: HtmlNode, k: nat): Result<string>
    requires p.Parent? && p.children.Given? && k <= |p.children.nodes|
    decreases p, 0, k
  {
    if k == 0 then Ok("")
    else
      var front :- ChildrenHtml(p, k - 1);
      var last :- ToHtml(p.children.nodes[k - 1]);
      Ok(front + last)
  }

  /** The nodes whose rendering succeeds: a leaf with a value, and a parent
      with a tag and a child list whose members all render. */
  predicate Renderable(n: HtmlNode)
    decreases n
  {
    match n
    case Node(_, _, _, _) => false
    case Leaf(_, value, _) => value.Some?
    case Parent(tag, children, _) =>
      tag.Some? && children.Given? &&
      forall i :: 0 <= i < |children.nodes| ==> Renderable(children.nodes[i])
  }

  // ---------------------------------------------------------------------
  // Properties

  /** The attributes are emitted once each, in insertion order. */
  lemma {:induction false} PropsInOrder(ps: seq<(string, string)>)
    ensures PropsToHtml(Some(ps)) == Concat(seq(|ps|, i requires 0 <= i < |ps| => Attr(ps[i])))
    decreases |ps|
  {
    var attrs := seq(|ps|, i requires 0 <= i < |ps| => Attr(ps[i]));
    if ps != [] {
      var init := ps[..|ps| - 1];
      PropsInOrder(init);
      var initAttrs := seq(|init|, i requires 0 <= i < |init| => Attr(init[i]));
      assert attrs == initAttrs + [Attr(ps[|ps| - 1])];
      ConcatSnoc(initAttrs, Attr(ps[|ps| - 1]));
    }
  }

  /** props_to_html with no props is the empty string, and an attribute
      dictionary serialises entry by entry. */
  lemma PropsCases(ps: seq<(string, string)>, key: string, value: string)
    ensures PropsToHtml(None) == ""
    ensures PropsToHtml(Some(ps + [(key, value)])) ==
            PropsToHtml(Some(ps)) + " " + key + "=\"" + value + "\""
  {
    var a := PropsToHtml(Some(ps));
    assert (ps + [(key, value)])[..|ps|] == ps;
    assert PropsToHtml(Some(ps + [(key, value)])) == a + Attr((key, value));
    assert a + (" " + key + "=\"" + value + "\"") == a + " " + key + "=\"" + value + "\"";
  }

  /** Rendering the first `k` children is rendering each of them and
      concatenating the strings, in order. */
  lemma {:induction false} ChildrenConcat(p: HtmlNode, k: nat)
    requires p.Parent? && p.children.Given? && k <= |p.children.nodes|
    ensures ChildrenHtml(p, k).Ok? <==>
            forall i :: 0 <= i < k ==> ToHtml(p.children.nodes[i]).Ok?
    ensures ChildrenHtml(p, k).Ok? ==>
            ChildrenHtml(p, k).value ==
            Concat(seq(k, i requires 0 <= i < k => ToHtml(p.children.nodes[i]).value))
    decreases k
  {
    if k > 0 {
      ChildrenConcat(p, k - 1);
      var cs := p.children.nodes;
      if ChildrenHtml(p, k).Ok? {
        var front := ChildrenHtml(p, k - 1).value;
        var last := ToHtml(cs[k - 1]).value;
        assert ChildrenHtml(p, k).value == front + last;
        var htmls := seq(k, i requires 0 <= i < k => ToHtml(cs[i]).value);
        var init := seq(k - 1, i requires 0 <= i < k - 1 => ToHtml(cs[i]).value);
        assert htmls[..k - 1] == init;
        assert htmls == init + [last];
        ConcatSnoc(init, last);
      }
    }
  }

  /** When a child fails to render, its parent fails with the error of the
      first failing child. */
  lemma {:induction false} ChildrenFirstError(p: HtmlNode, k: nat, j: nat)
    requires p.Parent? && p.children.Given? && j < k <= |p.children.nodes|
    requires ToHtml(p.children.nodes[j]).Err?
    requires forall i :: 0 <= i < j ==> ToHtml(p.children.nodes[i]).Ok?
    ensures ChildrenHtml(p, k) == Err(ToHtml(p.children.nodes[j]).error)
    decreases k
  {
    if j < k - 1 {
      ChildrenFirstError(p, k - 1, j);
    } else {
      ChildrenConcat(p, k - 1);
    }
  }

  /** ParentNode.to_html on a tag and a child list: the opening tag with its
      attributes, the rendered children in order with no separator, and the
      closing tag; an empty child list gives `<tag></tag>`. */
  lemma ParentRender(tag: string, cs: seq<HtmlNode>, props: Props)
    ensures var r := ToHtml(Parent(Some(tag), Given(cs), props));
            (r.Ok? <==> forall i :: 0 <= i < |cs| ==> ToHtml(cs[i]).Ok?) &&
            (r.Ok? ==> r.value == OpenTag(tag, props) +
                                   Concat(seq(|cs|, i requires 0 <= i < |cs| => ToHtml(cs[i]).value)) +
                                   CloseTag(tag))
    ensures cs == [] ==> ToHtml(Parent(Some(tag), Given(cs), props)) ==
                         Ok("<" + tag + PropsToHtml(props) + "></" + tag + ">")
  {
    var p := Parent(Some(tag), Given(cs), props);
    ChildrenConcat(p, |cs|);
    if cs == [] {
      assert OpenTag(tag, props) + "" + CloseTag(tag) == "<" + tag + PropsToHtml(props) + "></" + tag + ">";
    }
  }

  /** Rendering fails exactly on the nodes that are not Renderable: the base
      node always, a leaf without a value, a parent without a tag or without
      a child list, and every ancestor of such a node. */
  lemma {:induction false} RenderOkIffRenderable(n: HtmlNode)
    ensures ToHtml(n).Ok? <==> Renderable(n)
    decreases n
  {
    match n
    case Node(_, _, _, _) =>
    case Leaf(_, _, _) =>
    case Parent(tag, children, props) =>
      if tag.Some? && children.Given? {
        var cs := children.nodes;
        forall i | 0 <= i < |cs| ensures ToHtml(cs[i]).Ok? <==> Renderable(cs[i]) {
          RenderOkIffRenderable(cs[i]);
        }
        ChildrenConcat(n, |cs|);
      }
  }

  /** LeafNode.to_html: without a value it fails; without a tag it is the
      value verbatim; otherwise the value between the tags. */
  lemma LeafRender(tag: Option<string>, value: Option<string>, props: Props)
    ensures value.None? ==> ToHtml(Leaf(tag, value, props)) == Err(NoValue)
    ensures value.Some? && tag.None? ==> ToHtml(Leaf(tag, value, props)) == Ok(value.value)
    ensures value.Some? && tag.Some? ==>
            ToHtml(Leaf(tag, value, props)) ==
            Ok("<" + tag.value + PropsToHtml(props) + ">" + value.value + "</" + tag.value + ">")
  {
    if value.Some? && tag.Some? {
      var t, v := tag.value, value.value;
      assert OpenTag(t, props) + v + CloseTag(t) ==
             "<" + t + PropsToHtml(props) + ">" + v + "</" + t + ">";
    }
  }
}
