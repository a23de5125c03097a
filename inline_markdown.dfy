/** The inline tokenizer: splitting text nodes on a delimiter, extracting
    images and links, and the fixed pipeline that turns a run of text into
    typed text nodes. */
module InlineMarkdown {
  import opened Wrappers
  import opened Strings
  import opened TextNodes

  // =====================================================================
  // Splitting on a delimiter

  /** The node section `i` becomes: even sections are plain text, odd
      sections take the target type. */
  function SectionNode(secs: seq<string>, i: nat, tt: TextType): TextNode
    requires i < |secs|
  {
    TextNode(secs[i], if i % 2 == 0 then Text else tt, None)
  }

  /** One node per section, empty sections included. */
  function Typed(secs: seq<string>, tt: TextType): seq<TextNode>
  {
    seq(|secs|, i requires 0 <= i < |secs| => SectionNode(secs, i, tt))
  }

  /** The nodes with non-empty text, in order. */
  function DropEmpty(nodes: seq<TextNode>): seq<TextNode>
    decreases |nodes|
  {
    if nodes == [] then []
    else
      var last := nodes[|nodes| - 1];
      DropEmpty(nodes[..|nodes| - 1]) + (if last.text == "" then [] else [last])
  }

  /** What the section loop emits for the first `k` sections: a node per
      non-empty section, typed by the section's index. */
  function KeptSections(secs: seq<string>, k: nat, tt: TextType): seq<TextNode>
    requires k <= |secs|
    decreases k
  {
    if k == 0 then []
    else KeptSections(secs, k - 1, tt) + (if secs[k - 1] == "" then [] else [SectionNode(secs, k - 1, tt)])
  }

  /** split_nodes_delimiter on one node. */
  function SplitDelimiterNode(node: TextNode, d: string, tt: TextType): Result<seq<TextNode>>
  {
    if node.textType != Text then Ok([node])
    else if d == "" then Err(EmptySeparator)
    else
      var secs := Split(node.text, d);
      if |secs| % 2 == 0 then Err(MissingClosingDelimiter)
      else Ok(KeptSections(secs, |secs|, tt))
  }

  /** split_nodes_delimiter on a list of nodes. */
  function DelimiterSplit(nodes: seq<TextNode>, d: string, tt: TextType): Result<seq<TextNode>>
  {
    FlatMapResult(nodes, n => SplitDelimiterNode(n, d, tt))
  }

  method SplitNodesDelimiter(oldNodes: seq<TextNode>, delimiter: string, textType: TextType)
    returns (r: Result<seq<TextNode>>)
    ensures r == DelimiterSplit(oldNodes, delimiter, textType)
  {
    ghost var f := n => SplitDelimiterNode(n, delimiter, textType);
    var newNodes: seq<TextNode> := [];
    for i := 0 to |oldNodes|
      invariant FlatMapResult(oldNodes[..i], f) == Ok(newNodes)
    {
      FlatMapStep(oldNodes, i, f);
      var node := oldNodes[i];
      if node.textType != Text {
        newNodes := newNodes + [node];
      } else {
        if delimiter == "" {
          FlatMapPrefixErr(oldNodes, i + 1, f);
          return Err(EmptySeparator);
        }
        var sections := Split(node.text, delimiter);
        if |sections| % 2 == 0 {
          FlatMapPrefixErr(oldNodes, i + 1, f);
          return Err(MissingClosingDelimiter);
        }
        var kept := KeepSections(sections, textType);
        newNodes := newNodes + kept;
      }
    }
    assert oldNodes[..|oldNodes|] == oldNodes;
    return Ok(newNodes);
  }

  /** The section loop of split_nodes_delimiter: a node per non-empty
      section, plain for even indices and `textType` for odd ones. */
  method KeepSections(sections: seq<string>, textType: TextType) returns (kept: seq<TextNode>)
    ensures kept == KeptSections(sections, |sections|, textType)
  {
    kept := [];
    for j := 0 to |sections|
      invariant kept == KeptSections(sections, j, textType)
    {
      var section := sections[j];
      if section == "" {
        continue;
      }
      if j % 2 == 0 {
        kept := kept + [TextNode(section, Text, None)];
      } else {
        kept := kept + [TextNode(section, textType, None)];
      }
    }
  }

  // ---------------------------------------------------------------------
  // Properties of the delimiter split

  /** Number of occurrences of `d` that the left-to-right split consumes. */
  function CountOcc(s: string, d: string): nat
    requires |d| > 0
    decreases |s|
  {
    if |s| < |d| then 0
    else if s[..|d|] == d then 1 + CountOcc(s[|d|..], d)
    else CountOcc(s[1..], d)
  }

  /** A split on `d` has one more section than there are delimiters. */
  lemma {:induction false} SplitCount(s: string, d: string)
    requires |d| > 0
    ensures |Split(s, d)| == CountOcc(s, d) + 1
    decreases |s|
  {
    match Find(s, d)
    case None =>
      CountPrefixFree(s, d, |s|);
      assert s[|s|..] == "";
    case Some(i) =>
      var rest := s[i + |d|..];
      SplitCount(rest, d);
      assert Split(s, d) == [s[..i]] + Split(rest, d);
      CountPrefixFree(s, d, i);
      var t := s[i..];
      assert |t| >= |d| && t[..|d|] == d;
      assert t[|d|..] == rest;
      assert CountOcc(t, d) == 1 + CountOcc(rest, d);
  }

  lemma {:induction false} CountPrefixFree(s: string, d: string, i: nat)
    requires |d| > 0 && i <= |s|
    requires forall k :: 0 <= k < i ==> !OccursAt(s, d, k)
    ensures CountOcc(s, d) == CountOcc(s[i..], d)
    decreases i
  {
    if i == 0 {
      assert s[0..] == s;
    } else if |s| < |d| {
    } else {
      assert !OccursAt(s, d, 0);
      assert s[0..|d|] == s[..|d|];
      FreeShift(s, d);
      CountPrefixFree(s[1..], d, i - 1);
      assert s[1..][i - 1..] == s[i..];
    }
  }

  /** A text node raises "missing closing delimiter" exactly when the
      delimiter occurs an odd number of times. */
  lemma OddDelimiterIsError(text: string, d: string, tt: TextType)
    requires |d| > 0
    ensures SplitDelimiterNode(Plain(text), d, tt).Err? <==> CountOcc(text, d) % 2 == 1
    ensures SplitDelimiterNode(Plain(text), d, tt).Err? ==>
            SplitDelimiterNode(Plain(text), d, tt).error == MissingClosingDelimiter
  {
    var secs := Split(text, d);
    SplitCount(text, d);
    Parity(|secs|, CountOcc(text, d));
    assert SplitDelimiterNode(Plain(text), d, tt) ==
           if |secs| % 2 == 0 then Err(MissingClosingDelimiter) else Ok(KeptSections(secs, |secs|, tt));
  }

  lemma Parity(n: nat, c: nat)
    requires n == c + 1
    ensures n % 2 == 0 <==> c % 2 == 1
  {
  }

  /** The kept sections are the typed sections with the empty ones removed;
      none of them is empty. */
  lemma {:induction false} KeptIsDropEmptyTyped(secs: seq<string>, k: nat, tt: TextType)
    requires k <= |secs|
    ensures KeptSections(secs, k, tt) == DropEmpty(Typed(secs[..k], tt))
    ensures forall i :: 0 <= i < |KeptSections(secs, k, tt)| ==> KeptSections(secs, k, tt)[i].text != ""
    decreases k
  {
    if k > 0 {
      KeptIsDropEmptyTyped(secs, k - 1, tt);
      var t := Typed(secs[..k], tt);
      assert t[..k - 1] == Typed(secs[..k - 1], tt);
      assert t[k - 1] == SectionNode(secs, k - 1, tt);
    } else {
      assert Typed(secs[..0], tt) == [];
    }
  }

  /** The node texts, concatenated. */
  function TextOf(nodes: seq<TextNode>): string
    decreases |nodes|
  {
    if nodes == [] then "" else TextOf(nodes[..|nodes| - 1]) + nodes[|nodes| - 1].text
  }

  lemma {:induction false} TextOfAppend(a: seq<TextNode>, b: seq<TextNode>)
    ensures TextOf(a + b) == TextOf(a) + TextOf(b)
    decreases |b|
  {
    if b == [] {
      assert a + b == a;
    } else {
      assert (a + b)[..|a + b| - 1] == a + b[..|b| - 1];
      TextOfAppend(a, b[..|b| - 1]);
    }
  }

  lemma {:induction false} KeptText(secs: seq<string>, k: nat, tt: TextType)
    requires k <= |secs|
    ensures TextOf(KeptSections(secs, k, tt)) == Concat(secs[..k])
    decreases k
  {
    if k == 0 {
      assert secs[..0] == [];
    } else {
      KeptText(secs, k - 1, tt);
      var front := KeptSections(secs, k - 1, tt);
      var sec := secs[k - 1];
      assert secs[..k] == secs[..k - 1] + [sec];
      ConcatSnoc(secs[..k - 1], sec);
      if sec == "" {
        assert KeptSections(secs, k, tt) == front + [];
        assert front + [] == front;
        assert Concat(secs[..k - 1]) + sec == Concat(secs[..k - 1]);
      } else {
        var n := SectionNode(secs, k - 1, tt);
        assert KeptSections(secs, k, tt) == front + [n];
        TextOfSnoc(front, n);
      }
    }
  }

  lemma TextOfSnoc(a: seq<TextNode>, n: TextNode)
    ensures TextOf(a + [n]) == TextOf(a) + n.text
  {
    assert (a + [n])[..|a|] == a;
  }

  /** For one text node, the texts of the output are the input with every
      occurrence of the delimiter deleted (a literal deletion). */
  lemma DelimiterRemovesDelimiters(text: string, d: string, tt: TextType)
    requires |d| > 0
    requires SplitDelimiterNode(Plain(text), d, tt).Ok?
    ensures TextOf(SplitDelimiterNode(Plain(text), d, tt).value) == RemoveAll(text, d)
  {
    var secs := Split(text, d);
    KeptText(secs, |secs|, tt);
    assert secs[..|secs|] == secs;
    ConcatSplit(text, d);
  }

  /** Nodes that are not plain text are copied through unchanged. */
  lemma {:induction false} DelimiterKeepsOthers(nodes: seq<TextNode>, d: string, tt: TextType)
    requires forall i :: 0 <= i < |nodes| ==> nodes[i].textType != Text
    ensures DelimiterSplit(nodes, d, tt) == Ok(nodes)
    decreases |nodes|
  {
    if nodes != [] {
      var init := nodes[..|nodes| - 1];
      assert forall i :: 0 <= i < |init| ==> init[i] == nodes[i];
      DelimiterKeepsOthers(init, d, tt);
      assert init + [nodes[|nodes| - 1]] == nodes;
    }
  }

  /** The split works node by node and keeps the nodes' order: the output
      for `a + b` is the output for `a` followed by the output for `b`. */
  lemma DelimiterSplitAppend(a: seq<TextNode>, b: seq<TextNode>, d: string, tt: TextType)
    ensures DelimiterSplit(a + b, d, tt) ==
            match DelimiterSplit(a, d, tt)
            case Err(e) => Err(e)
            case Ok(x) => Prepend(x, DelimiterSplit(b, d, tt))
  {
    FlatMapAppend(a, b, n => SplitDelimiterNode(n, d, tt));
  }

  // =====================================================================
  // Extracting images and links

  /** The two fixed patterns: `![alt](url)` and `[text](url)` not preceded
      by `!`, with no bracket inside the caption and no parenthesis inside
      the url. */
  datatype Syntax = ImageSyntax | LinkSyntax

  /** One match: the two captured groups and the span `[start, end)`. */
  datatype MdMatch = MdMatch(caption: string, url: string, start: nat, end: nat)

  function Opener(syn: Syntax): string
  {
    if syn == ImageSyntax then "![" else "["
  }

  /** The markdown text of a match, as the source rebuilds it. */
  function Token(caption: string, url: string, syn: Syntax): string
  {
    Opener(syn) + Closer(caption, url)
  }

  /** The part of a token after its opener: `caption](url)`. */
  function Closer(caption: string, url: string): string
  {
    caption + "](" + url + ")"
  }

  function MediaType(syn: Syntax): TextType
  {
    if syn == ImageSyntax then Image else Link
  }

  predicate NoBrackets(t: string)
  {
    forall i :: 0 <= i < |t| ==> t[i] != '[' && t[i] != ']'
  }

  predicate NoParens(t: string)
  {
    forall i :: 0 <= i < |t| ==> t[i] != '(' && t[i] != ')'
  }

  /** The first index at or after `i` holding `a` or `b`, or the length. */
  function SkipTo(s: string, i: nat, a: char, b: char): (j: nat)
    requires i <= |s|
    ensures i <= j <= |s|
    ensures forall k :: i <= k < j ==> s[k] != a && s[k] != b
    ensures j < |s| ==> s[j] == a || s[j] == b
    decreases |s| - i
  {
    if i == |s| || s[i] == a || s[i] == b then i else SkipTo(s, i + 1, a, b)
  }

  /** The pattern can begin at `p`: the opener is there and, for a link,
      the negative look-behind `(?<!!)` holds. */
  predicate OpensAt(s: string, p: nat, syn: Syntax)
  {
    OccursAt(s, Opener(syn), p) && (syn == LinkSyntax ==> p == 0 || s[p - 1] != '!')
  }

  /** The rest of the pattern, from the caption's first index `ls`. Each
      group is a run of characters outside its excluded class, so the
      longest run is the only candidate and the match, if any, is unique. */
  function CloseFrom(s: string, p: nat, ls: nat): (r: Option<MdMatch>)
    requires ls <= |s|
    ensures r.Some? ==> r.value.start == p && ls < r.value.end <= |s|
  {
    var k := SkipTo(s, ls, '[', ']');
    if k + 1 < |s| && s[k] == ']' && s[k + 1] == '(' then
      var e := SkipTo(s, k + 2, '(', ')');
      if e < |s| && s[e] == ')' then Some(MdMatch(s[ls..k], s[k + 2..e], p, e + 1)) else None
    else None
  }

  /** The match of the pattern starting at index `p`. */
  function MatchAt(s: string, p: nat, syn: Syntax): (r: Option<MdMatch>)
    ensures r.Some? ==> r.value.start == p && p < r.value.end <= |s|
  {
    if OpensAt(s, p, syn) then CloseFrom(s, p, p + |Opener(syn)|) else None
  }

  /** A matcher over a text of length `n`: the match it reports at `p`, if
      any, starts at `p`, is not empty and ends inside the text. */
  ghost predicate Matcher(n: nat, at: nat -> Option<MdMatch>)
  {
    forall p: nat :: at(p).Some? ==> at(p).value.start == p && p < at(p).value.end <= n
  }

  /** `re.findall` from index `p`: the leftmost match, then the search goes
      on after its end. */
  function FindAll(n: nat, p: nat, at: nat -> Option<MdMatch>): (r: seq<MdMatch>)
    requires Matcher(n, at)
    ensures forall i :: 0 <= i < |r| ==> p <= r[i].start
    decreases n - p
  {
    if p >= n then []
    else match at(p)
      case None => FindAll(n, p + 1, at)
      case Some(m) => [m] + FindAll(n, m.end, at)
  }

  /** Every reported match is the matcher's match at its own start. */
  lemma {:induction false} FindAllSound(n: nat, p: nat, at: nat -> Option<MdMatch>)
    requires Matcher(n, at)
    ensures forall i :: 0 <= i < |FindAll(n, p, at)| ==>
              at(FindAll(n, p, at)[i].start) == Some(FindAll(n, p, at)[i])
    decreases n - p
  {
    if p < n {
      match at(p)
      case None =>
        FindAllSound(n, p + 1, at);
      case Some(m) =>
        FindAllSound(n, m.end, at);
        var rest := FindAll(n, m.end, at);
        var r := [m] + rest;
        assert FindAll(n, p, at) == r;
        forall i | 0 <= i < |r| ensures at(r[i].start) == Some(r[i]) {
          if i > 0 {
            assert r[i] == rest[i - 1];
          }
        }
    }
  }

  /** The reported matches are left to right, without overlap. */
  lemma {:induction false} FindAllOrdered(n: nat, p: nat, at: nat -> Option<MdMatch>)
    requires Matcher(n, at)
    ensures forall i :: 0 <= i < |FindAll(n, p, at)| - 1 ==>
              FindAll(n, p, at)[i].end <= FindAll(n, p, at)[i + 1].start
    decreases n - p
  {
    if p < n {
      match at(p)
      case None =>
        FindAllOrdered(n, p + 1, at);
      case Some(m) =>
        FindAllOrdered(n, m.end, at);
        var rest := FindAll(n, m.end, at);
        var r := [m] + rest;
        assert FindAll(n, p, at) == r;
        forall i | 0 <= i < |r| - 1 ensures r[i].end <= r[i + 1].start {
          if i > 0 {
            assert r[i] == rest[i - 1] && r[i + 1] == rest[i];
          }
        }
    }
  }

  /** Index `q` lies inside one of the matches `r`. */
  predicate Covered(r: seq<MdMatch>, q: nat)
  {
    exists i :: 0 <= i < |r| && r[i].start <= q < r[i].end
  }

  /** No match is missed: wherever the matcher matches, at or after `p`,
      that index lies inside a reported match. */
  lemma {:induction false} FindAllComplete(n: nat, p: nat, at: nat -> Option<MdMatch>, q: nat)
    requires Matcher(n, at)
    requires p <= q < n && at(q).Some?
    ensures Covered(FindAll(n, p, at), q)
    decreases n - p
  {
    match at(p)
    case None =>
      FindAllComplete(n, p + 1, at, q);
    case Some(m) =>
      var rest := FindAll(n, m.end, at);
      var r := [m] + rest;
      assert FindAll(n, p, at) == r;
      if q < m.end {
        assert r[0].start <= q < r[0].end;
      } else {
        FindAllComplete(n, m.end, at, q);
        var j :| 0 <= j < |rest| && rest[j].start <= q < rest[j].end;
        assert r[j + 1] == rest[j];
      }
  }

  /** The pattern's matcher over `s`. */
  function MatcherOf(s: string, syn: Syntax): (at: nat -> Option<MdMatch>)
    ensures Matcher(|s|, at)
  {
    (q: nat) => MatchAt(s, q, syn)
  }

  /** `re.findall` of the pattern over `s`. */
  function Scan(s: string, syn: Syntax): seq<MdMatch>
  {
    FindAll(|s|, 0, MatcherOf(s, syn))
  }

  /** Every match Scan reports is the match at its start, and they run
      left to right without overlap. */
  lemma ScanSound(s: string, syn: Syntax)
    ensures forall i :: 0 <= i < |Scan(s, syn)| ==>
              MatchAt(s, Scan(s, syn)[i].start, syn) == Some(Scan(s, syn)[i])
    ensures forall i :: 0 <= i < |Scan(s, syn)| - 1 ==> Scan(s, syn)[i].end <= Scan(s, syn)[i + 1].start
  {
    FindAllSound(|s|, 0, MatcherOf(s, syn));
    FindAllOrdered(|s|, 0, MatcherOf(s, syn));
  }

  /** Scan misses no match: every index where the pattern matches lies
      inside a reported match. */
  lemma ScanComplete(s: string, syn: Syntax, q: nat)
    requires q < |s| && MatchAt(s, q, syn).Some?
    ensures Covered(Scan(s, syn), q)
  {
    FindAllComplete(|s|, 0, MatcherOf(s, syn), q);
  }

  /** What the closing part of a match guarantees. */
  /** The indices a successful CloseFrom stops at: `k` holds the `]`, the
      `(` follows it, and `e` holds the `)`. */
  lemma CloseIndices(s: string, p: nat, ls: nat, m: MdMatch)
    requires ls <= |s| && CloseFrom(s, p, ls) == Some(m)
    ensures var k := SkipTo(s, ls, '[', ']');
            k + 1 < |s| && s[k] == ']' && s[k + 1] == '(' &&
            var e := SkipTo(s, k + 2, '(', ')');
            e < |s| && s[e] == ')' && m == MdMatch(s[ls..k], s[k + 2..e], p, e + 1)
  {
  }

  /** The caption run holds no bracket, the url run no parenthesis. */
  lemma RunsFree(s: string, ls: nat, k: nat, e: nat)
    requires ls <= |s| && k == SkipTo(s, ls, '[', ']') && k + 2 <= |s| && e == SkipTo(s, k + 2, '(', ')')
    ensures NoBrackets(s[ls..k]) && NoParens(s[k + 2..e])
  {
    var caption, url := s[ls..k], s[k + 2..e];
    forall i | 0 <= i < |caption| ensures caption[i] != '[' && caption[i] != ']' {
      assert caption[i] == s[ls + i];
    }
    forall i | 0 <= i < |url| ensures url[i] != '(' && url[i] != ')' {
      assert url[i] == s[k + 2 + i];
    }
  }

  /** The text from `ls` to just past `e` spells `caption](url)`. */
  lemma CloseSpelled(s: string, ls: nat, k: nat, e: nat)
    requires ls <= k && k + 2 <= e < |s| && s[k] == ']' && s[k + 1] == '(' && s[e] == ')'
    ensures OccursAt(s, Closer(s[ls..k], s[k + 2..e]), ls)
  {
    assert OccursAt(s, "](", k) by { assert s[k..k + 2] == "]("; }
    assert OccursAt(s, ")", e) by { assert s[e..e + 1] == ")"; }
    OccursConcat(s, s[ls..k], "](", ls);
    OccursConcat(s, s[ls..k] + "](", s[k + 2..e], ls);
    OccursConcat(s, s[ls..k] + "](" + s[k + 2..e], ")", ls);
  }

  lemma CloseFacts(s: string, p: nat, ls: nat, m: MdMatch)
    requires ls <= |s| && CloseFrom(s, p, ls) == Some(m)
    ensures OccursAt(s, Closer(m.caption, m.url), ls)
    ensures m.end == ls + |Closer(m.caption, m.url)|
    ensures NoBrackets(m.caption) && NoParens(m.url)
  {
    CloseIndices(s, p, ls, m);
    var k := SkipTo(s, ls, '[', ']');
    var e := SkipTo(s, k + 2, '(', ')');
    RunsFree(s, ls, k, e);
    CloseSpelled(s, ls, k, e);
  }

  lemma MatchOpens(s: string, q: nat, syn: Syntax, m: MdMatch)
    requires MatchAt(s, q, syn) == Some(m)
    ensures OpensAt(s, q, syn)
    ensures q + |Opener(syn)| <= |s| && CloseFrom(s, q, q + |Opener(syn)|) == Some(m)
  {
  }

  /** A match is its token, sitting at its start: the caption holds no
      bracket, the url no parenthesis, and a link's `[` does not follow a
      `!`. */
  lemma MatchFacts(s: string, q: nat, syn: Syntax, m: MdMatch)
    requires MatchAt(s, q, syn) == Some(m)
    ensures TokenAt(s, m, syn) && NoBrackets(m.caption) && NoParens(m.url)
    ensures syn == LinkSyntax ==> q == 0 || s[q - 1] != '!'
  {
    MatchOpens(s, q, syn, m);
    var open := Opener(syn);
    CloseFacts(s, q, q + |open|, m);
    OccursConcat(s, open, Closer(m.caption, m.url), q);
  }

  /** The token of `m` occurs at its start and ends at its end. */
  predicate TokenAt(s: string, m: MdMatch, syn: Syntax)
  {
    var tok := Token(m.caption, m.url, syn);
    OccursAt(s, tok, m.start) && m.end == m.start + |tok|
  }

  /** A list of matches laid out left to right in `s`. */
  predicate Laid(s: string, ms: seq<MdMatch>, syn: Syntax)
  {
    (forall i :: 0 <= i < |ms| ==> TokenAt(s, ms[i], syn)) &&
    (forall i :: 0 <= i < |ms| - 1 ==> ms[i].end <= ms[i + 1].start)
  }

  lemma ScanLaid(s: string, syn: Syntax)
    ensures Laid(s, Scan(s, syn), syn)
  {
    var ms := Scan(s, syn);
    ScanSound(s, syn);
    forall i | 0 <= i < |ms| ensures TokenAt(s, ms[i], syn) {
      MatchFacts(s, ms[i].start, syn, ms[i]);
    }
  }

  function Pairs(ms: seq<MdMatch>): seq<(string, string)>
  {
    seq(|ms|, i requires 0 <= i < |ms| => (ms[i].caption, ms[i].url))
  }

  /** extract_markdown_images: the (alt, url) pairs, left to right. */
  function ExtractMarkdownImages(text: string): (r: seq<(string, string)>)
    ensures forall i :: 0 <= i < |r| ==> NoBrackets(r[i].0) && NoParens(r[i].1)
  {
    var ms := Scan(text, ImageSyntax);
    ScanSound(text, ImageSyntax);
    assert forall i :: 0 <= i < |ms| ==> NoBrackets(ms[i].caption) && NoParens(ms[i].url) by {
      forall i | 0 <= i < |ms| ensures NoBrackets(ms[i].caption) && NoParens(ms[i].url) {
        MatchFacts(text, ms[i].start, ImageSyntax, ms[i]);
      }
    }
    Pairs(ms)
  }

  /** extract_markdown_links: the (text, url) pairs, left to right. */
  function ExtractMarkdownLinks(text: string): (r: seq<(string, string)>)
    ensures forall i :: 0 <= i < |r| ==> NoBrackets(r[i].0) && NoParens(r[i].1)
  {
    var ms := Scan(text, LinkSyntax);
    ScanSound(text, LinkSyntax);
    assert forall i :: 0 <= i < |ms| ==> NoBrackets(ms[i].caption) && NoParens(ms[i].url) by {
      forall i | 0 <= i < |ms| ensures NoBrackets(ms[i].caption) && NoParens(ms[i].url) {
        MatchFacts(text, ms[i].start, LinkSyntax, ms[i]);
      }
    }
    Pairs(ms)
  }

  function Extract(text: string, syn: Syntax): seq<(string, string)>
  {
    if syn == ImageSyntax then ExtractMarkdownImages(text) else ExtractMarkdownLinks(text)
  }

  /** SkipTo stops at the end of a run free of `a` and `b`. */
  lemma {:induction false} SkipToRun(s: string, i: nat, j: nat, a: char, b: char)
    requires i <= j <= |s|
    requires forall k :: i <= k < j ==> s[k] != a && s[k] != b
    requires j == |s| || s[j] == a || s[j] == b
    ensures SkipTo(s, i, a, b) == j
    decreases j - i
  {
    if i < j {
      SkipToRun(s, i + 1, j, a, b);
    }
  }

  /** Where the parts of a token sit. */
  lemma TokenLayout(caption: string, url: string, syn: Syntax)
    ensures var s := Token(caption, url, syn);
            var k := |Opener(syn)| + |caption|;
            |s| == k + 3 + |url| && OccursAt(s, Opener(syn), 0) &&
            OccursAt(s, caption, |Opener(syn)|) && s[k] == ']' && s[k + 1] == '(' &&
            OccursAt(s, url, k + 2) && s[k + 2 + |url|] == ')'
  {
    var op := Opener(syn);
    var s := Token(caption, url, syn);
    var k := |op| + |caption|;
    assert s == (op + caption) + ("](" + url + ")");
    assert s[..|op|] == op;
    assert s[|op|..k] == caption;
    var tail := "](" + url + ")";
    assert s[k..] == tail;
    assert tail[0] == ']' && tail[1] == '(' && tail[2..2 + |url|] == url && tail[2 + |url|] == ')';
  }

  /** Inside a slice free of `a` and `b` there is no `a` or `b`. */
  lemma RunFree(s: string, t: string, i: nat, a: char, b: char)
    requires OccursAt(s, t, i)
    requires forall m :: 0 <= m < |t| ==> t[m] != a && t[m] != b
    ensures forall m :: i <= m < i + |t| ==> s[m] != a && s[m] != b
  {
    forall m | i <= m < i + |t| ensures s[m] != a && s[m] != b {
      assert s[m] == s[i..i + |t|][m - i] == t[m - i];
    }
  }

  /** A text laid out as a token, with a bracket-free caption and a
      parenthesis-free url, is matched at 0 as a whole. */
  lemma LayoutMatches(s: string, caption: string, url: string, syn: Syntax)
    requires NoBrackets(caption) && NoParens(url)
    requires var k := |Opener(syn)| + |caption|;
             |s| == k + 3 + |url| && OccursAt(s, Opener(syn), 0) &&
             OccursAt(s, caption, |Opener(syn)|) && s[k] == ']' && s[k + 1] == '(' &&
             OccursAt(s, url, k + 2) && s[k + 2 + |url|] == ')'
    ensures MatchAt(s, 0, syn) == Some(MdMatch(caption, url, 0, |s|))
  {
    var o := |Opener(syn)|;
    var k := o + |caption|;
    var e := k + 2 + |url|;
    RunFree(s, caption, o, '[', ']');
    RunFree(s, url, k + 2, '(', ')');
    SkipToRun(s, o, k, '[', ']');
    SkipToRun(s, k + 2, e, '(', ')');
    assert OpensAt(s, 0, syn);
  }

  /** The pattern matches a lone token `![alt](url)` or `[text](url)`
      exactly, the alt or text possibly empty. */
  lemma TokenMatches(caption: string, url: string, syn: Syntax)
    requires NoBrackets(caption) && NoParens(url)
    ensures var s := Token(caption, url, syn);
            MatchAt(s, 0, syn) == Some(MdMatch(caption, url, 0, |s|))
  {
    TokenLayout(caption, url, syn);
    LayoutMatches(Token(caption, url, syn), caption, url, syn);
  }

  /** Extraction inverts the token syntax: a text that is one token yields
      exactly that token's pair. */
  lemma TokenExtracted(caption: string, url: string, syn: Syntax)
    requires NoBrackets(caption) && NoParens(url)
    ensures Extract(Token(caption, url, syn), syn) == [(caption, url)]
  {
    var s := Token(caption, url, syn);
    TokenMatches(caption, url, syn);
    var at := MatcherOf(s, syn);
    assert at(0) == Some(MdMatch(caption, url, 0, |s|));
    assert FindAll(|s|, |s|, at) == [];
    assert Scan(s, syn) == [MdMatch(caption, url, 0, |s|)];
  }

  // =====================================================================
  // Splitting out images and links

  function MediaNode(p: (string, string), syn: Syntax): TextNode
  {
    TextNode(p.0, MediaType(syn), Some(p.1))
  }

  /** The plain text before a token, when it is not empty. */
  function Gap(before: string): seq<TextNode>
  {
    if before == "" then [] else [Plain(before)]
  }

  /** The loop over the matches of one text node: cut `remaining` at the
      first occurrence of each match's token, emitting the non-empty text
      before it and the image or link node; the non-empty rest comes last. */
  function MediaPieces(remaining: string, pairs: seq<(string, string)>, syn: Syntax): Result<seq<TextNode>>
    decreases |pairs|
  {
    if pairs == [] then Ok(Gap(remaining))
    else
      match SplitOnce(remaining, Token(pairs[0].0, pairs[0].1, syn))
      case None => Err(TokenNotFound)
      case Some((before, after)) =>
        Prepend(Gap(before) + [MediaNode(pairs[0], syn)], MediaPieces(after, pairs[1..], syn))
  }

  /** A text node that is one image or link token becomes exactly that
      image or link node. */
  lemma TokenSplit(caption: string, url: string, syn: Syntax)
    requires NoBrackets(caption) && NoParens(url)
    ensures MediaSplit([Plain(Token(caption, url, syn))], syn) ==
            Ok([TextNode(caption, MediaType(syn), Some(url))])
  {
    var tok := Token(caption, url, syn);
    TokenExtracted(caption, url, syn);
    WholeTokenPieces(tok, (caption, url), syn);
    FlatMapSingle(Plain(tok), n => SplitMediaNode(n, syn));
  }

  /** Cutting a text that is exactly the token leaves no plain text. */
  lemma WholeTokenPieces(tok: string, pr: (string, string), syn: Syntax)
    requires tok == Token(pr.0, pr.1, syn)
    ensures MediaPieces(tok, [pr], syn) == Ok([MediaNode(pr, syn)])
  {
    SplitOnceSelf(tok);
    MediaPiecesStep(tok, [pr], syn);
    assert [pr][1..] == [];
    assert Gap([]) + [MediaNode(pr, syn)] == [MediaNode(pr, syn)];
    assert MediaPieces([], [], syn) == Ok([]);
    assert [MediaNode(pr, syn)] + [] == [MediaNode(pr, syn)];
  }

  /** One turn of the loop in MediaPieces. */
  lemma MediaPiecesStep(remaining: string, pairs: seq<(string, string)>, syn: Syntax)
    requires pairs != []
    ensures var parts := SplitOnce(remaining, Token(pairs[0].0, pairs[0].1, syn));
            MediaPieces(remaining, pairs, syn) ==
            if parts.None? then Err(TokenNotFound)
            else Prepend(Gap(parts.value.0) + [MediaNode(pairs[0], syn)],
                         MediaPieces(parts.value.1, pairs[1..], syn))
  {
  }

  /** One turn of the loop cuts `remaining` at the leftmost occurrence `i`
      of the first pair's token: the text before it holds no earlier
      occurrence, and the rest is cut with the remaining pairs. A token that
      does not occur at all is the unpacking error. */
  lemma MediaPiecesCut(remaining: string, pairs: seq<(string, string)>, syn: Syntax) returns (i: nat)
    requires pairs != []
    ensures var tok := Token(pairs[0].0, pairs[0].1, syn);
            Free(remaining, tok) ==> MediaPieces(remaining, pairs, syn) == Err(TokenNotFound)
    ensures var tok := Token(pairs[0].0, pairs[0].1, syn);
            !Free(remaining, tok) ==>
              OccursAt(remaining, tok, i) &&
              (forall k :: 0 <= k < i ==> !OccursAt(remaining, tok, k)) &&
              MediaPieces(remaining, pairs, syn) ==
              Prepend(Gap(remaining[..i]) + [MediaNode(pairs[0], syn)],
                      MediaPieces(remaining[i + |tok|..], pairs[1..], syn))
  {
    var tok := Token(pairs[0].0, pairs[0].1, syn);
    MediaPiecesStep(remaining, pairs, syn);
    match SplitOnce(remaining, tok)
    case None =>
      i := 0;
    case Some((before, after)) =>
      i := |before|;
      assert remaining == before + tok + after;
      assert remaining[..i] == before;
      assert remaining[i..i + |tok|] == tok;
      assert remaining[i + |tok|..] == after;
  }

  /** split_nodes_image / split_nodes_link on one node. */
  function SplitMediaNode(node: TextNode, syn: Syntax): Result<seq<TextNode>>
  {
    if node.textType != Text then Ok([node])
    else
      var pairs := Extract(node.text, syn);
      if |pairs| == 0 then Ok([node]) else MediaPieces(node.text, pairs, syn)
  }

  /** split_nodes_image / split_nodes_link on a list of nodes. */
  function MediaSplit(nodes: seq<TextNode>, syn: Syntax): Result<seq<TextNode>>
  {
    FlatMapResult(nodes, n => SplitMediaNode(n, syn))
  }

  /** The loop body of split_nodes_image / split_nodes_link for one text
      node with at least one match. */
  method SplitMediaText(text: string, matches: seq<(string, string)>, syn: Syntax)
    returns (r: Result<seq<TextNode>>)
    ensures r == MediaPieces(text, matches, syn)
  {
    ghost var whole := MediaPieces(text, matches, syn);
    var newNodes: seq<TextNode> := [];
    var remaining := text;
    assert matches[0..] == matches;
    PrependEmpty(whole);
    for j := 0 to |matches|
      invariant Prepend(newNodes, MediaPieces(remaining, matches[j..], syn)) == whole
    {
      var caption, url := matches[j].0, matches[j].1;
      var token := Token(caption, url, syn);
      var parts := SplitOnce(remaining, token);
      ghost var rest := matches[j..];
      assert rest[0] == matches[j] && rest[1..] == matches[j + 1..];
      MediaPiecesStep(remaining, rest, syn);
      if parts.None? {
        return Err(TokenNotFound);
      }
      var before := parts.value.0;
      ghost var piece := Gap(before) + [MediaNode(matches[j], syn)];
      ghost var tail := MediaPieces(parts.value.1, matches[j + 1..], syn);
      assert MediaPieces(remaining, rest, syn) == Prepend(piece, tail);
      PrependTwice(newNodes, piece, tail);
      ghost var base := newNodes;
      remaining := parts.value.1;
      if before != "" {
        newNodes := newNodes + [TextNode(before, Text, None)];
      }
      newNodes := newNodes + [TextNode(caption, MediaType(syn), Some(url))];
      assert newNodes == base + piece;
    }
    assert matches[|matches|..] == [];
    if remaining != "" {
      newNodes := newNodes + [TextNode(remaining, Text, None)];
    } else {
      assert newNodes + [] == newNodes;
    }
    return Ok(newNodes);
  }

  method SplitNodesMedia(oldNodes: seq<TextNode>, syn: Syntax) returns (r: Result<seq<TextNode>>)
    ensures r == MediaSplit(oldNodes, syn)
  {
    ghost var f := n => SplitMediaNode(n, syn);
    var newNodes: seq<TextNode> := [];
    for i := 0 to |oldNodes|
      invariant FlatMapResult(oldNodes[..i], f) == Ok(newNodes)
    {
      FlatMapStep(oldNodes, i, f);
      var node := oldNodes[i];
      if node.textType != Text {
        newNodes := newNodes + [node];
        continue;
      }
      var matches := if syn == ImageSyntax then ExtractMarkdownImages(node.text)
                     else ExtractMarkdownLinks(node.text);
      if |matches| == 0 {
        newNodes := newNodes + [node];
        continue;
      }
      var pieces := SplitMediaText(node.text, matches, syn);
      if pieces.Err? {
        FlatMapPrefixErr(oldNodes, i + 1, f);
        return Err(pieces.error);
      }
      newNodes := newNodes + pieces.value;
    }
    assert oldNodes[..|oldNodes|] == oldNodes;
    return Ok(newNodes);
  }

  /** split_nodes_image. */
  method SplitNodesImage(oldNodes: seq<TextNode>) returns (r: Result<seq<TextNode>>)
    ensures r == MediaSplit(oldNodes, ImageSyntax)
  {
    r := SplitNodesMedia(oldNodes, ImageSyntax);
  }

  /** split_nodes_link. */
  method SplitNodesLink(oldNodes: seq<TextNode>) returns (r: Result<seq<TextNode>>)
    ensures r == MediaSplit(oldNodes, LinkSyntax)
  {
    r := SplitNodesMedia(oldNodes, LinkSyntax);
  }

  // ---------------------------------------------------------------------
  // Properties of the image and link split

  /** The markdown a node stands for. */
  function Markup(n: TextNode): string
  {
    var url := if n.url.Some? then n.url.value else "";
    match n.textType
    case Text => n.text
    case Bold => "**" + n.text + "**"
    case Italic => "_" + n.text + "_"
    case Code => "`" + n.text + "`"
    case Image => Token(n.text, url, ImageSyntax)
    case Link => Token(n.text, url, LinkSyntax)
  }

  /** The markdown a list of nodes stands for. */
  function SourceOf(nodes: seq<TextNode>): string
    decreases |nodes|
  {
    if nodes == [] then "" else Markup(nodes[0]) + SourceOf(nodes[1..])
  }

  lemma {:induction false} SourceOfAppend(a: seq<TextNode>, b: seq<TextNode>)
    ensures SourceOf(a + b) == SourceOf(a) + SourceOf(b)
    decreases |a|
  {
    if a == [] {
      assert [] + b == b;
    } else {
      assert (a + b)[0] == a[0] && (a + b)[1..] == a[1..] + b;
      SourceOfAppend(a[1..], b);
      var h, x, y := Markup(a[0]), SourceOf(a[1..]), SourceOf(b);
      assert SourceOf(a + b) == h + SourceOf(a[1..] + b);
      assert h + (x + y) == (h + x) + y;
    }
  }

  lemma SourceOfSingle(n: TextNode)
    ensures SourceOf([n]) == Markup(n)
  {
    assert [n][1..] == [];
    assert Markup(n) + "" == Markup(n);
  }

  lemma GapSource(t: string)
    ensures SourceOf(Gap(t)) == t
  {
    if t != "" {
      SourceOfSingle(Plain(t));
    }
  }

  /** An image or link node stands for its token. */
  lemma MediaMarkup(p: (string, string), syn: Syntax)
    ensures Markup(MediaNode(p, syn)) == Token(p.0, p.1, syn)
  {
  }

  /** Cutting a text at its tokens loses nothing: the pieces, written back
      as markdown, are the text. */
  lemma {:induction false} PiecesSource(remaining: string, pairs: seq<(string, string)>, syn: Syntax)
    requires MediaPieces(remaining, pairs, syn).Ok?
    ensures SourceOf(MediaPieces(remaining, pairs, syn).value) == remaining
    decreases |pairs|
  {
    if pairs == [] {
      GapSource(remaining);
    } else {
      var tok := Token(pairs[0].0, pairs[0].1, syn);
      MediaPiecesStep(remaining, pairs, syn);
      var before, after := SplitOnce(remaining, tok).value.0, SplitOnce(remaining, tok).value.1;
      PiecesSource(after, pairs[1..], syn);
      var media := MediaNode(pairs[0], syn);
      var head := Gap(before) + [media];
      var rest := MediaPieces(after, pairs[1..], syn).value;
      assert MediaPieces(remaining, pairs, syn).value == head + rest;
      SourceOfAppend(head, rest);
      SourceOfAppend(Gap(before), [media]);
      GapSource(before);
      SourceOfSingle(media);
      MediaMarkup(pairs[0], syn);
      assert remaining == before + tok + after;
    }
  }

  /** The image or link nodes of a list, in order. */
  function MediaOnly(nodes: seq<TextNode>): seq<TextNode>
    decreases |nodes|
  {
    if nodes == [] then []
    else (if nodes[0].textType == Text then [] else [nodes[0]]) + MediaOnly(nodes[1..])
  }

  lemma {:induction false} MediaOnlyAppend(a: seq<TextNode>, b: seq<TextNode>)
    ensures MediaOnly(a + b) == MediaOnly(a) + MediaOnly(b)
    decreases |a|
  {
    if a == [] {
      assert [] + b == b;
    } else {
      assert (a + b)[0] == a[0] && (a + b)[1..] == a[1..] + b;
      MediaOnlyAppend(a[1..], b);
      var h := if a[0].textType == Text then [] else [a[0]];
      assert h + (MediaOnly(a[1..]) + MediaOnly(b)) == (h + MediaOnly(a[1..])) + MediaOnly(b);
    }
  }

  /** The image or link nodes the extracted pairs stand for. */
  function MediaNodes(pairs: seq<(string, string)>, syn: Syntax): seq<TextNode>
  {
    seq(|pairs|, i requires 0 <= i < |pairs| => MediaNode(pairs[i], syn))
  }

  lemma MediaNodesCons(pairs: seq<(string, string)>, syn: Syntax)
    requires pairs != []
    ensures MediaNodes(pairs, syn) == [MediaNode(pairs[0], syn)] + MediaNodes(pairs[1..], syn)
  {
    var t := MediaNodes(pairs[1..], syn);
    assert forall i :: 0 <= i < |t| ==> t[i] == MediaNode(pairs[i + 1], syn);
  }

  /** A piece of a cut text: a non-empty plain text, or an image or link
      node holding its url. */
  predicate Piece(n: TextNode, syn: Syntax)
  {
    if n.textType == Text then n.text != "" && n.url.None?
    else n.textType == MediaType(syn) && n.url.Some?
  }

  predicate Pieces(ns: seq<TextNode>, syn: Syntax)
  {
    forall i :: 0 <= i < |ns| ==> Piece(ns[i], syn)
  }

  lemma PiecesAppend(a: seq<TextNode>, b: seq<TextNode>, syn: Syntax)
    requires Pieces(a, syn) && Pieces(b, syn)
    ensures Pieces(a + b, syn)
  {
    forall i | 0 <= i < |a + b| ensures Piece((a + b)[i], syn) {
      if i < |a| {
        assert (a + b)[i] == a[i];
      } else {
        assert (a + b)[i] == b[i - |a|];
      }
    }
  }

  /** What one turn of the cut emits before the rest. */
  lemma HeadShape(before: string, p: (string, string), syn: Syntax)
    ensures Pieces(Gap(before) + [MediaNode(p, syn)], syn)
    ensures MediaOnly(Gap(before) + [MediaNode(p, syn)]) == [MediaNode(p, syn)]
  {
    var media := MediaNode(p, syn);
    MediaOnlyAppend(Gap(before), [media]);
    assert [media][1..] == [];
    if before != "" {
      assert [Plain(before)][1..] == [];
    }
  }

  /** The cut emits one image or link node per extracted pair, in order. */
  lemma {:induction false} PiecesMedia(remaining: string, pairs: seq<(string, string)>, syn: Syntax)
    requires MediaPieces(remaining, pairs, syn).Ok?
    ensures MediaOnly(MediaPieces(remaining, pairs, syn).value) == MediaNodes(pairs, syn)
    decreases |pairs|
  {
    if pairs == [] {
      if remaining != "" {
        assert [Plain(remaining)][1..] == [];
      }
    } else {
      var tok := Token(pairs[0].0, pairs[0].1, syn);
      MediaPiecesStep(remaining, pairs, syn);
      var before, after := SplitOnce(remaining, tok).value.0, SplitOnce(remaining, tok).value.1;
      PiecesMedia(after, pairs[1..], syn);
      var head := Gap(before) + [MediaNode(pairs[0], syn)];
      var rest := MediaPieces(after, pairs[1..], syn).value;
      assert MediaPieces(remaining, pairs, syn).value == head + rest;
      HeadShape(before, pairs[0], syn);
      MediaOnlyAppend(head, rest);
      MediaNodesCons(pairs, syn);
    }
  }

  /** Besides those, the cut emits only non-empty plain text. */
  lemma {:induction false} PiecesKinds(remaining: string, pairs: seq<(string, string)>, syn: Syntax)
    requires MediaPieces(remaining, pairs, syn).Ok?
    ensures Pieces(MediaPieces(remaining, pairs, syn).value, syn)
    decreases |pairs|
  {
    if pairs != [] {
      var tok := Token(pairs[0].0, pairs[0].1, syn);
      MediaPiecesStep(remaining, pairs, syn);
      var before, after := SplitOnce(remaining, tok).value.0, SplitOnce(remaining, tok).value.1;
      PiecesKinds(after, pairs[1..], syn);
      var head := Gap(before) + [MediaNode(pairs[0], syn)];
      var rest := MediaPieces(after, pairs[1..], syn).value;
      assert MediaPieces(remaining, pairs, syn).value == head + rest;
      HeadShape(before, pairs[0], syn);
      PiecesAppend(head, rest, syn);
    }
  }

  /** No two plain text nodes follow each other. */
  predicate PlainApart(ns: seq<TextNode>)
  {
    forall j :: 0 <= j < |ns| - 1 && ns[j].textType == Text ==> ns[j + 1].textType != Text
  }

  /** Two runs without adjacent plain nodes, the first ending in a
      non-plain node, join into one. */
  lemma PlainApartAppend(a: seq<TextNode>, b: seq<TextNode>)
    requires PlainApart(a) && PlainApart(b)
    requires a != [] && a[|a| - 1].textType != Text
    ensures PlainApart(a + b)
  {
    var ab := a + b;
    forall j | 0 <= j < |ab| - 1 && ab[j].textType == Text
      ensures ab[j + 1].textType != Text
    {
      if j + 1 < |a| {
        assert ab[j] == a[j] && ab[j + 1] == a[j + 1];
      } else if j + 1 > |a| {
        assert ab[j] == b[j - |a|] && ab[j + 1] == b[j - |a| + 1];
      }
    }
  }

  /** The cut never emits two plain text nodes in a row: every text before
      a token is followed by that token's image or link node. */
  lemma {:induction false} PiecesPlainApart(remaining: string, pairs: seq<(string, string)>, syn: Syntax)
    requires MediaPieces(remaining, pairs, syn).Ok?
    ensures PlainApart(MediaPieces(remaining, pairs, syn).value)
    decreases |pairs|
  {
    if pairs != [] {
      var tok := Token(pairs[0].0, pairs[0].1, syn);
      MediaPiecesStep(remaining, pairs, syn);
      var before, after := SplitOnce(remaining, tok).value.0, SplitOnce(remaining, tok).value.1;
      PiecesPlainApart(after, pairs[1..], syn);
      var media := MediaNode(pairs[0], syn);
      var head := Gap(before) + [media];
      var rest := MediaPieces(after, pairs[1..], syn).value;
      assert MediaPieces(remaining, pairs, syn).value == head + rest;
      assert media.textType != Text;
      assert head[|head| - 1] == media;
      PlainApartAppend(head, rest);
    }
  }

  /** A list whose every node is not plain text, or is plain text without
      a match, comes through the split unchanged. */
  lemma {:induction false} MediaSplitKeeps(nodes: seq<TextNode>, syn: Syntax)
    requires forall i :: 0 <= i < |nodes| ==>
               nodes[i].textType != Text || Extract(nodes[i].text, syn) == []
    ensures MediaSplit(nodes, syn) == Ok(nodes)
    decreases |nodes|
  {
    if nodes != [] {
      var init := nodes[..|nodes| - 1];
      assert forall i :: 0 <= i < |init| ==> init[i] == nodes[i];
      MediaSplitKeeps(init, syn);
      assert SplitMediaNode(nodes[|nodes| - 1], syn) == Ok([nodes[|nodes| - 1]]);
      assert init + [nodes[|nodes| - 1]] == nodes;
    }
  }

  /** Cutting the text from `c` on at a token occurring at `q >= c` stops at
      or before `q`, and what remains is the text after the cut. */
  lemma CutAt(s: string, c: nat, tok: string, q: nat)
    requires c <= q && OccursAt(s, tok, q)
    ensures SplitOnce(s[c..], tok).Some?
    ensures var before := SplitOnce(s[c..], tok).value.0;
            c + |before| <= q &&
            SplitOnce(s[c..], tok).value.1 == s[c + |before| + |tok|..]
  {
    var rem := s[c..];
    assert rem[q - c..q - c + |tok|] == s[q..q + |tok|];
    SplitOnceAt(rem, tok, q - c);
    var before, after := SplitOnce(rem, tok).value.0, SplitOnce(rem, tok).value.1;
    assert rem == before + tok + after;
    assert rem[|before| + |tok|..] == after;
  }

  lemma LaidTail(s: string, ms: seq<MdMatch>, syn: Syntax)
    requires Laid(s, ms, syn) && ms != []
    ensures Laid(s, ms[1..], syn) && TokenAt(s, ms[0], syn)
    ensures |ms| > 1 ==> ms[0].end <= ms[1].start
    ensures Pairs(ms)[0] == (ms[0].caption, ms[0].url) && Pairs(ms)[1..] == Pairs(ms[1..])
  {
    var tail := ms[1..];
    assert forall i :: 0 <= i < |tail| ==> tail[i] == ms[i + 1];
  }

  /** When the matches lie left to right in the text and the cut so far
      stopped at or before the next one, each token is still found. */
  lemma {:induction false} PiecesOk(s: string, c: nat, ms: seq<MdMatch>, syn: Syntax)
    requires c <= |s| && Laid(s, ms, syn) && (|ms| > 0 ==> c <= ms[0].start)
    ensures MediaPieces(s[c..], Pairs(ms), syn).Ok?
    decreases |ms|
  {
    if ms == [] {
      assert Pairs(ms) == [];
    } else {
      var m := ms[0];
      var tok := Token(m.caption, m.url, syn);
      LaidTail(s, ms, syn);
      CutAt(s, c, tok, m.start);
      var before, after := SplitOnce(s[c..], tok).value.0, SplitOnce(s[c..], tok).value.1;
      var c' := c + |before| + |tok|;
      assert after == s[c'..];
      PiecesOk(s, c', ms[1..], syn);
      var pairs := Pairs(ms);
      assert Token(pairs[0].0, pairs[0].1, syn) == tok;
      assert MediaPieces(after, pairs[1..], syn).Ok?;
      MediaPiecesStep(s[c..], pairs, syn);
    }
  }

  /** split_nodes_image and split_nodes_link never fail on one node. */
  lemma SplitMediaNodeOk(node: TextNode, syn: Syntax)
    ensures SplitMediaNode(node, syn).Ok?
  {
    if node.textType == Text {
      var ms := Scan(node.text, syn);
      ScanLaid(node.text, syn);
      assert Extract(node.text, syn) == Pairs(ms);
      PiecesOk(node.text, 0, ms, syn);
      assert node.text[0..] == node.text;
    }
  }

  /** split_nodes_image and split_nodes_link never fail: each token the
      extraction reports is found again by the cut. */
  lemma MediaSplitNeverFails(nodes: seq<TextNode>, syn: Syntax)
    ensures MediaSplit(nodes, syn).Ok?
  {
    var f := n => SplitMediaNode(n, syn);
    forall i | 0 <= i < |nodes| ensures f(nodes[i]).Ok? {
      SplitMediaNodeOk(nodes[i], syn);
    }
    FlatMapOk(nodes, f);
  }

  /** One node's output written back as markdown is that node's markdown. */
  lemma SplitMediaNodeSource(node: TextNode, syn: Syntax)
    ensures SplitMediaNode(node, syn).Ok?
    ensures SourceOf(SplitMediaNode(node, syn).value) == Markup(node)
  {
    SplitMediaNodeOk(node, syn);
    if node.textType == Text && |Extract(node.text, syn)| > 0 {
      PiecesSource(node.text, Extract(node.text, syn), syn);
    } else {
      SourceOfSingle(node);
    }
  }

  /** Splitting out images or links preserves the markdown the nodes stand
      for. */
  lemma {:induction false} MediaSplitSource(nodes: seq<TextNode>, syn: Syntax)
    ensures MediaSplit(nodes, syn).Ok?
    ensures SourceOf(MediaSplit(nodes, syn).value) == SourceOf(nodes)
    decreases |nodes|
  {
    MediaSplitNeverFails(nodes, syn);
    if nodes != [] {
      var init := nodes[..|nodes| - 1];
      var last := nodes[|nodes| - 1];
      MediaSplitSource(init, syn);
      SplitMediaNodeSource(last, syn);
      var front := MediaSplit(init, syn).value;
      var pieces := SplitMediaNode(last, syn).value;
      assert MediaSplit(nodes, syn).value == front + pieces;
      SourceOfAppend(front, pieces);
      assert init + [last] == nodes;
      SourceOfAppend(init, [last]);
      SourceOfSingle(last);
    }
  }

  // =====================================================================
  // The inline pipeline

  /** text_to_textnodes: one plain node, split on bold, italic and code
      delimiters, then on images, then on links. */
  function TextNodesOf(text: string): Result<seq<TextNode>>
  {
    var bold :- DelimiterSplit([Plain(text)], "**", Bold);
    var italic :- DelimiterSplit(bold, "_", Italic);
    var code :- DelimiterSplit(italic, "`", Code);
    var images :- MediaSplit(code, ImageSyntax);
    MediaSplit(images, LinkSyntax)
  }

  method TextToTextNodes(text: string) returns (r: Result<seq<TextNode>>)
    ensures r == TextNodesOf(text)
  {
    var nodes := [TextNode(text, Text, None)];
    nodes :- SplitNodesDelimiter(nodes, "**", Bold);
    nodes :- SplitNodesDelimiter(nodes, "_", Italic);
    nodes :- SplitNodesDelimiter(nodes, "`", Code);
    nodes :- SplitNodesImage(nodes);
    r := SplitNodesLink(nodes);
  }

  /** With a non-empty delimiter the only error is the missing closing
      delimiter. */
  lemma DelimiterSplitErr(nodes: seq<TextNode>, d: string, tt: TextType)
    requires |d| > 0
    ensures DelimiterSplit(nodes, d, tt).Err? ==> DelimiterSplit(nodes, d, tt).error == MissingClosingDelimiter
  {
    if DelimiterSplit(nodes, d, tt).Err? {
      FlatMapErrFrom(nodes, n => SplitDelimiterNode(n, d, tt));
    }
  }

  /** text_to_textnodes fails only on an unclosed delimiter. */
  lemma TextNodesErrors(text: string)
    ensures TextNodesOf(text).Err? ==> TextNodesOf(text).error == MissingClosingDelimiter
  {
    DelimiterSplitErr([Plain(text)], "**", Bold);
    var bold := DelimiterSplit([Plain(text)], "**", Bold);
    if bold.Ok? {
      DelimiterSplitErr(bold.value, "_", Italic);
      var italic := DelimiterSplit(bold.value, "_", Italic);
      if italic.Ok? {
        DelimiterSplitErr(italic.value, "`", Code);
        var code := DelimiterSplit(italic.value, "`", Code);
        if code.Ok? {
          MediaSplitNeverFails(code.value, ImageSyntax);
          MediaSplitNeverFails(MediaSplit(code.value, ImageSyntax).value, LinkSyntax);
        }
      }
    }
  }

  /** A text with no delimiter in it passes a delimiter split as the
      single plain node it is, or as nothing when it is empty. */
  lemma DelimiterFreeText(text: string, d: string, tt: TextType)
    requires |d| > 0 && Free(text, d)
    ensures DelimiterSplit([Plain(text)], d, tt) == Ok(Gap(text))
    ensures DelimiterSplit(Gap(text), d, tt) == Ok(Gap(text))
  {
    var f := n => SplitDelimiterNode(n, d, tt);
    assert Split(text, d) == [text];
    FlatMapSingle(Plain(text), f);
    if text != "" {
      assert KeptSections([text], 1, tt) == [Plain(text)];
    }
  }

  /** Text with no bold, italic or code delimiter comes back, written as
      markdown, as it went in: split_nodes_image and split_nodes_link lose
      nothing. */
  lemma TextNodesWithoutEmphasis(text: string)
    requires Free(text, "**") && Free(text, "_") && Free(text, "`")
    ensures TextNodesOf(text).Ok?
    ensures SourceOf(TextNodesOf(text).value) == text
  {
    DelimiterFreeText(text, "**", Bold);
    DelimiterFreeText(text, "_", Italic);
    DelimiterFreeText(text, "`", Code);
    MediaSplitSource(Gap(text), ImageSyntax);
    MediaSplitSource(MediaSplit(Gap(text), ImageSyntax).value, LinkSyntax);
    GapSource(text);
  }

  /** Empty text gives no nodes. */
  lemma TextNodesEmpty()
    ensures TextNodesOf("") == Ok([])
  {
    DelimiterFreeText("", "**", Bold);
    DelimiterFreeText("", "_", Italic);
    DelimiterFreeText("", "`", Code);
  }

  /** A node that carries text the pipeline keeps: plain, bold, italic and
      code nodes are never empty. */
  predicate Solid(n: TextNode)
  {
    n.textType in {Text, Bold, Italic, Code} ==> n.text != ""
  }

  lemma DelimiterSolid(nodes: seq<TextNode>, d: string, tt: TextType)
    requires tt != Link && tt != Image
    requires forall i :: 0 <= i < |nodes| && nodes[i].textType != Text ==> Solid(nodes[i])
    requires DelimiterSplit(nodes, d, tt).Ok?
    ensures AllOf(DelimiterSplit(nodes, d, tt).value, Solid)
  {
    var f := n => SplitDelimiterNode(n, d, tt);
    forall i | 0 <= i < |nodes| && f(nodes[i]).Ok? ensures AllOf(f(nodes[i]).value, Solid) {
      var n := nodes[i];
      if n.textType == Text {
        var secs := Split(n.text, d);
        KeptIsDropEmptyTyped(secs, |secs|, tt);
      } else {
        assert f(n).value == [n];
      }
    }
    FlatMapKeeps(nodes, f, Solid);
  }

  lemma MediaSolid(nodes: seq<TextNode>, syn: Syntax)
    requires AllOf(nodes, Solid)
    ensures MediaSplit(nodes, syn).Ok?
    ensures AllOf(MediaSplit(nodes, syn).value, Solid)
  {
    var f := n => SplitMediaNode(n, syn);
    MediaSplitNeverFails(nodes, syn);
    forall i | 0 <= i < |nodes| && f(nodes[i]).Ok? ensures AllOf(f(nodes[i]).value, Solid) {
      var n := nodes[i];
      if n.textType == Text && |Extract(n.text, syn)| > 0 {
        PiecesKinds(n.text, Extract(n.text, syn), syn);
      } else {
        assert f(n).value == [n];
      }
    }
    FlatMapKeeps(nodes, f, Solid);
  }

  /** Every plain, bold, italic or code node text_to_textnodes returns has
      text: empty sections and empty text between tokens are dropped. */
  lemma TextNodesSolid(text: string)
    requires TextNodesOf(text).Ok?
    ensures AllOf(TextNodesOf(text).value, Solid)
  {
    var bold := DelimiterSplit([Plain(text)], "**", Bold).value;
    DelimiterSolid([Plain(text)], "**", Bold);
    DelimiterSolid(bold, "_", Italic);
    var italic := DelimiterSplit(bold, "_", Italic).value;
    DelimiterSolid(italic, "`", Code);
    var code := DelimiterSplit(italic, "`", Code).value;
    MediaSolid(code, ImageSyntax);
    MediaSolid(MediaSplit(code, ImageSyntax).value, LinkSyntax);
  }
}
