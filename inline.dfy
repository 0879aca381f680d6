/** The inline tokenizer of `markdown_operations.py`: `split_nodes_delimiter`,
    `split_nodes_image`, `split_nodes_link`, `text_node_to_html_node` and
    `text_to_textnodes`. */
module Inline {
  import opened Wrappers
  import opened Errors
  import opened Strings
  import opened HtmlNode
  import opened TextNodes
  import opened Scanner

  /** An element of the lists the `split_nodes_*` functions take: they re-split
      `TextNode`s and pass anything else (an `HTMLNode`) along. */
  datatype Item = Span(node: TextNode) | Foreign(html: Node)

  function Spans(nodes: seq<TextNode>): (items: seq<Item>)
    ensures |items| == |nodes|
    ensures forall i :: 0 <= i < |nodes| ==> items[i] == Span(nodes[i])
  {
    seq(|nodes|, i requires 0 <= i < |nodes| => Span(nodes[i]))
  }

  /** The texts of the nodes, in order. */
  function Texts(nodes: seq<TextNode>): (ts: seq<string>)
    ensures |ts| == |nodes|
    ensures forall i :: 0 <= i < |nodes| ==> ts[i] == nodes[i].text
  {
    seq(|nodes|, i requires 0 <= i < |nodes| => nodes[i].text)
  }

  /** Every text node of the list is well formed; other nodes are not constrained. */
  predicate ItemsWellFormed(items: seq<Item>) {
    forall i :: 0 <= i < |items| ==> items[i].Span? ==> WellFormed(items[i].node)
  }

  // ---------------------------------------------------------------------------
  // split_nodes_delimiter
  // ---------------------------------------------------------------------------

  /** `list.index`: the position of the first piece equal to `x`. */
  function FirstIndex(pieces: seq<string>, x: string): (k: nat)
    requires x in pieces
    ensures k < |pieces| && pieces[k] == x
    ensures forall j :: 0 <= j < k ==> pieces[j] != x
  {
    if pieces[0] == x then 0 else 1 + FirstIndex(pieces[1..], x)
  }

  /** The type the comprehension gives the piece at `i`: plain text when the
      first piece equal to it sits at an even position, `target` otherwise. */
  function PieceType(pieces: seq<string>, i: nat, target: TextType): (t: TextType)
    requires i < |pieces|
    ensures (forall j :: 0 <= j < i ==> pieces[j] != pieces[i]) ==>
              t == if i % 2 == 0 then Text else target
  {
    if FirstIndex(pieces, pieces[i]) % 2 == 0 then Text else target
  }

  /** The comprehension over the first `k` pieces, with its empty-text filter. */
  function PieceNodes(pieces: seq<string>, target: TextType, k: nat): (nodes: seq<TextNode>)
    requires k <= |pieces|
    ensures forall j :: 0 <= j < |nodes| ==> nodes[j].text != "" && nodes[j].url == None
    ensures forall j :: 0 <= j < |nodes| ==> nodes[j].textType == Text || nodes[j].textType == target
    ensures Join(Texts(nodes), "") == Join(pieces[..k], "")
    decreases k
  {
    if k == 0 then []
    else
      var p := pieces[k - 1];
      var init := PieceNodes(pieces, target, k - 1);
      var last := if p == "" then [] else [TextNode(p, PieceType(pieces, k - 1, target), None)];
      PieceNodesJoin(init, p, PieceType(pieces, k - 1, target), pieces[..k - 1]);
      PieceNodesAppend(init, last, target);
      assert pieces[..k] == pieces[..k - 1] + [p];
      init + last
  }

  /** Node lists of non-empty, url-less plain or target nodes stay so when joined. */
  lemma PieceNodesAppend(init: seq<TextNode>, last: seq<TextNode>, target: TextType)
    requires forall j :: 0 <= j < |init| ==> init[j].text != "" && init[j].url == None
    requires forall j :: 0 <= j < |init| ==> init[j].textType == Text || init[j].textType == target
    requires forall j :: 0 <= j < |last| ==> last[j].text != "" && last[j].url == None
    requires forall j :: 0 <= j < |last| ==> last[j].textType == Text || last[j].textType == target
    ensures forall j :: 0 <= j < |init + last| ==> (init + last)[j].text != "" && (init + last)[j].url == None
    ensures forall j :: 0 <= j < |init + last| ==> (init + last)[j].textType == Text || (init + last)[j].textType == target
  {
    assert forall j :: |init| <= j < |init + last| ==> (init + last)[j] == last[j - |init|];
  }

  /** Appending a piece's node, or nothing for an empty piece, appends the piece's text. */
  lemma PieceNodesJoin(init: seq<TextNode>, p: string, t: TextType, prefix: seq<string>)
    requires Join(Texts(init), "") == Join(prefix, "")
    ensures Join(Texts(init + (if p == "" then [] else [TextNode(p, t, None)])), "") == Join(prefix + [p], "")
  {
    JoinAppend(Texts(init), p);
    JoinAppend(prefix, p);
    if p == "" {
      assert init + [] == init;
      assert Join(Texts(init), "") + p == Join(Texts(init), "");
    } else {
      assert Texts(init + [TextNode(p, t, None)]) == Texts(init) + [p];
    }
  }

  /** What `split_nodes_delimiter` makes of one element of its list. */
  function SplitDelimiterItem(item: Item, delimiter: string, target: TextType): (r: Result<seq<Item>, Error>)
    requires |delimiter| > 0
    ensures item.Foreign? ==> r == Ok([item])
    ensures item.Span? && Count(item.node.text, delimiter) == 0 ==> r == Ok([item])
    ensures item.Span? && Count(item.node.text, delimiter) == 1 ==>
              r == Err(NoClosingDelimiter(item.node.text))
    ensures item.Span? && Count(item.node.text, delimiter) >= 2 ==>
              r.Ok? && (exists nodes :: r.value == Spans(nodes) && SplitPieces(nodes, item.node.text, delimiter, target))
  {
    match item
    case Foreign(_) => Ok([item])
    case Span(node) =>
      var pieces := Split(node.text, delimiter);
      if |pieces| == 1 then Ok([item])
      else if |pieces| == 2 then Err(NoClosingDelimiter(node.text))
      else
        var nodes := PieceNodes(pieces, target, |pieces|);
        assert pieces[..|pieces|] == pieces;
        Ok(Spans(nodes))
  }

  /** The nodes a text with at least two delimiters splits into: no empty text,
      no url, plain or `target` typed, and together they spell the text with
      every delimiter deleted. */
  predicate SplitPieces(nodes: seq<TextNode>, text: string, delimiter: string, target: TextType)
    requires |delimiter| > 0
  {
    && (forall j :: 0 <= j < |nodes| ==> nodes[j].text != "" && nodes[j].url == None)
    && (forall j :: 0 <= j < |nodes| ==> nodes[j].textType == Text || nodes[j].textType == target)
    && Join(Texts(nodes), "") == Erase(text, delimiter)
  }

  /** `split_nodes_delimiter` over a whole list: the results of the elements in
      order, or the error of the first element that raises. */
  function SplitDelimiter(items: seq<Item>, delimiter: string, target: TextType): Result<seq<Item>, Error>
    requires |delimiter| > 0
    decreases |items|
  {
    if |items| == 0 then Ok([])
    else
      var init :- SplitDelimiter(items[..|items| - 1], delimiter, target);
      var last :- SplitDelimiterItem(items[|items| - 1], delimiter, target);
      Ok(init + last)
  }

  lemma {:induction false} SplitDelimiterPrefixErr(items: seq<Item>, k: nat, delimiter: string, target: TextType)
    requires |delimiter| > 0
    requires k <= |items| && SplitDelimiter(items[..k], delimiter, target).Err?
    ensures SplitDelimiter(items, delimiter, target) == SplitDelimiter(items[..k], delimiter, target)
    decreases |items| - k
  {
    if k == |items| {
      assert items[..k] == items;
    } else {
      assert items[..|items| - 1][..k] == items[..k];
      SplitDelimiterPrefixErr(items[..|items| - 1], k, delimiter, target);
    }
  }

  /** `split_nodes_delimiter` as the source writes it: one pass over the list,
      extending `output` element by element. */
  method SplitNodesDelimiter(oldNodes: seq<Item>, delimiter: string, textType: TextType)
    returns (r: Result<seq<Item>, Error>)
    requires |delimiter| > 0
    ensures r == SplitDelimiter(oldNodes, delimiter, textType)
  {
    var output: seq<Item> := [];
    var i := 0;
    while i < |oldNodes|
      invariant 0 <= i <= |oldNodes|
      invariant SplitDelimiter(oldNodes[..i], delimiter, textType) == Ok(output)
    {
      var node := oldNodes[i];
      SplitDelimiterStep(oldNodes, i, delimiter, textType, output);
      if node.Foreign? {
        output := output + [node];
        i := i + 1;
        continue;
      }
      var pieces := Split(node.node.text, delimiter);
      SplitDelimiterItemCases(node, delimiter, textType);
      if |pieces| == 1 {
        output := output + [node];
        i := i + 1;
        continue;
      }
      if |pieces| == 2 {
        SplitDelimiterPrefixErr(oldNodes, i + 1, delimiter, textType);
        return Err(NoClosingDelimiter(node.node.text));
      }
      var newNodes := PieceNodes(pieces, textType, |pieces|);
      output := output + Spans(newNodes);
      i := i + 1;
    }
    assert oldNodes[..i] == oldNodes;
    r := Ok(output);
  }

  /** What one text node gives, by the number of pieces its text splits into. */
  lemma SplitDelimiterItemCases(item: Item, delimiter: string, target: TextType)
    requires |delimiter| > 0 && item.Span?
    ensures |Split(item.node.text, delimiter)| == 1 ==> SplitDelimiterItem(item, delimiter, target) == Ok([item])
    ensures |Split(item.node.text, delimiter)| == 2 ==>
              SplitDelimiterItem(item, delimiter, target) == Err(NoClosingDelimiter(item.node.text))
    ensures |Split(item.node.text, delimiter)| > 2 ==>
              SplitDelimiterItem(item, delimiter, target)
                == Ok(Spans(PieceNodes(Split(item.node.text, delimiter), target, |Split(item.node.text, delimiter)|)))
  {
  }

  /** One more element extends the result by that element's result, or fails with its error. */
  lemma SplitDelimiterStep(items: seq<Item>, i: nat, delimiter: string, target: TextType, output: seq<Item>)
    requires |delimiter| > 0
    requires i < |items| && SplitDelimiter(items[..i], delimiter, target) == Ok(output)
    ensures SplitDelimiterItem(items[i], delimiter, target).Ok? ==>
              SplitDelimiter(items[..i + 1], delimiter, target) == Ok(output + SplitDelimiterItem(items[i], delimiter, target).value)
    ensures SplitDelimiterItem(items[i], delimiter, target).Err? ==>
              SplitDelimiter(items[..i + 1], delimiter, target) == Err(SplitDelimiterItem(items[i], delimiter, target).error)
  {
    assert items[..i + 1][..i] == items[..i];
  }

  /** The list result is the per-element results concatenated: splitting `a + b`
      splits `a` and `b` on their own, keeping their order. */
  lemma {:induction false} SplitDelimiterConcat(a: seq<Item>, b: seq<Item>, delimiter: string, target: TextType)
    requires |delimiter| > 0
    requires SplitDelimiter(a, delimiter, target).Ok? && SplitDelimiter(b, delimiter, target).Ok?
    ensures SplitDelimiter(a + b, delimiter, target)
         == Ok(SplitDelimiter(a, delimiter, target).value + SplitDelimiter(b, delimiter, target).value)
    decreases |b|
  {
    var x := SplitDelimiter(a, delimiter, target).value;
    if |b| == 0 {
      assert a + b == a;
      assert x + [] == x;
    } else {
      var k := |b| - 1;
      assert b == b[..k] + [b[k]];
      assert a + b == (a + b[..k]) + [b[k]];
      SplitDelimiterSnoc(b[..k], b[k], delimiter, target);
      SplitDelimiterConcat(a, b[..k], delimiter, target);
      SplitDelimiterSnoc(a + b[..k], b[k], delimiter, target);
      var y := SplitDelimiter(b[..k], delimiter, target).value;
      var last := SplitDelimiterItem(b[k], delimiter, target).value;
      var r := SplitDelimiter(a + b, delimiter, target);
      assert r == SplitDelimiter((a + b[..k]) + [b[k]], delimiter, target);
      assert r.Ok? && r.value == (x + y) + last;
      assert SplitDelimiter(b, delimiter, target).value == y + last;
      ConcatAssoc(x, y, last);
    }
  }

  lemma ConcatAssoc<T>(x: seq<T>, y: seq<T>, z: seq<T>)
    ensures (x + y) + z == x + (y + z)
  {
  }

  /** Appending one element appends its result, and the list succeeds exactly
      when its prefix and the new element do. */
  lemma SplitDelimiterSnoc(items: seq<Item>, item: Item, delimiter: string, target: TextType)
    requires |delimiter| > 0
    ensures SplitDelimiter(items + [item], delimiter, target).Ok?
        <==> SplitDelimiter(items, delimiter, target).Ok? && SplitDelimiterItem(item, delimiter, target).Ok?
    ensures SplitDelimiter(items + [item], delimiter, target).Ok? ==>
              (SplitDelimiter(items + [item], delimiter, target).value
                 == SplitDelimiter(items, delimiter, target).value + SplitDelimiterItem(item, delimiter, target).value)
  {
    var s := items + [item];
    assert s[..|s| - 1] == items && s[|s| - 1] == item;
  }

  /** Well-formed text nodes stay well formed when the new type is not a link or image. */
  lemma {:induction false} SplitDelimiterWellFormed(items: seq<Item>, delimiter: string, target: TextType)
    requires |delimiter| > 0 && target != Link && target != Image
    requires ItemsWellFormed(items)
    requires SplitDelimiter(items, delimiter, target).Ok?
    ensures ItemsWellFormed(SplitDelimiter(items, delimiter, target).value)
    decreases |items|
  {
    if |items| > 0 {
      var k := |items| - 1;
      SplitDelimiterWellFormed(items[..k], delimiter, target);
      var item := items[k];
      var last := SplitDelimiterItem(item, delimiter, target).value;
      if item.Span? {
        SplitDelimiterItemCases(item, delimiter, target);
        var pieces := Split(item.node.text, delimiter);
        if |pieces| > 2 {
          var nodes := PieceNodes(pieces, target, |pieces|);
          assert last == Spans(nodes);
        }
      }
      assert ItemsWellFormed(last);
      ItemsWellFormedConcat(SplitDelimiter(items[..k], delimiter, target).value, last);
    }
  }

  lemma ItemsWellFormedConcat(a: seq<Item>, b: seq<Item>)
    requires ItemsWellFormed(a) && ItemsWellFormed(b)
    ensures ItemsWellFormed(a + b)
  {
    assert forall i :: |a| <= i < |a + b| ==> (a + b)[i] == b[i - |a|];
  }

  /** A one-element list whose element splits into pieces gives the nodes of those pieces. */
  lemma {:induction false} SplitDelimiterOnePieces(node: TextNode, delimiter: string, target: TextType, nodes: seq<TextNode>)
    requires |delimiter| > 0 && |Split(node.text, delimiter)| >= 3
    requires PieceNodes(Split(node.text, delimiter), target, |Split(node.text, delimiter)|) == nodes
    ensures SplitDelimiter([Span(node)], delimiter, target) == Ok(Spans(nodes))
  {
    var items := [Span(node)];
    SplitDelimiterItemCases(items[0], delimiter, target);
    assert items[..0] == [];
    assert [] + Spans(nodes) == Spans(nodes);
  }

  /** Every text node is re-split, whatever its type: a bold span with single
      stars inside loses its bold type to the italic pass. */
  lemma ResplitsEveryType(a: string, b: string, c: string)
    requires a != "" && b != "" && c != "" && a != b && b != c
    requires '*' !in a && '*' !in b && '*' !in c
    ensures SplitDelimiter([Span(TextNode(a + "*" + b + "*" + c, Bold, None))], "*", Italic)
         == Ok([Span(TextNode(a, Text, None)), Span(TextNode(b, Italic, None)), Span(TextNode(c, Text, None))])
  {
    var nodes := [TextNode(a, Text, None), TextNode(b, Italic, None), TextNode(c, Text, None)];
    ThreePieces(a, b, c, "*", Italic, nodes);
    SplitDelimiterOnePieces(TextNode(a + "*" + b + "*" + c, Bold, None), "*", Italic, nodes);
    assert Spans(nodes) == [Span(nodes[0]), Span(nodes[1]), Span(nodes[2])];
  }

  /** Three pieces that hold no delimiter character, the middle one unlike its
      neighbours: the middle piece takes the target type. */
  lemma ThreePieces(a: string, b: string, c: string, delimiter: string, target: TextType, nodes: seq<TextNode>)
    requires |delimiter| > 0 && a != "" && b != "" && c != "" && a != b && b != c
    requires delimiter[0] !in a && delimiter[0] !in b && delimiter[0] !in c
    requires nodes == [TextNode(a, Text, None), TextNode(b, target, None), TextNode(c, Text, None)]
    ensures Split(a + delimiter + b + delimiter + c, delimiter) == [a, b, c]
    ensures PieceNodes([a, b, c], target, 3) == nodes
  {
    SplitAround(a, b + delimiter + c, delimiter);
    SplitAround(b, c, delimiter);
    CountWithout(c, delimiter);
    SplitWithout(c, delimiter);
    assert a + delimiter + b + delimiter + c == a + delimiter + (b + delimiter + c);
    var pieces := [a, b, c];
    assert PieceType(pieces, 0, target) == Text;
    assert PieceType(pieces, 1, target) == target;
    assert FirstIndex(pieces, c) != 1;
    assert PieceType(pieces, 2, target) == Text;
    assert PieceNodes(pieces, target, 1) == nodes[..1];
    assert PieceNodes(pieces, target, 2) == nodes[..2];
  }

  /** A piece's type comes from the position of the first piece equal to it,
      so a repeated text takes the type of its first occurrence: in
      `` a`a` `` the code span `a` comes out as plain text. */
  lemma RepeatedPieceTakesFirstType()
    ensures SplitDelimiter([Span(TextNode("a`a`", Text, None))], "`", Code)
         == Ok([Span(TextNode("a", Text, None)), Span(TextNode("a", Text, None))])
  {
    var nodes := [TextNode("a", Text, None), TextNode("a", Text, None)];
    RepeatedPieces(nodes);
    SplitDelimiterOnePieces(TextNode("a`a`", Text, None), "`", Code, nodes);
    assert Spans(nodes) == [Span(nodes[0]), Span(nodes[1])];
  }

  /** The pieces of `` a`a` `` and the nodes the code pass makes of them. */
  lemma RepeatedPieces(nodes: seq<TextNode>)
    requires nodes == [TextNode("a", Text, None), TextNode("a", Text, None)]
    ensures Split("a`a`", "`") == ["a", "a", ""]
    ensures PieceNodes(["a", "a", ""], Code, 3) == nodes
  {
    SplitAround("a", "a`", "`");
    SplitAround("a", "", "`");
    assert "a`a`" == "a" + "`" + "a`";
    assert "a`" == "a" + "`" + "";
    var pieces := ["a", "a", ""];
    assert FirstIndex(pieces, "a") == 0;
    assert PieceNodes(pieces, Code, 1) == nodes[..1];
    assert PieceNodes(pieces, Code, 2) == nodes;
  }

  // ---------------------------------------------------------------------------
  // split_nodes_image and split_nodes_link
  // ---------------------------------------------------------------------------

  /** The type of the node a marker becomes. */
  function MarkerType(kind: MarkerKind): TextType {
    if kind == ImageMarker then Image else Link
  }

  /** `extract_markdown_images` or `extract_markdown_links`. */
  function Extract(kind: MarkerKind, text: string): seq<(string, string)> {
    if kind == ImageMarker then ExtractImages(text) else ExtractLinks(text)
  }

  /** The nodes as Markdown again: a marker node as its markup, any other node as its text. */
  function Unparse(nodes: seq<TextNode>, kind: MarkerKind): string
    decreases |nodes|
  {
    if |nodes| == 0 then ""
    else
      var n := nodes[0];
      (if n.textType == MarkerType(kind) && n.url.Some? then Markup(kind, n.text, n.url.value) else n.text)
      + Unparse(nodes[1..], kind)
  }

  /** The (alt text, url) pairs of the marker nodes, in order. */
  function MarkersOf(nodes: seq<TextNode>, kind: MarkerKind): seq<(string, string)>
    decreases |nodes|
  {
    if |nodes| == 0 then []
    else
      var n := nodes[0];
      (if n.textType == MarkerType(kind) && n.url.Some? then [(n.text, n.url.value)] else [])
      + MarkersOf(nodes[1..], kind)
  }

  /** Plain text nodes without a url at even positions, marker nodes with a url at odd ones. */
  predicate Alternating(nodes: seq<TextNode>, kind: MarkerKind) {
    && |nodes| % 2 == 1
    && (forall j :: 0 <= j < |nodes| && j % 2 == 0 ==> nodes[j].textType == Text && nodes[j].url == None)
    && (forall j :: 0 <= j < |nodes| && j % 2 == 1 ==> nodes[j].textType == MarkerType(kind) && nodes[j].url.Some?)
  }

  function Prepend(xs: seq<TextNode>, r: Result<seq<TextNode>, Error>): Result<seq<TextNode>, Error> {
    if r.Ok? then Ok(xs + r.value) else r
  }

  /** The inner loop over the markers found in one node's text: each marker's
      markup is looked up with `split(markup, 1)` in what is left of the text,
      the text before it and the marker node are emitted, and the text after
      it is what is left; the last remainder closes the list. A markup that
      the split does not find leaves a one-element list whose `[1]` raises
      `IndexError`. */
  function SplitMarkers(text: string, found: seq<(string, string)>, kind: MarkerKind): Result<seq<TextNode>, Error>
    decreases |found|
  {
    if |found| == 0 then Ok([TextNode(text, Text, None)])
    else
      var markup := Markup(kind, found[0].0, found[0].1);
      var at := IndexOf(text, markup);
      if at.None? then Err(IndexOutOfRange)
      else
        Prepend([TextNode(text[..at.value], Text, None), TextNode(found[0].0, MarkerType(kind), Some(found[0].1))],
                SplitMarkers(text[at.value + |markup|..], found[1..], kind))
  }

  /** Whenever the markers are all found, the cut is a marker split of the text. */
  lemma {:induction false} SplitMarkersSplits(text: string, found: seq<(string, string)>, kind: MarkerKind)
    requires SplitMarkers(text, found, kind).Ok?
    ensures MarkerSplit(SplitMarkers(text, found, kind).value, text, found, kind)
    decreases |found|
  {
    var out := SplitMarkers(text, found, kind).value;
    if |found| == 0 {
      assert Unparse(out, kind) == text + "";
    } else {
      var markup := Markup(kind, found[0].0, found[0].1);
      var i := IndexOf(text, markup).value;
      var after := text[i + |markup|..];
      assert text == text[..i] + markup + after by {
        IndexOfSplits(text, markup);
      }
      assert found == [found[0]] + found[1..];
      var r := SplitMarkers(after, found[1..], kind);
      var pair := [TextNode(text[..i], Text, None), TextNode(found[0].0, MarkerType(kind), Some(found[0].1))];
      assert r.Ok? && out == pair + r.value;
      SplitMarkersSplits(after, found[1..], kind);
      MarkerSplitCons(text[..i], found[0].0, found[0].1, after, r.value, found[1..], kind);
    }
  }

  /** A marker split of the text after a marker extends, at the front, to one
      of the text before the marker, the marker and that text. */
  lemma MarkerSplitCons(before: string, alt: string, url: string, after: string,
                        rest: seq<TextNode>, found: seq<(string, string)>, kind: MarkerKind)
    requires MarkerSplit(rest, after, found, kind)
    ensures MarkerSplit([TextNode(before, Text, None), TextNode(alt, MarkerType(kind), Some(url))] + rest,
                        before + Markup(kind, alt, url) + after, [(alt, url)] + found, kind)
  {
    var first := TextNode(before, Text, None);
    var mark := TextNode(alt, MarkerType(kind), Some(url));
    var out := [first, mark] + rest;
    assert out[1..] == [mark] + rest && out[1..][1..] == rest;
    assert Unparse(out, kind) == before + (Markup(kind, alt, url) + after);
    assert MarkersOf(out, kind) == [] + ([(alt, url)] + found);
    assert forall j :: 2 <= j < |out| ==> out[j] == rest[j - 2];
  }

  /** How a text with markers is cut: plain text and marker nodes alternate,
      they give the text back when written out as Markdown, and the markers
      are the ones found, in order. */
  predicate MarkerSplit(parts: seq<TextNode>, text: string, found: seq<(string, string)>, kind: MarkerKind) {
    && |parts| == 2 * |found| + 1
    && Alternating(parts, kind)
    && Unparse(parts, kind) == text
    && MarkersOf(parts, kind) == found
  }

  function AsSpans(items: seq<Item>): bool {
    forall i :: 0 <= i < |items| ==> items[i].Span?
  }

  function NodesOf(items: seq<Item>): (nodes: seq<TextNode>)
    requires AsSpans(items)
    ensures |nodes| == |items|
    ensures forall i :: 0 <= i < |items| ==> nodes[i] == items[i].node
  {
    seq(|items|, i requires 0 <= i < |items| => items[i].node)
  }

  /** The nodes with non-empty text, in order: the closing `[x for x in output if x.text]`. */
  function KeepText(nodes: seq<TextNode>): (kept: seq<TextNode>)
    ensures forall j :: 0 <= j < |kept| ==> kept[j].text != "" && kept[j] in nodes
    decreases |nodes|
  {
    if |nodes| == 0 then []
    else
      var last := nodes[|nodes| - 1];
      KeepText(nodes[..|nodes| - 1]) + (if last.text == "" then [] else [last])
  }

  /** The filter works piece by piece: filtering `a + b` keeps what filtering
      `a` keeps, followed by what filtering `b` keeps, so the kept nodes stay
      in their input order. */
  lemma {:induction false} KeepTextConcat(a: seq<TextNode>, b: seq<TextNode>)
    ensures KeepText(a + b) == KeepText(a) + KeepText(b)
    decreases |b|
  {
    if |b| > 0 {
      var init := b[..|b| - 1];
      KeepTextConcat(a, init);
      assert (a + b)[..|a + b| - 1] == a + init;
      assert (a + b)[|a + b| - 1] == b[|b| - 1];
    } else {
      assert a + b == a;
    }
  }

  /** Every node with non-empty text is kept: with `KeepText`'s own contract,
      a node is in the result exactly when it is in the input with text. */
  lemma {:induction false} KeepTextComplete(nodes: seq<TextNode>)
    ensures forall n :: n in nodes && n.text != "" ==> n in KeepText(nodes)
    decreases |nodes|
  {
    if |nodes| > 0 {
      var init := nodes[..|nodes| - 1];
      KeepTextComplete(init);
      assert nodes == init + [nodes[|nodes| - 1]];
    }
  }

  /** One node is kept exactly when its text is non-empty. */
  lemma KeepTextOne(n: TextNode)
    ensures KeepText([n]) == if n.text == "" then [] else [n]
  {
    assert [n][..0] == [];
  }

  /** What the outer loop makes of one element of the list. */
  function SplitMarkedItem(item: Item, kind: MarkerKind): (r: Result<seq<Item>, Error>)
    ensures item.Foreign? ==> r == Ok([item])
    ensures item.Span? && Extract(kind, item.node.text) == [] ==> r == Ok([item])
    ensures item.Span? && r.Ok? && Extract(kind, item.node.text) != [] ==>
              exists parts :: r.value == Spans(parts) && MarkerSplit(parts, item.node.text, Extract(kind, item.node.text), kind)
  {
    match item
    case Foreign(_) => Ok([item])
    case Span(node) =>
      var found := Extract(kind, node.text);
      if |found| == 0 then Ok([item])
      else
        var parts :- SplitMarkers(node.text, found, kind);
        SplitMarkersSplits(node.text, found, kind);
        Ok(Spans(parts))
  }

  /** The outer loop over the list: the results of the elements in order, or
      the error of the first element that raises. */
  function SplitMarkedAll(items: seq<Item>, kind: MarkerKind): Result<seq<Item>, Error>
    decreases |items|
  {
    if |items| == 0 then Ok([])
    else
      var init :- SplitMarkedAll(items[..|items| - 1], kind);
      var last :- SplitMarkedItem(items[|items| - 1], kind);
      Ok(init + last)
  }

  /** `split_nodes_image` (for images) and `split_nodes_link` (for links): the
      outer loop, then the empty-text filter, which raises `AttributeError` on
      an element that is not a text node. */
  function SplitMarked(items: seq<Item>, kind: MarkerKind): (r: Result<seq<TextNode>, Error>)
    ensures r.Ok? ==> forall j :: 0 <= j < |r.value| ==> r.value[j].text != ""
  {
    var output :- SplitMarkedAll(items, kind);
    if AsSpans(output) then Ok(KeepText(NodesOf(output))) else Err(MissingTextAttribute)
  }

  lemma SplitMarkedSnoc(items: seq<Item>, item: Item, kind: MarkerKind)
    ensures SplitMarkedAll(items + [item], kind).Ok?
        <==> SplitMarkedAll(items, kind).Ok? && SplitMarkedItem(item, kind).Ok?
    ensures SplitMarkedAll(items, kind).Ok? && SplitMarkedItem(item, kind).Err? ==>
              SplitMarkedAll(items + [item], kind) == Err(SplitMarkedItem(item, kind).error)
    ensures SplitMarkedAll(items + [item], kind).Ok? ==>
              (SplitMarkedAll(items + [item], kind).value
                 == SplitMarkedAll(items, kind).value + SplitMarkedItem(item, kind).value)
  {
    var s := items + [item];
    assert s[..|s| - 1] == items && s[|s| - 1] == item;
  }

  lemma {:induction false} SplitMarkedPrefixErr(items: seq<Item>, k: nat, kind: MarkerKind)
    requires k <= |items| && SplitMarkedAll(items[..k], kind).Err?
    ensures SplitMarkedAll(items, kind) == SplitMarkedAll(items[..k], kind)
    decreases |items| - k
  {
    if k == |items| {
      assert items[..k] == items;
    } else {
      assert items[..|items| - 1][..k] == items[..k];
      SplitMarkedPrefixErr(items[..|items| - 1], k, kind);
    }
  }

  lemma PrependNothing(r: Result<seq<TextNode>, Error>)
    ensures Prepend([], r) == r
  {
    if r.Ok? {
      assert [] + r.value == r.value;
    }
  }

  lemma PrependPrepend(xs: seq<TextNode>, ys: seq<TextNode>, r: Result<seq<TextNode>, Error>)
    ensures Prepend(xs, Prepend(ys, r)) == Prepend(xs + ys, r)
  {
    if r.Ok? {
      ConcatAssoc(xs, ys, r.value);
    }
  }

  /** The loops of `split_nodes_image` and `split_nodes_link` as the source
      writes them, for either kind of marker. */
  method SplitNodesMarked(oldNodes: seq<Item>, kind: MarkerKind) returns (r: Result<seq<TextNode>, Error>)
    ensures r == SplitMarked(oldNodes, kind)
  {
    var output: seq<Item> := [];
    var i := 0;
    while i < |oldNodes|
      invariant 0 <= i <= |oldNodes|
      invariant SplitMarkedAll(oldNodes[..i], kind) == Ok(output)
    {
      var node := oldNodes[i];
      assert oldNodes[..i + 1] == oldNodes[..i] + [node];
      SplitMarkedSnoc(oldNodes[..i], node, kind);
      if node.Foreign? {
        output := output + [node];
        i := i + 1;
        continue;
      }
      var found := Extract(kind, node.node.text);
      if |found| == 0 {
        output := output + [node];
        i := i + 1;
        continue;
      }
      var nodeSplit := SplitAtMarkers(node.node.text, found, kind);
      if nodeSplit.Err? {
        SplitMarkedPrefixErr(oldNodes, i + 1, kind);
        return Err(nodeSplit.error);
      }
      output := output + Spans(nodeSplit.value);
      i := i + 1;
    }
    assert oldNodes[..i] == oldNodes;
    r := KeepTextNodes(output);
  }

  /** The inner loop in the source's own shape: from marker `j` on, with the
      nodes emitted so far in `done` and `current` the text still to scan.
      The last marker also emits the text after it. */
  function ScanMarkers(current: string, found: seq<(string, string)>, j: nat, kind: MarkerKind,
                       done: seq<TextNode>): Result<seq<TextNode>, Error>
    requires j < |found|
    decreases |found| - j
  {
    var markup := Markup(kind, found[j].0, found[j].1);
    var at := IndexOf(current, markup);
    if at.None? then Err(IndexOutOfRange)
    else
      var emitted := done + [TextNode(current[..at.value], Text, None),
                             TextNode(found[j].0, MarkerType(kind), Some(found[j].1))];
      var after := current[at.value + |markup|..];
      if j == |found| - 1 then Ok(emitted + [TextNode(after, Text, None)])
      else ScanMarkers(after, found, j + 1, kind, emitted)
  }

  /** The scan from marker `j` emits what is already done, then the split of
      the text still to scan at the markers still to find. */
  lemma {:induction false} ScanMarkersSplits(current: string, found: seq<(string, string)>, j: nat,
                                             kind: MarkerKind, done: seq<TextNode>)
    requires j < |found|
    ensures ScanMarkers(current, found, j, kind, done) == Prepend(done, SplitMarkers(current, found[j..], kind))
    decreases |found| - j
  {
    var m := Markup(kind, found[j].0, found[j].1);
    var at := IndexOf(current, m);
    if at.None? {
      ScanMissing(current, found, j, kind, done, m);
      MarkerMissing(current, found, j, kind, m);
    } else {
      var i := at.value;
      var pair := [TextNode(current[..i], Text, None), TextNode(found[j].0, MarkerType(kind), Some(found[j].1))];
      var after := current[i + |m|..];
      if j + 1 < |found| {
        ScanMarkersSplits(after, found, j + 1, kind, done + pair);
      }
      ScanFound(current, found, j, kind, done, m, i, pair, after);
    }
  }

  /** The step of the induction above where the marker is found. */
  lemma {:induction false} ScanFound(current: string, found: seq<(string, string)>, j: nat,
                                     kind: MarkerKind, done: seq<TextNode>, m: string, i: nat,
                                     pair: seq<TextNode>, after: string)
    requires j < |found| && m == Markup(kind, found[j].0, found[j].1) && IndexOf(current, m) == Some(i)
    requires pair == [TextNode(current[..i], Text, None), TextNode(found[j].0, MarkerType(kind), Some(found[j].1))]
    requires after == current[i + |m|..]
    requires j + 1 < |found| ==>
               ScanMarkers(after, found, j + 1, kind, done + pair) == Prepend(done + pair, SplitMarkers(after, found[j + 1..], kind))
    ensures ScanMarkers(current, found, j, kind, done) == Prepend(done, SplitMarkers(current, found[j..], kind))
  {
    var rest := SplitMarkers(after, found[j + 1..], kind);
    MarkerFound(current, found, j, kind, m, i);
    PrependPrepend(done, pair, rest);
    if j + 1 == |found| {
      ScanLast(current, found, j, kind, done, m, i, pair, after);
      LastMarkerRest(after, found, j + 1, kind);
    } else {
      ScanNext(current, found, j, kind, done, m, i, pair, after);
    }
  }

  /** One step of the scan: a marker that is not found fails it, ... */
  lemma {:induction false} ScanMissing(current: string, found: seq<(string, string)>, j: nat, kind: MarkerKind,
                                       done: seq<TextNode>, markup: string)
    requires j < |found| && markup == Markup(kind, found[j].0, found[j].1) && IndexOf(current, markup).None?
    ensures ScanMarkers(current, found, j, kind, done) == Err(IndexOutOfRange)
  {
  }

  /** ... the last marker, once found, is emitted with the text around it, ... */
  lemma {:induction false} ScanLast(current: string, found: seq<(string, string)>, j: nat, kind: MarkerKind,
                                    done: seq<TextNode>, markup: string, i: nat, pair: seq<TextNode>, after: string)
    requires j == |found| - 1 && markup == Markup(kind, found[j].0, found[j].1) && IndexOf(current, markup) == Some(i)
    requires pair == [TextNode(current[..i], Text, None), TextNode(found[j].0, MarkerType(kind), Some(found[j].1))]
    requires after == current[i + |markup|..]
    ensures ScanMarkers(current, found, j, kind, done) == Ok(done + pair + [TextNode(after, Text, None)])
  {
  }

  /** ... and any other found marker is emitted and the scan goes on after it. */
  lemma {:induction false} ScanNext(current: string, found: seq<(string, string)>, j: nat, kind: MarkerKind,
                                    done: seq<TextNode>, markup: string, i: nat, pair: seq<TextNode>, after: string)
    requires j < |found| - 1 && markup == Markup(kind, found[j].0, found[j].1) && IndexOf(current, markup) == Some(i)
    requires pair == [TextNode(current[..i], Text, None), TextNode(found[j].0, MarkerType(kind), Some(found[j].1))]
    requires after == current[i + |markup|..]
    ensures ScanMarkers(current, found, j, kind, done) == ScanMarkers(after, found, j + 1, kind, done + pair)
  {
  }

  /** Past the last marker the rest of the text closes the list. */
  lemma LastMarkerRest(rest: string, found: seq<(string, string)>, j: nat, kind: MarkerKind)
    requires j == |found|
    ensures SplitMarkers(rest, found[j..], kind) == Ok([TextNode(rest, Text, None)])
  {
    assert found[j..] == [];
  }

  lemma {:induction false} MarkerMissing(text: string, found: seq<(string, string)>, j: nat, kind: MarkerKind, markup: string)
    requires j < |found| && markup == Markup(kind, found[j].0, found[j].1)
    requires IndexOf(text, markup) == None
    ensures SplitMarkers(text, found[j..], kind) == Err(IndexOutOfRange)
  {
    assert found[j..][0] == found[j];
  }

  lemma {:induction false} MarkerFound(text: string, found: seq<(string, string)>, j: nat, kind: MarkerKind, markup: string, i: nat)
    requires j < |found| && markup == Markup(kind, found[j].0, found[j].1)
    requires IndexOf(text, markup) == Some(i)
    ensures SplitMarkers(text, found[j..], kind)
         == Prepend([TextNode(text[..i], Text, None), TextNode(found[j].0, MarkerType(kind), Some(found[j].1))],
                    SplitMarkers(text[i + |markup|..], found[j + 1..], kind))
  {
    assert found[j..][0] == found[j];
    assert found[j..][1..] == found[j + 1..];
    MarkerFirst(text, found[j..], kind, found[j], markup, i);
  }

  lemma {:induction false} MarkerFirst(text: string, f: seq<(string, string)>, kind: MarkerKind,
                                       first: (string, string), markup: string, i: nat)
    requires |f| > 0 && f[0] == first && markup == Markup(kind, first.0, first.1)
    requires IndexOf(text, markup) == Some(i)
    ensures SplitMarkers(text, f, kind)
         == Prepend([TextNode(text[..i], Text, None), TextNode(first.0, MarkerType(kind), Some(first.1))],
                    SplitMarkers(text[i + |markup|..], f[1..], kind))
  {
  }

  /** The inner loop over the markers found in one node's text, with `node`
      rebound to the text after each marker. */
  method SplitAtMarkers(text: string, found: seq<(string, string)>, kind: MarkerKind)
    returns (r: Result<seq<TextNode>, Error>)
    requires |found| > 0
    ensures r == SplitMarkers(text, found, kind)
  {
    var nodeSplit: seq<TextNode> := [];
    var current := text;
    var j := 0;
    ScanMarkersSplits(text, found, 0, kind, []);
    assert found[0..] == found;
    PrependNothing(SplitMarkers(text, found, kind));
    while j < |found|
      invariant 0 <= j <= |found|
      invariant j < |found| ==> ScanMarkers(current, found, j, kind, nodeSplit) == SplitMarkers(text, found, kind)
      invariant j == |found| ==> Ok(nodeSplit) == SplitMarkers(text, found, kind)
    {
      var ok;
      ok, current, nodeSplit := CutMarker(current, found, j, kind, nodeSplit);
      if !ok {
        return Err(IndexOutOfRange);
      }
      j := j + 1;
    }
    r := Ok(nodeSplit);
  }

  /** One pass of that loop: `split(markup, 1)` on the current text, the text
      before and the marker emitted, and either the text after emitted too
      (last marker) or carried to the next pass. `ok` is false where the
      split gives a single part and indexing its second part fails. */
  method CutMarker(current: string, found: seq<(string, string)>, j: nat, kind: MarkerKind, done: seq<TextNode>)
    returns (ok: bool, next: string, emitted: seq<TextNode>)
    requires j < |found|
    ensures !ok ==> ScanMarkers(current, found, j, kind, done) == Err(IndexOutOfRange)
    ensures ok && j == |found| - 1 ==> ScanMarkers(current, found, j, kind, done) == Ok(emitted)
    ensures ok && j < |found| - 1 ==> ScanMarkers(current, found, j, kind, done) == ScanMarkers(next, found, j + 1, kind, emitted)
  {
    var alt := found[j].0;
    var link := found[j].1;
    var markup := Markup(kind, alt, link);
    var at := IndexOf(current, markup);
    if at.None? {
      ScanMissing(current, found, j, kind, done, markup);
      return false, current, done;
    }
    var before := current[..at.value];
    var after := current[at.value + |markup|..];
    var pair := [TextNode(before, Text, None), TextNode(alt, MarkerType(kind), Some(link))];
    emitted := done + pair;
    if j == |found| - 1 {
      ScanLast(current, found, j, kind, done, markup, at.value, pair, after);
      emitted := emitted + [TextNode(after, Text, None)];
      next := current;
    } else {
      ScanNext(current, found, j, kind, done, markup, at.value, pair, after);
      next := after;
    }
    ok := true;
  }

  /** The closing comprehension `[x for x in output if x.text]`. */
  method KeepTextNodes(output: seq<Item>) returns (r: Result<seq<TextNode>, Error>)
    ensures r == if AsSpans(output) then Ok(KeepText(NodesOf(output))) else Err(MissingTextAttribute)
  {
    var kept: seq<TextNode> := [];
    var k := 0;
    while k < |output|
      invariant 0 <= k <= |output|
      invariant AsSpans(output[..k]) && kept == KeepText(NodesOf(output[..k]))
    {
      if output[k].Foreign? {
        return Err(MissingTextAttribute);
      }
      assert NodesOf(output[..k + 1])[..k] == NodesOf(output[..k]);
      if output[k].node.text != "" {
        kept := kept + [output[k].node];
      }
      k := k + 1;
    }
    assert output[..k] == output;
    r := Ok(kept);
  }

  /** `split_nodes_image`. */
  method SplitNodesImage(oldNodes: seq<Item>) returns (r: Result<seq<TextNode>, Error>)
    ensures r == SplitMarked(oldNodes, ImageMarker)
  {
    r := SplitNodesMarked(oldNodes, ImageMarker);
  }

  /** `split_nodes_link`. */
  method SplitNodesLink(oldNodes: seq<Item>) returns (r: Result<seq<TextNode>, Error>)
    ensures r == SplitMarked(oldNodes, LinkMarker)
  {
    r := SplitNodesMarked(oldNodes, LinkMarker);
  }

  /** Elements that are not text nodes, or whose text holds no marker, pass through unchanged. */
  lemma {:induction false} SplitMarkedAllKeeps(items: seq<Item>, kind: MarkerKind)
    requires forall i :: 0 <= i < |items| && items[i].Span? ==> Extract(kind, items[i].node.text) == []
    ensures SplitMarkedAll(items, kind) == Ok(items)
    decreases |items|
  {
    if |items| > 0 {
      var k := |items| - 1;
      SplitMarkedAllKeeps(items[..k], kind);
      SplitMarkedSnoc(items[..k], items[k], kind);
      assert items[..k] + [items[k]] == items;
    }
  }

  /** Text nodes without a marker come out as they went in, less those with empty text. */
  lemma SplitMarkedKeeps(nodes: seq<TextNode>, kind: MarkerKind)
    requires forall i :: 0 <= i < |nodes| ==> Extract(kind, nodes[i].text) == []
    ensures SplitMarked(Spans(nodes), kind) == Ok(KeepText(nodes))
  {
    SplitMarkedAllKeeps(Spans(nodes), kind);
    assert NodesOf(Spans(nodes)) == nodes;
  }

  /** Nodes that all have text are all kept. */
  lemma {:induction false} KeepTextAll(nodes: seq<TextNode>)
    requires forall i :: 0 <= i < |nodes| ==> nodes[i].text != ""
    ensures KeepText(nodes) == nodes
    decreases |nodes|
  {
    if |nodes| > 0 {
      KeepTextAll(nodes[..|nodes| - 1]);
      assert nodes[..|nodes| - 1] + [nodes[|nodes| - 1]] == nodes;
    }
  }

  /** The list a writer meant: plain text and marker nodes, alternating. */
  function Alternate(gaps: seq<string>, marks: seq<(string, string)>, kind: MarkerKind): seq<TextNode>
    requires |gaps| == |marks| + 1
    decreases |marks|
  {
    if |marks| == 0 then [TextNode(gaps[0], Text, None)]
    else
      [TextNode(gaps[0], Text, None), TextNode(marks[0].0, MarkerType(kind), Some(marks[0].1))]
        + Alternate(gaps[1..], marks[1..], kind)
  }

  /** Cutting a text built from plain text and markers at its markers gives
      back the pieces it was built from. */
  lemma {:induction false} SplitMarkersInterleaved(gaps: seq<string>, marks: seq<(string, string)>, kind: MarkerKind)
    requires |gaps| == |marks| + 1 && PlainGaps(gaps, kind)
    ensures SplitMarkers(Interleave(gaps, marks, kind), marks, kind) == Ok(Alternate(gaps, marks, kind))
    decreases |marks|
  {
    if |marks| > 0 {
      var markup := Markup(kind, marks[0].0, marks[0].1);
      var rest := Interleave(gaps[1..], marks[1..], kind);
      var text := Interleave(gaps, marks, kind);
      assert text == gaps[0] + markup + rest;
      IndexOfAfter(gaps[0], markup, rest);
      assert text[..|gaps[0]|] == gaps[0];
      assert text[|gaps[0]| + |markup|..] == rest;
      SplitMarkersInterleaved(gaps[1..], marks[1..], kind);
    }
  }

  /** `split_nodes_image` and `split_nodes_link` on a text built from plain
      text and clean markers: each marker becomes one node carrying its alt
      text and url, the text around the markers becomes plain text nodes, in
      order, and pieces with empty text are dropped. For links the text must
      not contain a `!`, which could make a link part of an image. */
  lemma SplitMarkedInterleaved(gaps: seq<string>, marks: seq<(string, string)>, kind: MarkerKind)
    requires |gaps| == |marks| + 1 && PlainGaps(gaps, kind) && CleanMarks(marks)
    requires kind == LinkMarker ==> '!' !in Interleave(gaps, marks, kind)
    ensures SplitMarked([Span(TextNode(Interleave(gaps, marks, kind), Text, None))], kind)
         == Ok(KeepText(Alternate(gaps, marks, kind)))
  {
    var item := Span(TextNode(Interleave(gaps, marks, kind), Text, None));
    var alt := Alternate(gaps, marks, kind);
    SplitMarkedItemInterleaved(gaps, marks, kind);
    SplitMarkedOne(item, kind);
    assert NodesOf(Spans(alt)) == alt;
  }

  /** The element step of `SplitMarkedInterleaved`: the node splits into the
      pieces the text was built from. */
  lemma SplitMarkedItemInterleaved(gaps: seq<string>, marks: seq<(string, string)>, kind: MarkerKind)
    requires |gaps| == |marks| + 1 && PlainGaps(gaps, kind) && CleanMarks(marks)
    requires kind == LinkMarker ==> '!' !in Interleave(gaps, marks, kind)
    ensures SplitMarkedItem(Span(TextNode(Interleave(gaps, marks, kind), Text, None)), kind)
         == Ok(Spans(Alternate(gaps, marks, kind)))
  {
    var text := Interleave(gaps, marks, kind);
    var item := Span(TextNode(text, Text, None));
    ExtractInterleaved(gaps, marks, kind);
    var alt := Alternate(gaps, marks, kind);
    if |marks| == 0 {
      assert Spans(alt) == [item];
    } else {
      SplitMarkersInterleaved(gaps, marks, kind);
    }
  }

  /** The markers extracted from a text built from plain text and clean
      markers are the markers it was built from. */
  lemma ExtractInterleaved(gaps: seq<string>, marks: seq<(string, string)>, kind: MarkerKind)
    requires |gaps| == |marks| + 1 && PlainGaps(gaps, kind) && CleanMarks(marks)
    requires kind == LinkMarker ==> '!' !in Interleave(gaps, marks, kind)
    ensures Extract(kind, Interleave(gaps, marks, kind)) == marks
  {
    if kind == LinkMarker {
      RemoveFirstImageWithoutBang(Interleave(gaps, marks, kind));
    }
    FindAllInterleaved(gaps, marks, kind);
  }

  /** A one-element list is split as its element is, then filtered. */
  lemma SplitMarkedOne(item: Item, kind: MarkerKind)
    requires SplitMarkedItem(item, kind).Ok? && AsSpans(SplitMarkedItem(item, kind).value)
    ensures SplitMarked([item], kind) == Ok(KeepText(NodesOf(SplitMarkedItem(item, kind).value)))
  {
    SplitMarkedSnoc([], item, kind);
    assert [] + [item] == [item];
    ConcatEmpty(SplitMarkedItem(item, kind).value);
  }

  lemma ConcatEmpty<T>(x: seq<T>)
    ensures [] + x == x
  {
  }

  /** An image with an empty alt text disappears: its node has empty text and
      the closing filter drops it. */
  lemma EmptyAltImageDropped(url: string)
    requires Clean("", url)
    ensures SplitMarked([Span(TextNode(Markup(ImageMarker, "", url), Text, None))], ImageMarker) == Ok([])
  {
    var gaps := ["", ""];
    var marks := [("", url)];
    var m := Markup(ImageMarker, "", url);
    assert gaps[1..] == [""] && marks[1..] == [];
    assert Interleave(gaps, marks, ImageMarker) == "" + m + "";
    assert "" + m + "" == m;
    SplitMarkedInterleaved(gaps, marks, ImageMarker);
    var nodes := Alternate(gaps, marks, ImageMarker);
    assert nodes == [TextNode("", Text, None), TextNode("", Image, Some(url))] + [TextNode("", Text, None)];
    KeepTextEmpty(nodes);
  }

  /** Nodes that all have empty text are all dropped. */
  lemma {:induction false} KeepTextEmpty(nodes: seq<TextNode>)
    requires forall i :: 0 <= i < |nodes| ==> nodes[i].text == ""
    ensures KeepText(nodes) == []
    decreases |nodes|
  {
    if |nodes| > 0 {
      KeepTextEmpty(nodes[..|nodes| - 1]);
    }
  }

  /** A link whose text holds an image: the image is removed before the link
      is extracted, so the literal `[a](v)` that the split then looks for is
      not in the text, and `split_nodes_link` raises `IndexError`. */
  lemma LinkAroundImageFails()
    ensures SplitMarked([Span(TextNode("[a![i](u)](v)", Text, None))], LinkMarker) == Err(IndexOutOfRange)
  {
    var text := "[a![i](u)](v)";
    ImageInsideLinkFound(text);
    LinkAroundImageCut(text);
    var item := Span(TextNode(text, Text, None));
    assert SplitMarkedItem(item, LinkMarker) == Err(IndexOutOfRange);
    SplitMarkedSnoc([], item, LinkMarker);
    assert [] + [item] == [item];
  }

  /** The image is taken out of the text before its links are read. */
  lemma ImageInsideLinkRemoved(text: string)
    requires text == "[a![i](u)](v)"
    ensures RemoveFirstImage(text) == "[a](v)"
  {
    ImageInsideLinkSpelled(text);
    RemoveImageBetween("[a", "i", "u", "](v)");
    assert "[a" + "](v)" == "[a](v)";
  }

  lemma ImageInsideLinkSpelled(text: string)
    requires text == "[a![i](u)](v)"
    ensures text == "[a" + Markup(ImageMarker, "i", "u") + "](v)"
  {
    assert ImageMarker.Opener() == "![";
    assert Markup(ImageMarker, "i", "u") == "![i](u)";
  }

  /** So the one link found is `[a](v)`. */
  lemma ImageInsideLinkFound(text: string)
    requires text == "[a![i](u)](v)"
    ensures Extract(LinkMarker, text) == [("a", "v")]
  {
    ImageInsideLinkRemoved(text);
    var m := Markup(LinkMarker, "a", "v");
    assert LinkMarker.Opener() == "[";
    assert m == "[a](v)";
    assert m + "" == "[a](v)";
    FindAllMarker("a", "v", "", LinkMarker);
  }

  /** The text itself does not hold `[a](v)`, so the cut fails. */
  lemma LinkAroundImageCut(text: string)
    requires text == "[a![i](u)](v)"
    ensures SplitMarkers(text, [("a", "v")], LinkMarker) == Err(IndexOutOfRange)
  {
    var m := Markup(LinkMarker, "a", "v");
    assert LinkMarker.Opener() == "[";
    assert m == "[a](v)";
    LinkMarkupAbsent(text);
  }

  /** The link's markup never occurs in the text: the image sits inside it. */
  lemma LinkMarkupAbsent(text: string)
    requires text == "[a![i](u)](v)"
    ensures IndexOf(text, "[a](v)") == None
  {
    forall i: nat
      ensures !OccursAt(text, "[a](v)", i)
    {
      if i + 6 <= |text| {
        if i == 0 {
          assert text[i..i + 6][2] == '!';
        } else {
          assert text[i..i + 6][1] == text[i + 1] != 'a';
        }
      }
    }
    IndexOfAbsent(text, "[a](v)");
  }

  /** Well-formed text nodes stay well formed through the outer loop. */
  lemma {:induction false} SplitMarkedAllWellFormed(items: seq<Item>, kind: MarkerKind)
    requires ItemsWellFormed(items) && SplitMarkedAll(items, kind).Ok?
    ensures ItemsWellFormed(SplitMarkedAll(items, kind).value)
    decreases |items|
  {
    if |items| > 0 {
      var k := |items| - 1;
      assert items[..k] + [items[k]] == items;
      SplitMarkedSnoc(items[..k], items[k], kind);
      SplitMarkedAllWellFormed(items[..k], kind);
      var item := items[k];
      if item.Span? && Extract(kind, item.node.text) != [] {
        var last := SplitMarkedItem(item, kind).value;
        var parts :| last == Spans(parts) && MarkerSplit(parts, item.node.text, Extract(kind, item.node.text), kind);
        assert ItemsWellFormed(last);
      }
    }
  }

  /** Every node `split_nodes_image` and `split_nodes_link` return is well formed. */
  lemma SplitMarkedWellFormed(items: seq<Item>, kind: MarkerKind)
    requires ItemsWellFormed(items) && SplitMarked(items, kind).Ok?
    ensures forall j :: 0 <= j < |SplitMarked(items, kind).value| ==> WellFormed(SplitMarked(items, kind).value[j])
  {
    SplitMarkedAllWellFormed(items, kind);
  }

  // ---------------------------------------------------------------------------
  // text_node_to_html_node
  // ---------------------------------------------------------------------------

  /** `text_node_to_html_node`: one `LeafNode` per text type. */
  function TextNodeToHtml(t: TextNode): Node {
    match t.textType
    case Text => Leaf(None, t.text, [])
    case Bold => Leaf(Some("b"), t.text, [])
    case Italic => Leaf(Some("i"), t.text, [])
    case Code => Leaf(Some("code"), t.text, [])
    case Link => Leaf(Some("a"), t.text, if Truthy(t.url) then [("href", t.url.value)] else [])
    case Image => Leaf(Some("img"), "", [("src", if Truthy(t.url) then t.url.value else ""), ("alt", t.text)])
  }

  /** Plain, bold, italic and code spans with text render as the text, bare
      or inside `<b>`, `<i>` or `<code>`. */
  lemma FormattedSpanRendering(t: TextNode)
    requires t.text != ""
    ensures t.textType == Text ==> Render(TextNodeToHtml(t)) == Ok(t.text)
    ensures t.textType == Bold ==> Render(TextNodeToHtml(t)) == Ok("<b>" + t.text + "</b>")
    ensures t.textType == Italic ==> Render(TextNodeToHtml(t)) == Ok("<i>" + t.text + "</i>")
    ensures t.textType == Code ==> Render(TextNodeToHtml(t)) == Ok("<code>" + t.text + "</code>")
  {
    var v := t.text;
    if t.textType == Bold {
      assert OpenTag("b", []) == "<b>" && CloseTag("b") == "</b>";
      assert Render(TextNodeToHtml(t)) == Ok(OpenTag("b", []) + v + CloseTag("b"));
    } else if t.textType == Italic {
      assert OpenTag("i", []) == "<i>" && CloseTag("i") == "</i>";
      assert Render(TextNodeToHtml(t)) == Ok(OpenTag("i", []) + v + CloseTag("i"));
    } else if t.textType == Code {
      assert OpenTag("code", []) == "<code>" && CloseTag("code") == "</code>";
      assert Render(TextNodeToHtml(t)) == Ok(OpenTag("code", []) + v + CloseTag("code"));
    }
  }

  /** A link with text renders as an `a` element, with an `href` attribute
      exactly when its url is non-empty. */
  lemma LinkRendering(t: TextNode)
    requires t.textType == Link && t.text != ""
    ensures Truthy(t.url) ==> Render(TextNodeToHtml(t)) == Ok("<a href=\"" + t.url.value + "\">" + t.text + "</a>")
    ensures !Truthy(t.url) ==> Render(TextNodeToHtml(t)) == Ok("<a>" + t.text + "</a>")
  {
    if Truthy(t.url) {
      var u := t.url.value;
      LinkOpenTag(u);
      assert Render(TextNodeToHtml(t)) == Ok(OpenTag("a", [("href", u)]) + t.text + CloseTag("a"));
    } else {
      BareLinkOpenTag();
      assert Render(TextNodeToHtml(t)) == Ok(OpenTag("a", []) + t.text + CloseTag("a"));
    }
  }

  lemma LinkOpenTag(u: string)
    ensures OpenTag("a", [("href", u)]) == "<a href=\"" + u + "\">"
    ensures CloseTag("a") == "</a>"
  {
    PropsTextOne("href", u);
    assert OpenTag("a", [("href", u)]) == "<" + "a" + (" " + "href" + "=\"" + u + "\"") + ">";
  }

  lemma BareLinkOpenTag()
    ensures OpenTag("a", []) == "<a>"
    ensures CloseTag("a") == "</a>"
  {
    assert PropsText([]) == "";
  }

  /** An image always renders, even with an empty alt text: an `img` element
      with its `src` and `alt` attributes and no content. */
  lemma ImageRendering(t: TextNode)
    requires t.textType == Image && Truthy(t.url)
    ensures Render(TextNodeToHtml(t)) == Ok("<img src=\"" + t.url.value + "\" alt=\"" + t.text + "\"></img>")
  {
    var u := t.url.value;
    var open := OpenTag("img", [("src", u), ("alt", t.text)]);
    ImageOpenTag(u, t.text);
    assert Render(TextNodeToHtml(t)) == Ok(open + "" + CloseTag("img"));
    assert open + "" == open;
    assert CloseTag("img") == "</img>";
  }

  /** The opening tag of an image: its `src` attribute, then its `alt`. */
  lemma ImageOpenTag(u: string, alt: string)
    ensures OpenTag("img", [("src", u), ("alt", alt)]) + "</img>" == "<img src=\"" + u + "\" alt=\"" + alt + "\"></img>"
  {
    PropsTextPairs("src", u, "alt", alt);
    assert OpenTag("img", [("src", u), ("alt", alt)]) == "<img src=\"" + u + "\" alt=\"" + alt + "\">";
  }

  /** Any other span with empty text fails to render: a `LeafNode` needs a value. */
  lemma EmptySpanFails(t: TextNode)
    requires t.textType != Image && t.text == ""
    ensures Render(TextNodeToHtml(t)) == Err(LeafWithoutValue)
  {
  }

  // ---------------------------------------------------------------------------
  // text_to_textnodes
  // ---------------------------------------------------------------------------

  /** `text_to_textnodes`: bold, italic and code delimiters, then images, then links. */
  function TextToTextNodes(text: string): (r: Result<seq<TextNode>, Error>)
    ensures r.Ok? ==> forall j :: 0 <= j < |r.value| ==> r.value[j].text != ""
  {
    var bold :- SplitDelimiter([Span(TextNode(text, Text, None))], "**", Bold);
    var italic :- SplitDelimiter(bold, "*", Italic);
    var code :- SplitDelimiter(italic, "`", Code);
    var images :- SplitMarked(code, ImageMarker);
    SplitMarked(Spans(images), LinkMarker)
  }

  /** Every span the tokenizer returns is well formed: only links and images carry a url. */
  lemma TextToTextNodesWellFormed(text: string)
    requires TextToTextNodes(text).Ok?
    ensures forall j :: 0 <= j < |TextToTextNodes(text).value| ==> WellFormed(TextToTextNodes(text).value[j])
  {
    var start := [Span(TextNode(text, Text, None))];
    SplitDelimiterWellFormed(start, "**", Bold);
    var bold := SplitDelimiter(start, "**", Bold).value;
    SplitDelimiterWellFormed(bold, "*", Italic);
    var italic := SplitDelimiter(bold, "*", Italic).value;
    SplitDelimiterWellFormed(italic, "`", Code);
    var code := SplitDelimiter(italic, "`", Code).value;
    SplitMarkedWellFormed(code, ImageMarker);
    var images := SplitMarked(code, ImageMarker).value;
    SplitMarkedWellFormed(Spans(images), LinkMarker);
  }

  /** Text nodes whose texts hold no occurrence of the delimiter pass through unchanged. */
  lemma {:induction false} SplitDelimiterKeeps(items: seq<Item>, delimiter: string, target: TextType)
    requires |delimiter| > 0
    requires forall i :: 0 <= i < |items| && items[i].Span? ==> Count(items[i].node.text, delimiter) == 0
    ensures SplitDelimiter(items, delimiter, target) == Ok(items)
    decreases |items|
  {
    if |items| > 0 {
      var k := |items| - 1;
      SplitDelimiterKeeps(items[..k], delimiter, target);
      SplitDelimiterSnoc(items[..k], items[k], delimiter, target);
      assert items[..k] + [items[k]] == items;
    }
  }

  /** Spans without a `*`, a backtick or a `[` go through the whole tokenizer unchanged, less empty ones. */
  lemma PlainSpansPass(nodes: seq<TextNode>)
    requires forall i :: 0 <= i < |nodes| ==>
               '*' !in nodes[i].text && '`' !in nodes[i].text && '[' !in nodes[i].text
    ensures SplitDelimiter(Spans(nodes), "*", Italic) == Ok(Spans(nodes))
    ensures SplitDelimiter(Spans(nodes), "`", Code) == Ok(Spans(nodes))
    ensures SplitMarked(Spans(nodes), ImageMarker) == Ok(KeepText(nodes))
    ensures SplitMarked(Spans(nodes), LinkMarker) == Ok(KeepText(nodes))
  {
    forall i | 0 <= i < |nodes|
      ensures Count(nodes[i].text, "*") == 0 && Count(nodes[i].text, "`") == 0
      ensures Extract(ImageMarker, nodes[i].text) == [] && Extract(LinkMarker, nodes[i].text) == []
    {
      CountWithout(nodes[i].text, "*");
      CountWithout(nodes[i].text, "`");
      FindAllWithoutBracket(nodes[i].text, ImageMarker);
      RemoveFirstImageWithoutBracket(nodes[i].text);
      FindAllWithoutBracket(nodes[i].text, LinkMarker);
    }
    SplitDelimiterKeeps(Spans(nodes), "*", Italic);
    SplitDelimiterKeeps(Spans(nodes), "`", Code);
    SplitMarkedKeeps(nodes, ImageMarker);
    SplitMarkedKeeps(nodes, LinkMarker);
  }

  /** Text with no Markdown syntax in it becomes one plain text node. */
  lemma PlainTextIsOneNode(text: string)
    requires text != "" && '*' !in text && '`' !in text && '[' !in text
    ensures TextToTextNodes(text) == Ok([TextNode(text, Text, None)])
  {
    var nodes := [TextNode(text, Text, None)];
    CountWithout(text, "**");
    SplitDelimiterKeeps(Spans(nodes), "**", Bold);
    assert Spans(nodes) == [Span(TextNode(text, Text, None))];
    PlainSpansPass(nodes);
    KeepTextAll(nodes);
  }

  /** Text that is one link and nothing else becomes one link node. */
  lemma LoneLinkIsOneNode(alt: string, url: string)
    requires alt != "" && Clean(alt, url)
    requires '*' !in alt + url && '`' !in alt + url && '!' !in alt + url
    ensures TextToTextNodes(Markup(LinkMarker, alt, url)) == Ok([TextNode(alt, Link, Some(url))])
  {
    var text := Markup(LinkMarker, alt, url);
    assert text == "[" + alt + "](" + url + ")";
    UnmarkedPassesKeep(text);
    LoneLinkSplit(alt, url);
  }

  /** Text with no `*`, backtick or `!` passes the delimiter and image passes as it is. */
  lemma UnmarkedPassesKeep(text: string)
    requires text != "" && '*' !in text && '`' !in text && '!' !in text
    ensures SplitDelimiter([Span(TextNode(text, Text, None))], "**", Bold) == Ok([Span(TextNode(text, Text, None))])
    ensures SplitDelimiter([Span(TextNode(text, Text, None))], "*", Italic) == Ok([Span(TextNode(text, Text, None))])
    ensures SplitDelimiter([Span(TextNode(text, Text, None))], "`", Code) == Ok([Span(TextNode(text, Text, None))])
    ensures SplitMarked([Span(TextNode(text, Text, None))], ImageMarker) == Ok([TextNode(text, Text, None)])
  {
    var start := [Span(TextNode(text, Text, None))];
    CountWithout(text, "**");
    CountWithout(text, "*");
    CountWithout(text, "`");
    SplitDelimiterKeeps(start, "**", Bold);
    SplitDelimiterKeeps(start, "*", Italic);
    SplitDelimiterKeeps(start, "`", Code);
    assert Interleave([text], [], ImageMarker) == text;
    FindAllInterleaved([text], [], ImageMarker);
    var nodes := [TextNode(text, Text, None)];
    assert Spans(nodes) == start;
    SplitMarkedKeeps(nodes, ImageMarker);
    KeepTextAll(nodes);
  }

  /** The link pass turns the text of one link into the link node. */
  lemma LoneLinkSplit(alt: string, url: string)
    requires alt != "" && Clean(alt, url) && '!' !in alt + url
    ensures SplitMarked(Spans([TextNode(Markup(LinkMarker, alt, url), Text, None)]), LinkMarker)
         == Ok([TextNode(alt, Link, Some(url))])
  {
    var text := Markup(LinkMarker, alt, url);
    assert text == "[" + alt + "](" + url + ")";
    var gaps := ["", ""];
    var marks := [(alt, url)];
    assert gaps[1..] == [""] && marks[1..] == [];
    assert Interleave(gaps, marks, LinkMarker) == "" + text + "";
    assert "" + text + "" == text;
    SplitMarkedInterleaved(gaps, marks, LinkMarker);
    assert Spans([TextNode(text, Text, None)]) == [Span(TextNode(text, Text, None))];
    var alternate := Alternate(gaps, marks, LinkMarker);
    assert MarkerType(LinkMarker) == Link;
    assert alternate == [TextNode("", Text, None), TextNode(alt, Link, Some(url))] + [TextNode("", Text, None)];
    assert alternate == [TextNode("", Text, None), TextNode(alt, Link, Some(url)), TextNode("", Text, None)];
    KeepTextPadded(TextNode(alt, Link, Some(url)));
    assert SplitMarked([Span(TextNode(text, Text, None))], LinkMarker) == Ok(KeepText(alternate));
  }

  /** A node with text between two empty plain nodes is the only one kept. */
  lemma KeepTextPadded(t: TextNode)
    requires t.text != ""
    ensures KeepText([TextNode("", Text, None), t, TextNode("", Text, None)]) == [t]
  {
    var nodes := [TextNode("", Text, None), t, TextNode("", Text, None)];
    var e := TextNode("", Text, None);
    assert nodes[..2] == [e, t];
    assert [e, t][..1] == [e];
    assert [e][..0] == [];
    assert KeepText([e]) == [];
    assert KeepText([e, t]) == [t];
    assert KeepText(nodes) == KeepText([e, t]);
  }

  /** Empty text gives no node at all: the image pass drops the empty plain node. */
  lemma EmptyTextHasNoNodes()
    ensures TextToTextNodes("") == Ok([])
  {
    var start := [Span(TextNode("", Text, None))];
    EmptySpanKept("**", Bold);
    EmptySpanKept("*", Italic);
    EmptySpanKept("`", Code);
    EmptySpanDropped();
    TokenizeSteps("", start, start, start, []);
    NoSpansSplitToNothing();
  }

  /** A span with empty text holds no delimiter and passes a delimiter pass unchanged. */
  lemma EmptySpanKept(delimiter: string, target: TextType)
    requires |delimiter| > 0
    ensures SplitDelimiter([Span(TextNode("", Text, None))], delimiter, target) == Ok([Span(TextNode("", Text, None))])
  {
    CountWithout("", delimiter);
    SplitDelimiterKeeps([Span(TextNode("", Text, None))], delimiter, target);
  }

  /** The image pass drops a span with empty text. */
  lemma EmptySpanDropped()
    ensures SplitMarked([Span(TextNode("", Text, None))], ImageMarker) == Ok([])
  {
    var nodes := [TextNode("", Text, None)];
    assert Spans(nodes) == [Span(TextNode("", Text, None))];
    PlainSpansPass(nodes);
    assert nodes[..0] == [];
    assert KeepText(nodes) == [];
  }

  lemma NoSpansSplitToNothing()
    ensures SplitMarked(Spans([]), LinkMarker) == Ok([])
  {
    assert Spans([]) == [];
  }

  /** The tokenizer is its five passes in a row. */
  lemma TokenizeSteps(text: string, bold: seq<Item>, italic: seq<Item>, code: seq<Item>, images: seq<TextNode>)
    requires SplitDelimiter([Span(TextNode(text, Text, None))], "**", Bold) == Ok(bold)
    requires SplitDelimiter(bold, "*", Italic) == Ok(italic)
    requires SplitDelimiter(italic, "`", Code) == Ok(code)
    requires SplitMarked(code, ImageMarker) == Ok(images)
    ensures TextToTextNodes(text) == SplitMarked(Spans(images), LinkMarker)
  {
  }

  /** Bold text between plain text becomes plain, bold and plain nodes, when
      the bold text differs from the text on either side of it (a repeated piece
      takes the type of its first occurrence). */
  lemma BoldBetweenText(a: string, b: string, c: string)
    requires a != "" && b != "" && c != "" && a != b && b != c
    requires '*' !in a && '*' !in b && '*' !in c
    requires '`' !in a && '`' !in b && '`' !in c
    requires '[' !in a && '[' !in b && '[' !in c
    ensures TextToTextNodes(a + "**" + b + "**" + c)
         == Ok([TextNode(a, Text, None), TextNode(b, Bold, None), TextNode(c, Text, None)])
  {
    var nodes := [TextNode(a, Text, None), TextNode(b, Bold, None), TextNode(c, Text, None)];
    BoldPass(a, b, c);
    PlainSpansPass(nodes);
    KeepTextAll(nodes);
  }

  /** The bold pass over `a**b**c` cuts it into three spans, the middle one bold. */
  lemma BoldPass(a: string, b: string, c: string)
    requires a != "" && b != "" && c != "" && a != b && b != c
    requires '*' !in a && '*' !in b && '*' !in c
    ensures SplitDelimiter([Span(TextNode(a + "**" + b + "**" + c, Text, None))], "**", Bold)
         == Ok(Spans([TextNode(a, Text, None), TextNode(b, Bold, None), TextNode(c, Text, None)]))
  {
    var nodes := [TextNode(a, Text, None), TextNode(b, Bold, None), TextNode(c, Text, None)];
    ThreePieces(a, b, c, "**", Bold, nodes);
    SplitDelimiterOnePieces(TextNode(a + "**" + b + "**" + c, Text, None), "**", Bold, nodes);
  }

  /** A delimiter that is opened but never closed raises `MarkdownFormattingError`. */
  lemma UnclosedBoldFails(a: string, b: string)
    requires '*' !in a && '*' !in b
    ensures TextToTextNodes(a + "**" + b) == Err(NoClosingDelimiter(a + "**" + b))
  {
    SplitAround(a, b, "**");
    CountWithout(b, "**");
    SplitWithout(b, "**");
    var start := Span(TextNode(a + "**" + b, Text, None));
    SplitDelimiterSnoc([], start, "**", Bold);
    assert [] + [start] == [start];
  }
}
