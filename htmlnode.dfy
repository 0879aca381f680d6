/** The HTML node tree: the base `HTMLNode`, `LeafNode` and `ParentNode`,
    their attribute rendering, their `to_html` and their equality. Nodes are
    values: the source sets their fields once, in the constructor. */
module HtmlNode {
  import opened Wrappers
  import opened Errors
  import opened Strings

  /** An attribute dictionary, as its entries in insertion order. */
  type Props = seq<(string, string)>

  datatype Node =
      /** A bare `HTMLNode`. */
    | Html(tag: Option<string>, value: Option<string>, children: seq<Node>, props: Props)
      /** A `LeafNode`: its value is a string and it has no children. */
    | Leaf(tag: Option<string>, leafValue: string, props: Props)
      /** A `ParentNode`: it has no value. */
    | Parent(tag: Option<string>, children: seq<Node>, props: Props)
  {
    /** The `value` field. */
    function Value(): Option<string> {
      match this
      case Html(_, v, _, _) => v
      case Leaf(_, v, _) => Some(v)
      case Parent(_, _, _) => None
    }

    /** The `children` field: a `LeafNode` passes `children=[]` to the base constructor. */
    function Children(): (cs: seq<Node>)
      ensures Leaf? ==> cs == []
    {
      if Leaf? then [] else children
    }
  }

  /** `HTMLNode(tag, value, children, props)`: missing children or props become
      fresh empty containers, everything else is stored as given. */
  function NewHtmlNode(tag: Option<string>, value: Option<string>,
                       children: Option<seq<Node>>, props: Option<Props>): (n: Node)
    ensures n.tag == tag && n.Value() == value
    ensures children.None? ==> n.Children() == []
    ensures children.Some? ==> n.Children() == children.value
    ensures props.None? ==> n.props == []
    ensures props.Some? ==> n.props == props.value
  {
    Html(tag, value,
         match children case Some(cs) => cs case None => [],
         match props case Some(ps) => ps case None => [])
  }

  /** Python truthiness of an optional string: present and non-empty. */
  predicate Truthy(s: Option<string>) {
    s.Some? && s.value != ""
  }

  // ---------------------------------------------------------------------------
  // props_to_html
  // ---------------------------------------------------------------------------

  /** One dictionary entry as `props_to_html` writes it. */
  function Attribute(key: string, value: string): string {
    " " + key + "=\"" + value + "\""
  }

  /** What `props_to_html` returns: every entry in insertion order, unescaped. */
  function PropsText(props: Props): (r: string)
    ensures r == "" <==> props == []
    ensures props != [] ==> r[0] == ' '
    decreases |props|
  {
    if |props| == 0 then ""
    else
      var (key, value) := props[|props| - 1];
      PropsText(props[..|props| - 1]) + Attribute(key, value)
  }

  /** `props_to_html`, accumulating `result +=` entry by entry. */
  method PropsToHtml(props: Props) returns (result: string)
    ensures result == PropsText(props)
  {
    result := "";
    var i := 0;
    while i < |props|
      invariant 0 <= i <= |props|
      invariant result == PropsText(props[..i])
    {
      var (key, value) := props[i];
      result := result + Attribute(key, value);
      i := i + 1;
      assert props[..i][..i - 1] == props[..i - 1];
    }
    assert props[..|props|] == props;
  }

  /** The attributes of two dictionaries written one after the other are
      the first's attributes followed by the second's. */
  lemma {:induction false} PropsTextConcat(a: Props, b: Props)
    ensures PropsText(a + b) == PropsText(a) + PropsText(b)
    decreases |b|
  {
    if |b| == 0 {
      assert a + b == a;
    } else {
      var last := |b| - 1;
      assert (a + b)[..|a + b| - 1] == a + b[..last];
      PropsTextConcat(a, b[..last]);
    }
  }

  /** `props_to_html` of the dictionaries the builders make, entry by entry in order. */
  lemma {:induction false} PropsTextOne(key: string, value: string)
    ensures PropsText([(key, value)]) == " " + key + "=\"" + value + "\""
  {
    assert [(key, value)][..0] == [];
  }

  lemma {:induction false} PropsTextPairs(k1: string, v1: string, k2: string, v2: string)
    ensures PropsText([(k1, v1), (k2, v2)])
         == " " + k1 + "=\"" + v1 + "\"" + " " + k2 + "=\"" + v2 + "\""
  {
    PropsTextOne(k1, v1);
    assert [(k1, v1), (k2, v2)][..1] == [(k1, v1)];
  }

  // ---------------------------------------------------------------------------
  // to_html
  // ---------------------------------------------------------------------------

  function OpenTag(tag: string, props: Props): string {
    "<" + tag + PropsText(props) + ">"
  }

  function CloseTag(tag: string): string {
    "</" + tag + ">"
  }

  /** `LeafNode.to_html`. */
  function RenderLeaf(tag: Option<string>, value: string, props: Props): (r: Result<string, Error>)
    ensures r.Err? <==> value == "" && tag != Some("img")
    ensures r.Err? ==> r.error == LeafWithoutValue
    ensures !Truthy(tag) && value != "" ==> r == Ok(value)
    ensures Truthy(tag) && r.Ok? ==> r.value == OpenTag(tag.value, props) + value + CloseTag(tag.value)
  {
    if value == "" && tag != Some("img") then Err(LeafWithoutValue)
    else if !Truthy(tag) && value != "" then Ok(value)
    else Ok(OpenTag(tag.value, props) + value + CloseTag(tag.value))
  }

  /** `to_html` of any node, dispatching on its class as Python's method lookup does. */
  function Render(n: Node): Result<string, Error>
    decreases n
  {
    match n
    case Html(_, _, _, _) => Err(NotImplemented)
    case Leaf(tag, value, props) => RenderLeaf(tag, value, props)
    case Parent(tag, children, props) =>
      if !Truthy(tag) then Err(ParentWithoutTag)
      else if |children| == 0 then Err(ParentWithoutChildren)
      else
        var inner :- RenderAll(children);
        Ok(OpenTag(tag.value, props) + inner + CloseTag(tag.value))
  }

  /** The children's `to_html` concatenated in order; the first failure wins. */
  function RenderAll(nodes: seq<Node>): Result<string, Error>
    decreases nodes
  {
    if |nodes| == 0 then Ok("")
    else
      var init :- RenderAll(nodes[..|nodes| - 1]);
      var last :- Render(nodes[|nodes| - 1]);
      Ok(init + last)
  }

  /** Once a prefix of the children fails, the whole sequence fails the same way. */
  lemma {:induction false} RenderAllPrefixErr(nodes: seq<Node>, k: nat)
    requires k <= |nodes| && RenderAll(nodes[..k]).Err?
    ensures RenderAll(nodes) == RenderAll(nodes[..k])
    decreases |nodes| - k
  {
    if k == |nodes| {
      assert nodes[..k] == nodes;
    } else {
      assert nodes[..|nodes| - 1][..k] == nodes[..k];
      RenderAllPrefixErr(nodes[..|nodes| - 1], k);
    }
  }

  /** `to_html` on a node, written as the three classes write it; `ParentNode`
      accumulates `output +=` over its children and recurses into each. */
  method ToHtml(n: Node) returns (r: Result<string, Error>)
    ensures r == Render(n)
    decreases n
  {
    match n {
      case Html(_, _, _, _) =>
        r := Err(NotImplemented);
      case Leaf(tag, value, props) =>
        r := RenderLeaf(tag, value, props);
      case Parent(tag, children, props) =>
        if !Truthy(tag) {
          return Err(ParentWithoutTag);
        }
        if |children| == 0 {
          return Err(ParentWithoutChildren);
        }
        var attributes := PropsToHtml(props);
        var output := "<" + tag.value + attributes + ">";
        var i := 0;
        while i < |children|
          invariant 0 <= i <= |children|
          invariant RenderAll(children[..i]).Ok?
          invariant output == OpenTag(tag.value, props) + RenderAll(children[..i]).value
        {
          assert children[..i + 1][..i] == children[..i];
          var child := ToHtml(children[i]);
          if child.Err? {
            RenderAllPrefixErr(children, i + 1);
            return Err(child.error);
          }
          output := output + child.value;
          i := i + 1;
        }
        assert children[..|children|] == children;
        output := output + CloseTag(tag.value);
        r := Ok(output);
    }
  }

  /** Rendering a sequence of children one of which fails. */
  lemma {:induction false} RenderAllFirstError(nodes: seq<Node>, k: nat)
    requires k < |nodes| && Render(nodes[k]).Err?
    requires forall i :: 0 <= i < k ==> Render(nodes[i]).Ok?
    ensures RenderAll(nodes) == Err(Render(nodes[k]).error)
  {
    RenderAllPrefixOk(nodes, k);
    assert nodes[..k + 1][..k] == nodes[..k];
    RenderAllPrefixErr(nodes, k + 1);
  }

  /** Children that all render make a sequence that renders to their outputs concatenated in order. */
  lemma {:induction false} RenderAllConcat(nodes: seq<Node>, outs: seq<string>)
    requires |outs| == |nodes|
    requires forall i :: 0 <= i < |nodes| ==> Render(nodes[i]) == Ok(outs[i])
    ensures RenderAll(nodes) == Ok(Join(outs, ""))
    decreases |nodes|
  {
    if |nodes| > 0 {
      var k := |nodes| - 1;
      RenderAllConcat(nodes[..k], outs[..k]);
      JoinAppend(outs[..k], outs[k]);
      assert outs[..k] + [outs[k]] == outs;
    }
  }

  lemma {:induction false} RenderAllPrefixOk(nodes: seq<Node>, k: nat)
    requires k <= |nodes|
    requires forall i :: 0 <= i < k ==> Render(nodes[i]).Ok?
    ensures RenderAll(nodes[..k]).Ok?
    decreases k
  {
    if k > 0 {
      assert nodes[..k][..k - 1] == nodes[..k - 1];
      RenderAllPrefixOk(nodes, k - 1);
    }
  }

  /** A `ParentNode` whose children all render gives its opening tag with its
      attributes, then the children's HTML in order with no separator, then its
      closing tag. */
  lemma ParentRendersChildrenInOrder(tag: string, children: seq<Node>, props: Props, outs: seq<string>)
    requires tag != "" && |children| > 0 && |outs| == |children|
    requires forall i :: 0 <= i < |children| ==> Render(children[i]) == Ok(outs[i])
    ensures Render(Parent(Some(tag), children, props))
         == Ok("<" + tag + PropsText(props) + ">" + Join(outs, "") + "</" + tag + ">")
  {
    RenderAllConcat(children, outs);
    assert Render(Parent(Some(tag), children, props))
        == Ok(OpenTag(tag, props) + Join(outs, "") + CloseTag(tag));
    assert OpenTag(tag, props) + Join(outs, "") + CloseTag(tag)
        == "<" + tag + PropsText(props) + ">" + Join(outs, "") + "</" + tag + ">";
  }

  /** A `ParentNode` with a child that fails fails with that child's error, the first one in order. */
  lemma ParentPropagatesChildError(tag: string, children: seq<Node>, props: Props, k: nat)
    requires tag != "" && k < |children| && Render(children[k]).Err?
    requires forall i :: 0 <= i < k ==> Render(children[i]).Ok?
    ensures Render(Parent(Some(tag), children, props)) == Err(Render(children[k]).error)
  {
    RenderAllFirstError(children, k);
  }

  /** The structural failures of `to_html`: the base class never renders, and a
      `ParentNode` needs a non-empty tag and at least one child. */
  lemma RenderFailures(n: Node)
    ensures n.Html? ==> Render(n) == Err(NotImplemented)
    ensures n.Parent? && !Truthy(n.tag) ==> Render(n) == Err(ParentWithoutTag)
    ensures n.Parent? && Truthy(n.tag) && n.children == [] ==> Render(n) == Err(ParentWithoutChildren)
  {
  }

  // ---------------------------------------------------------------------------
  // __eq__
  // ---------------------------------------------------------------------------

  /** `HTMLNode.__eq__`: tag, value and children (recursively, as Python list
      equality does) are compared; the props test compares `self.props` with
      itself, so props never matter, and neither does the class. */
  predicate Equal(a: Node, b: Node)
    decreases a
  {
    var xs := if a.Leaf? then [] else a.children;
    var ys := b.Children();
    && a.tag == b.tag
    && a.Value() == b.Value()
    && |xs| == |ys|
    && forall i :: 0 <= i < |xs| ==> Equal(xs[i], ys[i])
  }

  function WithProps(n: Node, props: Props): Node {
    match n
    case Html(t, v, cs, _) => Html(t, v, cs, props)
    case Leaf(t, v, _) => Leaf(t, v, props)
    case Parent(t, cs, _) => Parent(t, cs, props)
  }

  /** Every node equals itself. */
  lemma {:induction false} EqualReflexive(a: Node)
    ensures Equal(a, a)
    decreases a
  {
    var xs := if a.Leaf? then [] else a.children;
    forall i | 0 <= i < |xs|
      ensures Equal(xs[i], xs[i])
    {
      EqualReflexive(xs[i]);
    }
  }

  /** Changing the props of either side never changes the outcome of `__eq__`. */
  lemma EqualIgnoresProps(a: Node, b: Node, props: Props)
    ensures Equal(WithProps(a, props), b) == Equal(a, b)
    ensures Equal(a, WithProps(b, props)) == Equal(a, b)
  {
  }

  /** Two nodes that differ only in their props are equal. */
  lemma EqualUpToProps(a: Node, p: Props, q: Props)
    ensures Equal(WithProps(a, p), WithProps(a, q))
  {
    EqualReflexive(a);
    EqualIgnoresProps(a, a, p);
    EqualIgnoresProps(WithProps(a, p), a, q);
  }

  /** `__eq__` does not look at the class: a `LeafNode` equals a bare
      `HTMLNode` with the same tag, value and no children. */
  lemma EqualAcrossClasses(tag: Option<string>, value: string, p: Props, q: Props)
    ensures Equal(Leaf(tag, value, p), Html(tag, Some(value), [], q))
  {
  }
}
