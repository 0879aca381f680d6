/** `TextNode`: a typed span of inline text, an immutable value compared field
    by field. */
module TextNodes {
  import opened Wrappers

  datatype TextType = Text | Bold | Italic | Code | Link | Image

  datatype TextNode = TextNode(text: string, textType: TextType, url: Option<string>)

  /** A span as the tokenizer makes it: only links and images carry a url. */
  predicate WellFormed(t: TextNode) {
    t.url.Some? <==> (t.textType == Link || t.textType == Image)
  }

  /** Two text nodes are equal exactly when text, type and url all agree. */
  lemma TextNodeEquality(a: TextNode, b: TextNode)
    ensures a == b <==> a.text == b.text && a.textType == b.textType && a.url == b.url
  {
  }
}
