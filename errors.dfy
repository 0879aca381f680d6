/** The exceptions the Markdown pipeline can raise, as values. */
module Errors {

  datatype Error =
      /** `MarkdownFormattingError` from `split_nodes_delimiter`, carrying the offending text. */
    | NoClosingDelimiter(text: string)
      /** `MarkdownFormattingError` from `extract_title`, carrying the whole document. */
    | NoTitle(document: string)
      /** `NotImplementedError` from the base `HTMLNode.to_html`. */
    | NotImplemented
      /** `ValueError` from `LeafNode.to_html`. */
    | LeafWithoutValue
      /** `ValueError`s from `ParentNode.to_html`. */
    | ParentWithoutTag
    | ParentWithoutChildren
      /** Python's `IndexError`: `x[0]` on an empty line, or `[1]` of a split that found nothing. */
    | IndexOutOfRange
      /** Python's `AttributeError`: reading `.text` of an `HTMLNode` in a list of text nodes. */
    | MissingTextAttribute
  {
    /** The message the source attaches to the exception. */
    function Message(): string {
      match this
      case NoClosingDelimiter(_) => "Invalid Markdown syntax. No closing delimiter."
      case NoTitle(_) => "Markdown document has no title"
      case NotImplemented => ""
      case LeafWithoutValue => "Leaf node has no value"
      case ParentWithoutTag => "ParentNode has no tag"
      case ParentWithoutChildren => "ParentNode has no children"
      case IndexOutOfRange => "list index out of range"
      case MissingTextAttribute => "'HTMLNode' object has no attribute 'text'"
    }
  }
}
