/** The kinds of nodes, and which may contain which. */
module NodeKinds {

  datatype Kind =
    | Document | BlockQuote | List | Item | CodeBlock | HtmlBlock | CustomBlock | Paragraph | Heading
    | ThematicBreak | FootnoteDefinition
    | Text | SoftBreak | LineBreak | Code | HtmlInline | CustomInline | Emph | Strong | Link | Image
    | Attribute | FootnoteReference

  predicate IsInline(k: Kind) {
    match k
    case Text | SoftBreak | LineBreak | Code | HtmlInline | CustomInline | Emph | Strong | Link | Image => true
    case Attribute | FootnoteReference => true
    case _ => false
  }

  /** `cmark_node_can_contain_type` without extensions. */
  predicate CanContain(parent: Kind, child: Kind) {
    child != Document &&
    match parent
    case Document | BlockQuote | FootnoteDefinition | Item => !IsInline(child) && child != Item
    case List => child == Item
    case CustomBlock => true
    case Paragraph | Heading | Emph | Strong | Link | Image | Attribute | CustomInline => IsInline(child)
    case _ => false
  }

  /** The same by the child: items stand in lists, other blocks in the blocks that hold blocks, inlines in the leaf
      blocks with text and in inlines; a custom block takes anything, and nothing takes a document. */
  lemma WhoContains(p: Kind, c: Kind)
    ensures CanContain(p, c) <==>
      match c
      case Document => false
      case Item => p in {List, CustomBlock}
      case BlockQuote | List | CodeBlock | HtmlBlock | CustomBlock | Paragraph | Heading | ThematicBreak | FootnoteDefinition =>
        p in {Document, BlockQuote, FootnoteDefinition, Item, CustomBlock}
      case _ => p in {Paragraph, Heading, Emph, Strong, Link, Image, Attribute, CustomInline, CustomBlock}
  {
  }
}
