/**
 * The tree the external Java parser hands to the AST builder
 * (aibolit/utils/ast.py:259-311). Each node has a runtime class, an optional
 * source position line and an ordered list of child slots. A slot holds
 * another node, nothing, a scalar the builder ignores, a text, a set of
 * texts, or a nested list of slots.
 */
module ParseTree {
  import opened Wrappers
  import opened Taxonomy

  datatype JNode = JNode(jtype: JavalangType, line: Option<int>, children: seq<Child>)

  datatype Child =
    | NoneChild                 // `None` in a child slot
    | Scalar                    // any other value that is not a node, set, text or list (a flag, say)
    | Text(text: string)        // a text placed directly in a child slot
    | TextSet(items: seq<Item>) // a set; the order of `items` is the iteration order of the set
    | Nested(elems: seq<Child>) // a nested list
    | Sub(node: JNode)          // a parser node

  /** An element of a set-valued child slot. */
  datatype Item = NoneItem | TextItem(text: string) | OtherItem
}
