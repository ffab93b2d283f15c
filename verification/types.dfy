/** The node model of the page designer's AST (package/designer/src/ast/types.ts):
    a closed tree of four node kinds, each carrying the discriminant tag it
    is dispatched on. */
module AstTypes {
  import opened Wrappers

  /** The discriminant tag of a node (`NodeType` in the source). */
  datatype NodeType = ROOT | ELEMENT | TEXT | ATTRIBUTE

  /** An attribute value is a string or a boolean and nothing else. */
  datatype AttrValue = StrValue(str: string) | BoolValue(flag: bool)

  /** An attribute node: a name and its value. */
  datatype AttributeNode = AttributeNode(name: string, value: AttrValue)

  /** Any node of the tree. Only `Root` and `Element` carry `children`; an
      element's attributes are a separate ordered list, not children. The
      `isSelfClosing` flag of an element may be absent. */
  datatype Node =
    | Root(children: seq<Node>)
    | Element(tag: string, attributes: seq<AttributeNode>, children: seq<Node>, isSelfClosing: Option<bool>)
    | Text(content: string)
    | Attribute(attr: AttributeNode)
  {
    /** The node's `type` field. */
    function Type(): (t: NodeType)
      ensures t == ROOT <==> Root?
      ensures t == ELEMENT <==> Element?
      ensures t == TEXT <==> Text?
      ensures t == ATTRIBUTE <==> Attribute?
    {
      match this
      case Root(_) => ROOT
      case Element(_, _, _, _) => ELEMENT
      case Text(_) => TEXT
      case Attribute(_) => ATTRIBUTE
    }
  }
}
