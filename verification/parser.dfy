/** The parser (package/designer/src/ast/parser.ts): turns a loose component
    configuration into a Root/Element/Text tree, keeping the order of props
    and children. It is total and keeps no state between calls. */
module AstParser {
  import opened Wrappers
  import opened AstTypes

  /** One entry of a configuration's `props` record, in the order the
      record's entries are listed. */
  datatype Prop = Prop(key: string, value: AttrValue)

  /** A child of a configuration: a nested configuration or a literal string. */
  datatype ConfigChild = Nested(config: ComponentConfig) | Literal(text: string)

  /** The optional `children` array of a configuration. */
  datatype ConfigChildren = NoChildren | Children(items: seq<ConfigChild>)

  /** The parser's input format: a tag, optional props, optional children and
      an optional self-closing flag. */
  datatype ComponentConfig = ComponentConfig(
    tag: string,
    props: Option<seq<Prop>>,
    children: ConfigChildren,
    isSelfClosing: Option<bool>)

  /** `parse` accepts a single configuration or an array of them. */
  datatype ParseInput = One(config: ComponentConfig) | Many(configs: seq<ComponentConfig>)

  /** A Root whose children are the parsed top-level configurations, one
      element per configuration and in the same order. */
  function Parse(input: ParseInput): (r: Node)
    ensures r.Root?
    ensures input.One? ==> r.children == [ParseElement(input.config)]
    ensures input.Many? ==> |r.children| == |input.configs|
    ensures input.Many? ==>
      forall i :: 0 <= i < |r.children| ==> r.children[i] == ParseElement(input.configs[i])
    ensures forall i :: 0 <= i < |r.children| ==> ParsedElement(r.children[i])
  {
    match input
    case One(c) => Root([ParseElement(c)])
    case Many(cs) => Root(seq(|cs|, i requires 0 <= i < |cs| => ParseElement(cs[i])))
  }

  /** One configuration becomes one Element: the tag and the self-closing
      flag are copied verbatim (an absent flag stays absent), the props
      become the attributes and the children are parsed one by one. */
  function ParseElement(c: ComponentConfig): (r: Node)
    ensures ParsedElement(r)
    ensures r.tag == c.tag && r.isSelfClosing == c.isSelfClosing
    ensures r.attributes == ParseAttributes(c.props.GetOr([]))
    ensures c.children.NoChildren? ==> r.children == []
    ensures c.children.Children? ==> r.children == ParseChildren(c.children.items)
    decreases c
  {
    var attributes := ParseAttributes(c.props.GetOr([]));
    var children := match c.children
      case NoChildren => []
      case Children(cs) => ParseChildren(cs);
    Element(c.tag, attributes, children, c.isSelfClosing)
  }

  /** Each prop entry becomes one attribute with the entry's key as name and
      its value unchanged, in entry order. */
  function ParseAttributes(props: seq<Prop>): (r: seq<AttributeNode>)
    ensures |r| == |props|
    ensures forall i :: 0 <= i < |r| ==> r[i].name == props[i].key && r[i].value == props[i].value
  {
    seq(|props|, i requires 0 <= i < |props| => AttributeNode(props[i].key, props[i].value))
  }

  /** Children are parsed in order: a string becomes a Text node with the
      same content and a configuration becomes an Element. */
  function ParseChildren(cs: seq<ConfigChild>): (r: seq<Node>)
    ensures |r| == |cs|
    ensures forall i :: 0 <= i < |r| ==> r[i] == ParseChild(cs[i])
    ensures forall i :: 0 <= i < |r| ==> ParsedNode(r[i])
    decreases cs
  {
    if |cs| == 0 then [] else [ParseChild(cs[0])] + ParseChildren(cs[1..])
  }

  /** A string child becomes a Text node with the same content; a nested
      configuration becomes an Element. */
  function ParseChild(child: ConfigChild): (r: Node)
    ensures child.Literal? ==> r == Text(child.text)
    ensures child.Nested? ==> r == ParseElement(child.config)
    ensures ParsedNode(r)
    decreases child
  {
    match child
    case Literal(s) => ParseText(s)
    case Nested(c) => ParseElement(c)
  }

  function ParseText(content: string): (r: Node)
    ensures r.Text? && r.content == content
  {
    Text(content)
  }

  /** The shape of every tree the parser builds below the Root: an Element
      whose children are again of this shape, or a Text node. No Root and no
      Attribute node ever appears among them. */
  predicate ParsedNode(n: Node) {
    || n.Text?
    || (n.Element? && forall i :: 0 <= i < |n.children| ==> ParsedNode(n.children[i]))
  }

  predicate ParsedElement(n: Node) {
    n.Element? && ParsedNode(n)
  }

  /** The inverse direction: the configuration an Element of parsed shape
      came from, with props and children always present. */
  function Unparse(e: Node): (c: ComponentConfig)
    requires ParsedElement(e)
    decreases e
  {
    ComponentConfig(
      e.tag,
      Some(seq(|e.attributes|, i requires 0 <= i < |e.attributes| => Prop(e.attributes[i].name, e.attributes[i].value))),
      Children(UnparseChildren(e.children)),
      e.isSelfClosing)
  }

  function UnparseChildren(ns: seq<Node>): (cs: seq<ConfigChild>)
    requires forall i :: 0 <= i < |ns| ==> ParsedNode(ns[i])
    decreases ns
  {
    if |ns| == 0 then []
    else
      assert ParsedNode(ns[0]);
      var first := if ns[0].Text? then Literal(ns[0].content) else Nested(Unparse(ns[0]));
      [first] + UnparseChildren(ns[1..])
  }

  /** A configuration with every optional collection made explicit; parsing
      cannot tell a missing `props` or `children` from an empty one. */
  function Normalize(c: ComponentConfig): ComponentConfig
    decreases c
  {
    var children := match c.children
      case NoChildren => []
      case Children(cs) => NormalizeChildren(cs);
    ComponentConfig(c.tag, Some(c.props.GetOr([])), Children(children), c.isSelfClosing)
  }

  function NormalizeChildren(cs: seq<ConfigChild>): seq<ConfigChild>
    decreases cs
  {
    if |cs| == 0 then [] else [NormalizeChild(cs[0])] + NormalizeChildren(cs[1..])
  }

  function NormalizeChild(child: ConfigChild): ConfigChild
    decreases child
  {
    match child
    case Literal(s) => Literal(s)
    case Nested(c) => Nested(Normalize(c))
  }

  /** Parsing loses nothing of an Element of parsed shape: unparsing it and
      parsing the result gives the same Element back. */
  lemma {:induction false} ParseUnparse(e: Node)
    requires ParsedElement(e)
    ensures ParseElement(Unparse(e)) == e
    decreases e
  {
    ParseUnparseChildren(e.children);
    var props := Unparse(e).props.value;
    assert ParseAttributes(props) == e.attributes;
  }

  lemma {:induction false} ParseUnparseChildren(ns: seq<Node>)
    requires forall i :: 0 <= i < |ns| ==> ParsedNode(ns[i])
    ensures ParseChildren(UnparseChildren(ns)) == ns
    decreases ns
  {
    if |ns| > 0 {
      if ns[0].Element? {
        ParseUnparse(ns[0]);
      }
      ParseUnparseChildren(ns[1..]);
      assert [ns[0]] + ns[1..] == ns;
    }
  }

  /** The other direction: parsing a configuration and unparsing the result
      gives the configuration back, up to making absent props and children
      explicit. */
  lemma {:induction false} UnparseParse(c: ComponentConfig)
    ensures Unparse(ParseElement(c)) == Normalize(c)
    decreases c
  {
    var e := ParseElement(c);
    assert Unparse(e).props.value == c.props.GetOr([]);
    match c.children
    case NoChildren =>
      assert UnparseChildren(e.children) == [];
    case Children(cs) =>
      UnparseParseChildren(cs);
  }

  lemma {:induction false} UnparseParseChildren(cs: seq<ConfigChild>)
    ensures UnparseChildren(ParseChildren(cs)) == NormalizeChildren(cs)
    decreases cs
  {
    if |cs| > 0 {
      UnparseParseChild(cs[0]);
      UnparseParseChildren(cs[1..]);
      assert ParseChildren(cs)[1..] == ParseChildren(cs[1..]);
    }
  }

  lemma {:induction false} UnparseParseChild(child: ConfigChild)
    ensures UnparseChildren([ParseChild(child)]) == [NormalizeChild(child)]
    decreases child
  {
    match child
    case Literal(_) =>
    case Nested(c) => UnparseParse(c);
  }
}
