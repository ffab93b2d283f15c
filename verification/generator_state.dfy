/** The generator as the source writes it: an object holding its resolved
    options and a mutable depth counter `currentIndent`, which an element
    increments before generating its children and decrements afterwards.
    Each call takes the generator's state and returns the state after it. */
module GeneratorState {
  import opened Wrappers
  import opened Strings
  import opened AstTypes
  import opened AstGenerator

  datatype Generator = Generator(options: Settings, currentIndent: nat)

  /** `new Generator(options)`: defaults applied, counter at zero. */
  function NewGenerator(o: GeneratorOptions): (g: Generator)
    ensures g.currentIndent == 0
    ensures g.options.indent != ""
    ensures g.options.format <==> o.format != Some(false)
  {
    Generator(ResolveOptions(o), 0)
  }

  /** `generateNode` on the object: the output and the object's state
      afterwards. Every call leaves the counter where it found it. */
  function GenerateNodeSt(g: Generator, n: Node): (r: (string, Generator))
    ensures r.1 == g
    decreases n
  {
    match n
    case Root(cs) =>
      var (outputs, after) := GenerateChildrenSt(g, cs);
      (Join(outputs, "\n"), after)
    case Element(tag, attributes, cs, _) =>
      var indent := GetIndent(g.options, g.currentIndent);
      var attrs := AttributesText(attributes);
      if SelfClosing(n) then (SelfClosingTag(indent, tag, attrs), g)
      else
        var inner := g.(currentIndent := g.currentIndent + 1);
        var (outputs, afterChildren) := GenerateChildrenSt(inner, cs);
        var after := afterChildren.(currentIndent := afterChildren.currentIndent - 1);
        (ElementText(g.options, indent, tag, attrs, cs, outputs), after)
    case Text(content) => (GetIndent(g.options, g.currentIndent) + content, g)
    case Attribute(a) => (GenerateAttribute(a), g)
  }

  /** `children.map(child => this.generateNode(child))`: the state passes
      from each child's call to the next. */
  function GenerateChildrenSt(g: Generator, cs: seq<Node>): (r: (seq<string>, Generator))
    ensures |r.0| == |cs|
    ensures r.1 == g
    decreases cs
  {
    if |cs| == 0 then ([], g)
    else
      var (first, afterFirst) := GenerateNodeSt(g, cs[0]);
      var (rest, afterRest) := GenerateChildrenSt(afterFirst, cs[1..]);
      ([first] + rest, afterRest)
  }

  /** The object formulation produces the same text as generation with the
      depth passed as a parameter, starting from the object's counter. */
  lemma {:induction false} StatefulMatchesThreaded(g: Generator, n: Node)
    ensures GenerateNodeSt(g, n).0 == GenerateNode(g.options, n, g.currentIndent)
    decreases n
  {
    match n
    case Root(cs) => ChildrenStatefulMatchesThreaded(g, cs);
    case Element(_, _, cs, _) =>
      if !SelfClosing(n) {
        var inner := g.(currentIndent := g.currentIndent + 1);
        ChildrenStatefulMatchesThreaded(inner, cs);
        ElementMatches(g, n);
      }
    case Text(_) =>
    case Attribute(_) =>
  }

  /** The element step: once the children's outputs agree, so does the
      element's. */
  lemma ElementMatches(g: Generator, e: Node)
    requires e.Element? && !SelfClosing(e)
    requires GenerateChildrenSt(g.(currentIndent := g.currentIndent + 1), e.children).0
      == GenerateChildren(g.options, e.children, g.currentIndent + 1)
    ensures GenerateNodeSt(g, e).0 == GenerateNode(g.options, e, g.currentIndent)
  {
    var indent := GetIndent(g.options, g.currentIndent);
    var attrs := AttributesText(e.attributes);
    var outputs := GenerateChildren(g.options, e.children, g.currentIndent + 1);
    assert GenerateNodeSt(g, e).0 == ElementText(g.options, indent, e.tag, attrs, e.children, outputs);
  }

  lemma {:induction false} ChildrenStatefulMatchesThreaded(g: Generator, cs: seq<Node>)
    ensures GenerateChildrenSt(g, cs).0 == GenerateChildren(g.options, cs, g.currentIndent)
    decreases cs
  {
    if |cs| > 0 {
      StatefulMatchesThreaded(g, cs[0]);
      ChildrenStatefulMatchesThreaded(g, cs[1..]);
    }
  }

  /** Reusing one generator object for a second tree gives the same text as
      a fresh generator: no depth leaks from one `generate` call to the next. */
  lemma ReuseIsFresh(o: GeneratorOptions, first: Node, second: Node)
    ensures GenerateNodeSt(GenerateNodeSt(NewGenerator(o), first).1, second).0 == Generate(o, second)
  {
    StatefulMatchesThreaded(NewGenerator(o), second);
  }
}
