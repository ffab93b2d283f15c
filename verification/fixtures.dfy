/** Example trees and what the parser, the tree utilities and the generator
    make of them: an illustrative `el-button` configuration (a string
    attribute, a `false` attribute and a text child), the card of the
    component registry (draw-config/high/config/el-card-config.ts), and an
    illustrative form holding inputs at two depths. */
module Fixtures {
  import opened Wrappers
  import opened Strings
  import opened AstTypes
  import opened AstParser
  import opened AstUtils
  import opened AstGenerator

  // ---------------------------------------------------------------------
  // An illustrative button configuration

  /** A button with a string attribute, a `false` attribute and a text
      child. */
  const ButtonConfig := ComponentConfig(
    "el-button",
    Some([Prop("type", StrValue("primary")), Prop("disabled", BoolValue(false))]),
    Children([Literal("按钮")]),
    None)

  const ButtonAttributes := [AttributeNode("type", StrValue("primary")), AttributeNode("disabled", BoolValue(false))]

  const ButtonElement := Element("el-button", ButtonAttributes, [Text("按钮")], None)

  lemma ButtonParses(c: ComponentConfig)
    requires c == ButtonConfig
    ensures Parse(One(c)) == Root([ButtonElement])
  {
    assert ParseChildren([Literal("按钮")]) == [Text("按钮")];
    assert ParseAttributes(c.props.value) == ButtonAttributes;
  }

  lemma JoinTwo(a: string, b: string, sep: string)
    ensures Join([a, b], sep) == a + sep + b
  {
    assert [a, b][1..] == [b];
  }

  /** A value without special characters is emitted as it is. */
  lemma PlainValue(v: string)
    requires '&' !in v && '"' !in v && '<' !in v && '>' !in v
    ensures EscapeAttrValue(v) == v
  {
  }

  lemma PlainAttribute(a: AttributeNode)
    requires a.value.StrValue?
    requires '&' !in a.value.str && '"' !in a.value.str && '<' !in a.value.str && '>' !in a.value.str
    ensures GenerateAttribute(a) == a.name + "=\"" + a.value.str + "\""
  {
    PlainValue(a.value.str);
  }

  lemma TypePrimary(a: AttributeNode)
    requires a == AttributeNode("type", StrValue("primary"))
    ensures GenerateAttribute(a) == "type" + "=\"" + "primary" + "\""
  {
    PlainAttribute(a);
  }

  lemma ButtonFragmentCount(attributes: seq<AttributeNode>)
    requires attributes == ButtonAttributes
    ensures |AttributeFragments(attributes)| == 2
  {
  }

  lemma ButtonFalseFragment(attributes: seq<AttributeNode>)
    requires attributes == ButtonAttributes
    ensures AttributeFragments(attributes)[1] == ""
  {
  }

  lemma ButtonTypeFragment(attributes: seq<AttributeNode>)
    requires attributes == ButtonAttributes
    ensures AttributeFragments(attributes)[0] == "type" + "=\"" + "primary" + "\""
  {
    TypePrimary(attributes[0]);
  }

  lemma ButtonFragments(attributes: seq<AttributeNode>)
    requires attributes == ButtonAttributes
    ensures AttributeFragments(attributes) == ["type" + "=\"" + "primary" + "\"", ""]
  {
    ButtonFragmentCount(attributes);
    ButtonFalseFragment(attributes);
    ButtonTypeFragment(attributes);
  }

  lemma ButtonAttributesLiteral()
    ensures " " + ("type" + "=\"" + "primary" + "\"" + " " + "") == " type=\"primary\" "
  {
  }

  /** The `false` attribute keeps its separator: a space before `>`. */
  lemma ButtonAttributesText(attributes: seq<AttributeNode>)
    requires attributes == ButtonAttributes
    ensures AttributesText(attributes) == " type=\"primary\" "
  {
    ButtonFragments(attributes);
    JoinTwo("type" + "=\"" + "primary" + "\"", "", " ");
    ButtonAttributesLiteral();
  }

  /** Generation of the parsed button, up to the settings. */
  lemma ButtonShape(s: Settings, e: Node)
    requires e == ButtonElement
    ensures GenerateNode(s, Root([e]), 0) ==
      InlineTag(GetIndent(s, 0), "el-button", AttributesText(e.attributes), GetIndent(s, 1) + "按钮")
  {
    assert GenerateChildren(s, [e], 0) == [GenerateNode(s, e, 0)];
    InlineTextChild(s, e, 0);
  }

  lemma DefaultIndents(s: Settings)
    requires s == Settings("  ", true)
    ensures GetIndent(s, 0) == ""
    ensures GetIndent(s, 1) == "  "
    ensures GetIndent(s, 2) == "    "
  {
    assert Repeat("  ", 1) == "  ";
  }

  lemma ButtonFormattedLiteral()
    ensures InlineTag("", "el-button", " type=\"primary\" ", "  " + "按钮")
      == "<el-button type=\"primary\" >  按钮</el-button>"
  {
    assert "" + "<" + "el-button" == "<el-button";
    assert "<el-button" + " type=\"primary\" " + ">" == "<el-button type=\"primary\" >";
    assert "<el-button type=\"primary\" >" + ("  " + "按钮") == "<el-button type=\"primary\" >  按钮";
    assert "<el-button type=\"primary\" >  按钮" + "</" + "el-button" + ">" == "<el-button type=\"primary\" >  按钮</el-button>";
  }

  lemma ButtonCompactLiteral()
    ensures InlineTag("", "el-button", " type=\"primary\" ", "" + "按钮")
      == "<el-button type=\"primary\" >按钮</el-button>"
  {
    assert "" + "<" + "el-button" == "<el-button";
    assert "<el-button" + " type=\"primary\" " + ">" == "<el-button type=\"primary\" >";
    assert "<el-button type=\"primary\" >" + ("" + "按钮") == "<el-button type=\"primary\" >按钮";
    assert "<el-button type=\"primary\" >按钮" + "</" + "el-button" + ">" == "<el-button type=\"primary\" >按钮</el-button>";
  }

  /** With default options the `false` attribute leaves its separator behind
      and the inline text keeps the one-level indent. */
  lemma ButtonFormatted(c: ComponentConfig, o: GeneratorOptions)
    requires c == ButtonConfig && o == GeneratorOptions(None, None)
    ensures Generate(o, Parse(One(c))) == "<el-button type=\"primary\" >  按钮</el-button>"
  {
    ButtonParses(c);
    var s := ResolveOptions(o);
    ButtonShape(s, ButtonElement);
    ButtonAttributesText(ButtonAttributes);
    DefaultIndents(s);
    ButtonFormattedLiteral();
  }

  /** Without formatting the text is not indented, but the separator of the
      `false` attribute remains. */
  lemma ButtonCompact(c: ComponentConfig, o: GeneratorOptions)
    requires c == ButtonConfig && o == GeneratorOptions(None, Some(false))
    ensures Generate(o, Parse(One(c))) == "<el-button type=\"primary\" >按钮</el-button>"
  {
    ButtonParses(c);
    var s := ResolveOptions(o);
    ButtonShape(s, ButtonElement);
    ButtonAttributesText(ButtonAttributes);
    ButtonCompactLiteral();
  }

  // ---------------------------------------------------------------------
  // The card of the component registry

  /** The registry's `el-card` node: one string attribute and a text child. */
  const RegistryCard := Element("el-card", [AttributeNode("shadow", StrValue("hover"))], [Text("卡片内容")], None)

  lemma ShadowHover(a: AttributeNode)
    requires a == AttributeNode("shadow", StrValue("hover"))
    ensures GenerateAttribute(a) == "shadow" + "=\"" + "hover" + "\""
  {
    PlainAttribute(a);
  }

  lemma RegistryCardFragments(attributes: seq<AttributeNode>)
    requires attributes == RegistryCard.attributes
    ensures AttributeFragments(attributes) == ["shadow" + "=\"" + "hover" + "\""]
  {
    ShadowHover(attributes[0]);
  }

  lemma JoinOne(a: string, sep: string)
    ensures Join([a], sep) == a
  {
  }

  lemma RegistryCardAttributesText(attributes: seq<AttributeNode>)
    requires attributes == RegistryCard.attributes
    ensures AttributesText(attributes) == " " + ("shadow" + "=\"" + "hover" + "\"")
  {
    RegistryCardFragments(attributes);
    JoinOne("shadow" + "=\"" + "hover" + "\"", " ");
  }

  lemma ShadowLiteral()
    ensures " " + ("shadow" + "=\"" + "hover" + "\"") == " shadow=\"hover\""
  {
  }

  lemma RegistryCardFormattedLiteral()
    ensures InlineTag("", "el-card", " shadow=\"hover\"", "  " + "卡片内容")
      == "<el-card shadow=\"hover\">  卡片内容</el-card>"
  {
    assert "" + "<" + "el-card" == "<el-card";
    assert "<el-card" + " shadow=\"hover\"" + ">" == "<el-card shadow=\"hover\">";
    assert "<el-card shadow=\"hover\">" + ("  " + "卡片内容") == "<el-card shadow=\"hover\">  卡片内容";
    assert "<el-card shadow=\"hover\">  卡片内容" + "</" + "el-card" + ">" == "<el-card shadow=\"hover\">  卡片内容</el-card>";
  }

  /** With default options the registry card is one line, its text indented
      by one level. */
  lemma RegistryCardFormatted(e: Node, o: GeneratorOptions)
    requires e == RegistryCard && o == GeneratorOptions(None, None)
    ensures Generate(o, e) == "<el-card shadow=\"hover\">  卡片内容</el-card>"
  {
    var s := ResolveOptions(o);
    InlineTextChild(s, e, 0);
    RegistryCardAttributesText(e.attributes);
    ShadowLiteral();
    DefaultIndents(s);
    RegistryCardFormattedLiteral();
  }

  // ---------------------------------------------------------------------
  // Escaping

  lemma SamplePerChar()
    ensures EscapePerChar("<&\">") == "&lt;&amp;&quot;&gt;"
  {
    var v := "<&\">";
    assert v[1..] == "&\">";
    assert v[2..] == "\">";
    assert v[3..] == ">";
    assert v[4..] == "";
  }

  lemma EscapeSample(v: string)
    requires v == "<&\">"
    ensures EscapeAttrValue(v) == "&lt;&amp;&quot;&gt;"
  {
    EscapeIsPerCharacter(v);
    SamplePerChar();
  }

  // ---------------------------------------------------------------------
  // A form with inputs at two depths

  const InputAttributes := [AttributeNode("type", StrValue("text"))]
  const Input := Element("el-input", InputAttributes, [], None)
  const InnerCard := Element("el-card", [], [Input], None)
  const Form := Element("el-form", [], [Input, InnerCard], None)

  predicate IsInput(n: Node) {
    n.Element? && n.tag == "el-input"
  }

  lemma FindInCard(c: Node)
    requires c == InnerCard
    ensures FindAllNodes(c, IsInput) == [Input]
  {
    assert FindAllNodes(Input, IsInput) == [Input];
    assert FindAllInChildren([Input], IsInput) == [Input];
  }

  lemma FindInForm(f: Node)
    requires f == Form
    ensures FindAllNodes(f, IsInput) == [Input, Input]
  {
    FindInCard(InnerCard);
    assert FindAllNodes(Input, IsInput) == [Input];
    assert [Input, InnerCard][1..] == [InnerCard];
    assert FindAllInChildren([InnerCard], IsInput) == [Input];
    assert FindAllInChildren([Input, InnerCard], IsInput) == [Input, Input];
  }

  /** Two inputs at different depths are both found, the shallower first,
      and `findNode` returns the first of them. */
  lemma FindBothInputs(t: Node)
    requires t == Root([Form])
    ensures FindAllNodes(t, IsInput) == [Input, Input]
    ensures FindNode(t, IsInput) == Some(Input)
  {
    FindInForm(Form);
    assert FindAllInChildren([Form], IsInput) == [Input, Input];
    FindNodeIsFirstOfFindAll(t, IsInput);
  }

  lemma CountForm(t: Node)
    requires t == Root([Form])
    ensures CountNodes(t) == 5
  {
    assert CountNodes(Input) == 1;
    assert CountChildren([Input]) == 1;
    assert CountNodes(InnerCard) == 2;
    assert CountChildren([InnerCard]) == 2;
    assert [Input, InnerCard][1..] == [InnerCard];
    assert CountChildren([Input, InnerCard]) == 3;
    assert CountNodes(Form) == 4;
    assert CountChildren([Form]) == 4;
  }

  lemma DepthForm(t: Node)
    requires t == Root([Form])
    ensures GetDepth(t) == 4
  {
    assert GetDepth(Input) == 1;
    assert MaxDepth([Input]) == 1;
    assert GetDepth(InnerCard) == 2;
    assert MaxDepth([InnerCard]) == 2;
    assert [Input, InnerCard][1..] == [InnerCard];
    assert MaxDepth([Input, InnerCard]) == 2;
    assert GetDepth(Form) == 3;
    assert MaxDepth([Form]) == 3;
  }

  lemma InputFragment(attributes: seq<AttributeNode>)
    requires attributes == InputAttributes
    ensures AttributeFragments(attributes)[0] == "type" + "=\"" + "text" + "\""
  {
    PlainAttribute(attributes[0]);
  }

  lemma InputAttributesText(attributes: seq<AttributeNode>)
    requires attributes == InputAttributes
    ensures AttributesText(attributes) == " " + ("type" + "=\"" + "text" + "\"")
  {
    InputFragment(attributes);
    assert AttributeFragments(attributes) == [AttributeFragments(attributes)[0]];
  }

  lemma InputAttributesLiteral()
    ensures " " + ("type" + "=\"" + "text" + "\"") == " type=\"text\""
  {
  }

  lemma InputShape(s: Settings, n: Node, depth: nat)
    requires n == Input
    ensures GenerateNode(s, n, depth) == SelfClosingTag(GetIndent(s, depth), "el-input", AttributesText(InputAttributes))
  {
  }

  lemma NoAttributes(n: Node)
    requires n.Element? && n.attributes == []
    ensures AttributesText(n.attributes) == ""
  {
  }

  /** An element without attributes whose only child is not Text is a
      block around that child's output. */
  lemma BlockOfOne(s: Settings, e: Node, depth: nat)
    requires s.format && e.Element? && e.attributes == [] && !e.isSelfClosing.GetOr(false)
    requires |e.children| == 1 && !e.children[0].Text?
    ensures GenerateNode(s, e, depth) == BlockTag(GetIndent(s, depth), e.tag, "", GenerateNode(s, e.children[0], depth + 1))
  {
    var cs := e.children;
    assert cs[1..] == [];
    assert GenerateChildren(s, cs, depth + 1) == [GenerateNode(s, cs[0], depth + 1)] + GenerateChildren(s, cs[1..], depth + 1);
  }

  lemma CardShape(s: Settings, n: Node, depth: nat)
    requires n == InnerCard && s.format
    ensures GenerateNode(s, n, depth) == BlockTag(GetIndent(s, depth), "el-card", "", GenerateNode(s, Input, depth + 1))
  {
    BlockOfOne(s, n, depth);
  }

  lemma FormShape(s: Settings, n: Node)
    requires n == Form && s.format
    ensures GenerateNode(s, n, 0) ==
      BlockTag(GetIndent(s, 0), "el-form", "", GenerateNode(s, Input, 1) + "\n" + GenerateNode(s, InnerCard, 1))
  {
    NoAttributes(n);
    assert n.children[1..] == [InnerCard];
    assert GenerateChildren(s, n.children, 1) == [GenerateNode(s, Input, 1), GenerateNode(s, InnerCard, 1)];
    JoinTwo(GenerateNode(s, Input, 1), GenerateNode(s, InnerCard, 1), "\n");
  }

  lemma InputLineAtOne()
    ensures SelfClosingTag("  ", "el-input", " type=\"text\"") == "  <el-input type=\"text\" />"
  {
    assert "  " + "<" + "el-input" == "  <el-input";
  }

  lemma InputLineAtTwo()
    ensures SelfClosingTag("    ", "el-input", " type=\"text\"") == "    <el-input type=\"text\" />"
  {
    assert "    " + "<" + "el-input" == "    <el-input";
  }

  /** Formatted output of the form: each element on its own line, one indent
      per level, childless inputs written self-closing. */
  lemma FormFormatted(f: Node, o: GeneratorOptions)
    requires f == Form && o == GeneratorOptions(None, None)
    ensures Generate(o, f) ==
      BlockTag("", "el-form", "",
        "  <el-input type=\"text\" />" + "\n" +
        BlockTag("  ", "el-card", "", "    <el-input type=\"text\" />"))
  {
    var s := ResolveOptions(o);
    DefaultIndents(s);
    FormShape(s, f);
    CardShape(s, InnerCard, 1);
    InputShape(s, Input, 1);
    InputShape(s, Input, 2);
    InputAttributesText(InputAttributes);
    InputAttributesLiteral();
    InputLineAtOne();
    InputLineAtTwo();
  }
}
