/** The code generator (package/designer/src/ast/generator.ts): serialises a
    tree to markup. The source keeps the indentation depth in a mutable
    counter of the generator object; here it is a parameter, and the module
    GeneratorState shows the two formulations agree. */
module AstGenerator {
  import opened Wrappers
  import opened Strings
  import opened AstTypes

  /** The options a caller may pass; each may be absent. */
  datatype GeneratorOptions = GeneratorOptions(indent: Option<string>, format: Option<bool>)

  /** The options after defaults are applied (`Required<GeneratorOptions>`). */
  datatype Settings = Settings(indent: string, format: bool)

  /** The constructor's defaults: an absent or empty indent becomes two
      spaces, and formatting is on unless explicitly switched off. */
  function ResolveOptions(o: GeneratorOptions): (s: Settings)
    ensures s.indent != ""
    ensures o.indent.Some? && o.indent.value != "" ==> s.indent == o.indent.value
    ensures o.indent.None? || o.indent.value == "" ==> s.indent == "  "
    ensures s.format <==> o.format != Some(false)
  {
    var indent := if o.indent.Some? && o.indent.value != "" then o.indent.value else "  ";
    var format := o.format != Some(false);
    Settings(indent, format)
  }

  /** `getIndent`: the indent string repeated `depth` times when formatting,
      nothing otherwise. */
  function GetIndent(s: Settings, depth: nat): (r: string)
    ensures !s.format ==> r == ""
    ensures s.format ==> |r| == depth * |s.indent|
  {
    if s.format then Repeat(s.indent, depth) else ""
  }

  /** One level deeper is one more copy of the indent when formatting, and
      depth 0 has no indentation. */
  lemma IndentStep(s: Settings, depth: nat)
    ensures GetIndent(s, 0) == ""
    ensures s.format ==> GetIndent(s, depth + 1) == GetIndent(s, depth) + s.indent
  {
    RepeatSucc(s.indent, depth);
  }

  // ---------------------------------------------------------------------
  // Escaping of attribute values

  /** The entity a single character stands for in an attribute value. */
  function EscapeChar(c: char): string {
    if c == '&' then "&amp;"
    else if c == '"' then "&quot;"
    else if c == '<' then "&lt;"
    else if c == '>' then "&gt;"
    else [c]
  }

  /** `escapeAttrValue`: four global replacements, `&` first. */
  function EscapeAttrValue(v: string): (r: string)
    ensures '"' !in r && '<' !in r && '>' !in r
  {
    var s1 := ReplaceAll(v, '&', "&amp;");
    var s2 := ReplaceAll(s1, '"', "&quot;");
    var s3 := ReplaceAll(s2, '<', "&lt;");
    ReplaceAllKeeps(s2, '<', "&lt;", '"');
    var s4 := ReplaceAll(s3, '>', "&gt;");
    ReplaceAllKeeps(s3, '>', "&gt;", '"');
    ReplaceAllKeeps(s3, '>', "&gt;", '<');
    s4
  }

  /** Escaping adds no character other than those of the four entities. */
  lemma EscapeKeepsOthers(v: string, d: char)
    requires d !in "&amp;quot;lt;gt;\"<>"
    ensures d in EscapeAttrValue(v) <==> d in v
  {
    var s1 := ReplaceAll(v, '&', "&amp;");
    var s2 := ReplaceAll(s1, '"', "&quot;");
    var s3 := ReplaceAll(s2, '<', "&lt;");
    ReplaceAllKeeps(v, '&', "&amp;", d);
    ReplaceAllKeeps(s1, '"', "&quot;", d);
    ReplaceAllKeeps(s2, '<', "&lt;", d);
    ReplaceAllKeeps(s3, '>', "&gt;", d);
  }

  /** The reference escaping: every character mapped on its own. */
  function EscapePerChar(v: string): string {
    if |v| == 0 then "" else EscapeChar(v[0]) + EscapePerChar(v[1..])
  }

  lemma EscapeOneChar(c: char)
    ensures EscapeAttrValue([c]) == EscapeChar(c)
  {
    ReplaceSingle(c, '&', "&amp;");
    if c == '&' {
      assert '"' !in "&amp;" && '<' !in "&amp;" && '>' !in "&amp;";
    } else {
      ReplaceSingle(c, '"', "&quot;");
      if c == '"' {
        assert '<' !in "&quot;" && '>' !in "&quot;";
      } else {
        ReplaceSingle(c, '<', "&lt;");
        if c == '<' {
          assert '>' !in "&lt;";
        } else {
          ReplaceSingle(c, '>', "&gt;");
        }
      }
    }
  }

  lemma ReplaceSingle(c: char, x: char, rep: string)
    ensures ReplaceAll([c], x, rep) == if c == x then rep else [c]
  {
    assert [c][1..] == [];
  }

  lemma EscapeConcat(a: string, b: string)
    ensures EscapeAttrValue(a + b) == EscapeAttrValue(a) + EscapeAttrValue(b)
  {
    var a1, b1 := ReplaceAll(a, '&', "&amp;"), ReplaceAll(b, '&', "&amp;");
    ReplaceAllConcat(a, b, '&', "&amp;");
    var a2, b2 := ReplaceAll(a1, '"', "&quot;"), ReplaceAll(b1, '"', "&quot;");
    ReplaceAllConcat(a1, b1, '"', "&quot;");
    var a3, b3 := ReplaceAll(a2, '<', "&lt;"), ReplaceAll(b2, '<', "&lt;");
    ReplaceAllConcat(a2, b2, '<', "&lt;");
    ReplaceAllConcat(a3, b3, '>', "&gt;");
  }

  /** Because `&` is replaced first, the four passes never touch each other's
      output: the result is the character-by-character escaping, so no entity
      is ever escaped twice. */
  lemma {:induction false} EscapeIsPerCharacter(v: string)
    ensures EscapeAttrValue(v) == EscapePerChar(v)
  {
    if |v| > 0 {
      assert v == [v[0]] + v[1..];
      EscapeConcat([v[0]], v[1..]);
      EscapeOneChar(v[0]);
      EscapeIsPerCharacter(v[1..]);
    }
  }

  /** Decoding of the four entities, the partner of escaping. */
  function Unescape(s: string): string {
    if |s| == 0 then ""
    else if |s| >= 5 && s[..5] == "&amp;" then "&" + Unescape(s[5..])
    else if |s| >= 6 && s[..6] == "&quot;" then "\"" + Unescape(s[6..])
    else if |s| >= 4 && s[..4] == "&lt;" then "<" + Unescape(s[4..])
    else if |s| >= 4 && s[..4] == "&gt;" then ">" + Unescape(s[4..])
    else [s[0]] + Unescape(s[1..])
  }

  lemma UnescapeStep(c: char, t: string)
    ensures Unescape(EscapeChar(c) + t) == [c] + Unescape(t)
  {
    if c == '&' {
      UnescapeAmp(t);
    } else if c == '"' {
      UnescapeQuot(t);
    } else if c == '<' {
      UnescapeLt(t);
    } else if c == '>' {
      UnescapeGt(t);
    } else {
      UnescapePlain(c, t);
    }
  }

  lemma UnescapeAmp(t: string)
    ensures Unescape("&amp;" + t) == "&" + Unescape(t)
  {
    var s := "&amp;" + t;
    assert s[..5] == "&amp;" && s[5..] == t;
  }

  lemma UnescapeQuot(t: string)
    ensures Unescape("&quot;" + t) == "\"" + Unescape(t)
  {
    var s := "&quot;" + t;
    assert s[1] == 'q';
    assert s[..6] == "&quot;" && s[6..] == t;
  }

  lemma UnescapeLt(t: string)
    ensures Unescape("&lt;" + t) == "<" + Unescape(t)
  {
    var s := "&lt;" + t;
    assert s[1] == 'l';
    assert s[..4] == "&lt;" && s[4..] == t;
  }

  lemma UnescapeGt(t: string)
    ensures Unescape("&gt;" + t) == ">" + Unescape(t)
  {
    var s := "&gt;" + t;
    assert s[1] == 'g';
    assert s[..4] == "&gt;" && s[4..] == t;
  }

  lemma UnescapePlain(c: char, t: string)
    requires c != '&'
    ensures Unescape([c] + t) == [c] + Unescape(t)
  {
    var s := [c] + t;
    assert s[0] == c && s[1..] == t;
    assert |s| >= 5 ==> s[..5][0] == c;
    assert |s| >= 6 ==> s[..6][0] == c;
    assert |s| >= 4 ==> s[..4][0] == c;
  }

  /** Escaping loses nothing: decoding the escaped value gives it back. */
  lemma {:induction false} UnescapeEscape(v: string)
    ensures Unescape(EscapeAttrValue(v)) == v
  {
    EscapeIsPerCharacter(v);
    UnescapePerChar(v);
  }

  lemma {:induction false} UnescapePerChar(v: string)
    ensures Unescape(EscapePerChar(v)) == v
  {
    if |v| > 0 {
      UnescapeStep(v[0], EscapePerChar(v[1..]));
      UnescapePerChar(v[1..]);
      assert [v[0]] + v[1..] == v;
    }
  }

  // ---------------------------------------------------------------------
  // Attributes

  /** `generateAttribute`: `true` gives the bare name, `false` gives nothing,
      a string gives `name="escaped value"`. */
  function GenerateAttribute(a: AttributeNode): (r: string)
    ensures a.value == BoolValue(true) ==> r == a.name
    ensures a.value == BoolValue(false) ==> r == ""
    ensures a.value.StrValue? ==>
      r == a.name + "=\"" + EscapeAttrValue(a.value.str) + "\""
  {
    match a.value
    case BoolValue(b) => if b then a.name else ""
    case StrValue(v) => a.name + "=\"" + EscapeAttrValue(v) + "\""
  }

  /** The attribute fragments of an element, one per attribute, in order;
      empty fragments of `false` attributes are kept. */
  function AttributeFragments(attributes: seq<AttributeNode>): (r: seq<string>)
    ensures |r| == |attributes|
    ensures forall i :: 0 <= i < |r| ==> r[i] == GenerateAttribute(attributes[i])
  {
    seq(|attributes|, i requires 0 <= i < |attributes| => GenerateAttribute(attributes[i]))
  }

  /** The text that follows the tag name in an opening tag: nothing without
      attributes, otherwise a space and the fragments joined by spaces. */
  function AttributesText(attributes: seq<AttributeNode>): (r: string)
    ensures |attributes| == 0 ==> r == ""
    ensures |attributes| > 0 ==> r == " " + Join(AttributeFragments(attributes), " ")
  {
    if |attributes| == 0 then "" else " " + Join(AttributeFragments(attributes), " ")
  }

  /** A `false` attribute still takes its place among the fragments: an
      element whose attributes are all `false` gets one space per attribute. */
  lemma {:induction false} FalseAttributesLeaveSpaces(attributes: seq<AttributeNode>)
    requires forall i :: 0 <= i < |attributes| ==> attributes[i].value == BoolValue(false)
    ensures AttributesText(attributes) == Repeat(" ", |attributes|)
  {
    if |attributes| > 1 {
      FalseAttributesLeaveSpaces(attributes[1..]);
      assert AttributeFragments(attributes)[1..] == AttributeFragments(attributes[1..]);
    }
  }

  // ---------------------------------------------------------------------
  // Nodes

  /** Whether an element is written as `<tag ... />`: it is flagged
      self-closing or it has no children. */
  predicate SelfClosing(e: Node)
    requires e.Element?
  {
    e.isSelfClosing.GetOr(false) || |e.children| == 0
  }

  /** `<tag attrs />` at the given indentation. */
  function SelfClosingTag(indent: string, tag: string, attrs: string): string {
    indent + "<" + tag + attrs + " />"
  }

  /** `<tag attrs>inner</tag>` on one line at the given indentation. */
  function InlineTag(indent: string, tag: string, attrs: string, inner: string): string {
    indent + "<" + tag + attrs + ">" + inner + "</" + tag + ">"
  }

  /** The opening tag, the inner lines and the closing tag on lines of their
      own, both tags at the given indentation. */
  function BlockTag(indent: string, tag: string, attrs: string, inner: string): string {
    indent + "<" + tag + attrs + ">\n" + inner + "\n" + indent + "</" + tag + ">"
  }

  /** `generateNode` with the generator's depth counter as `depth`. */
  function GenerateNode(s: Settings, n: Node, depth: nat): string
    decreases n
  {
    match n
    case Root(cs) => Join(GenerateChildren(s, cs, depth), "\n")
    case Element(tag, attributes, cs, _) =>
      var indent := GetIndent(s, depth);
      var attrs := AttributesText(attributes);
      if SelfClosing(n) then SelfClosingTag(indent, tag, attrs)
      else ElementText(s, indent, tag, attrs, cs, GenerateChildren(s, cs, depth + 1))
    case Text(content) => GetIndent(s, depth) + content
    case Attribute(a) => GenerateAttribute(a)
  }

  /** The rest of `generateElement` once the children's outputs are known:
      the outputs joined (by newlines when formatting), then inlined after a
      single Text child, laid out as a block when formatting, or inlined. */
  function ElementText(s: Settings, indent: string, tag: string, attrs: string, cs: seq<Node>, outputs: seq<string>): string {
    var childrenText := Join(outputs, if s.format then "\n" else "");
    if |cs| == 1 && cs[0].Type() == TEXT then InlineTag(indent, tag, attrs, childrenText)
    else if s.format then BlockTag(indent, tag, attrs, childrenText)
    else InlineTag(indent, tag, attrs, childrenText)
  }

  /** The children generated one by one at the same depth, in order. */
  function GenerateChildren(s: Settings, cs: seq<Node>, depth: nat): (r: seq<string>)
    ensures |r| == |cs|
    decreases cs
  {
    if |cs| == 0 then [] else [GenerateNode(s, cs[0], depth)] + GenerateChildren(s, cs[1..], depth)
  }

  /** Output `i` is child `i` generated at the same depth. */
  lemma {:induction false} GenerateChildrenAt(s: Settings, cs: seq<Node>, depth: nat)
    ensures forall i :: 0 <= i < |cs| ==> GenerateChildren(s, cs, depth)[i] == GenerateNode(s, cs[i], depth)
    decreases cs
  {
    if |cs| > 0 {
      GenerateChildrenAt(s, cs[1..], depth);
    }
  }

  /** `new Generator(options).generate(ast)`: a fresh generator starts at
      depth 0. */
  function Generate(o: GeneratorOptions, n: Node): string {
    GenerateNode(ResolveOptions(o), n, 0)
  }

  /** A self-closing or childless element is one tag with no closing tag, in
      both modes; only the indentation depends on the format flag. */
  lemma SelfClosingElement(s: Settings, e: Node, depth: nat)
    requires e.Element? && SelfClosing(e)
    ensures GenerateNode(s, e, depth) == SelfClosingTag(GetIndent(s, depth), e.tag, AttributesText(e.attributes))
    ensures !s.format ==> GenerateNode(s, e, depth) == SelfClosingTag("", e.tag, AttributesText(e.attributes))
  {
  }

  /** An element whose only child is a Text node is written on one line,
      but the text still carries the indentation of the next depth when
      formatting. */
  lemma InlineTextChild(s: Settings, e: Node, depth: nat)
    requires e.Element? && !e.isSelfClosing.GetOr(false)
    requires |e.children| == 1 && e.children[0].Text?
    ensures GenerateNode(s, e, depth) ==
      InlineTag(GetIndent(s, depth), e.tag, AttributesText(e.attributes),
                GetIndent(s, depth + 1) + e.children[0].content)
  {
    var cs := GenerateChildren(s, e.children, depth + 1);
    assert e.children[1..] == [];
    assert cs == [GenerateNode(s, e.children[0], depth + 1)] + GenerateChildren(s, e.children[1..], depth + 1);
  }

  // ---------------------------------------------------------------------
  // Formatted output

  /** An independent definition of formatted output as a list of lines:
      every element that is neither self-closing nor an inline text holder
      puts its opening tag, each line of its children one level deeper, and
      its closing tag on lines of their own. An empty Root is one empty
      line. */
  function FormattedLines(s: Settings, n: Node, depth: nat): (r: seq<string>)
    ensures |r| >= 1
    decreases n
  {
    match n
    case Root(cs) => if |cs| == 0 then [""] else ChildLines(s, cs, depth)
    case Element(tag, attributes, cs, _) =>
      var indent := GetIndent(s, depth);
      var attrs := AttributesText(attributes);
      if SelfClosing(n) then [SelfClosingTag(indent, tag, attrs)]
      else if |cs| == 1 && cs[0].Text? then
        [InlineTag(indent, tag, attrs, GetIndent(s, depth + 1) + cs[0].content)]
      else [indent + "<" + tag + attrs + ">"] + ChildLines(s, cs, depth + 1) + [indent + "</" + tag + ">"]
    case Text(content) => [GetIndent(s, depth) + content]
    case Attribute(a) => [GenerateAttribute(a)]
  }

  /** The lines of the children, one child after the other. */
  function ChildLines(s: Settings, cs: seq<Node>, depth: nat): (r: seq<string>)
    ensures |cs| > 0 ==> |r| >= |cs|
    decreases cs
  {
    if |cs| == 0 then [] else FormattedLines(s, cs[0], depth) + ChildLines(s, cs[1..], depth)
  }

  /** A block is its opening line, the inner text and its closing line,
      separated by newlines. */
  lemma BlockTagLines(indent: string, tag: string, attrs: string, inner: string)
    ensures BlockTag(indent, tag, attrs, inner)
      == (indent + "<" + tag + attrs + ">") + "\n" + inner + "\n" + (indent + "</" + tag + ">")
  {
  }

  /** With formatting on, the output is the formatted lines joined by
      newlines. */
  lemma {:induction false} FormattedOutput(s: Settings, n: Node, depth: nat)
    requires s.format
    ensures GenerateNode(s, n, depth) == Join(FormattedLines(s, n, depth), "\n")
    decreases n
  {
    match n
    case Root(cs) =>
      if |cs| > 0 {
        FormattedChildrenOutput(s, cs, depth);
      }
    case Element(tag, attributes, cs, _) =>
      if !SelfClosing(n) {
        if |cs| == 1 && cs[0].Text? {
          InlineTextChild(s, n, depth);
        } else {
          var indent := GetIndent(s, depth);
          var attrs := AttributesText(attributes);
          var open := indent + "<" + tag + attrs + ">";
          var close := indent + "</" + tag + ">";
          var inner := ChildLines(s, cs, depth + 1);
          FormattedChildrenOutput(s, cs, depth + 1);
          BlockTagLines(indent, tag, attrs, Join(inner, "\n"));
          JoinAppend([open], inner, "\n");
          JoinAppend([open] + inner, [close], "\n");
        }
      }
    case Text(_) =>
    case Attribute(_) =>
  }

  lemma {:induction false} FormattedChildrenOutput(s: Settings, cs: seq<Node>, depth: nat)
    requires s.format && |cs| > 0
    ensures Join(GenerateChildren(s, cs, depth), "\n") == Join(ChildLines(s, cs, depth), "\n")
    decreases cs, 1
  {
    FormattedOutput(s, cs[0], depth);
    if |cs| == 1 {
      SingleChildLines(s, cs, depth);
    } else {
      FormattedChildrenOutput(s, cs[1..], depth);
      GeneratedChildrenStep(s, cs, depth);
      ChildLinesStep(s, cs, depth);
    }
  }

  /** One child: its own output and its own lines. */
  lemma SingleChildLines(s: Settings, cs: seq<Node>, depth: nat)
    requires |cs| == 1
    ensures Join(GenerateChildren(s, cs, depth), "\n") == GenerateNode(s, cs[0], depth)
    ensures ChildLines(s, cs, depth) == FormattedLines(s, cs[0], depth)
  {
    assert GenerateChildren(s, cs, depth) == [GenerateNode(s, cs[0], depth)];
    assert ChildLines(s, cs, depth) == FormattedLines(s, cs[0], depth) + [];
  }

  /** Two or more children: the first child's lines, a newline, the rest. */
  lemma ChildLinesStep(s: Settings, cs: seq<Node>, depth: nat)
    requires |cs| > 1
    ensures Join(ChildLines(s, cs, depth), "\n")
      == Join(FormattedLines(s, cs[0], depth), "\n") + "\n" + Join(ChildLines(s, cs[1..], depth), "\n")
  {
    JoinAppend(FormattedLines(s, cs[0], depth), ChildLines(s, cs[1..], depth), "\n");
  }

  /** Joining the outputs of two or more children peels off the first. */
  lemma GeneratedChildrenStep(s: Settings, cs: seq<Node>, depth: nat)
    requires |cs| > 1
    ensures Join(GenerateChildren(s, cs, depth), "\n")
      == GenerateNode(s, cs[0], depth) + "\n" + Join(GenerateChildren(s, cs[1..], depth), "\n")
  {
    var outputs := GenerateChildren(s, cs, depth);
    assert outputs == [GenerateNode(s, cs[0], depth)] + GenerateChildren(s, cs[1..], depth);
    assert outputs[1..] == GenerateChildren(s, cs[1..], depth);
  }

  /** The indentation of a depth has no newline when the indent string has
      none. */
  lemma IndentNoNewline(s: Settings, depth: nat)
    requires '\n' !in s.indent
    ensures '\n' !in GetIndent(s, depth)
  {
    if s.format {
      RepeatChars(s.indent, depth, '\n');
    }
  }

  /** None of the lines contains a newline. */
  predicate SingleLines(lines: seq<string>) {
    forall i :: 0 <= i < |lines| ==> '\n' !in lines[i]
  }

  lemma SingleLinesAppend(a: seq<string>, b: seq<string>)
    requires SingleLines(a) && SingleLines(b)
    ensures SingleLines(a + b)
  {
    assert forall i :: 0 <= i < |a + b| ==> (a + b)[i] == if i < |a| then a[i] else b[i - |a|];
  }

  /** No formatted line of a newline-free tree contains a newline. */
  lemma {:induction false} FormattedLinesNoNewline(s: Settings, n: Node, depth: nat)
    requires '\n' !in s.indent && NewlineFree(n)
    ensures SingleLines(FormattedLines(s, n, depth))
    decreases n, 1
  {
    IndentNoNewline(s, depth);
    match n
    case Root(_) =>
    case Element(_, _, _, _) => ElementLinesNoNewline(s, n, depth);
    case Text(_) =>
    case Attribute(a) => AttributeNoNewline(a);
  }

  lemma {:induction false} ElementLinesNoNewline(s: Settings, e: Node, depth: nat)
    requires '\n' !in s.indent && e.Element? && NewlineFree(e)
    ensures SingleLines(FormattedLines(s, e, depth))
    decreases e, 0
  {
    var indent := GetIndent(s, depth);
    var attrs := AttributesText(e.attributes);
    IndentNoNewline(s, depth);
    IndentNoNewline(s, depth + 1);
    AttributesTextNoNewline(e.attributes);
    var cs := e.children;
    if !SelfClosing(e) && !(|cs| == 1 && cs[0].Text?) {
      var open := indent + "<" + e.tag + attrs + ">";
      var close := indent + "</" + e.tag + ">";
      ChildLinesNoNewline(s, cs, depth + 1);
      assert SingleLines([open]);
      assert SingleLines([close]);
      SingleLinesAppend([open], ChildLines(s, cs, depth + 1));
      SingleLinesAppend([open] + ChildLines(s, cs, depth + 1), [close]);
    }
  }

  lemma {:induction false} ChildLinesNoNewline(s: Settings, cs: seq<Node>, depth: nat)
    requires '\n' !in s.indent
    requires forall i :: 0 <= i < |cs| ==> NewlineFree(cs[i])
    ensures SingleLines(ChildLines(s, cs, depth))
    decreases cs
  {
    if |cs| > 0 {
      FormattedLinesNoNewline(s, cs[0], depth);
      ChildLinesNoNewline(s, cs[1..], depth);
      SingleLinesAppend(FormattedLines(s, cs[0], depth), ChildLines(s, cs[1..], depth));
    }
  }

  /** Pretty-printing puts exactly one formatted line between consecutive
      newlines: splitting the output of a newline-free tree at newlines gives
      back its formatted lines. */
  lemma FormattedSplit(s: Settings, n: Node, depth: nat)
    requires s.format && '\n' !in s.indent && NewlineFree(n)
    ensures Split(GenerateNode(s, n, depth), '\n') == FormattedLines(s, n, depth)
  {
    FormattedOutput(s, n, depth);
    FormattedLinesNoNewline(s, n, depth);
    SplitJoin(FormattedLines(s, n, depth), '\n');
  }

  /** The same for a Root: with formatting on, the lines of a Root whose
      children are newline-free are exactly those between its newlines. */
  lemma FormattedSplitRoot(s: Settings, cs: seq<Node>, depth: nat)
    requires s.format && '\n' !in s.indent
    requires forall i :: 0 <= i < |cs| ==> NewlineFree(cs[i])
    ensures Split(GenerateNode(s, Root(cs), depth), '\n') == FormattedLines(s, Root(cs), depth)
  {
    FormattedOutput(s, Root(cs), depth);
    if |cs| > 0 {
      ChildLinesNoNewline(s, cs, depth);
      SplitJoin(FormattedLines(s, Root(cs), depth), '\n');
    }
  }

  // ---------------------------------------------------------------------
  // Compact output

  /** An independent definition of compact (`format: false`) output: no
      indentation, children concatenated, no single-text special case; only
      a Root separates its children by newlines. */
  function CompactMarkup(n: Node): string
    decreases n
  {
    match n
    case Root(cs) => Join(CompactChildren(cs), "\n")
    case Element(tag, attributes, cs, _) =>
      var attrs := AttributesText(attributes);
      if SelfClosing(n) then SelfClosingTag("", tag, attrs)
      else InlineTag("", tag, attrs, Concat(CompactChildren(cs)))
    case Text(content) => content
    case Attribute(a) => GenerateAttribute(a)
  }

  function CompactChildren(cs: seq<Node>): (r: seq<string>)
    ensures |r| == |cs|
    ensures forall i :: 0 <= i < |r| ==> r[i] == CompactMarkup(cs[i])
    decreases cs
  {
    if |cs| == 0 then [] else [CompactMarkup(cs[0])] + CompactChildren(cs[1..])
  }

  /** Without formatting the output is the compact markup, whatever the depth
      and the indent string. */
  lemma {:induction false} CompactOutput(s: Settings, n: Node, depth: nat)
    requires !s.format
    ensures GenerateNode(s, n, depth) == CompactMarkup(n)
    decreases n
  {
    match n
    case Root(cs) =>
      CompactChildrenOutput(s, cs, depth);
    case Element(tag, attributes, cs, _) =>
      assert GetIndent(s, depth) == "";
      if !SelfClosing(n) {
        CompactChildrenOutput(s, cs, depth + 1);
        JoinEmptyIsConcat(CompactChildren(cs));
      }
    case Text(_) =>
    case Attribute(_) =>
  }

  lemma {:induction false} CompactChildrenOutput(s: Settings, cs: seq<Node>, depth: nat)
    requires !s.format
    ensures GenerateChildren(s, cs, depth) == CompactChildren(cs)
    decreases cs
  {
    if |cs| > 0 {
      CompactOutput(s, cs[0], depth);
      CompactChildrenOutput(s, cs[1..], depth);
    }
  }

  /** A tree none of whose names, values or texts contain a newline and
      that contains no Root at all; a Root on top is handled by the
      lemmas about its children. */
  predicate NewlineFree(n: Node)
    decreases n
  {
    match n
    case Root(_) => false
    case Element(tag, attributes, cs, _) =>
      && '\n' !in tag
      && (forall i :: 0 <= i < |attributes| ==> AttributeNewlineFree(attributes[i]))
      && (forall i :: 0 <= i < |cs| ==> NewlineFree(cs[i]))
    case Text(content) => '\n' !in content
    case Attribute(a) => AttributeNewlineFree(a)
  }

  predicate AttributeNewlineFree(a: AttributeNode) {
    '\n' !in a.name && (a.value.StrValue? ==> '\n' !in a.value.str)
  }

  lemma AttributeNoNewline(a: AttributeNode)
    requires AttributeNewlineFree(a)
    ensures '\n' !in GenerateAttribute(a)
  {
    if a.value.StrValue? {
      EscapeKeepsOthers(a.value.str, '\n');
    }
  }

  lemma AttributesTextNoNewline(attributes: seq<AttributeNode>)
    requires forall i :: 0 <= i < |attributes| ==> AttributeNewlineFree(attributes[i])
    ensures '\n' !in AttributesText(attributes)
  {
    var frags := AttributeFragments(attributes);
    forall i | 0 <= i < |frags| ensures '\n' !in frags[i] {
      AttributeNoNewline(attributes[i]);
    }
    JoinExcludes(frags, " ", '\n');
  }

  /** Compact output of a newline-free tree is a single line. */
  lemma {:induction false} CompactSingleLine(n: Node)
    requires NewlineFree(n)
    ensures '\n' !in CompactMarkup(n)
    decreases n
  {
    match n
    case Element(tag, attributes, cs, _) =>
      AttributesTextNoNewline(attributes);
      if !SelfClosing(n) {
        CompactChildrenSingleLine(cs);
        JoinEmptyIsConcat(CompactChildren(cs));
        JoinExcludes(CompactChildren(cs), "", '\n');
      }
    case Text(_) =>
    case Attribute(a) => AttributeNoNewline(a);
  }

  lemma {:induction false} CompactChildrenSingleLine(cs: seq<Node>)
    requires forall i :: 0 <= i < |cs| ==> NewlineFree(cs[i])
    ensures forall i :: 0 <= i < |cs| ==> '\n' !in CompactChildren(cs)[i]
    decreases cs
  {
    forall i | 0 <= i < |cs| ensures '\n' !in CompactChildren(cs)[i] {
      CompactSingleLine(cs[i]);
    }
  }

  /** A Root puts each child on a line of its own even without formatting:
      splitting the compact output at newlines gives back the children's
      outputs. */
  lemma RootLinesWithoutFormat(s: Settings, cs: seq<Node>, depth: nat)
    requires !s.format && |cs| > 0
    requires forall i :: 0 <= i < |cs| ==> NewlineFree(cs[i])
    ensures Split(GenerateNode(s, Root(cs), depth), '\n') == GenerateChildren(s, cs, depth)
  {
    CompactChildrenOutput(s, cs, depth);
    CompactChildrenSingleLine(cs);
    SplitJoin(CompactChildren(cs), '\n');
  }

  /** `generate` in both modes: the formatted lines joined by newlines
      unless formatting is explicitly off, the compact markup otherwise. */
  lemma GenerateModes(o: GeneratorOptions, n: Node)
    ensures o.format == Some(false) ==> Generate(o, n) == CompactMarkup(n)
    ensures o.format != Some(false) ==> Generate(o, n) == Join(FormattedLines(ResolveOptions(o), n, 0), "\n")
  {
    var s := ResolveOptions(o);
    if s.format {
      FormattedOutput(s, n, 0);
    } else {
      CompactOutput(s, n, 0);
    }
  }
}
