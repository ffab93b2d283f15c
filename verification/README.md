# Page designer AST subsystem in Dafny

This project models the AST subsystem of the page designer
(`package/designer/src/ast/`). The subsystem has four parts:

- **Node model** (`types.ts`): a closed tree of four node kinds. `Root` and
  `Element` carry children, `Text` and `Attribute` are leaves. An element's
  attributes form a separate ordered list. An attribute value is a string or
  a boolean.
- **Parser** (`parser.ts`): turns a component configuration into a tree.
  A configuration has a tag, optional props, optional children (nested
  configurations or strings) and an optional self-closing flag.
- **Tree utilities** (`utils.ts`): the type guards, pre-order `findNode` and
  `findAllNodes`, `countNodes` and `getDepth`.
- **Generator** (`generator.ts`): serialises a tree to markup. It covers:
  - option defaults;
  - self-closing detection;
  - inlining of a single text child;
  - pretty-printing with a depth-counted indent;
  - escaping of attribute values.

Modules, one per file:

| file | module | contents |
|---|---|---|
| `wrappers.dfy` | `Wrappers` | `Option` |
| `strings.dfy` | `Strings` | the JavaScript string primitives the generator uses (`join`, `repeat`, global one-character `replace`), and `split` on one character, which the generator never calls and which serves only to state what a newline-join produces |
| `types.dfy` | `AstTypes` | the node datatype |
| `parser.dfy` | `AstParser` | the parser, plus an inverse `Unparse` for the round trips |
| `utils.dfy` | `AstUtils` | tree utilities, plus a reference pre-order listing `Preorder` |
| `generator.dfy` | `AstGenerator` | the generator with the depth counter passed as a parameter, plus two independent definitions of the output: `CompactMarkup` for compact mode and `FormattedLines` for formatted mode |
| `generator_state.dfy` | `GeneratorState` | the generator as the source writes it: an object with a `currentIndent` counter, bumped before the children are generated and restored after; the state is passed in and returned |
| `fixtures.dfy` | `Fixtures` | example trees with their parsed form, tree queries and rendered markup: an illustrative `el-button` configuration, the registry's `el-card` node (`draw-config/high/config/el-card-config.ts`), and an illustrative form holding inputs at two depths |

The model follows the code. Three behaviours of the code are easy to miss,
and the model keeps all three.

- **`false` attributes leave spaces.** A `false` attribute yields an empty
  fragment, and that fragment is not filtered out before the `' '`-join
  (`generator.ts:74-76`, `generator.ts:118-120`). So every `false`
  attribute leaves an extra space. `AstGenerator.FalseAttributesLeaveSpaces`
  states this.
- **The inline text keeps its indent.** Children are generated at depth+1
  before the single-text-child check (`generator.ts:84-93`). The inlined
  text therefore carries one level of indentation when formatting.
  `AstGenerator.InlineTextChild` states this.
- **Root always uses newlines.** `Root` joins its children with `'\n'` even
  when `format` is false (`generator.ts:63`).
  `AstGenerator.RootLinesWithoutFormat` states this.

As a result, with default options an `el-button` configuration with a `type="primary"` prop, a `disabled: false` prop and the text `按钮` renders as
`<el-button type="primary" >  按钮</el-button>`, not
`<el-button type="primary">按钮</el-button>` (`Fixtures.ButtonFormatted`).

## Model

| member | source | states |
|---|---|---|
| AstTypes.Node.Type | package/designer/src/ast/types.ts:10-19 | every node has exactly one of the four type tags, and the tag names its variant (both directions) |
| AstParser.Parse | package/designer/src/ast/parser.ts:30-39 | a single configuration gives a Root with exactly that one parsed element; an array of n configurations gives n elements in the same order; every child of the Root is an Element of parsed shape |
| AstParser.ParseElement | package/designer/src/ast/parser.ts:44-55 | tag and self-closing flag are copied verbatim (an absent flag stays absent); attributes come from the props, or are empty when props are missing; children come from the children array, or are empty when it is missing; the result contains only Element and Text nodes |
| AstParser.ParseAttributes | package/designer/src/ast/parser.ts:61-67 | one attribute per prop entry, in entry order, named by the key, with the value unchanged |
| AstParser.ParseChildren | package/designer/src/ast/parser.ts:72-79 | the number and order of children are kept; each child is parsed on its own and is of parsed shape |
| AstParser.ParseChild | package/designer/src/ast/parser.ts:73-78 | a string becomes a Text node with identical content; a configuration becomes an Element |
| AstParser.ParseText | package/designer/src/ast/parser.ts:84-89 | a Text node with the given content |
| AstParser.ParseUnparse | package/designer/src/ast/parser.ts:44-79 | parsing loses nothing: every element of parsed shape is the parse of some configuration, namely its unparse |
| AstParser.UnparseParse | package/designer/src/ast/parser.ts:44-79 | parsing forgets only whether props and children were absent or empty: unparsing a parse gives back the configuration with both made explicit |
| AstUtils.IsElementNode | package/designer/src/ast/utils.ts:11-13 | true exactly for Element nodes |
| AstUtils.IsTextNode | package/designer/src/ast/utils.ts:18-20 | true exactly for Text nodes |
| AstUtils.Preorder | package/designer/src/ast/utils.ts:30-36 | the pre-order listing is non-empty and starts with the node itself |
| AstUtils.Filter | package/designer/src/ast/utils.ts:45-59 | keeps exactly the elements that satisfy the predicate, never more elements than the input |
| AstUtils.FindNode | package/designer/src/ast/utils.ts:25-40 | a found node satisfies the predicate |
| AstUtils.FindInChildren | package/designer/src/ast/utils.ts:30-37 | a node found among the children satisfies the predicate |
| AstUtils.FindAllNodes | package/designer/src/ast/utils.ts:45-59 | every node returned satisfies the predicate |
| AstUtils.FindAllInChildren | package/designer/src/ast/utils.ts:52-56 | every node returned from the children satisfies the predicate |
| AstUtils.FindAllIsFilteredPreorder | package/designer/src/ast/utils.ts:45-59 | `findAllNodes` is exactly the pre-order listing of the tree filtered by the predicate: every match, root first, left to right |
| AstUtils.FindAllMembers | package/designer/src/ast/utils.ts:45-59 | a node is in the result exactly when it is in the tree and satisfies the predicate; the result is empty exactly when no node of the tree matches |
| AstUtils.FindNodeIsFirstOfFindAll | package/designer/src/ast/utils.ts:25-59 | `findNode` is none exactly when `findAllNodes` is empty, and otherwise it is the first element of `findAllNodes` |
| AstUtils.CountNodes | package/designer/src/ast/utils.ts:64-74 | at least one: the node itself is counted |
| AstUtils.CountIsPreorderLength | package/designer/src/ast/utils.ts:64-74 | `countNodes` is the number of nodes reached by pre-order traversal, so each node is counted once and leaves count 1 |
| AstUtils.CountIgnoresAttributes | package/designer/src/ast/utils.ts:67-71 | replacing an element's attributes does not change the count, so attributes are never counted |
| AstUtils.FindAllBoundedByCount | package/designer/src/ast/utils.ts:45-74 | `findAllNodes` returns at most `countNodes` nodes; when the predicate always holds, it returns the whole pre-order listing and exactly `countNodes` nodes |
| AstUtils.GetDepth | package/designer/src/ast/utils.ts:79-85 | the depth is at least 1 |
| AstUtils.MaxDepth | package/designer/src/ast/utils.ts:84 | the maximum child depth bounds every child's depth and is reached by some child |
| AstUtils.DepthOfChildren | package/designer/src/ast/utils.ts:79-85 | the depth is 1 exactly when there are no children; otherwise it is 1 more than the deepest child's depth and larger than every child's depth |
| AstUtils.DepthBoundedByCount | package/designer/src/ast/utils.ts:64-85 | the depth never exceeds the node count |
| Strings.Join | package/designer/src/ast/generator.ts:63 | joining nothing gives the empty string; joining one part gives that part; the result starts with the first part |
| Strings.JoinLength | package/designer/src/ast/generator.ts:75 | a join adds exactly one separator between each pair of neighbours |
| Strings.Repeat | package/designer/src/ast/generator.ts:130 | `k` copies: the length is `k` times the length of the string |
| Strings.RepeatSucc | package/designer/src/ast/generator.ts:130 | one more copy appends the string once more at the end, so the contents, not just the length, are `k` copies |
| Strings.RepeatChars | package/designer/src/ast/generator.ts:130 | a repetition contains a character exactly when at least one copy is made and the string contains it |
| Strings.ReplaceAll | package/designer/src/ast/generator.ts:137-141 | with no occurrence, the string is unchanged; if the replacement does not contain the character, the result does not either |
| Strings.ReplaceAllKeeps | package/designer/src/ast/generator.ts:137-141 | any other character not in the replacement is in the result exactly when it is in the input |
| Strings.SplitJoin | package/designer/src/ast/generator.ts:63 | splitting on a one-character separator undoes joining with it, when no part contains the separator |
| AstGenerator.ResolveOptions | package/designer/src/ast/generator.ts:25-30 | the indent is the one given unless it is absent or empty, in which case it is two spaces; formatting is on unless it is explicitly false |
| AstGenerator.GetIndent | package/designer/src/ast/generator.ts:129-131 | no indentation when not formatting; otherwise depth times the indent's length |
| AstGenerator.IndentStep | package/designer/src/ast/generator.ts:129-131 | depth 0 has no indentation, and when formatting each further level appends exactly one copy of the configured indent |
| AstGenerator.EscapeAttrValue | package/designer/src/ast/generator.ts:136-142 | an escaped value contains no raw `"`, `<` or `>` |
| AstGenerator.EscapeKeepsOthers | package/designer/src/ast/generator.ts:136-142 | a character that none of the entities introduce is in the escaped value exactly when it is in the input |
| AstGenerator.EscapeOneChar | package/designer/src/ast/generator.ts:136-142 | the four replacements in sequence map each single character to its one entity, or leave it unchanged |
| AstGenerator.EscapeConcat | package/designer/src/ast/generator.ts:136-142 | escaping distributes over concatenation |
| AstGenerator.EscapeIsPerCharacter | package/designer/src/ast/generator.ts:136-142 | the four sequential replacements equal a single per-character mapping, so nothing is escaped twice |
| AstGenerator.UnescapeEscape | package/designer/src/ast/generator.ts:136-142 | escaping loses no information: decoding the four entities gives the original value back |
| AstGenerator.GenerateAttribute | package/designer/src/ast/generator.ts:114-124 | `true` emits the name alone; `false` emits the empty string; a string emits `name="…"` with the escaped value |
| AstGenerator.AttributeFragments | package/designer/src/ast/generator.ts:75 | one fragment per attribute, in order, empty `false` fragments included |
| AstGenerator.AttributesText | package/designer/src/ast/generator.ts:74-76 | empty when there are no attributes; otherwise a space followed by every fragment joined with single spaces |
| AstGenerator.FalseAttributesLeaveSpaces | package/designer/src/ast/generator.ts:74-76 | when every attribute is `false`, the attribute text is one space per attribute, not the empty string |
| AstGenerator.GenerateChildren | package/designer/src/ast/generator.ts:85-87 | one output per child |
| AstGenerator.GenerateChildrenAt | package/designer/src/ast/generator.ts:85-87 | output `i` is child `i` generated at the same depth, so order is kept |
| AstGenerator.SelfClosingElement | package/designer/src/ast/generator.ts:79-81 | a self-closing or childless element emits `indent<tag attrs />` with no closing tag, whether formatting or not; the indent is empty when not formatting |
| AstGenerator.InlineTextChild | package/designer/src/ast/generator.ts:84-93 | an element whose only child is Text emits the tags and the text on one line, and the text carries the indent of the next depth |
| AstGenerator.FormattedOutput | package/designer/src/ast/generator.ts:42-109 | this is the contract of `generateNode` and of the element cases in `ElementText` when formatting. With formatting on, the output is an independent list of lines joined by newlines. A self-closing element is one line, and so is an element with a single Text child (the text indented one level deeper). Any other element puts its opening tag, every line of its children one level deeper, and its closing tag on lines of their own. A Text node is one line, its content after the indent of its depth; a Root lists its children's lines at the same depth. |
| AstGenerator.FormattedSplit | package/designer/src/ast/generator.ts:95-98 | for an Element or Text node with no Root inside it: with formatting on, and no newline in the indent, names, values or texts, splitting the output at newlines gives back exactly those lines |
| AstGenerator.FormattedSplitRoot | package/designer/src/ast/generator.ts:60-64 | the same for a Root on top of such children: splitting its formatted output at newlines gives back exactly its lines |
| AstGenerator.CompactChildren | package/designer/src/ast/generator.ts:85-87 | the compact outputs of the children, one per child, in order |
| AstGenerator.CompactOutput | package/designer/src/ast/generator.ts:42-109 | this is the contract of `generateNode` and of `ElementText` in compact mode. With formatting off, the output equals the independent compact definition: no indentation anywhere, children concatenated without separators, only Root children separated by newlines |
| AstGenerator.AttributesTextNoNewline | package/designer/src/ast/generator.ts:74-76 | attributes without newlines in names or string values give an attribute text without newlines |
| AstGenerator.CompactSingleLine | package/designer/src/ast/generator.ts:96-100 | with formatting off, an element without newlines in its texts and attributes becomes a single line |
| AstGenerator.GenerateModes | package/designer/src/ast/generator.ts:35-37 | `generate` starts at depth 0 with the resolved options: with `format: false` it gives the compact markup, and otherwise the formatted lines joined by newlines |
| AstGenerator.RootLinesWithoutFormat | package/designer/src/ast/generator.ts:60-64 | even with formatting off, a Root's output splits at newlines into exactly its children's outputs, one line per child |
| GeneratorState.NewGenerator | package/designer/src/ast/generator.ts:21-30 | a new generator starts at depth 0 with a non-empty indent and formats unless told not to |
| GeneratorState.GenerateNodeSt | package/designer/src/ast/generator.ts:84-88 | generating any node leaves the generator's state exactly as it found it: the counter is incremented before the children and decremented after |
| GeneratorState.GenerateChildrenSt | package/designer/src/ast/generator.ts:85-87 | one output per child, and the generator's state is left unchanged |
| GeneratorState.ElementMatches | package/designer/src/ast/generator.ts:84-100 | once the children's outputs agree, an element's output on the object equals its output with the depth passed as a parameter |
| GeneratorState.StatefulMatchesThreaded | package/designer/src/ast/generator.ts:42-131 | the generator with a mutable counter produces the same text as the version that passes the depth as a parameter |
| GeneratorState.ReuseIsFresh | package/designer/src/ast/generator.ts:35-37 | a generator reused after a first `generate` call produces for a second tree what a fresh generator would; nothing leaks between calls |
| Fixtures.ButtonParses | package/designer/src/ast/parser.ts:30-55 | the illustrative `el-button` configuration parses to a Root with one Element carrying two attributes in prop order and one Text child |
| Fixtures.ButtonFormatted | package/designer/src/ast/generator.ts:69-101 | with default options, `el-button` renders as `<el-button type="primary" >  按钮</el-button>` |
| Fixtures.ButtonCompact | package/designer/src/ast/generator.ts:69-101 | with `format: false`, `el-button` renders as `<el-button type="primary" >按钮</el-button>` |
| Fixtures.RegistryCardFormatted | package/designer/src/draw-config/high/config/el-card-config.ts:11-27 | with default options, the registry's `el-card` node renders as `<el-card shadow="hover">  卡片内容</el-card>`: one line, the text indented one level |
| Fixtures.EscapeSample | package/designer/src/ast/generator.ts:136-142 | `<&">` escapes to `&lt;&amp;&quot;&gt;`, with `&` escaped exactly once |
| Fixtures.FindBothInputs | package/designer/src/ast/utils.ts:25-59 | in an illustrative form holding an input and a card with an input, `findAllNodes` returns both inputs in pre-order and `findNode` returns the first |
| Fixtures.CountForm | package/designer/src/ast/utils.ts:64-74 | that tree has 5 nodes |
| Fixtures.DepthForm | package/designer/src/ast/utils.ts:79-85 | that tree has depth 4 |
| Fixtures.FormFormatted | package/designer/src/ast/generator.ts:69-101 | with default options, the form is written over several lines, one indent per level, with the childless inputs self-closing |

## Left out

- Props values of any JavaScript type, and the `String(value)` coercion in `generateAttribute`. Attribute values are restricted to a string or a boolean.
- Ordering of props by `Object.entries`. Props are an ordered list of entries, so JavaScript's rule that integer-like keys come first is not modelled.
- The `default: return ''` branch of `generateNode`. It cannot be reached, because the node datatype is closed.
- The guard `if (node.type !== NodeType.ROOT) return ''` in `generateRoot`. It cannot fail, because `generateNode` dispatches on the same tag.
- The `createParser` and `createGenerator` factories. They only call a constructor; the generator's constructor is `GeneratorState.NewGenerator`.
- Mutation of the `Generator` object. Its `currentIndent` field is modelled by passing the state into each call and returning it.
- The optional element identifier that consumers use for selection bookkeeping. It is not a field of `ElementNode` in `types.ts`, and nothing in the subsystem reads it.
- Identity and sharing of nodes. Trees are modelled as finite, acyclic, unshared immutable values, so `findNode` and `findAllNodes` return nodes only up to equality, not the object references the source returns. Mutation through those references, and the non-termination of the walks on cyclic or shared object graphs, are not modelled.
- Fixtures.FormFormatted: the expected markup is given as nested `BlockTag` shapes with literal input lines, not as one flat string.
- AstUtils.FindNode: its own contract says only that a found node matches. That it is the first match in pre-order is stated by `AstUtils.FindNodeIsFirstOfFindAll`.
- AstGenerator.EscapeAttrValue: its own contract says only that no raw `"`, `<` or `>` remains. The exact mapping is stated by `AstGenerator.EscapeIsPerCharacter` and `AstGenerator.UnescapeEscape`.
