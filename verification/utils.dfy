/** Tree utilities (package/designer/src/ast/utils.ts): type guards,
    pre-order search, node counting and depth. They follow a node's
    `children` when it has that field (Root and Element) and never look at
    an element's attributes. */
module AstUtils {
  import opened Wrappers
  import opened AstTypes

  function IsElementNode(n: Node): (r: bool)
    ensures r <==> n.Element?
  {
    n.Type() == ELEMENT
  }

  function IsTextNode(n: Node): (r: bool)
    ensures r <==> n.Text?
  {
    n.Type() == TEXT
  }

  /** Every node of the tree in left-to-right pre-order, the node itself
      first: the reference order of the searches below. */
  function Preorder(n: Node): (r: seq<Node>)
    ensures |r| >= 1 && r[0] == n
    decreases n
  {
    match n
    case Root(cs) => [n] + PreorderList(cs)
    case Element(_, _, cs, _) => [n] + PreorderList(cs)
    case _ => [n]
  }

  function PreorderList(cs: seq<Node>): seq<Node>
    decreases cs
  {
    if |cs| == 0 then [] else Preorder(cs[0]) + PreorderList(cs[1..])
  }

  /** The elements of `s` that satisfy `p`, in order. */
  function Filter(s: seq<Node>, p: Node -> bool): (r: seq<Node>)
    ensures |r| <= |s|
    ensures forall i :: 0 <= i < |r| ==> p(r[i])
    ensures forall x :: x in r <==> x in s && p(x)
  {
    if |s| == 0 then [] else (if p(s[0]) then [s[0]] else []) + Filter(s[1..], p)
  }

  lemma {:induction false} FilterConcat(a: seq<Node>, b: seq<Node>, p: Node -> bool)
    ensures Filter(a + b, p) == Filter(a, p) + Filter(b, p)
  {
    if |a| == 0 {
      assert a + b == b;
    } else {
      assert (a + b)[0] == a[0];
      assert (a + b)[1..] == a[1..] + b;
      FilterConcat(a[1..], b, p);
    }
  }

  /** The first element of a sequence, if there is one. */
  function First(s: seq<Node>): (r: Option<Node>)
    ensures r.None? <==> |s| == 0
    ensures r.Some? ==> r.value == s[0]
  {
    if |s| == 0 then None else Some(s[0])
  }

  /** `findNode`: the node itself if it satisfies `p`, otherwise the first
      match among its children searched one after the other. */
  function FindNode(n: Node, p: Node -> bool): (r: Option<Node>)
    ensures r.Some? ==> p(r.value)
    decreases n
  {
    if p(n) then Some(n)
    else
      match n
      case Root(cs) => FindInChildren(cs, p)
      case Element(_, _, cs, _) => FindInChildren(cs, p)
      case _ => None
  }

  function FindInChildren(cs: seq<Node>, p: Node -> bool): (r: Option<Node>)
    ensures r.Some? ==> p(r.value)
    decreases cs
  {
    if |cs| == 0 then None
    else
      match FindNode(cs[0], p)
      case Some(found) => Some(found)
      case None => FindInChildren(cs[1..], p)
  }

  /** `findAllNodes`: the node itself if it matches, then the matches of each
      child in turn. */
  function FindAllNodes(n: Node, p: Node -> bool): (r: seq<Node>)
    ensures forall i :: 0 <= i < |r| ==> p(r[i])
    decreases n
  {
    var own := if p(n) then [n] else [];
    match n
    case Root(cs) => own + FindAllInChildren(cs, p)
    case Element(_, _, cs, _) => own + FindAllInChildren(cs, p)
    case _ => own
  }

  function FindAllInChildren(cs: seq<Node>, p: Node -> bool): (r: seq<Node>)
    ensures forall i :: 0 <= i < |r| ==> p(r[i])
    decreases cs
  {
    if |cs| == 0 then [] else FindAllNodes(cs[0], p) + FindAllInChildren(cs[1..], p)
  }

  /** `findAllNodes` lists exactly the matching nodes of the tree, in
      pre-order with the root first. */
  lemma {:induction false} FindAllIsFilteredPreorder(n: Node, p: Node -> bool)
    ensures FindAllNodes(n, p) == Filter(Preorder(n), p)
    decreases n
  {
    match n
    case Root(cs) =>
      FindAllInChildrenIsFiltered(cs, p);
      FilterConcat([n], PreorderList(cs), p);
    case Element(_, _, cs, _) =>
      FindAllInChildrenIsFiltered(cs, p);
      FilterConcat([n], PreorderList(cs), p);
    case Text(_) =>
    case Attribute(_) =>
  }

  lemma {:induction false} FindAllInChildrenIsFiltered(cs: seq<Node>, p: Node -> bool)
    ensures FindAllInChildren(cs, p) == Filter(PreorderList(cs), p)
    decreases cs
  {
    if |cs| > 0 {
      FindAllIsFilteredPreorder(cs[0], p);
      FindAllInChildrenIsFiltered(cs[1..], p);
      FilterConcat(Preorder(cs[0]), PreorderList(cs[1..]), p);
    }
  }

  /** A node is among the results of `findAllNodes` exactly when it occurs
      in the tree and satisfies the predicate; in particular the result is
      empty exactly when nothing in the tree matches. */
  lemma FindAllMembers(n: Node, p: Node -> bool)
    ensures forall x :: x in FindAllNodes(n, p) <==> x in Preorder(n) && p(x)
    ensures FindAllNodes(n, p) == [] <==> forall x :: x in Preorder(n) ==> !p(x)
  {
    FindAllIsFilteredPreorder(n, p);
    if FindAllNodes(n, p) != [] {
      assert FindAllNodes(n, p)[0] in FindAllNodes(n, p);
    }
  }

  /** `findNode` finds nothing exactly when `findAllNodes` is empty, and
      otherwise returns the first node `findAllNodes` lists. */
  lemma {:induction false} FindNodeIsFirstOfFindAll(n: Node, p: Node -> bool)
    ensures FindNode(n, p) == First(FindAllNodes(n, p))
    decreases n
  {
    if !p(n) {
      match n
      case Root(cs) => FindInChildrenIsFirst(cs, p);
      case Element(_, _, cs, _) => FindInChildrenIsFirst(cs, p);
      case Text(_) =>
      case Attribute(_) =>
    }
  }

  lemma {:induction false} FindInChildrenIsFirst(cs: seq<Node>, p: Node -> bool)
    ensures FindInChildren(cs, p) == First(FindAllInChildren(cs, p))
    decreases cs
  {
    if |cs| > 0 {
      FindNodeIsFirstOfFindAll(cs[0], p);
      FindInChildrenIsFirst(cs[1..], p);
      if FindNode(cs[0], p).None? {
        assert FindAllNodes(cs[0], p) == [];
        assert FindAllInChildren(cs, p) == FindAllInChildren(cs[1..], p);
      }
    }
  }

  /** `countNodes`: the node itself plus the counts of its children. Leaves
      and childless nodes count 1; attributes are never counted. */
  function CountNodes(n: Node): (r: nat)
    ensures r >= 1
    decreases n
  {
    match n
    case Root(cs) => 1 + CountChildren(cs)
    case Element(_, _, cs, _) => 1 + CountChildren(cs)
    case _ => 1
  }

  function CountChildren(cs: seq<Node>): nat
    decreases cs
  {
    if |cs| == 0 then 0 else CountNodes(cs[0]) + CountChildren(cs[1..])
  }

  /** The count is the number of nodes a pre-order walk visits. */
  lemma {:induction false} CountIsPreorderLength(n: Node)
    ensures CountNodes(n) == |Preorder(n)|
    decreases n
  {
    match n
    case Root(cs) => CountChildrenIsPreorderLength(cs);
    case Element(_, _, cs, _) => CountChildrenIsPreorderLength(cs);
    case Text(_) =>
    case Attribute(_) =>
  }

  lemma {:induction false} CountChildrenIsPreorderLength(cs: seq<Node>)
    ensures CountChildren(cs) == |PreorderList(cs)|
    decreases cs
  {
    if |cs| > 0 {
      CountIsPreorderLength(cs[0]);
      CountChildrenIsPreorderLength(cs[1..]);
    }
  }

  /** Replacing an element's attributes never changes the count. */
  lemma CountIgnoresAttributes(e: Node, attributes: seq<AttributeNode>)
    requires e.Element?
    ensures CountNodes(e.(attributes := attributes)) == CountNodes(e)
  {
  }

  /** `findAllNodes` returns at most `countNodes` nodes, and exactly that
      many, namely the whole pre-order walk, when the predicate always holds. */
  lemma FindAllBoundedByCount(n: Node, p: Node -> bool)
    ensures |FindAllNodes(n, p)| <= CountNodes(n)
    ensures (forall x :: p(x)) ==> FindAllNodes(n, p) == Preorder(n)
    ensures (forall x :: p(x)) ==> |FindAllNodes(n, p)| == CountNodes(n)
  {
    FindAllIsFilteredPreorder(n, p);
    CountIsPreorderLength(n);
    if forall x :: p(x) {
      FilterAll(Preorder(n), p);
    }
  }

  lemma {:induction false} FilterAll(s: seq<Node>, p: Node -> bool)
    requires forall x :: p(x)
    ensures Filter(s, p) == s
  {
    if |s| > 0 {
      FilterAll(s[1..], p);
    }
  }

  /** `getDepth`: 1 for a node without children, otherwise one more than its
      deepest child. */
  function GetDepth(n: Node): (r: nat)
    ensures r >= 1
    decreases n
  {
    match n
    case Root(cs) => if |cs| == 0 then 1 else 1 + MaxDepth(cs)
    case Element(_, _, cs, _) => if |cs| == 0 then 1 else 1 + MaxDepth(cs)
    case _ => 1
  }

  /** The largest depth among `cs` (`Math.max` over the mapped children):
      no child is deeper and, when there are children, one attains it. */
  function MaxDepth(cs: seq<Node>): (r: nat)
    ensures forall i :: 0 <= i < |cs| ==> GetDepth(cs[i]) <= r
    ensures |cs| > 0 ==> exists i :: 0 <= i < |cs| && GetDepth(cs[i]) == r
    decreases cs
  {
    if |cs| == 0 then 0
    else
      var rest := MaxDepth(cs[1..]);
      var d := GetDepth(cs[0]);
      if |cs| == 1 || d >= rest then d else rest
  }

  /** The children a node's `children` field holds; none for leaves. */
  function ChildrenOf(n: Node): seq<Node> {
    if n.Root? || n.Element? then n.children else []
  }

  /** Depth in terms of the children: 1 for a childless node; otherwise every
      child is strictly shallower and some child is exactly one level
      shallower. */
  lemma DepthOfChildren(n: Node)
    ensures |ChildrenOf(n)| == 0 <==> GetDepth(n) == 1
    ensures forall i :: 0 <= i < |ChildrenOf(n)| ==> GetDepth(ChildrenOf(n)[i]) < GetDepth(n)
    ensures |ChildrenOf(n)| > 0 ==>
      exists i :: 0 <= i < |ChildrenOf(n)| && GetDepth(ChildrenOf(n)[i]) + 1 == GetDepth(n)
  {
  }

  /** A tree is never deeper than it has nodes. */
  lemma {:induction false} DepthBoundedByCount(n: Node)
    ensures GetDepth(n) <= CountNodes(n)
    decreases n
  {
    match n
    case Root(cs) => if |cs| > 0 { MaxDepthBoundedByCount(cs); }
    case Element(_, _, cs, _) => if |cs| > 0 { MaxDepthBoundedByCount(cs); }
    case Text(_) =>
    case Attribute(_) =>
  }

  lemma {:induction false} MaxDepthBoundedByCount(cs: seq<Node>)
    ensures MaxDepth(cs) <= CountChildren(cs)
    decreases cs
  {
    if |cs| > 0 {
      DepthBoundedByCount(cs[0]);
      MaxDepthBoundedByCount(cs[1..]);
    }
  }
}
