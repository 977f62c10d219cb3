/**
  The already-parsed markdown tree (mdast) the core works on, and the
  `toString` of mdast-util-to-string as the concatenation of leaf text in
  document order.
 */
module Mdast {

  /**
    The node types the core tells apart. `OtherKind(name)` stands for any other
    type name (blockquote, emphasis, ...); `name` is never "root", "heading",
    "paragraph", "list" or "listItem", which have constructors of their own.
   */
  datatype Kind = Root | Heading | Paragraph | List | ListItem | OtherKind(name: string)

  /**
    A tree node. `Leaf` is a literal node (text, inlineCode, code, html) that
    carries its text in `value`; `Parent` is a node with `children`, where
    `depth` is meaningful only for a heading and `ordered` only for a list.
   */
  datatype Node =
    | Leaf(value: string)
    | Parent(kind: Kind, depth: int, ordered: bool, children: seq<Node>)

  predicate IsKind(n: Node, k: Kind) {
    n.Parent? && n.kind == k
  }

  /** `node.type === "heading" && node.depth === d`. */
  predicate IsHeadingOfDepth(n: Node, d: int) {
    IsKind(n, Heading) && n.depth == d
  }

  /** `toString(node)`: the text of the leaves below `n`, left to right. */
  function ToText(n: Node): string
    decreases n, 1
  {
    match n
    case Leaf(v) => v
    case Parent(_, _, _, cs) => ToTextAll(cs)
  }

  function ToTextAll(cs: seq<Node>): string
    decreases cs, 0
  {
    if cs == [] then "" else ToText(cs[0]) + ToTextAll(cs[1..])
  }

  /** `toString` of each node of `cs`, in order. */
  function ToTexts(cs: seq<Node>): (r: seq<string>)
    ensures |r| == |cs|
    ensures forall k | 0 <= k < |cs| :: r[k] == ToText(cs[k])
  {
    seq(|cs|, k requires 0 <= k < |cs| => ToText(cs[k]))
  }

  /** Every node of the tree rooted at `n`, in pre-order (document order). */
  function PreOrder(n: Node): (r: seq<Node>)
    ensures |r| >= 1 && r[0] == n
    decreases n, 1
  {
    match n
    case Leaf(_) => [n]
    case Parent(_, _, _, cs) => [n] + PreOrderAll(cs)
  }

  function PreOrderAll(cs: seq<Node>): seq<Node>
    decreases cs, 0
  {
    if cs == [] then [] else PreOrder(cs[0]) + PreOrderAll(cs[1..])
  }

  lemma {:induction false} PreOrderAllContains(cs: seq<Node>, k: nat)
    requires k < |cs|
    ensures forall m | m in PreOrder(cs[k]) :: m in PreOrderAll(cs)
    decreases cs
  {
    if k > 0 {
      PreOrderAllContains(cs[1..], k - 1);
      assert cs[1..][k - 1] == cs[k];
    }
  }

  /** Every node below a child of `n`, at any depth, is in the pre-order listing of `n`. */
  lemma PreOrderContainsDescendants(n: Node, k: nat)
    requires n.Parent? && k < |n.children|
    ensures forall m | m in PreOrder(n.children[k]) :: m in PreOrder(n)
  {
    PreOrderAllContains(n.children, k);
  }
}
