/**
  `getFormattedText` of markdown-parser.js: plain text for a markdown tree, with
  paragraphs and headings cleaned, lists one cleaned item per line, and a blank
  line after each paragraph, heading or list at the top level that is not the
  last block.

  In the source the inner `processNode` appends to a variable `text` shared by
  every level of its recursion and a root returns that whole variable. The
  model keeps that sharing: `Process` passes the shared text along and returns
  it next to the value of the call.
 */
module Formatter {
  import opened Wrappers
  import opened Text
  import opened Lines
  import opened Mdast

  /** The block types after which the root level inserts a blank line. */
  predicate IsBlock(n: Node) {
    IsKind(n, Paragraph) || IsKind(n, Heading) || IsKind(n, List)
  }

  /** `f` applied to each node of `items`, in order. */
  function MapNodes(f: Node -> string, items: seq<Node>): (r: seq<string>)
    ensures |r| == |items|
    ensures forall k | 0 <= k < |items| :: r[k] == f(items[k])
  {
    if items == [] then [] else [f(items[0])] + MapNodes(f, items[1..])
  }

  /** `cleanText(toString(item))`: the text of one list item. */
  function ItemText(item: Node): string {
    CleanText(ToText(item))
  }

  /** The texts of the items of a list, in order. */
  function CleanedItems(items: seq<Node>): (r: seq<string>)
    ensures |r| == |items|
    ensures forall k | 0 <= k < |items| :: r[k] == CleanText(ToText(items[k]))
  {
    MapNodes(ItemText, items)
  }

  /** The text of a list: its cleaned items joined by "\n". */
  function ListText(items: seq<Node>): string {
    JoinLines(CleanedItems(items))
  }

  /** The value `processNode` returns for a node that is not a root (the `switch` of the source). */
  function BlockText(n: Node): string
    requires !IsKind(n, Root)
  {
    match n
    case Leaf(v) => CleanText(v)
    case Parent(k, _, _, cs) =>
      if k == Paragraph || k == Heading then CleanText(ToText(n))
      else if k == List then ListText(cs)
      else CleanText(ToText(n))
  }

  /** What the root level appends after a child: "\n\n" after a block that is not the last child. */
  function Separator(child: Node, isLast: bool): string {
    if !isLast && IsBlock(child) then "\n\n" else ""
  }

  /**
    `processNode(n)` run while the shared variable holds `text`: the pair of
    the shared variable afterwards and the value returned. Only a root changes
    the shared variable, and a root returns all of it.
   */
  function Process(n: Node, text: string): (string, string)
    decreases n, 1
  {
    if IsKind(n, Root) then
      var t := Fold(n.children, text);
      (t, t)
    else (text, BlockText(n))
  }

  /** The `forEach` over a root's children, from shared text `text`. */
  function Fold(cs: seq<Node>, text: string): string
    decreases cs, 0
  {
    if cs == [] then text
    else
      var p := Process(cs[0], text);
      Fold(cs[1..], p.0 + p.1 + Separator(cs[0], |cs| == 1))
  }

  /** `getFormattedText(ast)`; an absent tree gives "". */
  function FormattedText(ast: Option<Node>): string {
    match ast
    case None => ""
    case Some(n) => Process(n, "").1
  }

  /** No node of `cs` is itself a root, which is how every parser of markdown builds a tree. */
  predicate NoRootAmong(cs: seq<Node>) {
    forall k | 0 <= k < |cs| :: !IsKind(cs[k], Root)
  }

  /**
    The layout the source intends for a root: each child's text followed by
    its separator, one after the other.
   */
  function Joined(cs: seq<Node>): string
    requires NoRootAmong(cs)
  {
    if cs == [] then ""
    else BlockText(cs[0]) + Separator(cs[0], |cs| == 1) + Joined(cs[1..])
  }

  lemma Regroup(a: string, b: string, c: string, d: string)
    ensures a + b + c + d == a + (b + c + d)
  {
  }

  lemma {:induction false} FoldWithoutNestedRoot(cs: seq<Node>, text: string)
    requires NoRootAmong(cs)
    ensures Fold(cs, text) == text + Joined(cs)
  {
    if cs != [] {
      var b, s := BlockText(cs[0]), Separator(cs[0], |cs| == 1);
      assert NoRootAmong(cs[1..]) by {
        forall k | 0 <= k < |cs[1..]| ensures !IsKind(cs[1..][k], Root) {
          assert cs[1..][k] == cs[k + 1];
        }
      }
      assert Fold(cs, text) == Fold(cs[1..], text + b + s) by {
        assert Process(cs[0], text) == (text, b);
      }
      FoldWithoutNestedRoot(cs[1..], text + b + s);
      Regroup(text, b, s, Joined(cs[1..]));
    }
  }

  /**
    For a root none of whose children is a root, the shared variable makes no
    difference: the formatted text is each child's text in order, with "\n\n"
    after exactly those children that are a paragraph, heading or list and not
    the last.
   */
  lemma FormattedRoot(d: int, o: bool, cs: seq<Node>)
    requires NoRootAmong(cs)
    ensures FormattedText(Some(Parent(Root, d, o, cs))) == Joined(cs)
  {
    FoldWithoutNestedRoot(cs, "");
  }

  /** A node that is not a root is formatted on its own, whatever came before. */
  lemma FormattedBlock(n: Node, text: string)
    requires !IsKind(n, Root)
    ensures Process(n, text) == (text, BlockText(n))
    ensures FormattedText(Some(n)) == BlockText(n)
  {
  }

  /** A paragraph, a heading and any node other than a list or root is one clean line of text. */
  lemma BlockTextIsClean(n: Node)
    requires !IsKind(n, Root) && !IsKind(n, List)
    ensures IsClean(BlockText(n)) && '\n' !in BlockText(n)
  {
    match n
    case Leaf(v) => CleanTextHasNoNewline(v);
    case Parent(_, _, _, _) => CleanTextHasNoNewline(ToText(n));
  }

  /** A list with no items gives "". */
  lemma EmptyListText()
    ensures ListText([]) == ""
  {
  }

  /**
    The lines of a non-empty list's text are exactly its cleaned items, one per
    item, with no extra line after the last.
   */
  lemma ListTextLines(items: seq<Node>)
    requires |items| >= 1
    ensures SplitLines(ListText(items)) == CleanedItems(items)
    ensures CountNewlines(ListText(items)) == |items| - 1
  {
    var xs := CleanedItems(items);
    forall k | 0 <= k < |xs| ensures '\n' !in xs[k] {
      CleanTextHasNoNewline(ToText(items[k]));
    }
    SplitJoin(xs);
    JoinLinesLineCount(xs);
  }

  lemma AppendNothing(s: string)
    ensures s + "" == s
  {
  }

  lemma ParagraphOfCleanWord(w: string)
    requires IsClean(w)
    ensures BlockText(Parent(Paragraph, 0, false, [Leaf(w)])) == w
  {
    var p := Parent(Paragraph, 0, false, [Leaf(w)]);
    assert ToText(p) == w by {
      assert ToTextAll([Leaf(w)]) == w + ToTextAll([]);
    }
    CleanParagraphText(p, w);
  }

  /** A paragraph whose text is already clean is its own block text. */
  lemma CleanParagraphText(p: Node, w: string)
    requires p.Parent? && p.kind == Paragraph && ToText(p) == w && IsClean(w)
    ensures BlockText(p) == w
  {
    CleanTextOfClean(w);
  }

  /** A paragraph holding only the clean text `w` leaves the shared variable alone and returns `w`. */
  lemma ProcessCleanParagraph(w: string, text: string)
    requires IsClean(w)
    ensures Process(Parent(Paragraph, 0, false, [Leaf(w)]), text) == (text, w)
  {
    ParagraphOfCleanWord(w);
  }

  /** A root holding only the paragraph `y`, run while the shared variable holds `head`. */
  lemma ProcessRootOfOneParagraph(head: string, y: string)
    requires IsClean(y)
    ensures Process(Parent(Root, 0, false, [Parent(Paragraph, 0, false, [Leaf(y)])]), head) == (head + y, head + y)
  {
    var b := Parent(Paragraph, 0, false, [Leaf(y)]);
    ProcessCleanParagraph(y, head);
    AppendNothing(head + y);
    assert Fold([b], head) == Fold([], head + y + "");
  }

  /** The nested root as the last child: it appends the whole shared variable to itself. */
  lemma FoldNestedRoot(head: string, y: string)
    requires IsClean(y)
    ensures Fold([Parent(Root, 0, false, [Parent(Paragraph, 0, false, [Leaf(y)])])], head) == head + y + (head + y)
  {
    var inner := Parent(Root, 0, false, [Parent(Paragraph, 0, false, [Leaf(y)])]);
    ProcessRootOfOneParagraph(head, y);
    AppendNothing(head + y + (head + y));
    assert Fold([inner], head) == Fold([], head + y + (head + y) + "");
  }

  /** A clean paragraph `x` that is not the last child is followed by "\n\n". */
  lemma FoldAfterParagraph(x: string, next: Node)
    requires IsClean(x)
    ensures Fold([Parent(Paragraph, 0, false, [Leaf(x)]), next], "") == Fold([next], x + "\n\n")
  {
    var a := Parent(Paragraph, 0, false, [Leaf(x)]);
    ProcessCleanParagraph(x, "");
    assert [a, next][1..] == [next];
    assert Separator(a, false) == "\n\n";
    assert "" + x == x;
    assert Fold([a, next], "") == Fold([next], "" + x + "\n\n");
  }

  /**
    A root nested directly in a root re-appends everything the shared
    variable held before it: formatting a root whose children are a paragraph
    `x` and a root holding a paragraph `y` gives `x + "\n\n" + y` twice over,
    not the single copy that joining the children gives.
   */
  lemma NestedRootRepeatsText(x: string, y: string)
    requires IsClean(x) && IsClean(y)
    ensures
      var a := Parent(Paragraph, 0, false, [Leaf(x)]);
      var b := Parent(Paragraph, 0, false, [Leaf(y)]);
      var once := x + "\n\n" + y;
      FormattedText(Some(Parent(Root, 0, false, [a, Parent(Root, 0, false, [b])]))) == once + once
  {
    var a := Parent(Paragraph, 0, false, [Leaf(x)]);
    var inner := Parent(Root, 0, false, [Parent(Paragraph, 0, false, [Leaf(y)])]);
    FoldAfterParagraph(x, inner);
    FoldNestedRoot(x + "\n\n", y);
    assert FormattedText(Some(Parent(Root, 0, false, [a, inner]))) == Fold([a, inner], "");
  }

  /** The `list` case of `processNode`: items cleaned and joined with "\n" by a loop. */
  method FormatList(items: seq<Node>) returns (listText: string)
    ensures listText == ListText(items)
  {
    listText := "";
    var i := 0;
    while i < |items|
      invariant 0 <= i <= |items|
      invariant listText + JoinLines(CleanedItems(items[i..])) == ListText(items)
    {
      var itemText := ItemText(items[i]);
      ghost var rest := CleanedItems(items[i + 1..]);
      CleanedItemsStep(items, i);
      ghost var before := listText;
      listText := listText + itemText;
      if i < |items| - 1 {
        listText := listText + "\n";
        JoinLinesCons(itemText, rest);
        Regroup(before, itemText, "\n", JoinLines(rest));
      } else {
        assert rest == [] && JoinLines([itemText]) == itemText;
      }
      i := i + 1;
    }
    assert items[i..] == [];
  }

  /** The cleaned items from item `i` on are item `i`'s text followed by those from item `i + 1` on. */
  lemma CleanedItemsStep(items: seq<Node>, i: nat)
    requires i < |items|
    ensures CleanedItems(items[i..]) == [ItemText(items[i])] + CleanedItems(items[i + 1..])
  {
    MapNodesStep(ItemText, items, i);
  }

  lemma MapNodesStep(f: Node -> string, items: seq<Node>, i: nat)
    requires i < |items|
    ensures MapNodes(f, items[i..]) == [f(items[i])] + MapNodes(f, items[i + 1..])
  {
    assert items[i..][0] == items[i] && items[i..][1..] == items[i + 1..];
  }

  /** Joining a line in front of at least one more line puts a "\n" between them. */
  lemma JoinLinesCons(x: string, rest: seq<string>)
    requires rest != []
    ensures JoinLines([x] + rest) == x + "\n" + JoinLines(rest)
  {
    assert ([x] + rest)[1..] == rest;
  }

  /** One child of the `forEach`: the fold from child `i` on is the fold from child `i + 1` on after it. */
  lemma FoldStep(cs: seq<Node>, i: nat, text: string)
    requires i < |cs|
    ensures
      var p := Process(cs[i], text);
      Fold(cs[i..], text) == Fold(cs[i + 1..], p.0 + p.1 + Separator(cs[i], i == |cs| - 1))
  {
    assert cs[i..][0] == cs[i] && cs[i..][1..] == cs[i + 1..];
  }

  /** The inner `processNode` of `getFormattedText`, with the shared variable passed in and out. */
  method ProcessNode(node: Node, text: string) returns (textAfter: string, r: string)
    ensures (textAfter, r) == Process(node, text)
    decreases node
  {
    if IsKind(node, Root) {
      var cs := node.children;
      textAfter := text;
      var i := 0;
      while i < |cs|
        invariant 0 <= i <= |cs|
        invariant Fold(cs[i..], textAfter) == Fold(cs, text)
      {
        ghost var next := Process(cs[i], textAfter);
        ghost var sep := Separator(cs[i], i == |cs| - 1);
        FoldStep(cs, i, textAfter);
        var t, childText := ProcessNode(cs[i], textAfter);
        textAfter := t + childText;
        if i < |cs| - 1 && IsBlock(cs[i]) {
          textAfter := textAfter + "\n\n";
        } else {
          AppendNothing(textAfter);
        }
        assert textAfter == next.0 + next.1 + sep;
        i := i + 1;
      }
      assert cs[i..] == [];
      r := textAfter;
    } else {
      textAfter := text;
      match node
      case Leaf(v) =>
        r := CleanText(v);
      case Parent(k, _, _, cs) =>
        if k == Paragraph || k == Heading {
          r := CleanText(ToText(node));
        } else if k == List {
          r := FormatList(cs);
        } else {
          r := CleanText(ToText(node));
        }
    }
  }

  /** `getFormattedText(ast)`: "" without failing for an absent tree. */
  method GetFormattedText(ast: Option<Node>) returns (r: string)
    ensures r == FormattedText(ast)
    ensures ast.None? ==> r == ""
  {
    if ast.None? {
      return "";
    }
    var _, value := ProcessNode(ast.value, "");
    r := value;
  }
}
