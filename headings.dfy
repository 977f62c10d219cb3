/**
  The heading index built inside `processMarkdown` (markdown-parser.js): a full
  pre-order descent that pushes one `{depth, text, children}` record for every
  heading node, nested ones included.
 */
module Headings {
  import opened Mdast

  datatype HeadingRecord = HeadingRecord(depth: int, text: string, children: seq<Node>)

  function RecordOf(n: Node): HeadingRecord
    requires n.Parent?
  {
    HeadingRecord(n.depth, ToText(n), n.children)
  }

  /** One record for each heading node of `ns`, in the order of `ns`; no other node contributes. */
  function HeadingRecords(ns: seq<Node>): seq<HeadingRecord> {
    if ns == [] then [] else OwnRecord(ns[0]) + HeadingRecords(ns[1..])
  }

  /** The record `n` contributes by itself: one if it is a heading, none otherwise. */
  function OwnRecord(n: Node): (r: seq<HeadingRecord>)
    ensures |r| <= 1
  {
    if IsKind(n, Heading) then [RecordOf(n)] else []
  }

  /** The number of heading nodes in `ns`. */
  function CountHeadings(ns: seq<Node>): nat {
    if ns == [] then 0 else (if IsKind(ns[0], Heading) then 1 else 0) + CountHeadings(ns[1..])
  }

  lemma {:induction false} HeadingRecordsConcat(a: seq<Node>, b: seq<Node>)
    ensures HeadingRecords(a + b) == HeadingRecords(a) + HeadingRecords(b)
  {
    if a != [] {
      var ab := a + b;
      assert ab[0] == a[0] && ab[1..] == a[1..] + b;
      HeadingRecordsConcat(a[1..], b);
      var h := OwnRecord(a[0]);
      calc {
        HeadingRecords(ab);
        h + HeadingRecords(a[1..] + b);
        h + (HeadingRecords(a[1..]) + HeadingRecords(b));
        (h + HeadingRecords(a[1..])) + HeadingRecords(b);
      }
    } else {
      assert a + b == b;
    }
  }

  /** The records of a parent's subtree: its own record, then those of its children's subtrees. */
  lemma HeadingRecordsOfParent(node: Node)
    requires node.Parent?
    ensures HeadingRecords(PreOrder(node)) == OwnRecord(node) + HeadingRecords(PreOrderAll(node.children))
  {
    assert PreOrder(node) == [node] + PreOrderAll(node.children);
    HeadingRecordsConcat([node], PreOrderAll(node.children));
    assert HeadingRecords([node]) == OwnRecord(node) + HeadingRecords([]);
  }

  /** The records of the subtrees of children `i` on: child `i`'s, then those of the children after it. */
  lemma HeadingRecordsOfChildren(cs: seq<Node>, i: nat)
    requires i < |cs|
    ensures HeadingRecords(PreOrderAll(cs[i..])) == HeadingRecords(PreOrder(cs[i])) + HeadingRecords(PreOrderAll(cs[i + 1..]))
  {
    assert cs[i..][0] == cs[i] && cs[i..][1..] == cs[i + 1..];
    assert PreOrderAll(cs[i..]) == PreOrder(cs[i]) + PreOrderAll(cs[i + 1..]);
    HeadingRecordsConcat(PreOrder(cs[i]), PreOrderAll(cs[i + 1..]));
  }

  /** There are exactly as many records as heading nodes. */
  lemma {:induction false} HeadingRecordsCount(ns: seq<Node>)
    ensures |HeadingRecords(ns)| == CountHeadings(ns)
  {
    if ns != [] {
      HeadingRecordsCount(ns[1..]);
    }
  }

  /** Every heading node of `ns` has its record in the result, and every record is that of a heading node of `ns`. */
  lemma {:induction false} HeadingRecordsMembers(ns: seq<Node>)
    ensures forall j | 0 <= j < |ns| && IsKind(ns[j], Heading) :: RecordOf(ns[j]) in HeadingRecords(ns)
    ensures forall h | h in HeadingRecords(ns) :: exists j | 0 <= j < |ns| :: IsKind(ns[j], Heading) && RecordOf(ns[j]) == h
  {
    if ns != [] {
      var rest, own := ns[1..], OwnRecord(ns[0]);
      HeadingRecordsMembers(rest);
      assert HeadingRecords(ns) == own + HeadingRecords(rest);
      forall h | h in HeadingRecords(ns)
        ensures exists j | 0 <= j < |ns| :: IsKind(ns[j], Heading) && RecordOf(ns[j]) == h
      {
        if h in own {
          assert IsKind(ns[0], Heading) && h == RecordOf(ns[0]);
        } else {
          assert h in HeadingRecords(rest);
          var j :| 0 <= j < |rest| && IsKind(rest[j], Heading) && RecordOf(rest[j]) == h;
          assert ns[j + 1] == rest[j];
        }
      }
      forall j | 0 <= j < |ns| && IsKind(ns[j], Heading)
        ensures RecordOf(ns[j]) in HeadingRecords(ns)
      {
        if j == 0 {
          assert RecordOf(ns[0]) in own;
        } else {
          assert ns[j] == rest[j - 1];
        }
      }
    }
  }

  /**
    The inner `processNode` of `processMarkdown`: push the record of `node`
    when it is a heading, then descend into every child in order. Appends to
    `headings` the records of the heading nodes of the subtree, in pre-order.
   */
  method CollectHeadings(node: Node, headings: seq<HeadingRecord>) returns (out: seq<HeadingRecord>)
    ensures out == headings + HeadingRecords(PreOrder(node))
    decreases node, 1
  {
    out := headings;
    if IsKind(node, Heading) {
      out := out + [HeadingRecord(node.depth, ToText(node), node.children)];
    }
    assert out == headings + OwnRecord(node);
    if node.Parent? {
      HeadingRecordsOfParent(node);
      out := CollectFromChildren(node.children, out);
      assert out == headings + (OwnRecord(node) + HeadingRecords(PreOrderAll(node.children)));
    } else {
      assert PreOrder(node) == [node];
      assert HeadingRecords([node]) == OwnRecord(node) + HeadingRecords([]);
    }
  }

  lemma AppendStep(before: seq<HeadingRecord>, mine: seq<HeadingRecord>, rest: seq<HeadingRecord>, whole: seq<HeadingRecord>)
    requires whole == mine + rest
    ensures (before + mine) + rest == before + whole
  {
  }

  /** `node.children.forEach(processNode)`: the records of the children's subtrees, one child after the other. */
  method CollectFromChildren(cs: seq<Node>, headings: seq<HeadingRecord>) returns (out: seq<HeadingRecord>)
    ensures out == headings + HeadingRecords(PreOrderAll(cs))
    decreases cs, 0
  {
    out := headings;
    var i := 0;
    while i < |cs|
      invariant 0 <= i <= |cs|
      invariant out + HeadingRecords(PreOrderAll(cs[i..])) == headings + HeadingRecords(PreOrderAll(cs))
    {
      ghost var mine, rest := HeadingRecords(PreOrder(cs[i])), HeadingRecords(PreOrderAll(cs[i + 1..]));
      HeadingRecordsOfChildren(cs, i);
      ghost var before := out;
      out := CollectHeadings(cs[i], out);
      AppendStep(before, mine, rest, HeadingRecords(PreOrderAll(cs[i..])));
      i := i + 1;
    }
    assert cs[i..] == [];
  }
}
