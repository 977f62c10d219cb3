/**
  `processMarkdown` of markdown-parser.js after parsing: the heading index and
  the formatted text of one tree, returned next to the tree itself.
 */
module MarkdownProcessor {
  import opened Wrappers
  import opened Mdast
  import opened Headings
  import opened Formatter

  /** The object `processMarkdown` returns; `plainText` and `formattedText` are the same string. */
  datatype Processed = Processed(ast: Node, headings: seq<HeadingRecord>, plainText: string, formattedText: string)

  method ProcessMarkdown(ast: Node) returns (result: Processed)
    ensures result.ast == ast
    ensures result.headings == HeadingRecords(PreOrder(ast))
    ensures result.plainText == result.formattedText == FormattedText(Some(ast))
  {
    var headings := CollectHeadings(ast, []);
    assert [] + HeadingRecords(PreOrder(ast)) == HeadingRecords(PreOrder(ast));
    var formattedText := GetFormattedText(Some(ast));
    result := Processed(ast, headings, formattedText, formattedText);
  }

  /**
    The index has one record per heading node of the tree, nested ones
    included, and nothing else: a heading below any child of the root is found.
   */
  lemma HeadingIndexComplete(ast: Node, k: nat, m: Node)
    requires ast.Parent? && k < |ast.children| && m in PreOrder(ast.children[k]) && IsKind(m, Heading)
    ensures RecordOf(m) in HeadingRecords(PreOrder(ast))
    ensures |HeadingRecords(PreOrder(ast))| == CountHeadings(PreOrder(ast))
  {
    PreOrderContainsDescendants(ast, k);
    var ns := PreOrder(ast);
    HeadingRecordsMembers(ns);
    var j :| 0 <= j < |ns| && ns[j] == m;
    HeadingRecordsCount(ns);
  }
}
