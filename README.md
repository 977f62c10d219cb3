# mapscript markdown core in Dafny

This project models the markdown-to-structure logic of mapscript, a document add-on that turns markdown into styled text and a step-by-step roadmap. It covers two files:

- src/ui/markdown-parser.js. The model starts from a markdown tree that has already been parsed (mdast) and covers four operations:
  - `cleanText`, the whitespace normaliser;
  - `getFormattedText`, which produces plain text with paragraph breaks;
  - the heading index that `processMarkdown` collects;
  - `extractRoadmapFromAst`, the scan that finds a title and the steps of a "Steps" section.
- src/sandbox/code.js. Three pure parts:
  - the heading font-size table;
  - the bullet text of a roadmap step;
  - the choice of a styling action for each style range.

Modules, one per file:

- `Wrappers` (wrappers.dfy): `Option`.
- `Text` (text.dfy):
  - the exact set of characters that JavaScript's `\s` and `trim()` treat as whitespace;
  - `trim`;
  - the `replace(/\s+/g, " ")` collapse;
  - `CleanText`;
  - ASCII lower-casing.
- `Lines` (lines.dfy): `join("\n")` and its inverse `split("\n")`. The inverse is used to state what a joined text contains.
- `Mdast` (mdast.dfy):
  - the tree;
  - `toString` from mdast-util-to-string, as the concatenation of the leaf texts;
  - the pre-order listing of a tree.
- `Headings` (headings.dfy): the recursive heading collector, proved against `HeadingRecords(PreOrder(node))`.
- `Formatter` (formatter.dfy): `getFormattedText`.
  - In the source, the recursive `processNode` shares one closure variable `text`. A root level appends each child's value and a separator to it and returns the whole variable; every other level returns its value and leaves `text` alone. The function `Process` keeps that sharing: it takes the shared text and returns it next to the call's value.
  - For a root none of whose children is a root, `FormattedRoot` proves the result is the children's texts with `"\n\n"` after each non-last paragraph, heading or list.
  - `NestedRootRepeatsText` shows what the sharing does to a root nested in a root: the text gathered so far is appended a second time.
- `MarkdownProcessor` (markdown.dfy): the part of `processMarkdown` that runs after parsing.
- `RoadmapExtractor` (roadmap.dfy): `extractRoadmapFromAst`.
  - The method is the source's loop, with the cursor bump that skips a list, `continue` and `break`.
  - It is proved equal to `RoadmapOf`, a description with no cursor and no flag:
    - the section opens at the first depth-2 heading that reads "steps" once lower-cased and trimmed;
    - it ends at the first later depth-2 heading that does not read "steps";
    - the steps are the depth-3 headings strictly between the two;
    - the title is the first depth-1 heading with non-empty text before the end.
  - The proof goes through `Scan`, a step function with the loop's state: the cursor, the flag and the roadmap so far. It is written for any opening test `opens`, and the source uses `IsStepsHeading`.
- `RoadmapExamples` (roadmap_examples.dfy): small documents, given by the shapes of their top-level blocks, run through `RoadmapOf`.
- `Sandbox` (sandbox.dfy):
  - `getFontSizeForHeadingLevel`, with the `HEADING_SIZES` table of src/sandbox/constants.js;
  - the bullet text of the roadmap renderer;
  - the style dispatch. The `for (const range of styleRanges)` loop is modelled as a loop that collects, in order, the action each range would hand to the editor.

## Model

| member | source | states |
|---|---|---|
| Text.IsWhitespace | src/ui/markdown-parser.js:24 | definition: the characters JavaScript's `\s` and `trim()` treat as whitespace, the ECMAScript white space and line terminators; `TrimStartDrops`, `CollapseSpacing` and `CleanTextWords` are stated over it |
| Text.TrimStart | src/ui/markdown-parser.js:24 | the `^\s*` half of `trim()`: the result is no longer than the input and starts with non-whitespace or is empty |
| Text.TrimStartIsSuffix | src/ui/markdown-parser.js:24 | the leading-whitespace removal keeps a suffix of its input |
| Text.TrimStartDrops | src/ui/markdown-parser.js:24 | everything the leading-whitespace removal drops is whitespace, so the non-whitespace characters are kept in order |
| Text.TrimEnd | src/ui/markdown-parser.js:24 | the `\s*$` half of `trim()`: no longer than the input, ending in non-whitespace or empty |
| Text.TrimEndIsPrefix | src/ui/markdown-parser.js:24 | the trailing-whitespace removal keeps a prefix of its input |
| Text.TrimEndDrops | src/ui/markdown-parser.js:24 | everything the trailing-whitespace removal drops is whitespace, so the non-whitespace characters are kept in order |
| Text.Trim | src/ui/markdown-parser.js:24 | `trim()` leaves neither leading nor trailing whitespace |
| Text.TrimKeepsNonWhitespace | src/ui/markdown-parser.js:24 | `trim()` keeps every non-whitespace character, in order |
| Text.TrimIsSlice | src/ui/markdown-parser.js:24 | `trim()` returns a contiguous slice of its input |
| Text.TrimOfUnpadded | src/ui/markdown-parser.js:24 | `trim()` leaves a string without leading or trailing whitespace unchanged |
| Text.Collapse | src/ui/markdown-parser.js:22-24 | `replace(/\s+/g, " ")`: empty only for the empty input, and starts with whitespace exactly when the input does; `CollapseSplit` and `CollapseSpacing` state what it does to each run |
| Text.CollapseSpacing | src/ui/markdown-parser.js:22-24 | the collapse leaves ' ' as the only whitespace and no two adjacent whitespace characters, and keeps the non-whitespace characters in order |
| Text.CollapseAppend | src/ui/markdown-parser.js:22-24 | no whitespace run crosses the end of a part that ends in non-whitespace, so the collapse of the whole is the collapses of the two parts, one after the other |
| Text.CollapseSplit | src/ui/markdown-parser.js:22-24 | a non-empty whitespace run between a part not ending and a part not starting in whitespace becomes exactly one space, and each part is collapsed on its own |
| Text.CollapseRun | src/ui/markdown-parser.js:22-24 | a whitespace run in front of a part that does not start with whitespace collapses to one space |
| Text.CleanText | src/ui/markdown-parser.js:22-24 | `cleanText` output has no leading or trailing whitespace, no two adjacent whitespace characters, only ' ' as whitespace, and the input's non-whitespace characters in their original order; `CleanTextWords` pins it down word by word |
| Text.WordLength | src/ui/markdown-parser.js:22-24 | the length of the leading run of non-whitespace characters: everything before it is non-whitespace and the character at it, if any, is whitespace |
| Text.Words | src/ui/markdown-parser.js:22-24 | definition: the words of a text, its maximal non-whitespace runs in order, an independent description of what `cleanText` keeps; `WordsAreWords` and `CleanTextWords` state its properties |
| Text.WordsAreWords | src/ui/markdown-parser.js:22-24 | every word is non-empty and holds no whitespace |
| Text.Unwords | src/ui/markdown-parser.js:22-24 | definition: the words joined with single spaces; used by `CleanTextWords` |
| Text.CleanTextWords | src/ui/markdown-parser.js:22-24 | `cleanText(s)` is the words of `s`, in order, separated by exactly one space each: whitespace between words becomes one space and is never dropped, and none is left before the first word or after the last |
| Text.WordThenRest | src/ui/markdown-parser.js:22-24 | a word followed by whitespace and more text cleans to the word, one space and the rest's cleaning, or to the word alone when the rest cleans to "" |
| Text.CleanTextTrimStart | src/ui/markdown-parser.js:22-24 | leading whitespace does not change what `cleanText` returns |
| Text.CleanTextDropLeading | src/ui/markdown-parser.js:22-24 | one leading whitespace character does not change what `cleanText` returns |
| Text.RunBetweenWords | src/ui/markdown-parser.js:22-24 | any non-empty whitespace run between two words, a tab or a line break included, becomes exactly one space: `cleanText("a\tb")` is `"a b"` |
| Text.CleanRunThenWord | src/ui/markdown-parser.js:22-24 | whitespace in front of a single word is cleaned away, leaving the word |
| Text.TrimStartAppend | src/ui/markdown-parser.js:24 | `trim()`'s leading-whitespace removal stops inside a prefix that has a non-whitespace character |
| Text.TrimStartWhitespacePrefix | src/ui/markdown-parser.js:24 | it removes an all-whitespace prefix in full and stops at a non-whitespace character |
| Text.TrimEndAppend | src/ui/markdown-parser.js:24 | `trim()`'s trailing-whitespace removal stops inside a suffix that has a non-whitespace character |
| Text.CleanTextOfClean | src/ui/markdown-parser.js:24 | a string that is already clean is its own `cleanText` |
| Text.CleanTextIdempotent | src/ui/markdown-parser.js:24 | `cleanText(cleanText(s)) == cleanText(s)` |
| Text.CleanTextEmpty | src/ui/markdown-parser.js:24 | `cleanText` gives "" exactly when its input is all whitespace |
| Text.CleanTextHasNoNewline | src/ui/markdown-parser.js:24 | a cleaned text holds no "\n" |
| Text.CollapseOfClean | src/ui/markdown-parser.js:24 | the collapse changes nothing in a string whose whitespace is single spaces |
| Text.LowerChar | src/ui/markdown-parser.js:125 | definition: `toLowerCase` on one character, 'A'..'Z' to 'a'..'z' and every other character kept; its properties are `LowerCharFolds` |
| Text.LowerCharFolds | src/ui/markdown-parser.js:125 | folding leaves no ASCII capital, changes nothing a second time, and sends a capital and its small letter to the same character |
| Text.LowerIdempotent | src/ui/markdown-parser.js:125 | a lower-cased text holds no ASCII capital, and lower-casing it again changes nothing |
| Text.Lower | src/ui/markdown-parser.js:125 | `toLowerCase` keeps the length of its input |
| Text.LowerAt | src/ui/markdown-parser.js:125 | `toLowerCase` folds each character in place, on its own |
| Lines.SplitJoin | src/ui/markdown-parser.js:58 | splitting a text joined with "\n" on "\n" gives back the pieces, when none of them holds a line break |
| Lines.JoinLinesLineCount | src/ui/markdown-parser.js:58 | joining n single-line pieces with "\n" puts exactly n - 1 line breaks in the text |
| Lines.JoinLines | src/ui/markdown-parser.js:56-58 | definition: `join("\n")`, the pieces with one "\n" between neighbours and none at the end, as the list loop builds it and as src/sandbox/code.js:262 joins the bullet lines; `SplitJoin` and `JoinLinesLineCount` state its properties |
| Mdast.ToText | src/ui/markdown-parser.js:93 | definition: `toString`, the concatenation of the leaf texts in document order; `BlockText` and `IsStepsHeading` build on it |
| Mdast.ToTexts | src/ui/markdown-parser.js:142-144 | definition: one `toString` per node, in order; `CollectBullets` proves the source's loop computes it |
| Mdast.PreOrder | src/ui/markdown-parser.js:97 | the pre-order listing of a subtree, the node first and then each child's listing in order, as `node.children.forEach(processNode)` visits them; `PreOrderContainsDescendants` states what it holds |
| Mdast.PreOrderContainsDescendants | src/ui/markdown-parser.js:97 | every node below any child of a node, at any depth, is in that node's pre-order listing |
| Headings.RecordOf | src/ui/markdown-parser.js:92-95 | definition: the `{depth, text: toString(node), children}` record pushed for a heading; `HeadingRecordsMembers` states which nodes get one |
| Headings.HeadingRecords | src/ui/markdown-parser.js:91-96 | definition: the records of the headings among a sequence of nodes, in order; `HeadingRecordsCount`, `HeadingRecordsMembers` and `CollectHeadings` state its properties |
| Headings.HeadingRecordsConcat | src/ui/markdown-parser.js:97 | the records of two node sequences one after the other are the records of each, in that order |
| Headings.HeadingRecordsOfParent | src/ui/markdown-parser.js:91-97 | the records of a parent's subtree are its own record, if it is a heading, followed by those of its children's subtrees |
| Headings.HeadingRecordsOfChildren | src/ui/markdown-parser.js:97 | the records of the subtrees of children `i` onwards are child `i`'s, then those of the later children |
| Headings.HeadingRecordsCount | src/ui/markdown-parser.js:91-96 | exactly one record per heading node: no dedup and no depth filter |
| Headings.HeadingRecordsMembers | src/ui/markdown-parser.js:91-96 | every heading node has its `{depth, text, children}` record in the index, and every record belongs to some heading node |
| Headings.CollectHeadings | src/ui/markdown-parser.js:90-98 | the recursive `processNode` appends to `headings` the records of every heading of the subtree, nested ones included, in pre-order document order |
| Headings.CollectFromChildren | src/ui/markdown-parser.js:97 | `node.children.forEach(processNode)` appends the records of each child's subtree, one child after the other |
| MarkdownProcessor.ProcessMarkdown | src/ui/markdown-parser.js:85-105 | returns the tree, the heading index of the whole tree, and `getFormattedText` of the tree as both `plainText` and `formattedText` |
| MarkdownProcessor.HeadingIndexComplete | src/ui/markdown-parser.js:89-99 | a heading anywhere below a child of the root is in the index, and the index has as many records as the tree has headings |
| Formatter.IsBlock | src/ui/markdown-parser.js:41 | definition: `["paragraph", "heading", "list"].includes(child.type)`; `FormattedRoot` states where it puts breaks |
| Formatter.Separator | src/ui/markdown-parser.js:39-42 | definition: "\n\n" after a paragraph, heading or list that is not the last child, "" otherwise; `FoldStep` and `FormattedRoot` state its use |
| Formatter.ItemText | src/ui/markdown-parser.js:55 | definition: `cleanText(toString(item))`; `CleanedItems` and `ListTextLines` state its use |
| Formatter.BlockText | src/ui/markdown-parser.js:48-64 | definition: the `switch` on the node type, `cleanText(toString(node))` for a paragraph, a heading or any other type and the list text for a list; `BlockTextIsClean` and `FormattedBlock` state its properties |
| Formatter.ListText | src/ui/markdown-parser.js:51-60 | definition: the cleaned items joined with "\n"; `FormatList` proves the loop computes it, `ListTextLines` and `EmptyListText` state its properties |
| Formatter.Process | src/ui/markdown-parser.js:31-45 | definition: `processNode` as a function of the node and the shared `text`, returning the new shared text and the call's value; `ProcessNode` proves the closure computes it, `FormattedBlock` and `FormattedRoot` state its properties |
| Formatter.Fold | src/ui/markdown-parser.js:35-43 | definition: the root's `forEach` over its children, threading the shared text; `FoldStep` and `FoldWithoutNestedRoot` state its properties |
| Formatter.Joined | src/ui/markdown-parser.js:35-43 | definition: the children's block texts, each followed by its separator, for children none of which is a root; `FoldWithoutNestedRoot` proves the `forEach` appends it |
| Formatter.FormattedText | src/ui/markdown-parser.js:27-67 | definition: "" for an absent tree (the `!node` test at line 32), otherwise the value of `processNode` of the tree with `text` starting at ""; `GetFormattedText` proves the closure computes it and `FormattedRoot` states its shape |
| Formatter.CleanedItems | src/ui/markdown-parser.js:53-59 | one text per list item, each `cleanText(toString(item))`, in item order |
| Formatter.FormatList | src/ui/markdown-parser.js:51-60 | the list loop builds the list text: items cleaned and joined with "\n" |
| Formatter.ListTextLines | src/ui/markdown-parser.js:51-60 | a non-empty list's text splits on "\n" into exactly its cleaned items, with n - 1 line breaks for n items and none trailing |
| Formatter.EmptyListText | src/ui/markdown-parser.js:51-60 | a list without items gives "" |
| Formatter.BlockTextIsClean | src/ui/markdown-parser.js:48-64 | a paragraph, a heading and any other node that is not a list or root give one clean line of text |
| Formatter.FormattedBlock | src/ui/markdown-parser.js:47-64 | a non-root node leaves the shared text alone and is formatted on its own |
| Formatter.FoldStep | src/ui/markdown-parser.js:35-43 | one pass of the root's `forEach`: the child's text, then its separator, appended to the shared text |
| Formatter.FoldWithoutNestedRoot | src/ui/markdown-parser.js:35-43 | when no child is a root, the `forEach` appends to the shared text each child's text, then its separator |
| Formatter.FormattedRoot | src/ui/markdown-parser.js:33-44 | for a root with no root children, the output is each child's text in order, with "\n\n" after exactly the paragraphs, headings and lists that are not the last child |
| Formatter.NestedRootRepeatsText | src/ui/markdown-parser.js:33-44 | a root nested in a root appends the whole shared text again: paragraph `x` and a root holding paragraph `y` format as `x + "\n\n" + y` twice |
| Formatter.ProcessNode | src/ui/markdown-parser.js:31-65 | the inner `processNode`, with the shared variable `text` passed in and returned, computes `Process` |
| Formatter.GetFormattedText | src/ui/markdown-parser.js:27-67 | `getFormattedText` computes `FormattedText`, and gives "" for an absent tree |
| RoadmapExtractor.IsStepsHeading | src/ui/markdown-parser.js:124-126 | definition: a depth-2 heading whose text, lower-cased then trimmed, is "steps"; `StepsText` and `OtherText` evaluate it |
| RoadmapExtractor.Scan | src/ui/markdown-parser.js:115-150 | definition: the loop as a step function of the cursor, the flag and the roadmap so far; `ScanComputesRoadmap` proves it ends with `RoadmapBy` |
| RoadmapExtractor.RoadmapOf | src/ui/markdown-parser.js:107-153 | definition: the roadmap described without cursor or flag, the specification `ExtractRoadmapFromAst` is proved against; `StepsInOrder`, `FirstTitleWins`, `NoSectionNoSteps` and `AfterCloseIgnored` state its properties |
| RoadmapExtractor.WithTitle | src/ui/markdown-parser.js:119-121 | definition: the title guard, setting the title to a depth-1 heading's text while it is ""; `TitleInvariantStep` proves it keeps the title equal to `TitleBefore` and leaves the steps alone |
| RoadmapExtractor.Closing | src/ui/markdown-parser.js:124-131 | definition: a depth-2 heading that does not open the section, the heading that ends it with `break`; `CloseStep` and `SectionEnd` state its use |
| RoadmapExtractor.BulletsAfter | src/ui/markdown-parser.js:139-146 | definition: `toString` of each item of the list right after a block, or none; `StepAdded` states its use, and `CollectBullets` proves the `forEach` computes `ToTexts` of the items |
| RoadmapExtractor.StepAt | src/ui/markdown-parser.js:135-148 | definition: the step pushed for a depth-3 heading, its text and the bullets after it; `StepAdded` and `StepsInOrder` state its use |
| RoadmapExtractor.SectionStart | src/ui/markdown-parser.js:124-128 | definition: the first block that opens the section, or the end; `SectionEnd` and `RoadmapBetweenBy` state its properties |
| RoadmapExtractor.StepsIn | src/ui/markdown-parser.js:135-148 | definition: the steps of the depth-3 headings in a range of blocks, in order; `StepsInOrder` and `StepsInPrefix` state its properties |
| RoadmapExtractor.TitleBefore | src/ui/markdown-parser.js:119-121 | definition: the text of the first depth-1 heading with non-empty text before a bound, or ""; `TitleStep`, `FirstTitleWins`, `NoTitleHeading` and `EmptyTitleOverwritten` state its properties |
| RoadmapExtractor.RoadmapBy | src/ui/markdown-parser.js:107-153 | definition: `RoadmapOf` for any opening test, the title before the stop and the steps between section start and stop; `ScanComputesRoadmap` proves the loop ends with it, `RoadmapBetweenBy` and `AfterCloseIgnoredBy` state its properties |
| RoadmapExtractor.FirstIn | src/ui/markdown-parser.js:115-131 | the first index in a range whose block passes a test, or the range's end: the found block passes it and no earlier block in the range does |
| RoadmapExtractor.FirstInUnique | src/ui/markdown-parser.js:115-131 | an index where the test holds with no earlier match is the first match |
| RoadmapExtractor.SectionEnd | src/ui/markdown-parser.js:124-131 | once the section has opened, the scan stops strictly after the opening heading, and never past the blocks |
| RoadmapExtractor.TitleStep | src/ui/markdown-parser.js:119-121 | one block changes the title only when it is a depth-1 heading met while the title is still "" (`!roadmap.title`) |
| RoadmapExtractor.TitleInvariantStep | src/ui/markdown-parser.js:119-121 | the title guard moves the title from the first `i` blocks to the first `i + 1` and leaves the steps alone |
| RoadmapExtractor.OpenStep | src/ui/markdown-parser.js:124-128 | a "steps" heading, whether the first or a repeat inside the section, sets the flag and moves on (`continue`) |
| RoadmapExtractor.CloseStep | src/ui/markdown-parser.js:129-131 | a depth-2 heading of other text inside the section ends the scan (`break`) with the complete roadmap |
| RoadmapExtractor.StepStep | src/ui/markdown-parser.js:135-148 | a depth-3 heading inside the section adds its step, and a list right after it is consumed with the `i++` skip |
| RoadmapExtractor.StepAdded | src/ui/markdown-parser.js:135-148 | the depth-3 heading's own step, with its text and the bullets of the block after it, is appended to the steps so far |
| RoadmapExtractor.ListSkipped | src/ui/markdown-parser.js:140-146 | the list consumed by the skip is not a closing heading and adds no step, so title and steps stay as they were |
| RoadmapExtractor.OtherStep | src/ui/markdown-parser.js:115-150 | any other block leaves the flag and the steps unchanged |
| RoadmapExtractor.Advance | src/ui/markdown-parser.js:115-150 | one pass of the loop at a block that does not end it moves to a later index whose state again satisfies the invariant, and the rest of the scan is unchanged by the move |
| RoadmapExtractor.ScanComputesRoadmap | src/ui/markdown-parser.js:115-150 | from every state the loop can reach, the scan ends with `RoadmapBy` |
| RoadmapExtractor.CollectBullets | src/ui/markdown-parser.js:141-144 | the `forEach` over the list's items pushes one `toString` per item, in order, giving `ToTexts` of the items |
| RoadmapExtractor.ExtractRoadmapFromAst | src/ui/markdown-parser.js:107-153 | the source's loop, with its skip, `continue` and `break`, returns exactly `RoadmapOf` of the top-level blocks |
| RoadmapExtractor.H3Indices | src/ui/markdown-parser.js:135 | the indices of the depth-3 headings of a range: in the range, in increasing order, and none is missing |
| RoadmapExtractor.StepsInOrder | src/ui/markdown-parser.js:135-148 | the steps are those of the depth-3 headings of the section, one each, in document order, each with its title and the bullets of the list right after it |
| RoadmapExtractor.NoSectionNoSteps | src/ui/markdown-parser.js:124-135 | a document without a "steps" heading has no steps, and its title is still found |
| RoadmapExtractor.FirstTitleWins | src/ui/markdown-parser.js:119-121 | the title is the text of the first depth-1 heading with non-empty text before the scan stops |
| RoadmapExtractor.NoTitleHeading | src/ui/markdown-parser.js:108-121 | with no such heading before the scan stops, the title stays "" |
| RoadmapExtractor.EmptyTitleOverwritten | src/ui/markdown-parser.js:119 | an h1 with empty text is overwritten by the next h1, because the guard tests the title for "" |
| RoadmapExtractor.RoadmapBetween | src/ui/markdown-parser.js:124-148 | given that `start` is the first steps heading and `stop` the first closing heading after it (or the end), the section's bounds are these and the roadmap holds the steps of the depth-3 headings between them |
| RoadmapExtractor.RoadmapBetweenBy | src/ui/markdown-parser.js:124-148 | the same as `RoadmapBetween`, for any opening test |
| RoadmapExtractor.FirstInPrefix | src/ui/markdown-parser.js:115-131 | a first match inside the first blocks does not depend on the blocks after them |
| RoadmapExtractor.FirstInWiden | src/ui/markdown-parser.js:115-131 | a first match found in a range stays the first when the range is widened |
| RoadmapExtractor.StepsInPrefix | src/ui/markdown-parser.js:135-148 | the steps before a block do not depend on the blocks after it |
| RoadmapExtractor.AfterCloseIgnored | src/ui/markdown-parser.js:129-131 | after the closing heading nothing is read: blocks appended after it, including h1s, change neither the title nor the steps |
| RoadmapExtractor.AfterCloseIgnoredBy | src/ui/markdown-parser.js:129-131 | the same as `AfterCloseIgnored`, for any opening test |
| RoadmapExamples.StepsText | src/ui/markdown-parser.js:125-126 | "Steps" lower-cased and trimmed is "steps" |
| RoadmapExamples.OtherText | src/ui/markdown-parser.js:125-126 | "Other" lower-cased and trimmed is not "steps" |
| RoadmapExamples.SectionBoundaryBlocks | src/ui/markdown-parser.js:124-148 | steps heading, depth-3 heading, list, other depth-2 heading: the scan stops at the fourth block with one step |
| RoadmapExamples.OneStepThenBlock | src/ui/markdown-parser.js:135-148 | a depth-3 heading followed by a list or a paragraph gives one step, and neither block is a depth-2 heading |
| RoadmapExamples.NoTitleAmongThree | src/ui/markdown-parser.js:119-121 | three blocks that are not depth-1 headings leave the title "" |
| RoadmapExamples.SectionBoundaryExample | src/ui/markdown-parser.js:124-148 | that document, followed by anything, gives the title "" and one step titled by the depth-3 heading, with the list items as bullets |
| RoadmapExamples.StepWithoutListExample | src/ui/markdown-parser.js:140-148 | a depth-3 heading followed by a paragraph gives a step with no bullets |
| Sandbox.HeadingSizes | src/sandbox/constants.js:10 | definition: the `HEADING_SIZES` entries for levels 1 to 6; `FontSizeForHeadingLevel`, `FontSizeTable` and `FontSizeNonIncreasing` state them |
| Sandbox.DefaultHeadingSize | src/sandbox/constants.js:10 | definition: `HEADING_SIZES.DEFAULT`, 16; `FontSizeForHeadingLevel` and `FontSizeTable` state its use |
| Sandbox.FontSizeForHeadingLevel | src/sandbox/code.js:9-14 | the table's size for a listed level and the default 16 for any other level; always between 16 and 24 |
| Sandbox.FontSizeTable | src/sandbox/constants.js:10 | levels 1 to 6 give 24, 22, 20, 18, 16, 16, and every other level gives 16 |
| Sandbox.FontSizeNonIncreasing | src/sandbox/constants.js:10 | a deeper heading level is never set larger |
| Sandbox.BulletMarker | src/sandbox/code.js:262 | definition: the marker as the source writes it, the three characters of a mis-decoded "•"; `BulletTextEmpty` states its place |
| Sandbox.BulletLine | src/sandbox/code.js:262 | definition: the marker, a space and the bullet; `BulletLines` states its use |
| Sandbox.BulletLines | src/sandbox/code.js:262 | one line per bullet, in order, each the marker, a space and the bullet |
| Sandbox.BulletText | src/sandbox/code.js:262 | definition: the bullet lines joined with "\n"; `BulletTextEmpty` and `BulletTextLines` state its properties |
| Sandbox.BulletTextEmpty | src/sandbox/code.js:262 | no bullets give "", and bullets give a text that starts with the marker |
| Sandbox.BulletTextLines | src/sandbox/code.js:262 | n bullets without line breaks of their own give exactly their n lines, with n - 1 line breaks and none trailing |
| Sandbox.IsKnownKind | src/sandbox/code.js:110-167 | definition: the five style types the `if`/`else if` chain tests; `ActionFor` and `ActionsForMembers` state its use |
| Sandbox.ActionFor | src/sandbox/code.js:110-167 | a style range gets an action exactly when its type is list, heading, emphasis, strong or code, and that action covers offset `start` with length `end - start` |
| Sandbox.ActionForKinds | src/sandbox/code.js:110-167 | a list keeps its `ordered` flag; a heading gets the heading font at the table size for its level, between 16 and 24; emphasis, strong and code get their own fonts and no size |
| Sandbox.ActionsFor | src/sandbox/code.js:105-169 | there are never more actions than ranges |
| Sandbox.ActionsForConcat | src/sandbox/code.js:105-169 | the actions of two batches of ranges are those of each batch, in order |
| Sandbox.ActionsForMembers | src/sandbox/code.js:105-169 | every action comes from some range, and no range of a known type is dropped |
| Sandbox.ApplyStyleRanges | src/sandbox/code.js:105-169 | the loop over the style ranges collects exactly `ActionsFor` of the ranges, in order |

## Left out

- `parseMarkdown` and `astToMarkdown` are wrappers over unified, remark-parse and remark-stringify. The model takes the parsed tree as given.
- `extractTextFromAst` is `toString` of the tree, which is `ToText` here. It has no logic of its own.
- `toString` of mdast-util-to-string is a library call. It is modelled as the concatenation of the leaf texts, in document order.
- Text.Lower, Text.LowerChar: fold only ASCII letters, while JavaScript's `toLowerCase` covers all of Unicode. The only other characters whose lower case is an ASCII letter are the Kelvin sign (to "k") and "İ" (to "i" and a combining mark). So the comparison of a heading with "steps" gives the same answer either way.
- RoadmapExtractor.ExtractRoadmapFromAst: requires a node with children. The source reads `ast.children.length` and throws on a node without children.
- Sandbox.ActionFor: identifies a font by its PostScript name. In the source the loop uses the font object taken from the font cache, which is undefined when loading failed; font loading is not modelled.
- The `applyListStyle` details (list type, numbering, prefixes, indent, paragraph spacing) are left out. So are font loading, `queueAsyncEdit` and the other editor calls. The model stops at the action handed to the editor.
- `createTextNode`, and everything in `renderRoadmapFromParsedMarkdown` except the bullet text, are left out. Both are node creation, positioning and appending through the editor, with floating-point layout.
- The `DEBUG_STYLES` logging is left out.
- src/ui/ai-prompt-handler.js (UI event wiring) is not part of this model, and neither is src/ui/components/App.js (UI components).
- The producer of the style ranges is not part of this model: its source file is not included.
- A nested root does not occur in a tree built by a markdown parser. `NestedRootRepeatsText` records what the source does with one, and the general root lemma assumes there is none. `getFormattedText` itself is modelled for every tree.
