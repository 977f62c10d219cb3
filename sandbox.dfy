/**
  The pure parts of the document sandbox (code.js with the tables of
  constants.js): the font size for a heading level, the text of a roadmap
  step's bullets, and the styling action chosen for each style range. The
  editor calls themselves are not modelled; a styling action is the data the
  sandbox would hand to them.
 */
module Sandbox {
  import opened Wrappers
  import opened Lines

  /** The PostScript names of `MD_CONSTANTS.FONTS`; a loaded font is identified by its name. */
  const HeadingFont: string := "SourceSans3-Bold"
  const EmphasisFont: string := "SourceSans3-It"
  const StrongFont: string := "SourceSans3-Bold"
  const CodeFont: string := "AnonymousPro"

  /** `MD_CONSTANTS.HEADING_SIZES` without its `DEFAULT` entry, which is `DefaultHeadingSize`. */
  const HeadingSizes: map<int, int> := map[1 := 24, 2 := 22, 3 := 20, 4 := 18, 5 := 16, 6 := 16]
  const DefaultHeadingSize: int := 16

  /**
    `getFontSizeForHeadingLevel`: `HEADING_SIZES[level] || HEADING_SIZES.DEFAULT`,
    where a missing entry and a falsy size both fall back to the default.
   */
  function FontSizeForHeadingLevel(level: int): (size: int)
    ensures level in HeadingSizes ==> size == HeadingSizes[level]
    ensures level !in HeadingSizes ==> size == DefaultHeadingSize
    ensures DefaultHeadingSize <= size <= 24
  {
    if level in HeadingSizes && HeadingSizes[level] != 0 then HeadingSizes[level] else DefaultHeadingSize
  }

  /** Levels 1 to 6 get 24, 22, 20, 18, 16, 16 and every other level gets 16. */
  lemma FontSizeTable(level: int)
    ensures FontSizeForHeadingLevel(level)
         == if level == 1 then 24 else if level == 2 then 22 else if level == 3 then 20
            else if level == 4 then 18 else 16
  {
  }

  /** A deeper heading is never set larger. */
  lemma FontSizeNonIncreasing(a: int, b: int)
    requires 1 <= a <= b <= 6
    ensures FontSizeForHeadingLevel(a) >= FontSizeForHeadingLevel(b)
  {
  }

  /** The bullet marker of the roadmap renderer, three characters of mis-decoded text taken as they stand. */
  const BulletMarker: string := "\U{00E2}\U{20AC}\U{00A2}"

  /** One bullet's line: the marker, a space, then the bullet. */
  function BulletLine(b: string): string {
    BulletMarker + " " + b
  }

  /** `bullets.map(b => marker + " " + b)`. */
  function BulletLines(bullets: seq<string>): (r: seq<string>)
    ensures |r| == |bullets|
    ensures forall k | 0 <= k < |bullets| :: r[k] == BulletLine(bullets[k])
  {
    if bullets == [] then [] else [BulletLine(bullets[0])] + BulletLines(bullets[1..])
  }

  /** The text of a step's bullets: its lines joined by "\n". */
  function BulletText(bullets: seq<string>): string {
    JoinLines(BulletLines(bullets))
  }

  /** No bullets give "", and any bullet gives a non-empty text that starts with the marker. */
  lemma BulletTextEmpty(bullets: seq<string>)
    ensures BulletText(bullets) == "" <==> bullets == []
    ensures bullets != [] ==> BulletText(bullets)[..|BulletMarker|] == BulletMarker
  {
    if bullets != [] {
      var lines := BulletLines(bullets);
      if |lines| == 1 {
        assert BulletText(bullets) == lines[0];
      } else {
        assert BulletText(bullets) == lines[0] + "\n" + JoinLines(lines[1..]);
      }
      assert lines[0] == BulletMarker + " " + bullets[0];
    }
  }

  lemma BulletLineHasNoNewline(b: string)
    requires '\n' !in b
    ensures '\n' !in BulletLine(b)
  {
    var prefix := BulletMarker + " ";
    assert '\n' !in prefix;
    assert BulletLine(b) == prefix + b;
  }

  /**
    Bullets without a "\n" of their own give exactly one line each, in order,
    with no line after the last.
   */
  lemma BulletTextLines(bullets: seq<string>)
    requires |bullets| >= 1
    requires forall k | 0 <= k < |bullets| :: '\n' !in bullets[k]
    ensures SplitLines(BulletText(bullets)) == BulletLines(bullets)
    ensures CountNewlines(BulletText(bullets)) == |bullets| - 1
  {
    var lines := BulletLines(bullets);
    forall k | 0 <= k < |lines| ensures '\n' !in lines[k] {
      BulletLineHasNoNewline(bullets[k]);
    }
    SplitJoin(lines);
    JoinLinesLineCount(lines);
  }

  /** `range.style`: its `type`, with the `level` of a heading and the `ordered` flag of a list. */
  datatype Style = Style(kind: string, level: int, ordered: bool)

  datatype StyleRange = StyleRange(start: int, end: int, style: Style)

  /** The `{ start, length }` range the editor styles. */
  datatype Span = Span(start: int, length: int)

  /**
    A styling call: list paragraph styling (`applyListStyle`) or character
    styling with a font and, for a heading, a font size.
   */
  datatype Action =
    | ListParagraphs(span: Span, ordered: bool)
    | CharacterStyle(span: Span, font: string, fontSize: Option<int>)

  /** The style types the loop acts on. */
  predicate IsKnownKind(kind: string) {
    kind == "list" || kind == "heading" || kind == "emphasis" || kind == "strong" || kind == "code"
  }

  /** The branch on `range.style.type`: no action for a type it does not know. */
  function ActionFor(r: StyleRange): (a: Option<Action>)
    ensures a.Some? <==> IsKnownKind(r.style.kind)
    ensures a.Some? ==> a.value.span == Span(r.start, r.end - r.start)
  {
    var span := Span(r.start, r.end - r.start);
    var kind := r.style.kind;
    if kind == "list" then Some(ListParagraphs(span, r.style.ordered))
    else if kind == "heading" then Some(CharacterStyle(span, HeadingFont, Some(FontSizeForHeadingLevel(r.style.level))))
    else if kind == "emphasis" then Some(CharacterStyle(span, EmphasisFont, None))
    else if kind == "strong" then Some(CharacterStyle(span, StrongFont, None))
    else if kind == "code" then Some(CharacterStyle(span, CodeFont, None))
    else None
  }

  /**
    A list range keeps its `ordered` flag; a heading gets the heading font at
    the table's size for its level, always between 16 and 24; emphasis,
    strong and code get their fonts and no size.
   */
  lemma ActionForKinds(r: StyleRange)
    ensures r.style.kind == "list" ==> ActionFor(r).value.ListParagraphs? && ActionFor(r).value.ordered == r.style.ordered
    ensures r.style.kind == "heading" ==>
      && ActionFor(r).value.CharacterStyle?
      && ActionFor(r).value.font == HeadingFont
      && ActionFor(r).value.fontSize == Some(FontSizeForHeadingLevel(r.style.level))
      && 16 <= FontSizeForHeadingLevel(r.style.level) <= 24
    ensures r.style.kind in ["emphasis", "strong", "code"] ==>
      && ActionFor(r).value.CharacterStyle?
      && ActionFor(r).value.fontSize == None
      && ActionFor(r).value.font == (if r.style.kind == "emphasis" then EmphasisFont
                                     else if r.style.kind == "strong" then StrongFont else CodeFont)
  {
  }

  /** The actions for a sequence of ranges: one per range of a known type, in the order of the ranges. */
  function ActionsFor(ranges: seq<StyleRange>): (r: seq<Action>)
    ensures |r| <= |ranges|
  {
    if ranges == [] then [] else ActionOf(ranges[0]) + ActionsFor(ranges[1..])
  }

  /** The action of one range as a sequence of zero or one actions. */
  function ActionOf(r: StyleRange): (s: seq<Action>)
    ensures |s| <= 1
  {
    var a := ActionFor(r);
    if a.Some? then [a.value] else []
  }

  lemma {:induction false} ActionsForConcat(a: seq<StyleRange>, b: seq<StyleRange>)
    ensures ActionsFor(a + b) == ActionsFor(a) + ActionsFor(b)
  {
    if a == [] {
      assert a + b == b;
    } else {
      var ab := a + b;
      assert ab[0] == a[0];
      assert ab[1..] == a[1..] + b;
      ActionsForConcat(a[1..], b);
      var h := ActionOf(a[0]);
      calc {
        ActionsFor(ab);
        h + ActionsFor(a[1..] + b);
        h + (ActionsFor(a[1..]) + ActionsFor(b));
        (h + ActionsFor(a[1..])) + ActionsFor(b);
      }
    }
  }

  /** Every action covers the span of a range it came from, and a range of a known type is never dropped. */
  lemma {:induction false} ActionsForMembers(ranges: seq<StyleRange>)
    ensures forall x | x in ActionsFor(ranges) :: exists k | 0 <= k < |ranges| :: ActionFor(ranges[k]) == Some(x)
    ensures forall k | 0 <= k < |ranges| && IsKnownKind(ranges[k].style.kind) :: ActionFor(ranges[k]).value in ActionsFor(ranges)
  {
    if ranges != [] {
      var rest := ranges[1..];
      ActionsForMembers(rest);
      forall x | x in ActionsFor(ranges)
        ensures exists k | 0 <= k < |ranges| :: ActionFor(ranges[k]) == Some(x)
      {
        if ActionFor(ranges[0]) == Some(x) {
        } else {
          var k :| 0 <= k < |rest| && ActionFor(rest[k]) == Some(x);
          assert ranges[k + 1] == rest[k];
        }
      }
      forall k | 0 <= k < |ranges| && IsKnownKind(ranges[k].style.kind)
        ensures ActionFor(ranges[k]).value in ActionsFor(ranges)
      {
        if k > 0 {
          assert ranges[k] == rest[k - 1];
        }
      }
    }
  }

  /** The `for (const range of styleRanges)` loop, collecting the call each range makes instead of making it. */
  method ApplyStyleRanges(ranges: seq<StyleRange>) returns (actions: seq<Action>)
    ensures actions == ActionsFor(ranges)
  {
    actions := [];
    var i := 0;
    while i < |ranges|
      invariant 0 <= i <= |ranges|
      invariant actions == ActionsFor(ranges[..i])
    {
      var a := ActionFor(ranges[i]);
      assert ranges[..i + 1] == ranges[..i] + [ranges[i]];
      ActionsForConcat(ranges[..i], [ranges[i]]);
      assert ActionsFor([ranges[i]]) == ActionOf(ranges[i]) + ActionsFor([]);
      if a.Some? {
        actions := actions + [a.value];
      }
      i := i + 1;
    }
    assert ranges[..i] == ranges;
  }
}
