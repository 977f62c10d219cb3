/**
  `extractRoadmapFromAst` of markdown-parser.js: one forward scan over the
  top-level blocks of a markdown tree that picks the roadmap's title and, inside
  the "Steps" section, one step per depth-3 heading with the items of the list
  right after it as bullets.

  `RoadmapOf` states the result without the scan's cursor and flag: the
  section opens at the first depth-2 heading reading "steps" (after lower-casing
  and trimming) and ends at the first later depth-2 heading that does not; the
  title is the first depth-1 heading with non-empty text before that end; the
  steps are the depth-3 headings strictly inside the section, in order. The
  method `ExtractRoadmapFromAst` is the scan, proved to compute it.
 */
module RoadmapExtractor {
  import opened Text
  import opened Mdast

  datatype Step = Step(title: string, bullets: seq<string>)
  datatype Roadmap = Roadmap(title: string, steps: seq<Step>)

  /** A depth-2 heading whose lower-cased, trimmed text is exactly "steps": it opens the section. */
  predicate IsStepsHeading(n: Node) {
    IsHeadingOfDepth(n, 2) && Trim(Lower(ToText(n))) == "steps"
  }

  /**
    Once the section is open, any depth-2 heading that `opens` rejects ends the
    scan. The structure below takes the opening test as a parameter `opens`;
    the source's roadmap is the instance `opens == IsStepsHeading`.
   */
  function Closing(opens: Node -> bool): Node -> bool {
    n => IsHeadingOfDepth(n, 2) && !opens(n)
  }

  /** A depth-1 heading whose text is not "", the only kind the `!roadmap.title` guard lets set the title for good. */
  predicate IsTitleHeading(n: Node) {
    IsHeadingOfDepth(n, 1) && ToText(n) != ""
  }

  /** The first index in `[lo, hi)` whose node satisfies `p`, or `hi` if there is none. */
  function FirstIn(cs: seq<Node>, lo: nat, hi: nat, p: Node -> bool): (r: nat)
    requires lo <= hi <= |cs|
    ensures lo <= r <= hi
    ensures r < hi ==> p(cs[r])
    ensures forall j | lo <= j < r :: !p(cs[j])
    decreases hi - lo
  {
    if lo == hi then hi else if p(cs[lo]) then lo else FirstIn(cs, lo + 1, hi, p)
  }

  lemma FirstInUnique(cs: seq<Node>, lo: nat, hi: nat, p: Node -> bool, r: nat)
    requires lo <= r <= hi <= |cs|
    requires r < hi ==> p(cs[r])
    requires forall j | lo <= j < r :: !p(cs[j])
    ensures FirstIn(cs, lo, hi, p) == r
  {
  }

  /** Where the section opens: the index of the first opening heading, `|cs|` if there is none. */
  function SectionStart(opens: Node -> bool, cs: seq<Node>): nat {
    FirstIn(cs, 0, |cs|, opens)
  }

  /** Where the scan stops: the first closing heading after the section opened, `|cs|` if there is none. */
  function SectionEnd(opens: Node -> bool, cs: seq<Node>): (r: nat)
    ensures SectionStart(opens, cs) < |cs| ==> SectionStart(opens, cs) < r
    ensures r <= |cs|
  {
    var s := SectionStart(opens, cs);
    if s < |cs| then FirstIn(cs, s + 1, |cs|, Closing(opens)) else |cs|
  }

  /** The bullets of the step headed at `j`: `toString` of each child of the next block if it is a list, else none. */
  function BulletsAfter(cs: seq<Node>, j: nat): seq<string>
    requires j < |cs|
  {
    if j + 1 < |cs| && IsKind(cs[j + 1], List) then ToTexts(cs[j + 1].children) else []
  }

  function StepAt(cs: seq<Node>, j: nat): Step
    requires j < |cs|
  {
    Step(ToText(cs[j]), BulletsAfter(cs, j))
  }

  /** One step for each depth-3 heading at an index in `[lo, hi)`, in index order. */
  function StepsIn(cs: seq<Node>, lo: nat, hi: nat): seq<Step>
    requires hi <= |cs|
    decreases hi
  {
    if hi <= lo then []
    else StepsIn(cs, lo, hi - 1) + (if IsHeadingOfDepth(cs[hi - 1], 3) then [StepAt(cs, hi - 1)] else [])
  }

  /** The title as it stands after the first `hi` blocks: the text of the first title heading among them, or "". */
  function TitleBefore(cs: seq<Node>, hi: nat): string
    requires hi <= |cs|
  {
    var t := FirstIn(cs, 0, hi, IsTitleHeading);
    if t < hi then ToText(cs[t]) else ""
  }

  /** The roadmap of the top-level blocks `cs` for the opening test `opens`. */
  function RoadmapBy(opens: Node -> bool, cs: seq<Node>): Roadmap {
    var stop := SectionEnd(opens, cs);
    Roadmap(TitleBefore(cs, stop), StepsIn(cs, SectionStart(opens, cs) + 1, stop))
  }

  /** The roadmap of the top-level blocks `cs`. */
  function RoadmapOf(cs: seq<Node>): Roadmap {
    RoadmapBy(IsStepsHeading, cs)
  }

  /** How the title evolves by one block: only a depth-1 heading met while the title is still "" changes it. */
  lemma TitleStep(cs: seq<Node>, i: nat)
    requires i < |cs|
    ensures TitleBefore(cs, i + 1)
         == if TitleBefore(cs, i) == "" && IsHeadingOfDepth(cs[i], 1) then ToText(cs[i]) else TitleBefore(cs, i)
  {
    var t := FirstIn(cs, 0, i, IsTitleHeading);
    if t < i {
      FirstInUnique(cs, 0, i + 1, IsTitleHeading, t);
    } else if IsTitleHeading(cs[i]) {
      FirstInUnique(cs, 0, i + 1, IsTitleHeading, i);
    } else {
      FirstInUnique(cs, 0, i + 1, IsTitleHeading, i + 1);
    }
  }

  /** The title guard of the scan: a depth-1 heading sets the title while it is still "". */
  function WithTitle(rm: Roadmap, node: Node): Roadmap {
    if IsHeadingOfDepth(node, 1) && rm.title == "" then rm.(title := ToText(node)) else rm
  }

  /**
    The scan as a state machine: the state is the cursor `i`, the flag
    `inSteps` (seeking the section when false, inside it when true) and the
    roadmap built so far; returning the roadmap is the final state, reached at
    the end of the blocks or at the closing heading.
   */
  function Scan(opens: Node -> bool, cs: seq<Node>, i: nat, inSteps: bool, rm: Roadmap): Roadmap
    decreases |cs| - i
  {
    if i >= |cs| then rm
    else
      var node := cs[i];
      var rm' := WithTitle(rm, node);
      if opens(node) then Scan(opens, cs, i + 1, true, rm')
      else if IsHeadingOfDepth(node, 2) && inSteps then rm'
      else if inSteps && IsHeadingOfDepth(node, 3) then
        var next := if i + 1 < |cs| && IsKind(cs[i + 1], List) then i + 2 else i + 1;
        Scan(opens, cs, next, true, rm'.(steps := rm'.steps + [StepAt(cs, i)]))
      else Scan(opens, cs, i + 1, inSteps, rm')
  }

  /** The opening test only accepts depth-2 headings, as the source's test does. */
  ghost predicate OpensDepth2(opens: Node -> bool) {
    forall n :: opens(n) ==> IsHeadingOfDepth(n, 2)
  }

  /** What holds of the scan's state between two blocks, in terms of `RoadmapBy`'s parts. */
  ghost predicate ScanInvariant(opens: Node -> bool, cs: seq<Node>, i: nat, inSteps: bool, rm: Roadmap) {
    && i <= |cs|
    && rm.title == TitleBefore(cs, i)
    && (!inSteps ==> i <= SectionStart(opens, cs) && rm.steps == [])
    && (inSteps ==> SectionStart(opens, cs) < i <= SectionEnd(opens, cs)
                    && rm.steps == StepsIn(cs, SectionStart(opens, cs) + 1, i))
  }

  lemma TitleInvariantStep(cs: seq<Node>, i: nat, rm: Roadmap)
    requires i < |cs| && rm.title == TitleBefore(cs, i)
    ensures WithTitle(rm, cs[i]).title == TitleBefore(cs, i + 1)
    ensures WithTitle(rm, cs[i]).steps == rm.steps
  {
    TitleStep(cs, i);
  }

  /** The opening heading (first one, or a repeated one inside the section) moves on with the section open. */
  lemma OpenStep(opens: Node -> bool, cs: seq<Node>, i: nat, inSteps: bool, rm: Roadmap)
    requires OpensDepth2(opens) && ScanInvariant(opens, cs, i, inSteps, rm)
    requires i < |cs| && opens(cs[i])
    ensures ScanInvariant(opens, cs, i + 1, true, WithTitle(rm, cs[i]))
  {
    TitleInvariantStep(cs, i, rm);
    var start := SectionStart(opens, cs);
    if !inSteps {
      FirstInUnique(cs, 0, |cs|, opens, i);
      assert StepsIn(cs, start + 1, i + 1) == [];
    } else {
      assert !Closing(opens)(cs[i]);
      assert StepsIn(cs, start + 1, i + 1) == StepsIn(cs, start + 1, i);
    }
  }

  /** A closing heading inside the section: the roadmap so far, with its title guard applied, is the result. */
  lemma CloseStep(opens: Node -> bool, cs: seq<Node>, i: nat, rm: Roadmap)
    requires ScanInvariant(opens, cs, i, true, rm)
    requires i < |cs| && !opens(cs[i]) && IsHeadingOfDepth(cs[i], 2)
    ensures WithTitle(rm, cs[i]) == RoadmapBy(opens, cs)
  {
    TitleInvariantStep(cs, i, rm);
    var start := SectionStart(opens, cs);
    assert Closing(opens)(cs[i]);
    FirstInUnique(cs, start + 1, |cs|, Closing(opens), i);
    assert !IsHeadingOfDepth(cs[i], 1);
  }

  /** A depth-3 heading inside the section adds its step; the list after it, if any, is skipped. */
  lemma StepStep(opens: Node -> bool, cs: seq<Node>, i: nat, rm: Roadmap)
    requires ScanInvariant(opens, cs, i, true, rm)
    requires i < |cs| && !opens(cs[i]) && IsHeadingOfDepth(cs[i], 3)
    ensures
      var rm' := WithTitle(rm, cs[i]);
      var next := if i + 1 < |cs| && IsKind(cs[i + 1], List) then i + 2 else i + 1;
      ScanInvariant(opens, cs, next, true, rm'.(steps := rm'.steps + [StepAt(cs, i)]))
  {
    StepAdded(opens, cs, i, rm);
    if i + 1 < |cs| && IsKind(cs[i + 1], List) {
      var rm' := WithTitle(rm, cs[i]);
      ListSkipped(opens, cs, i + 1, rm'.(steps := rm'.steps + [StepAt(cs, i)]));
    }
  }

  /** The depth-3 heading itself: its step is appended and the scan moves past it. */
  lemma StepAdded(opens: Node -> bool, cs: seq<Node>, i: nat, rm: Roadmap)
    requires ScanInvariant(opens, cs, i, true, rm)
    requires i < |cs| && !opens(cs[i]) && IsHeadingOfDepth(cs[i], 3)
    ensures
      var rm' := WithTitle(rm, cs[i]);
      ScanInvariant(opens, cs, i + 1, true, rm'.(steps := rm'.steps + [StepAt(cs, i)]))
  {
    TitleInvariantStep(cs, i, rm);
    assert !Closing(opens)(cs[i]);
  }

  /** A list inside the section is passed over without touching the title or the steps. */
  lemma ListSkipped(opens: Node -> bool, cs: seq<Node>, j: nat, rm: Roadmap)
    requires ScanInvariant(opens, cs, j, true, rm)
    requires j < |cs| && IsKind(cs[j], List)
    ensures ScanInvariant(opens, cs, j + 1, true, rm)
  {
    TitleStep(cs, j);
    assert !Closing(opens)(cs[j]);
    assert StepsIn(cs, SectionStart(opens, cs) + 1, j + 1) == StepsIn(cs, SectionStart(opens, cs) + 1, j) + [];
  }

  /** Any other block leaves the flag and the steps as they are. */
  lemma OtherStep(opens: Node -> bool, cs: seq<Node>, i: nat, inSteps: bool, rm: Roadmap)
    requires ScanInvariant(opens, cs, i, inSteps, rm)
    requires i < |cs| && !opens(cs[i])
    requires !(IsHeadingOfDepth(cs[i], 2) && inSteps) && !(inSteps && IsHeadingOfDepth(cs[i], 3))
    ensures ScanInvariant(opens, cs, i + 1, inSteps, WithTitle(rm, cs[i]))
  {
    TitleInvariantStep(cs, i, rm);
    var start, stop := SectionStart(opens, cs), SectionEnd(opens, cs);
    if inSteps {
      assert !Closing(opens)(cs[i]);
      assert i < stop;
      assert StepsIn(cs, start + 1, i + 1) == StepsIn(cs, start + 1, i);
    } else {
      assert i < start;
    }
  }

  /** From any state the invariant describes, the scan ends with `RoadmapBy`. */
  lemma {:induction false} ScanComputesRoadmap(opens: Node -> bool, cs: seq<Node>, i: nat, inSteps: bool, rm: Roadmap)
    requires OpensDepth2(opens) && ScanInvariant(opens, cs, i, inSteps, rm)
    ensures Scan(opens, cs, i, inSteps, rm) == RoadmapBy(opens, cs)
    decreases |cs| - i
  {
    if i == |cs| {
      if !inSteps {
        assert SectionStart(opens, cs) == |cs|;
      }
    } else if !opens(cs[i]) && IsHeadingOfDepth(cs[i], 2) && inSteps {
      CloseStep(opens, cs, i, rm);
    } else {
      var j, inSteps', rm' := Advance(opens, cs, i, inSteps, rm);
      ScanComputesRoadmap(opens, cs, j, inSteps', rm');
    }
  }

  /** One step of the scan at a block that does not end it: the state it moves to, which again satisfies the invariant. */
  lemma Advance(opens: Node -> bool, cs: seq<Node>, i: nat, inSteps: bool, rm: Roadmap)
    returns (j: nat, inSteps': bool, rm': Roadmap)
    requires OpensDepth2(opens) && ScanInvariant(opens, cs, i, inSteps, rm)
    requires i < |cs| && !(!opens(cs[i]) && IsHeadingOfDepth(cs[i], 2) && inSteps)
    ensures i < j && ScanInvariant(opens, cs, j, inSteps', rm')
    ensures Scan(opens, cs, i, inSteps, rm) == Scan(opens, cs, j, inSteps', rm')
  {
    var node := cs[i];
    var titled := WithTitle(rm, node);
    if opens(node) {
      OpenStep(opens, cs, i, inSteps, rm);
      j, inSteps', rm' := i + 1, true, titled;
    } else if inSteps && IsHeadingOfDepth(node, 3) {
      StepStep(opens, cs, i, rm);
      j := if i + 1 < |cs| && IsKind(cs[i + 1], List) then i + 2 else i + 1;
      inSteps', rm' := true, titled.(steps := titled.steps + [StepAt(cs, i)]);
    } else {
      OtherStep(opens, cs, i, inSteps, rm);
      j, inSteps', rm' := i + 1, inSteps, titled;
    }
  }

  /**
    The indices of the depth-3 headings in `[lo, hi)`, in increasing order: an
    independent description of which blocks give steps.
   */
  function H3Indices(cs: seq<Node>, lo: nat, hi: nat): (r: seq<nat>)
    requires hi <= |cs|
    ensures forall k | 0 <= k < |r| :: lo <= r[k] < hi && IsHeadingOfDepth(cs[r[k]], 3)
    ensures forall k1, k2 | 0 <= k1 < k2 < |r| :: r[k1] < r[k2]
    ensures forall j | lo <= j < hi && IsHeadingOfDepth(cs[j], 3) :: j in r
    decreases hi
  {
    if hi <= lo then []
    else H3Indices(cs, lo, hi - 1) + (if IsHeadingOfDepth(cs[hi - 1], 3) then [hi - 1] else [])
  }

  /** The steps of `[lo, hi)` are the steps of its depth-3 headings, one each, in index order. */
  lemma {:induction false} StepsInOrder(cs: seq<Node>, lo: nat, hi: nat)
    requires hi <= |cs|
    ensures |StepsIn(cs, lo, hi)| == |H3Indices(cs, lo, hi)|
    ensures forall k | 0 <= k < |H3Indices(cs, lo, hi)| :: StepsIn(cs, lo, hi)[k] == StepAt(cs, H3Indices(cs, lo, hi)[k])
    decreases hi
  {
    if hi > lo {
      StepsInOrder(cs, lo, hi - 1);
      var prev, idx := StepsIn(cs, lo, hi - 1), H3Indices(cs, lo, hi - 1);
      var steps, hs := StepsIn(cs, lo, hi), H3Indices(cs, lo, hi);
      if IsHeadingOfDepth(cs[hi - 1], 3) {
        assert steps == prev + [StepAt(cs, hi - 1)];
        assert hs == idx + [hi - 1];
        forall k | 0 <= k < |hs| ensures steps[k] == StepAt(cs, hs[k]) {
          if k < |idx| {
            assert steps[k] == prev[k] && hs[k] == idx[k];
          }
        }
      } else {
        assert steps == prev + [];
        assert hs == idx + [];
      }
    }
  }

  /** A document without an opening heading has no steps; its title is that of its first title heading, if any. */
  lemma NoSectionNoSteps(cs: seq<Node>)
    requires forall j | 0 <= j < |cs| :: !IsStepsHeading(cs[j])
    ensures RoadmapOf(cs) == Roadmap(TitleBefore(cs, |cs|), [])
  {
    FirstInUnique(cs, 0, |cs|, IsStepsHeading, |cs|);
  }

  /** The title is the text of the first title heading before the scan stops; a depth-1 heading with empty text does not count. */
  lemma FirstTitleWins(cs: seq<Node>, t: nat)
    requires t < SectionEnd(IsStepsHeading, cs) && IsTitleHeading(cs[t])
    requires forall j | 0 <= j < t :: !IsTitleHeading(cs[j])
    ensures RoadmapOf(cs).title == ToText(cs[t])
  {
    FirstInUnique(cs, 0, SectionEnd(IsStepsHeading, cs), IsTitleHeading, t);
  }

  /** With no title heading before the scan stops, the title stays "". */
  lemma NoTitleHeading(cs: seq<Node>)
    requires forall j | 0 <= j < SectionEnd(IsStepsHeading, cs) :: !IsTitleHeading(cs[j])
    ensures RoadmapOf(cs).title == ""
  {
    var stop := SectionEnd(IsStepsHeading, cs);
    FirstInUnique(cs, 0, stop, IsTitleHeading, stop);
  }

  /** An h1 whose text is "" is overwritten by the next h1, because the guard tests the title for "". */
  lemma EmptyTitleOverwritten(t: string)
    requires t != ""
    ensures RoadmapOf([Parent(Heading, 1, false, []), Parent(Heading, 1, false, [Leaf(t)])]).title == t
  {
    var cs := [Parent(Heading, 1, false, []), Parent(Heading, 1, false, [Leaf(t)])];
    assert ToText(cs[0]) == "";
    assert ToText(cs[1]) == t by {
      assert ToTextAll([Leaf(t)]) == t + ToTextAll([]);
    }
    FirstInUnique(cs, 0, 2, IsStepsHeading, 2);
    FirstTitleWins(cs, 1);
  }

  /**
    The roadmap from the two section boundaries: `start` is the first steps
    heading and `stop` the first closing heading after it, or the end.
   */
  lemma RoadmapBetween(cs: seq<Node>, start: nat, stop: nat)
    requires start < stop <= |cs| && IsStepsHeading(cs[start])
    requires forall j | 0 <= j < start :: !IsStepsHeading(cs[j])
    requires stop < |cs| ==> IsHeadingOfDepth(cs[stop], 2) && !IsStepsHeading(cs[stop])
    requires forall j | start < j < stop :: !IsHeadingOfDepth(cs[j], 2) || IsStepsHeading(cs[j])
    ensures SectionStart(IsStepsHeading, cs) == start && SectionEnd(IsStepsHeading, cs) == stop
    ensures RoadmapOf(cs) == Roadmap(TitleBefore(cs, stop), StepsIn(cs, start + 1, stop))
  {
    forall j | start < j < stop ensures !Closing(IsStepsHeading)(cs[j]) {
    }
    RoadmapBetweenBy(IsStepsHeading, cs, start, stop);
  }

  /** `RoadmapBetween` for any opening test. */
  lemma RoadmapBetweenBy(opens: Node -> bool, cs: seq<Node>, start: nat, stop: nat)
    requires start < stop <= |cs| && opens(cs[start])
    requires forall j | 0 <= j < start :: !opens(cs[j])
    requires stop < |cs| ==> Closing(opens)(cs[stop])
    requires forall j | start < j < stop :: !Closing(opens)(cs[j])
    ensures SectionStart(opens, cs) == start && SectionEnd(opens, cs) == stop
    ensures RoadmapBy(opens, cs) == Roadmap(TitleBefore(cs, stop), StepsIn(cs, start + 1, stop))
  {
    FirstInUnique(cs, 0, |cs|, opens, start);
    FirstInUnique(cs, start + 1, |cs|, Closing(opens), stop);
  }

  /** Extending the blocks after `hi` changes no first index found in `[lo, hi)`. */
  lemma FirstInPrefix(cs: seq<Node>, rest: seq<Node>, lo: nat, hi: nat, p: Node -> bool)
    requires lo <= hi <= |cs|
    ensures FirstIn(cs + rest, lo, hi, p) == FirstIn(cs, lo, hi, p)
  {
    var r := FirstIn(cs, lo, hi, p);
    assert forall j | lo <= j < hi :: (cs + rest)[j] == cs[j];
    FirstInUnique(cs + rest, lo, hi, p, r);
  }

  /** A first index found below `hi` stays the first when the range is widened past `hi`. */
  lemma FirstInWiden(cs: seq<Node>, lo: nat, hi: nat, hi': nat, p: Node -> bool)
    requires lo <= hi <= hi' <= |cs| && FirstIn(cs, lo, hi, p) < hi
    ensures FirstIn(cs, lo, hi', p) == FirstIn(cs, lo, hi, p)
  {
    FirstInUnique(cs, lo, hi', p, FirstIn(cs, lo, hi, p));
  }

  /** The steps of `[lo, hi)` depend on no block after `hi`, the block at `hi` included only through the bullets. */
  lemma {:induction false} StepsInPrefix(cs: seq<Node>, rest: seq<Node>, lo: nat, hi: nat)
    requires hi < |cs|
    ensures StepsIn(cs + rest, lo, hi) == StepsIn(cs, lo, hi)
    decreases hi
  {
    if hi > lo {
      StepsInPrefix(cs, rest, lo, hi - 1);
      assert (cs + rest)[hi - 1] == cs[hi - 1] && (cs + rest)[hi] == cs[hi];
    }
  }

  /**
    Once the section has closed, nothing after it is inspected: appending any
    blocks to a document that contains its closing heading changes neither
    the title nor the steps.
   */
  lemma AfterCloseIgnored(cs: seq<Node>, rest: seq<Node>)
    requires SectionEnd(IsStepsHeading, cs) < |cs|
    ensures RoadmapOf(cs + rest) == RoadmapOf(cs)
  {
    AfterCloseIgnoredBy(IsStepsHeading, cs, rest);
  }

  /** `AfterCloseIgnored` for any opening test. */
  lemma AfterCloseIgnoredBy(opens: Node -> bool, cs: seq<Node>, rest: seq<Node>)
    requires SectionEnd(opens, cs) < |cs|
    ensures RoadmapBy(opens, cs + rest) == RoadmapBy(opens, cs)
  {
    var all := cs + rest;
    var start := SectionStart(opens, cs);
    var stop := SectionEnd(opens, cs);
    FirstInPrefix(cs, rest, 0, |cs|, opens);
    FirstInWiden(all, 0, |cs|, |all|, opens);
    assert SectionStart(opens, all) == start;
    FirstInPrefix(cs, rest, start + 1, |cs|, Closing(opens));
    FirstInWiden(all, start + 1, |cs|, |all|, Closing(opens));
    assert SectionEnd(opens, all) == stop;
    FirstInPrefix(cs, rest, 0, stop, IsTitleHeading);
    assert TitleBefore(all, stop) == TitleBefore(cs, stop);
    StepsInPrefix(cs, rest, start + 1, stop);
  }

  /** `next.children.forEach(item => bullets.push(toString(item)))`. */
  method CollectBullets(items: seq<Node>) returns (bullets: seq<string>)
    ensures bullets == ToTexts(items)
  {
    bullets := [];
    var k := 0;
    while k < |items|
      invariant 0 <= k <= |items|
      invariant bullets == ToTexts(items[..k])
    {
      bullets := bullets + [ToText(items[k])];
      k := k + 1;
    }
    assert items[..k] == items;
  }

  /**
    The scan of the source: a cursor `i` that also skips the list it has
    attached to a step, a flag for being inside the section, `continue` after
    the steps heading and `break` at the heading that closes the section.
   */
  method ExtractRoadmapFromAst(ast: Node) returns (roadmap: Roadmap)
    requires ast.Parent?
    ensures roadmap == RoadmapOf(ast.children)
  {
    var cs := ast.children;
    var initial := Roadmap("", []);
    roadmap := initial;
    var inStepsSection := false;
    var i := 0;
    while i < |cs|
      invariant 0 <= i <= |cs|
      invariant Scan(IsStepsHeading, cs, i, inStepsSection, roadmap) == Scan(IsStepsHeading, cs, 0, false, initial)
      decreases |cs| - i
    {
      var node := cs[i];
      if IsHeadingOfDepth(node, 1) && roadmap.title == "" {
        roadmap := roadmap.(title := ToText(node));
      }

      if IsHeadingOfDepth(node, 2) {
        var headingText := Trim(Lower(ToText(node)));
        if headingText == "steps" {
          inStepsSection := true;
          i := i + 1;
          continue;
        } else if inStepsSection {
          break;
        }
      }

      if inStepsSection && IsHeadingOfDepth(node, 3) {
        var stepTitle := ToText(node);
        var bullets: seq<string> := [];
        if i + 1 < |cs| && IsKind(cs[i + 1], List) {
          bullets := CollectBullets(cs[i + 1].children);
          i := i + 1;
        }
        roadmap := roadmap.(steps := roadmap.steps + [Step(stepTitle, bullets)]);
      }
      i := i + 1;
    }
    ScanComputesRoadmap(IsStepsHeading, cs, 0, false, initial);
  }
}
