/**
  Small documents run through `RoadmapOf`, described by the shape of their
  top-level blocks: the boundary of the steps section, a step without a list,
  and which heading texts open the section.
 */
module RoadmapExamples {
  import opened Text
  import opened Mdast
  import opened RoadmapExtractor

  /** "Steps" reads "steps" once lower-cased and trimmed, so "## Steps" opens the section. */
  lemma StepsText()
    ensures Trim(Lower("Steps")) == "steps"
  {
    assert Lower("Steps") == "steps";
    TrimOfUnpadded("steps");
  }

  /** "Other" does not, so "## Other" closes it. */
  lemma OtherText()
    ensures Trim(Lower("Other")) != "steps"
  {
    var l := Lower("Other");
    LowerAt("Other", 0);
    LowerAt("Other", 4);
    TrimOfUnpadded(l);
    assert Trim(l)[0] != "steps"[0];
  }

  /** A steps heading, a depth-3 heading, a list and a closing heading: one step, scan stopped at the fourth block. */
  lemma SectionBoundaryBlocks(cs: seq<Node>)
    requires |cs| == 4 && IsStepsHeading(cs[0]) && IsHeadingOfDepth(cs[1], 3) && IsKind(cs[2], List)
    requires IsHeadingOfDepth(cs[3], 2) && !IsStepsHeading(cs[3])
    ensures SectionEnd(IsStepsHeading, cs) == 3
    ensures RoadmapOf(cs) == Roadmap(TitleBefore(cs, 3), [StepAt(cs, 1)])
  {
    OneStepThenBlock(cs, 1);
    RoadmapBetween(cs, 0, 3);
  }

  /** A depth-3 heading followed by a list or a paragraph: one step, and no depth-2 heading between them. */
  lemma OneStepThenBlock(cs: seq<Node>, lo: nat)
    requires lo + 2 <= |cs| && IsHeadingOfDepth(cs[lo], 3) && (IsKind(cs[lo + 1], List) || IsKind(cs[lo + 1], Paragraph))
    ensures StepsIn(cs, lo, lo + 2) == [StepAt(cs, lo)]
    ensures forall j | lo <= j < lo + 2 :: !IsHeadingOfDepth(cs[j], 2)
  {
    assert StepsIn(cs, lo, lo + 1) == [StepAt(cs, lo)] by {
      assert StepsIn(cs, lo, lo) == [];
    }
    assert StepsIn(cs, lo, lo + 2) == StepsIn(cs, lo, lo + 1) + [];
    forall j | lo <= j < lo + 2 ensures !IsHeadingOfDepth(cs[j], 2) {
      if j == lo {} else {}
    }
  }

  /** Three blocks none of which is a depth-1 heading leave the title "". */
  lemma NoTitleAmongThree(cs: seq<Node>)
    requires |cs| >= 3 && !IsHeadingOfDepth(cs[0], 1) && !IsHeadingOfDepth(cs[1], 1) && !IsHeadingOfDepth(cs[2], 1)
    ensures TitleBefore(cs, 3) == ""
  {
    forall j | 0 <= j < 3 ensures !IsTitleHeading(cs[j]) {
      if j == 0 {} else if j == 1 {} else {}
    }
    FirstInUnique(cs, 0, 3, IsTitleHeading, 3);
  }

  /**
    "## Steps / ### One / - a / - b / ## Other / ...": one step, titled by the
    depth-3 heading, with the items of the list as bullets. Whatever follows
    the closing heading, such as "### Two / - c", is never reached, and with no
    depth-1 heading the title stays "".
   */
  lemma SectionBoundaryExample(cs: seq<Node>, rest: seq<Node>)
    requires |cs| == 4 && IsStepsHeading(cs[0]) && IsHeadingOfDepth(cs[1], 3) && IsKind(cs[2], List)
    requires IsHeadingOfDepth(cs[3], 2) && !IsStepsHeading(cs[3])
    ensures RoadmapOf(cs + rest) == Roadmap("", [Step(ToText(cs[1]), ToTexts(cs[2].children))])
  {
    assert IsHeadingOfDepth(cs[0], 2);
    NoTitleAmongThree(cs);
    SectionBoundaryBlocks(cs);
    AfterCloseIgnored(cs, rest);
  }

  /** "## Steps / ### Lonely / Some paragraph.": the step has no bullets. */
  lemma StepWithoutListExample(cs: seq<Node>)
    requires |cs| == 3 && IsStepsHeading(cs[0]) && IsHeadingOfDepth(cs[1], 3) && IsKind(cs[2], Paragraph)
    ensures RoadmapOf(cs) == Roadmap("", [Step(ToText(cs[1]), [])])
  {
    assert IsHeadingOfDepth(cs[0], 2);
    NoTitleAmongThree(cs);
    OneStepThenBlock(cs, 1);
    RoadmapBetween(cs, 0, 3);
  }
}
