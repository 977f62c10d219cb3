/**
  Joining strings with a line break, as JavaScript's `array.join("\n")` and the
  `+= "\n"` loops of markdown-parser.js do, and its inverse `split("\n")`, used
  here only to state what a joined text contains.
 */
module Lines {

  /** `xs.join("\n")`: the strings of `xs` with one "\n" between neighbours and none after the last. */
  function JoinLines(xs: seq<string>): string {
    if xs == [] then ""
    else if |xs| == 1 then xs[0]
    else xs[0] + "\n" + JoinLines(xs[1..])
  }

  /** `s.split("\n")`: the pieces between line breaks; "" splits to [""]. */
  function SplitLines(s: string): (r: seq<string>)
    ensures |r| >= 1
  {
    if s == [] then [""]
    else if s[0] == '\n' then [""] + SplitLines(s[1..])
    else
      var rest := SplitLines(s[1..]);
      [[s[0]] + rest[0]] + rest[1..]
  }

  /** The number of line breaks in `s`. */
  function CountNewlines(s: string): nat {
    if s == [] then 0 else (if s[0] == '\n' then 1 else 0) + CountNewlines(s[1..])
  }

  lemma {:induction false} SplitLinesCount(s: string)
    ensures |SplitLines(s)| == CountNewlines(s) + 1
  {
    if s != [] {
      SplitLinesCount(s[1..]);
    }
  }

  lemma {:induction false} SplitWithoutNewline(a: string)
    requires '\n' !in a
    ensures SplitLines(a) == [a]
  {
    if a != [] {
      assert a[0] in a;
      assert forall c | c in a[1..] :: c in a;
      SplitWithoutNewline(a[1..]);
      assert a == [a[0]] + a[1..];
    }
  }

  lemma {:induction false} SplitAfterLine(a: string, b: string)
    requires '\n' !in a
    ensures SplitLines(a + "\n" + b) == [a] + SplitLines(b)
  {
    if a == [] {
      assert a + "\n" + b == "\n" + b;
      assert ("\n" + b)[1..] == b;
    } else {
      var s := a + "\n" + b;
      assert s[0] == a[0] && s[0] != '\n';
      assert s[1..] == a[1..] + "\n" + b;
      assert forall c | c in a[1..] :: c in a;
      SplitAfterLine(a[1..], b);
      assert a == [a[0]] + a[1..];
    }
  }

  /** Splitting a joined text on "\n" gives back the pieces exactly, when none of them holds a line break. */
  lemma {:induction false} SplitJoin(xs: seq<string>)
    requires |xs| >= 1
    requires forall k | 0 <= k < |xs| :: '\n' !in xs[k]
    ensures SplitLines(JoinLines(xs)) == xs
  {
    if |xs| == 1 {
      SplitWithoutNewline(xs[0]);
    } else {
      SplitJoin(xs[1..]);
      SplitAfterLine(xs[0], JoinLines(xs[1..]));
    }
  }

  /** Hence a join of `n >= 1` single-line pieces has exactly `n` lines, that is `n - 1` line breaks. */
  lemma JoinLinesLineCount(xs: seq<string>)
    requires |xs| >= 1
    requires forall k | 0 <= k < |xs| :: '\n' !in xs[k]
    ensures CountNewlines(JoinLines(xs)) == |xs| - 1
  {
    SplitJoin(xs);
    SplitLinesCount(JoinLines(xs));
  }
}
