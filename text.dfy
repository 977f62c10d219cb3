/**
  Character-level string helpers of the markdown core: the whitespace class of
  a JavaScript regular expression's `\s`, the `cleanText` normaliser built on
  `replace(/\s+/g, " ")` and `trim()`, and the ASCII case folding used when a
  heading is compared with "steps".
 */
module Text {

  /** The characters matched by `\s` in a JavaScript regular expression; `trim()` removes the same set. */
  predicate IsWhitespace(c: char) {
    || c == ' ' || c == '\t' || c == '\n' || c == '\r' || c == '\U{000B}' || c == '\U{000C}'
    || c == '\U{00A0}' || c == '\U{1680}' || ('\U{2000}' <= c <= '\U{200A}')
    || c == '\U{2028}' || c == '\U{2029}' || c == '\U{202F}' || c == '\U{205F}'
    || c == '\U{3000}' || c == '\U{FEFF}'
  }

  /** The non-whitespace characters of `s`, in order. */
  function NonWhitespace(s: string): string {
    if s == [] then []
    else (if IsWhitespace(s[0]) then [] else [s[0]]) + NonWhitespace(s[1..])
  }

  /** `s` has no leading or trailing whitespace, no two adjacent whitespace characters, and only ' ' as whitespace. */
  predicate IsClean(s: string) {
    && (s != [] ==> !IsWhitespace(s[0]) && !IsWhitespace(s[|s| - 1]))
    && OnlySpaces(s)
    && NoAdjacentWhitespace(s)
  }

  /** Every whitespace character of `s` is ' '. */
  predicate OnlySpaces(s: string) {
    forall i | 0 <= i < |s| :: IsWhitespace(s[i]) ==> s[i] == ' '
  }

  /** No two neighbouring characters of `s` are both whitespace. */
  predicate NoAdjacentWhitespace(s: string) {
    forall i, j | 0 <= i < |s| && 0 <= j < |s| && j == i + 1 :: !IsWhitespace(s[i]) || !IsWhitespace(s[j])
  }

  lemma {:induction false} NonWhitespaceConcat(a: string, b: string)
    ensures NonWhitespace(a + b) == NonWhitespace(a) + NonWhitespace(b)
  {
    if a == [] {
      assert a + b == b;
    } else {
      assert (a + b)[1..] == a[1..] + b;
      NonWhitespaceConcat(a[1..], b);
    }
  }

  lemma {:induction false} NonWhitespaceEmpty(s: string)
    ensures NonWhitespace(s) == [] <==> forall i | 0 <= i < |s| :: IsWhitespace(s[i])
  {
    if s != [] {
      NonWhitespaceEmpty(s[1..]);
      assert forall i | 1 <= i < |s| :: s[i] == s[1..][i - 1];
    }
  }

  /** Drops the leading run of whitespace: the `^\s*` part of `trim()`. */
  function TrimStart(s: string): (r: string)
    ensures |r| <= |s|
    ensures r == [] || !IsWhitespace(r[0])
  {
    if s != [] && IsWhitespace(s[0]) then TrimStart(s[1..]) else s
  }

  /** `TrimStart` keeps a suffix of its input. */
  lemma {:induction false} TrimStartIsSuffix(s: string)
    ensures TrimStart(s) == s[|s| - |TrimStart(s)|..]
    decreases |s|
  {
    if s != [] && IsWhitespace(s[0]) {
      var r := TrimStart(s[1..]);
      TrimStartIsSuffix(s[1..]);
      assert s[1..][|s| - 1 - |r|..] == s[|s| - |r|..];
    }
  }

  /** Everything `TrimStart` drops is whitespace, so it keeps every non-whitespace character. */
  lemma {:induction false} TrimStartDrops(s: string)
    ensures forall i | 0 <= i < |s| - |TrimStart(s)| :: IsWhitespace(s[i])
    ensures NonWhitespace(TrimStart(s)) == NonWhitespace(s)
    decreases |s|
  {
    if s != [] && IsWhitespace(s[0]) {
      TrimStartDrops(s[1..]);
      DropLeadingWhitespace(s, TrimStart(s[1..]));
    }
  }

  /** What `TrimStartDrops` states of `s[1..]` carries over to `s` when `s[0]` is whitespace. */
  lemma DropLeadingWhitespace(s: string, r: string)
    requires s != [] && IsWhitespace(s[0])
    requires |r| <= |s| - 1
    requires forall i | 0 <= i < |s| - 1 - |r| :: IsWhitespace(s[1..][i])
    requires NonWhitespace(r) == NonWhitespace(s[1..])
    ensures forall i | 0 <= i < |s| - |r| :: IsWhitespace(s[i])
    ensures NonWhitespace(r) == NonWhitespace(s)
  {
    var t := s[1..];
    forall i | 0 <= i < |s| - |r|
      ensures IsWhitespace(s[i])
    {
      if i > 0 {
        assert s[i] == t[i - 1];
      }
    }
    assert NonWhitespace(s) == [] + NonWhitespace(t);
  }

  /** Drops the trailing run of whitespace: the `\s*$` part of `trim()`. */
  function TrimEnd(s: string): (r: string)
    ensures |r| <= |s|
    ensures r == [] || !IsWhitespace(r[|r| - 1])
  {
    if s != [] && IsWhitespace(s[|s| - 1]) then TrimEnd(s[..|s| - 1]) else s
  }

  /** `TrimEnd` keeps a prefix of its input. */
  lemma {:induction false} TrimEndIsPrefix(s: string)
    ensures TrimEnd(s) == s[..|TrimEnd(s)|]
    decreases |s|
  {
    if s != [] && IsWhitespace(s[|s| - 1]) {
      var r := TrimEnd(s[..|s| - 1]);
      TrimEndIsPrefix(s[..|s| - 1]);
      assert s[..|s| - 1][..|r|] == s[..|r|];
    }
  }

  /** Everything `TrimEnd` drops is whitespace, so it keeps every non-whitespace character. */
  lemma {:induction false} TrimEndDrops(s: string)
    ensures forall i | |TrimEnd(s)| <= i < |s| :: IsWhitespace(s[i])
    ensures NonWhitespace(TrimEnd(s)) == NonWhitespace(s)
    decreases |s|
  {
    if s != [] && IsWhitespace(s[|s| - 1]) {
      var p := s[..|s| - 1];
      TrimEndDrops(p);
      assert forall i | 0 <= i < |s| - 1 :: s[i] == p[i];
      DropTrailingWhitespace(s);
    }
  }

  /** A trailing whitespace character holds no non-whitespace character. */
  lemma DropTrailingWhitespace(s: string)
    requires s != [] && IsWhitespace(s[|s| - 1])
    ensures NonWhitespace(s[..|s| - 1]) == NonWhitespace(s)
  {
    var p, c := s[..|s| - 1], s[|s| - 1];
    assert forall i | 0 <= i < |s| :: s[i] == (p + [c])[i];
    assert s == p + [c];
    NonWhitespaceConcat(p, [c]);
    assert NonWhitespace([c]) == [] + NonWhitespace([]);
  }

  /** JavaScript's `String.prototype.trim`. */
  function Trim(s: string): (r: string)
    ensures r == [] || (!IsWhitespace(r[0]) && !IsWhitespace(r[|r| - 1]))
  {
    TrimEndIsPrefix(TrimStart(s));
    TrimEnd(TrimStart(s))
  }

  /** `trim()` keeps every non-whitespace character, in order. */
  lemma TrimKeepsNonWhitespace(s: string)
    ensures NonWhitespace(Trim(s)) == NonWhitespace(s)
  {
    TrimStartDrops(s);
    TrimEndDrops(TrimStart(s));
  }

  /** `trim()` leaves a string that neither starts nor ends with whitespace unchanged. */
  lemma TrimOfUnpadded(s: string)
    requires s == [] || (!IsWhitespace(s[0]) && !IsWhitespace(s[|s| - 1]))
    ensures Trim(s) == s
  {
  }

  /** Trimming keeps a contiguous slice, so it keeps the two character-level properties `Collapse` establishes. */
  lemma TrimKeepsSpacing(s: string)
    requires OnlySpaces(s) && NoAdjacentWhitespace(s)
    ensures IsClean(Trim(s))
  {
    var lo, hi := TrimIsSlice(s);
    SliceKeepsSpacing(s, lo, hi);
  }

  /** `trim()` returns a contiguous slice of its input. */
  lemma TrimIsSlice(s: string) returns (lo: int, hi: int)
    ensures 0 <= lo <= hi <= |s| && Trim(s) == s[lo..hi]
  {
    var t := TrimStart(s);
    var e := TrimEnd(t);
    TrimStartIsSuffix(s);
    TrimEndIsPrefix(t);
    lo := |s| - |t|;
    hi := lo + |e|;
    PrefixOfSuffix(s, t, e, lo);
  }

  /** A prefix of a suffix is a slice. */
  lemma PrefixOfSuffix(s: string, t: string, e: string, lo: int)
    requires 0 <= lo <= |s| && t == s[lo..]
    requires |e| <= |t| && e == t[..|e|]
    ensures e == s[lo..lo + |e|]
  {
    assert forall i | 0 <= i < |e| :: e[i] == t[i] == s[lo + i];
  }

  /** A slice of a string keeps its spacing properties. */
  lemma SliceKeepsSpacing(s: string, lo: int, hi: int)
    requires 0 <= lo <= hi <= |s|
    requires OnlySpaces(s) && NoAdjacentWhitespace(s)
    ensures OnlySpaces(s[lo..hi]) && NoAdjacentWhitespace(s[lo..hi])
  {
    var r := s[lo..hi];
    assert forall i | 0 <= i < |r| :: r[i] == s[lo + i];
  }

  /** Putting a character in front keeps the spacing properties when a space is not followed by whitespace. */
  lemma ConsKeepsSpacing(c: char, rest: string)
    requires OnlySpaces(rest) && NoAdjacentWhitespace(rest)
    requires IsWhitespace(c) ==> c == ' ' && (rest == [] || !IsWhitespace(rest[0]))
    ensures OnlySpaces([c] + rest) && NoAdjacentWhitespace([c] + rest)
  {
    var r := [c] + rest;
    assert forall i | 1 <= i < |r| :: r[i] == rest[i - 1];
  }

  /** `s.replace(/\s+/g, " ")`: every maximal run of whitespace becomes one space. */
  function Collapse(s: string): (r: string)
    ensures r == [] <==> s == []
    ensures r != [] ==> (IsWhitespace(r[0]) <==> IsWhitespace(s[0]))
    decreases |s|
  {
    if s == [] then []
    else if IsWhitespace(s[0]) then [' '] + Collapse(TrimStart(s[1..]))
    else [s[0]] + Collapse(s[1..])
  }

  /** The collapse leaves ' ' as the only whitespace, never two whitespace characters in a row, and every non-whitespace character in order. */
  lemma {:induction false} CollapseSpacing(s: string)
    ensures OnlySpaces(Collapse(s)) && NoAdjacentWhitespace(Collapse(s))
    ensures NonWhitespace(Collapse(s)) == NonWhitespace(s)
    decreases |s|
  {
    if s != [] {
      var rest := if IsWhitespace(s[0]) then TrimStart(s[1..]) else s[1..];
      var c := if IsWhitespace(s[0]) then ' ' else s[0];
      var r := Collapse(rest);
      CollapseSpacing(rest);
      if IsWhitespace(s[0]) {
        TrimStartDrops(s[1..]);
      }
      ConsKeepsSpacing(c, r);
      assert Collapse(s) == [c] + r;
      assert ([c] + r)[1..] == r;
      assert NonWhitespace(s) == (if IsWhitespace(s[0]) then [] else [s[0]]) + NonWhitespace(s[1..]);
    }
  }

  /**
    `cleanText` of markdown-parser.js: whitespace runs collapsed to one space,
    then trimmed. The result is clean and keeps the non-whitespace characters
    of the input, in order.
   */
  function CleanText(s: string): (r: string)
    ensures IsClean(r)
    ensures NonWhitespace(r) == NonWhitespace(s)
  {
    var c := Collapse(s);
    CollapseSpacing(s);
    TrimKeepsSpacing(c);
    TrimKeepsNonWhitespace(c);
    Trim(c)
  }

  lemma {:induction false} CollapseOfClean(s: string)
    requires OnlySpaces(s) && NoAdjacentWhitespace(s)
    ensures Collapse(s) == s
  {
    if s != [] {
      var t := s[1..];
      SliceKeepsSpacing(s, 1, |s|);
      CollapseOfClean(t);
      assert s == [s[0]] + t;
      if IsWhitespace(s[0]) {
        assert s[0] == ' ';
        if t != [] {
          assert t[0] == s[1];
        }
        assert TrimStart(t) == t;
      }
    }
  }

  /** `cleanText` is idempotent: a clean string is its own cleaning. */
  lemma CleanTextOfClean(s: string)
    requires IsClean(s)
    ensures CleanText(s) == s
  {
    CollapseOfClean(s);
    assert TrimStart(s) == s;
    assert TrimEnd(s) == s;
  }

  lemma CleanTextIdempotent(s: string)
    ensures CleanText(CleanText(s)) == CleanText(s)
  {
    CleanTextOfClean(CleanText(s));
  }

  /** `cleanText` yields "" exactly when its input is all whitespace (the empty string included). */
  lemma CleanTextEmpty(s: string)
    ensures CleanText(s) == [] <==> forall i | 0 <= i < |s| :: IsWhitespace(s[i])
  {
    var r := CleanText(s);
    NonWhitespaceEmpty(s);
    NonWhitespaceEmpty(r);
  }

  /** A cleaned string contains no line break, so it is a single line of text. */
  lemma CleanTextHasNoNewline(s: string)
    ensures '\n' !in CleanText(s)
  {
    var r := CleanText(s);
    assert forall i | 0 <= i < |r| :: r[i] != '\n';
  }

  /** `TrimStart` of a string that does not start with whitespace is the string itself. */
  lemma TrimStartOfUnpadded(s: string)
    requires s == [] || !IsWhitespace(s[0])
    ensures TrimStart(s) == s
  {
  }

  /** Skipping leading whitespace reaches past a prefix that has a non-whitespace character. */
  lemma {:induction false} TrimStartAppend(y: string, x: string)
    requires TrimStart(y) != []
    ensures TrimStart(y + x) == TrimStart(y) + x
  {
    assert y != [];
    assert (y + x)[0] == y[0] && (y + x)[1..] == y[1..] + x;
    if IsWhitespace(y[0]) {
      TrimStartAppend(y[1..], x);
    }
  }

  /** Skipping leading whitespace of a string that ends in non-whitespace keeps that last character. */
  lemma TrimStartKeepsLast(t: string)
    requires t != [] && !IsWhitespace(t[|t| - 1])
    ensures TrimStart(t) != [] && TrimStart(t)[|TrimStart(t)| - 1] == t[|t| - 1]
  {
    var u := TrimStart(t);
    TrimStartDrops(t);
    TrimStartIsSuffix(t);
    assert u != [];
    assert u == t[|t| - |u|..];
  }

  /** Skipping leading whitespace over an all-whitespace prefix stops where the rest begins. */
  lemma {:induction false} TrimStartWhitespacePrefix(v: string, b: string)
    requires forall i | 0 <= i < |v| :: IsWhitespace(v[i])
    requires b == [] || !IsWhitespace(b[0])
    ensures TrimStart(v + b) == b
  {
    if v == [] {
      assert v + b == b;
      TrimStartOfUnpadded(b);
    } else {
      assert (v + b)[0] == v[0] && (v + b)[1..] == v[1..] + b;
      assert forall i | 0 <= i < |v| - 1 :: v[1..][i] == v[i + 1];
      TrimStartWhitespacePrefix(v[1..], b);
    }
  }

  /** Dropping trailing whitespace stops inside a suffix that has a non-whitespace character. */
  lemma {:induction false} TrimEndAppend(x: string, c: string)
    requires TrimEnd(c) != []
    ensures TrimEnd(x + c) == x + TrimEnd(c)
    decreases |c|
  {
    assert c != [];
    var xc := x + c;
    assert xc[|xc| - 1] == c[|c| - 1];
    if IsWhitespace(c[|c| - 1]) {
      DropLastAppend(x, c);
      TrimEndAppend(x, c[..|c| - 1]);
    }
  }

  /** Dropping the last character of `x + c`, when `c` is not empty, drops it from `c`. */
  lemma DropLastAppend(x: string, c: string)
    requires c != []
    ensures (x + c)[..|x + c| - 1] == x + c[..|c| - 1]
  {
    var xc := x + c;
    var p, q := xc[..|xc| - 1], x + c[..|c| - 1];
    assert forall i | 0 <= i < |p| :: p[i] == q[i];
  }

  /** No whitespace run crosses the end of a string that ends in non-whitespace, so the collapse splits there. */
  lemma {:induction false} CollapseAppend(a: string, x: string)
    requires a == [] || !IsWhitespace(a[|a| - 1])
    ensures Collapse(a + x) == Collapse(a) + Collapse(x)
    decreases |a|, 1
  {
    if a == [] {
      assert a + x == x;
    } else if IsWhitespace(a[0]) {
      CollapseAppendRun(a, x);
    } else {
      CollapseAppendChar(a, x);
    }
  }

  /** `CollapseAppend` when `a` starts with a whitespace run. */
  lemma {:induction false} CollapseAppendRun(a: string, x: string)
    requires a != [] && IsWhitespace(a[0]) && !IsWhitespace(a[|a| - 1])
    ensures Collapse(a + x) == Collapse(a) + Collapse(x)
    decreases |a|, 0
  {
    var t := a[1..];
    assert t[|t| - 1] == a[|a| - 1];
    var u := TrimStart(t);
    TrimStartKeepsLast(t);
    CollapseLeadingRun(a, x);
    CollapseAppend(u, x);
    ConsThenAppend(' ', Collapse(a + x), Collapse(a), Collapse(u + x), Collapse(u), Collapse(x));
  }

  /** The shape of the last step of `CollapseAppendRun` and `CollapseAppendChar`, on plain values. */
  lemma ConsThenAppend(c: char, whole: string, first: string, restWhole: string, rest: string, second: string)
    requires whole == [c] + restWhole && first == [c] + rest
    requires restWhole == rest + second
    ensures whole == first + second
  {
    assert [c] + (rest + second) == ([c] + rest) + second;
  }

  /** A leading whitespace run collapses to one space whatever follows, when there is a non-whitespace character after it inside `a`. */
  lemma CollapseLeadingRun(a: string, x: string)
    requires a != [] && IsWhitespace(a[0]) && TrimStart(a[1..]) != []
    ensures Collapse(a + x) == [' '] + Collapse(TrimStart(a[1..]) + x)
    ensures Collapse(a) == [' '] + Collapse(TrimStart(a[1..]))
  {
    var ax := a + x;
    assert ax[0] == a[0] && ax[1..] == a[1..] + x;
    TrimStartAppend(a[1..], x);
  }

  /** `CollapseAppend` when `a` starts with a non-whitespace character. */
  lemma {:induction false} CollapseAppendChar(a: string, x: string)
    requires a != [] && !IsWhitespace(a[0]) && !IsWhitespace(a[|a| - 1])
    ensures Collapse(a + x) == Collapse(a) + Collapse(x)
    decreases |a|, 0
  {
    DropFirstAppend(a, x);
    CollapseAppend(a[1..], x);
    ConsThenAppend(a[0], Collapse(a + x), Collapse(a), Collapse(a[1..] + x), Collapse(a[1..]), Collapse(x));
  }

  /** Dropping the first character of `a + x`, when `a` is not empty, drops it from `a`. */
  lemma DropFirstAppend(a: string, x: string)
    requires a != []
    ensures (a + x)[0] == a[0] && (a + x)[1..] == a[1..] + x
  {
    var ax := a + x;
    assert forall i | 0 <= i < |ax| - 1 :: ax[1..][i] == (a[1..] + x)[i];
  }

  /**
    The defining case of `replace(/\s+/g, " ")`: a whitespace run between a
    part that does not end in whitespace and a part that does not start with
    it becomes exactly one space, and each part is collapsed on its own.
   */
  lemma CollapseSplit(a: string, w: string, b: string)
    requires a == [] || !IsWhitespace(a[|a| - 1])
    requires w != [] && forall i | 0 <= i < |w| :: IsWhitespace(w[i])
    requires b == [] || !IsWhitespace(b[0])
    ensures Collapse(a + w + b) == Collapse(a) + " " + Collapse(b)
  {
    var wb := w + b;
    AppendAssoc(a, w, b);
    CollapseAppend(a, wb);
    CollapseRun(w, b);
    SpaceBetween(Collapse(a + wb), Collapse(a), Collapse(wb), Collapse(b));
  }

  /** Appending is associative. */
  lemma AppendAssoc(a: string, w: string, b: string)
    ensures a + w + b == a + (w + b)
  {
  }

  /** The shape of `CollapseSplit`'s last step, on plain values. */
  lemma SpaceBetween(whole: string, left: string, restWhole: string, right: string)
    requires whole == left + restWhole && restWhole == " " + right
    ensures whole == left + " " + right
  {
    assert left + (" " + right) == left + " " + right;
  }

  /** A whitespace run in front of a part that does not start with whitespace collapses to one space. */
  lemma CollapseRun(w: string, b: string)
    requires w != [] && forall i | 0 <= i < |w| :: IsWhitespace(w[i])
    requires b == [] || !IsWhitespace(b[0])
    ensures Collapse(w + b) == " " + Collapse(b)
  {
    var wb := w + b;
    assert wb[0] == w[0] && wb[1..] == w[1..] + b;
    assert forall i | 0 <= i < |w| - 1 :: w[1..][i] == w[i + 1];
    TrimStartWhitespacePrefix(w[1..], b);
  }

  /** A string whose every character is non-whitespace, and which is not empty. */
  predicate IsWord(w: string) {
    w != [] && forall i | 0 <= i < |w| :: !IsWhitespace(w[i])
  }

  /** The length of the leading run of non-whitespace characters of `s`. */
  function WordLength(s: string): (n: nat)
    ensures n <= |s|
    ensures forall i | 0 <= i < n :: !IsWhitespace(s[i])
    ensures n < |s| ==> IsWhitespace(s[n])
  {
    if s == [] || IsWhitespace(s[0]) then 0
    else
      var m := WordLength(s[1..]);
      assert forall i | 1 <= i < 1 + m :: s[i] == s[1..][i - 1];
      1 + m
  }

  /**
    The words of `s`: its maximal runs of non-whitespace characters, in order,
    found by skipping whitespace and taking one run at a time.
   */
  function Words(s: string): seq<string>
    decreases |s|
  {
    if s == [] then []
    else if IsWhitespace(s[0]) then Words(s[1..])
    else
      var n := WordLength(s);
      [s[..n]] + Words(s[n..])
  }

  /** The leading run of a string that starts with a non-whitespace character is a word. */
  lemma LeadingWord(s: string)
    requires s != [] && !IsWhitespace(s[0])
    ensures IsWord(s[..WordLength(s)])
  {
    var n := WordLength(s);
    assert forall i | 0 <= i < n :: s[..n][i] == s[i];
  }

  /** Every word is non-empty and holds no whitespace. */
  lemma {:induction false} WordsAreWords(s: string)
    ensures forall k | 0 <= k < |Words(s)| :: IsWord(Words(s)[k])
    decreases |s|
  {
    if s != [] {
      if IsWhitespace(s[0]) {
        WordsAreWords(s[1..]);
      } else {
        var n := WordLength(s);
        var rest := Words(s[n..]);
        WordsAreWords(s[n..]);
        LeadingWord(s);
        assert Words(s) == [s[..n]] + rest;
        assert forall k | 1 <= k < |Words(s)| :: Words(s)[k] == rest[k - 1];
      }
    }
  }

  /** `words.join(" ")`. */
  function Unwords(ws: seq<string>): string {
    if ws == [] then "" else if |ws| == 1 then ws[0] else ws[0] + " " + Unwords(ws[1..])
  }

  /** Leading whitespace does not change what `cleanText` returns. */
  lemma CleanTextTrimStart(s: string)
    ensures CleanText(s) == CleanText(TrimStart(s))
  {
    if s != [] && IsWhitespace(s[0]) {
      var c := Collapse(TrimStart(s));
      assert Collapse(s) == [' '] + c;
      assert ([' '] + c)[1..] == c;
      assert TrimStart([' '] + c) == TrimStart(c);
    }
  }

  /** A leading whitespace character does not change what `cleanText` returns. */
  lemma CleanTextDropLeading(s: string)
    requires s != [] && IsWhitespace(s[0])
    ensures CleanText(s) == CleanText(s[1..])
  {
    CleanTextTrimStart(s);
    CleanTextTrimStart(s[1..]);
  }

  /** A word followed by a whitespace run collapses to the word, one space, and the collapse of what follows the run. */
  lemma CollapseWordRest(w: string, r: string)
    requires IsWord(w)
    requires r != [] && IsWhitespace(r[0])
    ensures Collapse(w + r) == w + " " + Collapse(TrimStart(r))
  {
    CollapseAppend(w, r);
    CollapseOfWord(w);
    assert TrimStart(r) == TrimStart(r[1..]);
    assert Collapse(r) == [' '] + Collapse(TrimStart(r));
    SpaceBetween(Collapse(w + r), Collapse(w), Collapse(r), Collapse(TrimStart(r)));
  }

  /** A word collapses to itself. */
  lemma CollapseOfWord(w: string)
    requires IsWord(w)
    ensures Collapse(w) == w
  {
    assert forall i | 0 <= i < |w| :: !IsWhitespace(w[i]);
    CollapseOfClean(w);
  }

  /** Trimming a word, one space and a part that does not start with whitespace. */
  lemma TrimWordSpace(w: string, c: string)
    requires IsWord(w)
    requires c == [] || !IsWhitespace(c[0])
    ensures c != [] ==> Trim(c) != []
    ensures Trim(w + " " + c) == if c == [] then w else w + " " + Trim(c)
  {
    var wsp := w + " ";
    TrimStartOfUnpadded(wsp + c);
    assert w + " " + c == wsp + c;
    if c == [] {
      assert wsp + c == wsp;
      assert wsp[..|wsp| - 1] == w;
      assert TrimEnd(wsp) == TrimEnd(w) == w;
    } else {
      TrimStartOfUnpadded(c);
      TrimEndDrops(c);
      TrimEndAppend(wsp, c);
      assert Trim(c) == TrimEnd(c);
    }
  }

  /** A word followed by a part that is empty or starts with whitespace: one space between the word and the rest's cleaning, if that is not empty. */
  lemma WordThenRest(w: string, r: string)
    requires IsWord(w)
    requires r == [] || IsWhitespace(r[0])
    ensures CleanText(w + r) == if CleanText(r) == [] then w else w + " " + CleanText(r)
  {
    if r == [] {
      assert w + r == w;
      CleanTextOfClean(w);
    } else {
      var c := Collapse(TrimStart(r));
      CollapseWordRest(w, r);
      TrimWordSpace(w, c);
      CleanTextTrimStart(r);
    }
  }

  /** A non-empty list of words joins to something that starts with the first word, so it is not empty. */
  lemma UnwordsNonEmpty(ws: seq<string>)
    requires ws != [] && IsWord(ws[0])
    ensures Unwords(ws) != []
  {
    if |ws| > 1 {
      assert |Unwords(ws)| >= |ws[0]|;
    }
  }

  /**
    `cleanText` in words: the words of the input, in order, separated by
    exactly one space each. Whitespace between words is never dropped, and
    nothing is added before the first word or after the last.
   */
  lemma {:induction false} CleanTextWords(s: string)
    ensures CleanText(s) == Unwords(Words(s))
    decreases |s|, 1
  {
    if s == [] {
      assert CleanText(s) == Trim(Collapse(s));
    } else if IsWhitespace(s[0]) {
      CleanTextDropLeading(s);
      CleanTextWords(s[1..]);
    } else {
      CleanTextWordsAtWord(s);
    }
  }

  /** `CleanTextWords` when `s` starts with a word. */
  lemma {:induction false} CleanTextWordsAtWord(s: string)
    requires s != [] && !IsWhitespace(s[0])
    ensures CleanText(s) == Unwords(Words(s))
    decreases |s|, 0
  {
    var n := WordLength(s);
    var w, r := s[..n], s[n..];
    assert s == w + r;
    LeadingWord(s);
    CleanTextWords(r);
    WordThenRest(w, r);
    WordsAreWords(r);
    UnwordsCons(w, Words(r));
  }

  /** Joining a word in front of a list of words. */
  lemma UnwordsCons(w: string, rest: seq<string>)
    requires IsWord(w)
    requires forall k | 0 <= k < |rest| :: IsWord(rest[k])
    ensures Unwords([w] + rest) == if Unwords(rest) == [] then w else w + " " + Unwords(rest)
  {
    if rest != [] {
      UnwordsNonEmpty(rest);
      assert ([w] + rest)[1..] == rest;
    }
  }

  /** Any run of whitespace between two words, a single tab or a line break among them, becomes one space; it is never dropped. */
  lemma RunBetweenWords(x: string, v: string, y: string)
    requires IsWord(x) && IsWord(y)
    requires v != [] && forall i | 0 <= i < |v| :: IsWhitespace(v[i])
    ensures CleanText(x + v + y) == x + " " + y
  {
    var r := v + y;
    assert x + v + y == x + r;
    assert r[0] == v[0];
    WordThenRest(x, r);
    CleanRunThenWord(v, y);
  }

  /** Whitespace in front of a word is cleaned away. */
  lemma CleanRunThenWord(v: string, y: string)
    requires IsWord(y)
    requires forall i | 0 <= i < |v| :: IsWhitespace(v[i])
    ensures CleanText(v + y) == y
  {
    CleanTextTrimStart(v + y);
    TrimStartWhitespacePrefix(v, y);
    CleanTextOfClean(y);
  }

  /** ASCII case folding: the part of `toLowerCase` this model keeps. */
  function LowerChar(c: char): char {
    if 'A' <= c <= 'Z' then (c as int + 32) as char else c
  }

  /** `toLowerCase` with ASCII folding only. */
  function Lower(s: string): (r: string)
    ensures |r| == |s|
  {
    if s == [] then [] else [LowerChar(s[0])] + Lower(s[1..])
  }

  /** Each character is folded on its own, in place. */
  lemma {:induction false} LowerAt(s: string, i: nat)
    requires i < |s|
    ensures Lower(s)[i] == LowerChar(s[i])
  {
    if i > 0 {
      LowerAt(s[1..], i - 1);
    }
  }

  /** Folding leaves no ASCII capital, changes nothing the second time, and sends a capital and its small letter to the same character. */
  lemma LowerCharFolds(c: char)
    ensures !('A' <= LowerChar(c) <= 'Z')
    ensures LowerChar(LowerChar(c)) == LowerChar(c)
    ensures 'a' <= c <= 'z' ==> LowerChar((c as int - 32) as char) == c
  {
  }

  /** `Lower` leaves no ASCII capital and is idempotent. */
  lemma LowerIdempotent(s: string)
    ensures forall i | 0 <= i < |s| :: !('A' <= Lower(s)[i] <= 'Z')
    ensures Lower(Lower(s)) == Lower(s)
  {
    var l := Lower(s);
    forall i | 0 <= i < |s|
      ensures !('A' <= l[i] <= 'Z') && Lower(l)[i] == l[i]
    {
      LowerAt(s, i);
      LowerAt(l, i);
      LowerCharFolds(s[i]);
    }
  }
}
