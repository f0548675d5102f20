/** Character classes and Python's `str.strip()`, as the warning parser uses them.
    Python gives `str.strip()` and the pattern class `\s` one notion of whitespace,
    so both are modelled by the single predicate IsSpace. */
module Text {

  /** Python's whitespace (`str.isspace`, and `\s` in a `str` pattern): the
      ASCII controls TAB..CR and FS..US, SPACE, NEL, NO-BREAK SPACE, and the
      Unicode space separators and line/paragraph separators. */
  predicate IsSpace(c: char)
  {
    var n := c as int;
    (0x09 <= n <= 0x0D) || (0x1C <= n <= 0x20) || n == 0x85 || n == 0xA0 ||
    n == 0x1680 || (0x2000 <= n <= 0x200A) || n == 0x2028 || n == 0x2029 ||
    n == 0x202F || n == 0x205F || n == 0x3000
  }

  /** The pattern class `\d`, restricted to the ASCII decimal digits. */
  predicate IsDigit(c: char)
  {
    '0' <= c <= '9'
  }

  /** What the pattern's `.` matches: any character except a line feed. */
  predicate NotNewline(c: char)
  {
    c != '\n'
  }

  /** Every character of `s` is in the class `p`. */
  predicate AllOf(s: string, p: char -> bool)
  {
    forall i :: 0 <= i < |s| ==> p(s[i])
  }

  /** The end of the longest run of `p`-characters that starts at `i`: what a
      greedy `p*` consumes (SpanIsRun, SpanUnique). */
  function Span(s: string, i: nat, p: char -> bool): (j: nat)
    requires i <= |s|
    ensures i <= j <= |s|
    decreases |s| - i
  {
    if i < |s| && p(s[i]) then Span(s, i + 1, p) else i
  }

  /** Every character before the end Span finds is in the class, and the one
      at it (if any) is not. */
  lemma {:induction false} SpanIsRun(s: string, i: nat, p: char -> bool)
    requires i <= |s|
    ensures forall m :: i <= m < Span(s, i, p) ==> p(s[m])
    ensures Span(s, i, p) == |s| || !p(s[Span(s, i, p)])
    decreases |s| - i
  {
    if i < |s| && p(s[i]) {
      SpanIsRun(s, i + 1, p);
    }
  }

  /** A run of `p`-characters ending at a non-`p` character (or the end of
      the text) is the one Span finds. */
  lemma {:induction false} SpanUnique(s: string, i: nat, p: char -> bool, j: nat)
    requires i <= j <= |s|
    requires forall m :: i <= m < j ==> p(s[m])
    requires j == |s| || !p(s[j])
    ensures Span(s, i, p) == j
    decreases j - i
  {
    if i < j {
      SpanUnique(s, i + 1, p, j);
    }
  }

  /** The run Span finds, as a slice, is all in the class. */
  lemma SpanSlice(s: string, i: nat, p: char -> bool)
    requires i <= |s|
    ensures AllOf(s[i..Span(s, i, p)], p)
  {
    var j := Span(s, i, p);
    SpanIsRun(s, i, p);
    forall x | 0 <= x < j - i ensures p(s[i..j][x]) { assert s[i..j][x] == s[i + x]; }
  }

  /** A slice of a slice is a slice of the whole. */
  lemma SliceOfSlice(s: string, i: nat, j: nat, c: nat, e: nat)
    requires i <= j <= |s| && c <= e <= j - i
    ensures s[i..j][c..e] == s[i + c..i + e]
  {
    assert forall x :: 0 <= x < e - c ==> s[i..j][c..e][x] == s[i + c..i + e][x];
  }

  /** A slice whose characters are all in a class: each position it covers holds one. */
  lemma AllOfSlice(s: string, i: nat, j: nat, p: char -> bool)
    requires i <= j <= |s| && AllOf(s[i..j], p)
    ensures forall x :: i <= x < j ==> p(s[x])
  {
    forall x | i <= x < j ensures p(s[x]) { assert s[i..j][x - i] == s[x]; }
  }

  /** Removes leading whitespace, like `str.lstrip()`. */
  function TrimStart(s: string): (t: string)
    ensures |t| <= |s| && t == s[|s| - |t|..]
    ensures AllOf(s[..|s| - |t|], IsSpace)
    ensures t == [] || !IsSpace(t[0])
  {
    SpanIsRun(s, 0, IsSpace);
    s[Span(s, 0, IsSpace)..]
  }

  /** Removes trailing whitespace, like `str.rstrip()`. */
  function TrimEnd(s: string): (t: string)
    ensures |t| <= |s| && t == s[..|t|]
    ensures AllOf(s[|t|..], IsSpace)
    ensures t == [] || !IsSpace(t[|t| - 1])
    decreases |s|
  {
    if |s| > 0 && IsSpace(s[|s| - 1]) then
      var t := TrimEnd(s[..|s| - 1]);
      assert s[|t|..] == s[..|s| - 1][|t|..] + [s[|s| - 1]];
      t
    else
      s
  }

  /** `t` begins and ends with a non-whitespace character, or is empty. */
  predicate Stripped(t: string)
  {
    t == [] || (!IsSpace(t[0]) && !IsSpace(t[|t| - 1]))
  }

  /** `s` is `t` with whitespace before it (the first `i` characters) and after it. */
  predicate SurroundedBySpace(s: string, i: nat, t: string)
  {
    i + |t| <= |s| && s[i..i + |t|] == t &&
    AllOf(s[..i], IsSpace) && AllOf(s[i + |t|..], IsSpace)
  }

  /** Python's `str.strip()` with no argument. */
  function Strip(s: string): (t: string)
    ensures Stripped(t)
  {
    TrimEnd(TrimStart(s))
  }

  /** Strip removes only whitespace, from both ends: the result stands in the
      text at the returned position with whitespace before and after it. */
  lemma StripSurrounded(s: string) returns (i: nat)
    ensures SurroundedBySpace(s, i, Strip(s))
  {
    var u := TrimStart(s);
    var t := TrimEnd(u);
    i := |s| - |u|;
    TrimmedTwice(s, u, t);
  }

  /** Whitespace cut from the front of `s` to leave `u`, then from the back
      of `u` to leave `t`, leaves `t` surrounded by whitespace in `s`. */
  lemma TrimmedTwice(s: string, u: string, t: string)
    requires |u| <= |s| && u == s[|s| - |u|..] && AllOf(s[..|s| - |u|], IsSpace)
    requires |t| <= |u| && t == u[..|t|] && AllOf(u[|t|..], IsSpace)
    ensures SurroundedBySpace(s, |s| - |u|, t)
  {
    var i := |s| - |u|;
    SliceOfSlice(s, i, |s|, 0, |t|);
    SliceOfSlice(s, i, |s|, |t|, |u|);
    assert s[i + |t|..] == u[|t|..];
  }

  /** Strip is the only way to peel whitespace off `s` and leave text that
      neither begins nor ends with whitespace. */
  lemma StripUnique(s: string, i: nat, t: string)
    requires SurroundedBySpace(s, i, t) && Stripped(t)
    ensures Strip(s) == t
  {
    var t' := Strip(s);
    var i' := StripSurrounded(s);
    StrippedBounds(s, i, t);
    StrippedBounds(s, i', t');
  }

  /** Where a stripped text sits inside the text it was peeled from: it is
      empty exactly when the whole text is whitespace, and otherwise it runs
      from the first non-whitespace character to the end of TrimEnd. */
  lemma StrippedBounds(s: string, i: nat, t: string)
    requires SurroundedBySpace(s, i, t) && Stripped(t)
    ensures t == [] <==> AllOf(s, IsSpace)
    ensures t != [] ==> i == Span(s, 0, IsSpace) && i + |t| == |TrimEnd(s)| && t == s[i..|TrimEnd(s)|]
  {
    if t == [] {
      forall x | 0 <= x < |s| ensures IsSpace(s[x]) {
        if x < i { assert s[..i][x] == s[x]; } else { assert s[i..][x - i] == s[x]; }
      }
    } else {
      assert s[i] == t[0];
      forall m | 0 <= m < i ensures IsSpace(s[m]) { assert s[..i][m] == s[m]; }
      SpanUnique(s, 0, IsSpace, i);
      var e := i + |t|;
      assert s[e - 1] == t[|t| - 1];
      forall x | e <= x < |s| ensures IsSpace(s[x]) { assert s[e..][x - e] == s[x]; }
      var u := TrimEnd(s);
      forall x | |u| <= x < |s| ensures IsSpace(s[x]) { assert s[|u|..][x - |u|] == s[x]; }
      if |u| > 0 { assert s[|u| - 1] == u[|u| - 1]; }
      LastNonSpace(s, e, |u|);
      LastNonSpace(s, |u|, e);
    }
  }

  /** An end `e'` just after a non-whitespace character lies at or before any
      `e` after which there is only whitespace. */
  lemma LastNonSpace(s: string, e: nat, e': nat)
    requires e' <= |s| && forall x :: e <= x < |s| ==> IsSpace(s[x])
    requires e' == 0 || !IsSpace(s[e' - 1])
    ensures e' <= e
  {
  }

  /** `str.strip()` is idempotent. */
  lemma StripIdempotent(s: string)
    ensures Strip(Strip(s)) == Strip(s)
  {
    var t := Strip(s);
    assert SurroundedBySpace(t, 0, t);
    StripUnique(t, 0, t);
  }

  /** Whitespace added around a text does not change what it strips to. */
  lemma StripPadding(a: string, s: string, b: string)
    requires AllOf(a, IsSpace) && AllOf(b, IsSpace)
    ensures Strip(a + s + b) == Strip(s)
  {
    var t := Strip(s);
    var i := StripSurrounded(s);
    PaddedSurrounded(a, s, b, i, t);
    StripUnique(a + s + b, |a| + i, t);
  }

  /** Padding with whitespace keeps a text surrounded by whitespace. */
  lemma PaddedSurrounded(a: string, s: string, b: string, i: nat, t: string)
    requires AllOf(a, IsSpace) && AllOf(b, IsSpace) && SurroundedBySpace(s, i, t)
    ensures SurroundedBySpace(a + s + b, |a| + i, t)
  {
    var j := i + |t|;
    PaddedSlices(a, s, b, i, j);
    AllOfConcat(a, s[..i], IsSpace);
    AllOfConcat(s[j..], b, IsSpace);
  }

  /** Slices of a padded text are the slices of the text, with the padding
      on the outer pieces. */
  lemma PaddedSlices(a: string, s: string, b: string, i: nat, j: nat)
    requires i <= j <= |s|
    ensures var x := a + s + b;
      x[|a| + i..|a| + j] == s[i..j] && x[..|a| + i] == a + s[..i] && x[|a| + j..] == s[j..] + b
  {
  }

  /** Joining two texts of a class gives a text of that class. */
  lemma AllOfConcat(u: string, v: string, p: char -> bool)
    requires AllOf(u, p) && AllOf(v, p)
    ensures AllOf(u + v, p)
  {
    forall x | 0 <= x < |u + v| ensures p((u + v)[x]) {
      if x >= |u| { assert (u + v)[x] == v[x - |u|]; }
    }
  }
}
