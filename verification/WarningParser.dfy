/** `parse_doxygen_warning`: strip a log line and match it against the pattern
    `^(.*):(\d+):\s*warning:\s*(.*)$`, written out as an explicit matcher that
    follows the backtracking order of Python's regular-expression engine. */
module WarningParser {
  import opened Wrappers
  import opened Text

  /** One extracted warning: the three capture groups, all kept as text. */
  datatype Warning = Warning(file: string, line: string, message: string)

  /** The literal between the two whitespace runs of the pattern. */
  const Keyword: string := "warning:"

  /** `sub` occurs in `s` at position `p`. */
  predicate OccursAt(s: string, sub: string, p: nat)
  {
    p + |sub| <= |s| && s[p..p + |sub|] == sub
  }

  /** What the part of the pattern after group 1 captures: group 2 and group 3. */
  datatype Tail = Tail(line: string, message: string)

  /** Matches `:(\d+):\s*warning:\s*(.*)$` against `s` from position `k`.
      Each repetition is greedy, and none needs to give back characters: a
      shorter digit run would be followed by a digit rather than `:`, a
      shorter first whitespace run by whitespace rather than `w`, and a
      shorter second one would leave the same line feed (if any) for `.*`.
      The stages below follow the pattern piece by piece. */
  function TailAt(s: string, k: nat): Option<Tail>
    requires k <= |s|
  {
    if k < |s| && s[k] == ':' then DigitsAt(s, k + 1, Span(s, k + 1, IsDigit)) else None
  }

  /** `(\d+):\s*` once the greedy digit run from `i` has stopped at `d`. */
  function DigitsAt(s: string, i: nat, d: nat): Option<Tail>
    requires i <= d <= |s|
  {
    if i < d < |s| && s[d] == ':' then KeywordAt(s, s[i..d], Span(s, d + 1, IsSpace)) else None
  }

  /** `warning:\s*` at `w`, where the first whitespace run has stopped, with
      group 2 already captured as `line`. */
  function KeywordAt(s: string, line: string, w: nat): Option<Tail>
    requires w <= |s|
  {
    if OccursAt(s, Keyword, w) then MessageAt(s, line, Span(s, w + |Keyword|, IsSpace)) else None
  }

  /** `(.*)$` from `m`, where the second whitespace run has stopped. */
  function MessageAt(s: string, line: string, m: nat): Option<Tail>
    requires m <= |s|
  {
    if AllOf(s[m..], NotNewline) then Some(Tail(line, s[m..])) else None
  }

  /** Backtracking of the greedy group `(.*)`: try the ends `k`, `k - 1`, ..., `0`
      for group 1 and keep the first one after which the rest matches. */
  function Search(s: string, k: nat): (r: Option<Warning>)
    requires k <= |s|
    ensures r.Some? ==>
      |r.value.file| <= k && r.value.file == s[..|r.value.file|] &&
      TailAt(s, |r.value.file|) == Some(Tail(r.value.line, r.value.message))
    ensures forall j: nat :: j <= k && (r.None? || |r.value.file| < j) ==> TailAt(s, j).None?
    decreases k
  {
    match TailAt(s, k)
    case Some(t) => Some(Warning(s[..k], t.line, t.message))
    case None => if k == 0 then None else Search(s, k - 1)
  }

  /** `re.match(pattern, s)`: group 1 first takes every character up to the
      first line feed, then backtracks. Here `$` is taken as the end of `s`;
      Python's `$` also matches just before a final line feed, which a
      stripped line never has (see StrippedHasNoFinalNewline). */
  function Match(s: string): Option<Warning>
  {
    Search(s, Span(s, 0, NotNewline))
  }

  /** `parse_doxygen_warning(line)`: `None` or the record of the three groups. */
  function Parse(line: string): (r: Option<Warning>)
    ensures r.Some? ==> |r.value.line| > 0 && AllOf(r.value.line, IsDigit)
    ensures r.Some? ==> AllOf(r.value.file, NotNewline) && AllOf(r.value.message, NotNewline)
    ensures r.Some? ==> Stripped(r.value.message)
  {
    var t := Strip(line);
    var r := Match(t);
    if r.Some? then
      MatchFields(t);
      r
    else
      r
  }

  /** The text `f:d:<w1>warning:<w2>m` that the pattern describes, with group 1
      `f`, group 2 `d`, group 3 `m` and the whitespace runs `w1` and `w2`. */
  predicate IsWarningShape(t: string, f: string, d: string, w1: string, w2: string, m: string)
  {
    Composes(t, f, d, w1, w2, m) &&
    AllOf(f, NotNewline) && |d| > 0 && AllOf(d, IsDigit) &&
    AllOf(w1, IsSpace) && AllOf(w2, IsSpace) && AllOf(m, NotNewline)
  }

  /** `t` is `f:d:<w1>warning:<w2>m`, whatever the pieces hold. */
  predicate Composes(t: string, f: string, d: string, w1: string, w2: string, m: string)
  {
    t == f + (":" + (d + (":" + (w1 + (Keyword + (w2 + m))))))
  }

  /** A stripped line cannot end with the line feed that Python's `$` may skip. */
  lemma StrippedHasNoFinalNewline(line: string)
    ensures var t := Strip(line); t == [] || t[|t| - 1] != '\n'
  {
  }

  /** Where a successful TailAt puts the pieces of the pattern. */
  lemma TailAtPieces(s: string, k: nat) returns (b: nat, c: nat, e: nat, g: nat)
    requires k <= |s| && TailAt(s, k).Some?
    ensures k + 1 < b < c && c + |Keyword| == e <= g <= |s|
    ensures s[k] == ':' && s[k + 1..b] == TailAt(s, k).value.line && s[b] == ':'
    ensures AllOf(s[k + 1..b], IsDigit) && AllOf(s[b + 1..c], IsSpace)
    ensures OccursAt(s, Keyword, c) && AllOf(s[e..g], IsSpace)
    ensures s[g..] == TailAt(s, k).value.message && AllOf(s[g..], NotNewline)
    ensures g == |s| || !IsSpace(s[g])
  {
    b, c, e, g := TailAtUnfold(s, k);
    SpanSlice(s, k + 1, IsDigit);
    SpanSlice(s, b + 1, IsSpace);
    SpanSlice(s, e, IsSpace);
    SpanIsRun(s, e, IsSpace);
  }

  /** The tests a successful TailAt has passed, at the ends `b`, `c` and `g`
      of its three runs and the end `e` of `warning:`, and the groups it returns. */
  lemma TailAtUnfold(s: string, k: nat) returns (b: nat, c: nat, e: nat, g: nat)
    requires k <= |s| && TailAt(s, k).Some?
    ensures k < |s| && s[k] == ':'
    ensures k + 1 < b < |s| && b == Span(s, k + 1, IsDigit) && s[b] == ':'
    ensures c == Span(s, b + 1, IsSpace) && e == c + |Keyword| && OccursAt(s, Keyword, c)
    ensures g == Span(s, e, IsSpace) && AllOf(s[g..], NotNewline)
    ensures TailAt(s, k) == Some(Tail(s[k + 1..b], s[g..]))
  {
    b := TailAtColon(s, k);
    c := DigitsAtColon(s, k + 1, b);
    e := c + |Keyword|;
    g := KeywordAtOccurs(s, s[k + 1..b], c);
    MessageAtRest(s, s[k + 1..b], g);
  }

  /** The first stage of a successful TailAt: the colon and the digit run. */
  lemma TailAtColon(s: string, k: nat) returns (b: nat)
    requires k <= |s| && TailAt(s, k).Some?
    ensures k < |s| && s[k] == ':' && b == Span(s, k + 1, IsDigit)
    ensures TailAt(s, k) == DigitsAt(s, k + 1, b)
  {
    b := Span(s, k + 1, IsDigit);
  }

  /** The second stage: a non-empty digit run, the second colon and the first
      whitespace run. */
  lemma DigitsAtColon(s: string, i: nat, d: nat) returns (w: nat)
    requires i <= d <= |s| && DigitsAt(s, i, d).Some?
    ensures i < d < |s| && s[d] == ':' && w == Span(s, d + 1, IsSpace)
    ensures DigitsAt(s, i, d) == KeywordAt(s, s[i..d], w)
  {
    w := Span(s, d + 1, IsSpace);
  }

  /** The third stage: `warning:` and the second whitespace run. */
  lemma KeywordAtOccurs(s: string, line: string, w: nat) returns (m: nat)
    requires w <= |s| && KeywordAt(s, line, w).Some?
    ensures OccursAt(s, Keyword, w) && m == Span(s, w + |Keyword|, IsSpace)
    ensures KeywordAt(s, line, w) == MessageAt(s, line, m)
  {
    m := Span(s, w + |Keyword|, IsSpace);
  }

  /** The last stage: a message without a line feed up to the end. */
  lemma MessageAtRest(s: string, line: string, m: nat)
    requires m <= |s| && MessageAt(s, line, m).Some?
    ensures AllOf(s[m..], NotNewline) && MessageAt(s, line, m) == Some(Tail(line, s[m..]))
  {
  }

  /** Cutting a text at the places where the pattern's literals stand and
      gluing the pieces back together gives the text again. */
  lemma RebuildFromCuts(s: string, k: nat, b: nat, c: nat, e: nat, g: nat)
    requires k < b < c && c + |Keyword| == e <= g <= |s|
    requires s[k] == ':' && s[b] == ':' && OccursAt(s, Keyword, c)
    ensures Composes(s, s[..k], s[k + 1..b], s[b + 1..c], s[e..g], s[g..])
  {
    assert s[e..] == s[e..g] + s[g..];
    assert s[c..] == Keyword + s[e..];
    assert s[b + 1..] == s[b + 1..c] + s[c..];
    assert s[b..] == ":" + s[b + 1..];
    assert s[k + 1..] == s[k + 1..b] + s[b..];
    assert s[k..] == ":" + s[k + 1..];
    assert s == s[..k] + s[k..];
  }

  /** Reconstruction: the text before `k` and the two groups TailAt captures
      put back together with the pattern's literals give the whole text. The
      message ends the text and does not begin with whitespace. */
  lemma TailAtRebuilds(s: string, k: nat, line: string, message: string)
    requires k <= |s| && TailAt(s, k) == Some(Tail(line, message)) && AllOf(s[..k], NotNewline)
    ensures exists w1, w2 :: IsWarningShape(s, s[..k], line, w1, w2, message)
    ensures (message == [] || !IsSpace(message[0])) && |message| <= |s|
    ensures message == s[|s| - |message|..]
  {
    var b, c, e, g := TailAtPieces(s, k);
    RebuildFromCuts(s, k, b, c, e, g);
    assert IsWarningShape(s, s[..k], line, s[b + 1..c], s[e..g], message);
  }

  /** Where the pieces of a text of the pattern's shape lie. */
  lemma ShapePieces(t: string, f: string, d: string, w1: string, w2: string, m: string)
    requires Composes(t, f, d, w1, w2, m)
    ensures var a := |f|; var b := a + 1 + |d|; var c := b + 1 + |w1|;
      var e := c + |Keyword|; var g := e + |w2|;
      g + |m| == |t| && t[..a] == f && t[a] == ':' && t[a + 1..b] == d && t[b] == ':' &&
      t[b + 1..c] == w1 && t[c..e] == Keyword && t[e..g] == w2 && t[g..] == m
  {
    ShapeFront(t, f, d, w1, w2, m);
    ShapeBack(t, |f| + 2 + |d|, w1, w2, m);
  }

  /** The file, the digits and the two colons of a text of the pattern's shape. */
  lemma ShapeFront(t: string, f: string, d: string, w1: string, w2: string, m: string)
    requires Composes(t, f, d, w1, w2, m)
    ensures var a := |f|; var b := a + 1 + |d|;
      b < |t| && t[..a] == f && t[a] == ':' && t[a + 1..b] == d && t[b] == ':' &&
      t[b + 1..] == w1 + (Keyword + (w2 + m))
  {
    var r1 := d + (":" + (w1 + (Keyword + (w2 + m))));
    var a := |f|;
    var b := a + 1 + |d|;
    assert t[0..] == t;
    PeelPiece(t, 0, f, ":" + r1);
    PeelPiece(t, a, ":", r1);
    PeelPiece(t, a + 1, d, ":" + (w1 + (Keyword + (w2 + m))));
    PeelPiece(t, b, ":", w1 + (Keyword + (w2 + m)));
    assert t[..a] == t[0..a];
    assert t[a] == t[a..a + 1][0];
    assert t[b] == t[b..b + 1][0];
  }

  /** The whitespace runs, `warning:` and the message that follow the second
      colon, at `h`, of a text of the pattern's shape. */
  lemma ShapeBack(t: string, h: nat, w1: string, w2: string, m: string)
    requires h <= |t| && t[h..] == w1 + (Keyword + (w2 + m))
    ensures var c := h + |w1|; var e := c + |Keyword|; var g := e + |w2|;
      g + |m| == |t| && t[h..c] == w1 && t[c..e] == Keyword && t[e..g] == w2 && t[g..] == m
  {
    var c := h + |w1|;
    var e := c + |Keyword|;
    PeelPiece(t, h, w1, Keyword + (w2 + m));
    PeelPiece(t, c, Keyword, w2 + m);
    PeelPiece(t, e, w2, m);
  }

  /** The text from `i` on is `x + y`: `x` lies at `i` and `y` after it. */
  lemma PeelPiece(t: string, i: nat, x: string, y: string)
    requires i <= |t| && t[i..] == x + y
    ensures i + |x| <= |t| && t[i..i + |x|] == x && t[i + |x|..] == y
  {
    assert t[i..i + |x|] == t[i..][..|x|];
    assert t[i + |x|..] == t[i..][|x|..];
  }

  /** TailAt succeeds at `k` when the text has the literals of the pattern at
      the cuts `k`, `b` and `c`, digits between the first two colons,
      whitespace around `warning:` and no line feed after `g`; group 3 is then
      the text from `r` on, where the whitespace that begins the text after
      `g` ends. */
  lemma TailAtFromCuts(s: string, k: nat, b: nat, c: nat, e: nat, g: nat) returns (r: nat)
    requires k + 1 < b < c && c + |Keyword| == e <= g <= |s|
    requires s[k] == ':' && s[b] == ':' && OccursAt(s, Keyword, c)
    requires forall x :: k + 1 <= x < b ==> IsDigit(s[x])
    requires forall x :: b + 1 <= x < c ==> IsSpace(s[x])
    requires forall x :: e <= x < g ==> IsSpace(s[x])
    requires forall x :: g <= x < |s| ==> NotNewline(s[x])
    ensures g <= r <= |s| && r == Span(s, e, IsSpace) && TailAt(s, k) == Some(Tail(s[k + 1..b], s[r..]))
    ensures forall x :: g <= x < r ==> IsSpace(s[x])
  {
    SpanUnique(s, k + 1, IsDigit, b);
    assert s[c] == s[c..e][0] == 'w';
    SpanUnique(s, b + 1, IsSpace, c);
    r := Span(s, e, IsSpace);
    SpanIsRun(s, e, IsSpace);
    assert g <= r by {
      if r < g {
        assert false;
      }
    }
    assert AllOf(s[r..], NotNewline) by {
      forall x | 0 <= x < |s| - r ensures NotNewline(s[r..][x]) { assert s[r..][x] == s[r + x]; }
    }
    TailAtOfSpans(s, k, b, c, r);
  }

  /** TailAt, once the runs it measures are known. */
  lemma TailAtOfSpans(s: string, k: nat, b: nat, c: nat, r: nat)
    requires k + 1 < b < |s| && s[k] == ':' && s[b] == ':'
    requires Span(s, k + 1, IsDigit) == b && Span(s, b + 1, IsSpace) == c
    requires OccursAt(s, Keyword, c)
    requires Span(s, c + |Keyword|, IsSpace) == r && AllOf(s[r..], NotNewline)
    ensures TailAt(s, k) == Some(Tail(s[k + 1..b], s[r..]))
  {
    var line := s[k + 1..b];
    assert MessageAt(s, line, r) == Some(Tail(line, s[r..]));
    assert KeywordAt(s, line, c) == MessageAt(s, line, r);
    assert DigitsAt(s, k + 1, b) == KeywordAt(s, line, c);
  }

  /** A text of the pattern's shape matches from the end of its group 1: the
      digit run is the same, and the message is `m` without the `p` whitespace
      characters the greedy `\s*` takes from its start. */
  lemma ShapeTail(t: string, f: string, d: string, w1: string, w2: string, m: string)
      returns (p: nat)
    requires IsWarningShape(t, f, d, w1, w2, m)
    ensures |f| <= |t| && t[..|f|] == f && p <= |m|
    ensures TailAt(t, |f|) == Some(Tail(d, m[p..])) && AllOf(m[..p], IsSpace)
    ensures m == [] || !IsSpace(m[0]) ==> p == 0
  {
    ShapePieces(t, f, d, w1, w2, m);
    var a := |f|;
    var b := a + 1 + |d|;
    var c := b + 1 + |w1|;
    var e := c + |Keyword|;
    var g := e + |w2|;
    p := PiecesTail(t, a, b, c, e, g, d, w1, w2, m);
  }

  /** ShapeTail, stated for the pieces once they have been located. */
  lemma PiecesTail(t: string, a: nat, b: nat, c: nat, e: nat, g: nat,
                   d: string, w1: string, w2: string, m: string) returns (p: nat)
    requires a + 1 < b < c && c + |Keyword| == e <= g <= |t|
    requires t[a] == ':' && t[a + 1..b] == d && t[b] == ':' && t[b + 1..c] == w1
    requires OccursAt(t, Keyword, c) && t[e..g] == w2 && t[g..] == m
    requires AllOf(d, IsDigit) && AllOf(w1, IsSpace) && AllOf(w2, IsSpace) && AllOf(m, NotNewline)
    ensures p <= |m| && TailAt(t, a) == Some(Tail(d, m[p..])) && AllOf(m[..p], IsSpace)
    ensures m == [] || !IsSpace(m[0]) ==> p == 0
  {
    AllOfSlice(t, a + 1, b, IsDigit);
    AllOfSlice(t, b + 1, c, IsSpace);
    AllOfSlice(t, e, g, IsSpace);
    assert t[g..|t|] == m;
    AllOfSlice(t, g, |t|, NotNewline);
    var r := TailAtFromCuts(t, a, b, c, e, g);
    MessageAfterRun(t, e, g, r, m);
    p := r - g;
    assert Tail(t[a + 1..b], t[r..]) == Tail(d, m[p..]);
  }

  /** The message group starts at `r`, where the greedy whitespace run from `e`
      ends; the text from `g` on is `m`, and `e..g` is whitespace. Group 3 is
      `m` without the whitespace that begins it. */
  lemma MessageAfterRun(t: string, e: nat, g: nat, r: nat, m: string)
    requires e <= g <= r <= |t| && t[g..] == m && r == Span(t, e, IsSpace)
    requires forall x :: e <= x < g ==> IsSpace(t[x])
    ensures m[r - g..] == t[r..] && AllOf(m[..r - g], IsSpace)
    ensures m == [] || !IsSpace(m[0]) ==> r == g
  {
    var p := r - g;
    SpanIsRun(t, e, IsSpace);
    assert m[p..] == t[r..];
    forall x | 0 <= x < p ensures IsSpace(m[..p][x]) { assert m[..p][x] == t[g + x]; }
    if m == [] || !IsSpace(m[0]) {
      if m != [] {
        assert t[g] == m[0];
      }
      SpanUnique(t, e, IsSpace, g);
    }
  }

  /** Match finds a record exactly when the text has the pattern's shape. */
  lemma MatchComplete(t: string, f: string, d: string, w1: string, w2: string, m: string)
    requires IsWarningShape(t, f, d, w1, w2, m)
    ensures Match(t).Some? && |f| <= |Match(t).value.file|
  {
    var p := ShapeTail(t, f, d, w1, w2, m);
    ShapePieces(t, f, d, w1, w2, m);
    var L := Span(t, 0, NotNewline);
    SpanIsRun(t, 0, NotNewline);
    assert L >= |f| by {
      if L < |f| {
        assert false;
      }
    }
  }

  /** What Match returns: the groups of a decomposition of the text in the
      pattern's shape, whose message does not begin with whitespace. */
  lemma MatchFields(t: string)
    requires Match(t).Some?
    ensures var w := Match(t).value;
      (exists w1, w2 :: IsWarningShape(t, w.file, w.line, w1, w2, w.message)) &&
      (w.message == [] || !IsSpace(w.message[0])) &&
      (|w.message| <= |t| && w.message == t[|t| - |w.message|..])
  {
    var w := Match(t).value;
    MatchGroups(t, w);
    TailAtRebuilds(t, |w.file|, w.line, w.message);
  }

  /** The groups of a match: group 1 is a prefix of the text without a line
      feed, and the rest of the pattern captures groups 2 and 3 after it. */
  lemma MatchGroups(t: string, w: Warning)
    requires Match(t) == Some(w)
    ensures |w.file| <= |t| && w.file == t[..|w.file|] && AllOf(t[..|w.file|], NotNewline)
    ensures TailAt(t, |w.file|) == Some(Tail(w.line, w.message))
  {
    var k := |w.file|;
    SpanIsRun(t, 0, NotNewline);
    forall x | 0 <= x < k ensures NotNewline(t[..k][x]) { assert t[..k][x] == t[x]; }
  }

  /** Greedy group 1: of all the ways to read the text in the pattern's shape,
      Match keeps one whose file is longest, and among those the one whose
      message does not begin with whitespace. That Match returns nothing
      whenever there is no way follows from MatchFields. */
  lemma MatchIsLongestFile(t: string, f: string, d: string, w1: string, w2: string, m: string)
    requires IsWarningShape(t, f, d, w1, w2, m)
    ensures Match(t).Some? && |f| <= |Match(t).value.file|
    ensures |f| == |Match(t).value.file| && (m == [] || !IsSpace(m[0])) ==>
      Match(t) == Some(Warning(f, d, m))
  {
    MatchComplete(t, f, d, w1, w2, m);
    var w := Match(t).value;
    if |f| == |w.file| && (m == [] || !IsSpace(m[0])) {
      var p := ShapeTail(t, f, d, w1, w2, m);
    }
  }

  /** A record is returned exactly when the stripped line has the shape
      `F:D:<W1>warning:<W2>M`, and the record holds F, D and M of such a reading. */
  lemma ParseExactlyOnShape(line: string)
    ensures Parse(line).Some? <==>
      exists f, d, w1, w2, m :: IsWarningShape(Strip(line), f, d, w1, w2, m)
    ensures Parse(line).Some? ==> var w := Parse(line).value;
      exists w1, w2 :: IsWarningShape(Strip(line), w.file, w.line, w1, w2, w.message)
  {
    var t := Strip(line);
    if Parse(line).Some? {
      MatchFields(t);
    }
    if exists f, d, w1, w2, m :: IsWarningShape(t, f, d, w1, w2, m) {
      var f, d, w1, w2, m :| IsWarningShape(t, f, d, w1, w2, m);
      MatchComplete(t, f, d, w1, w2, m);
    }
  }

  /** Greedy file capture and the form of the message, for a whole log line:
      no other reading of the stripped line has a longer file, and the record
      is the one reading with the longest file whose message neither begins
      with whitespace nor, since the line is stripped, ends with it. */
  lemma ParseIsGreedy(line: string, f: string, d: string, w1: string, w2: string, m: string)
    requires IsWarningShape(Strip(line), f, d, w1, w2, m)
    ensures Parse(line).Some? && |f| <= |Parse(line).value.file|
    ensures |f| == |Parse(line).value.file| && (m == [] || !IsSpace(m[0])) ==>
      Parse(line) == Some(Warning(f, d, m))
  {
    MatchIsLongestFile(Strip(line), f, d, w1, w2, m);
  }

  /** Group 1 of a record ends just before a colon that a digit follows. */
  lemma FileEndsBeforeColonDigit(line: string)
    requires Parse(line).Some?
    ensures var t := Strip(line); var k := |Parse(line).value.file|;
      k + 1 < |t| && t[k] == ':' && IsDigit(t[k + 1])
  {
    var t := Strip(line);
    var k := |Match(t).value.file|;
    var b, c, e, g := TailAtPieces(t, k);
    assert t[k + 1..b][0] == t[k + 1];
  }

  /** Every line that yields a record contains the text `warning:`. */
  lemma ParseNeedsKeyword(line: string)
    requires Parse(line).Some?
    ensures exists p: nat :: OccursAt(line, Keyword, p)
  {
    var t := Strip(line);
    assert Match(t).Some?;
    var c := MatchKeywordAt(t);
    var i := StripSurrounded(line);
    OccursInSlice(line, i, t, Keyword, c);
    assert OccursAt(line, Keyword, i + c);
  }

  /** Where a matched text holds the text `warning:`. */
  lemma MatchKeywordAt(t: string) returns (c: nat)
    requires Match(t).Some?
    ensures OccursAt(t, Keyword, c)
  {
    var k := |Match(t).value.file|;
    var b, e, g;
    b, c, e, g := TailAtPieces(t, k);
  }

  /** What occurs in a slice occurs in the whole text, shifted by the slice's start. */
  lemma OccursInSlice(s: string, i: nat, t: string, sub: string, c: nat)
    requires i + |t| <= |s| && s[i..i + |t|] == t && OccursAt(t, sub, c)
    ensures OccursAt(s, sub, i + c)
  {
    SliceOfSlice(s, i, i + |t|, c, c + |sub|);
  }

  /** A line without the case-sensitive text `warning:` never yields a record. */
  lemma NoKeywordNoWarning(line: string)
    requires forall p: nat :: !OccursAt(line, Keyword, p)
    ensures Parse(line) == None
  {
    if Parse(line).Some? {
      ParseNeedsKeyword(line);
    }
  }

  /** Surrounding whitespace does not matter: padding a line with whitespace,
      or stripping it first, gives the same result. */
  lemma ParseIgnoresPadding(a: string, line: string, b: string)
    requires AllOf(a, IsSpace) && AllOf(b, IsSpace)
    ensures Parse(a + line + b) == Parse(line)
    ensures Parse(Strip(line)) == Parse(line)
  {
    StripPadding(a, line, b);
    StripIdempotent(line);
  }
}
