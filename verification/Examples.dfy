/** Concrete log lines and the records `parse_doxygen_warning` makes of them. */
module Examples {
  import opened Wrappers
  import opened Text
  import opened WarningParser

  /** A line with no whitespace at either end strips to itself. */
  lemma StripsToItself(l: string)
    requires l != [] && !IsSpace(l[0]) && !IsSpace(l[|l| - 1])
    ensures Strip(l) == l
  {
    assert SurroundedBySpace(l, 0, l);
    StripUnique(l, 0, l);
  }

  /** No colon followed by a digit stands after position `k` of `l`. */
  predicate NoColonDigitAfter(l: string, k: nat)
  {
    forall j :: k < j < |l| - 1 ==> !(l[j] == ':' && IsDigit(l[j + 1]))
  }

  /** A stripped line in the pattern's shape, with no colon and digit after the
      file `f` and a message that begins with no whitespace, yields exactly the
      record `f`, `d`, `m`. */
  lemma OnlyReading(l: string, f: string, d: string, w1: string, w2: string, m: string)
    requires l != [] && !IsSpace(l[0]) && !IsSpace(l[|l| - 1])
    requires IsWarningShape(l, f, d, w1, w2, m)
    requires m == [] || !IsSpace(m[0])
    requires NoColonDigitAfter(l, |f|)
    ensures Parse(l) == Some(Warning(f, d, m))
  {
    StripsToItself(l);
    ParseIsGreedy(l, f, d, w1, w2, m);
    FileEndsBeforeColonDigit(l);
  }

  const UnusedLine: string := "src/foo.cpp:42: warning: unused variable 'x'"

  /* Each example below rests on three small facts about its line: it splits
     into the pattern's pieces (Composes), the pieces are in their classes
     (Shape), and no colon and digit follow the file (Colons). Each fact is a
     lemma of its own because proving them together on a literal line makes
     the solver's work several times larger. */

  lemma UnusedLineComposes()
    ensures Composes(UnusedLine, "src/foo.cpp", "42", " ", " ", "unused variable 'x'")
  {
  }

  lemma UnusedLineShape()
    ensures IsWarningShape(UnusedLine, "src/foo.cpp", "42", " ", " ", "unused variable 'x'")
  {
    UnusedLineComposes();
  }

  lemma UnusedLineColons()
    ensures NoColonDigitAfter(UnusedLine, 11)
  {
  }

  /** The typical Doxygen warning line. */
  lemma UnusedVariable()
    ensures Parse(UnusedLine) == Some(Warning("src/foo.cpp", "42", "unused variable 'x'"))
  {
    UnusedLineShape();
    UnusedLineColons();
    OnlyReading(UnusedLine, "src/foo.cpp", "42", " ", " ", "unused variable 'x'");
  }

  const BareLine: string := "a:1: warning:"

  lemma BareLineComposes()
    ensures Composes(BareLine, "a", "1", " ", "", "")
  {
  }

  lemma BareLineShape()
    ensures IsWarningShape(BareLine, "a", "1", " ", "", "")
  {
    BareLineComposes();
  }

  lemma BareLineColons()
    ensures NoColonDigitAfter(BareLine, 1)
  {
  }

  /** The message may be empty. */
  lemma EmptyMessage()
    ensures Parse(BareLine) == Some(Warning("a", "1", ""))
  {
    BareLineShape();
    BareLineColons();
    OnlyReading(BareLine, "a", "1", " ", "", "");
  }

  const NoFileLine: string := ":3: warning: x"
  const PaddedNoFileLine: string := "  :3: warning: x\n"

  lemma NoFileLineComposes()
    ensures Composes(NoFileLine, "", "3", " ", " ", "x")
  {
  }

  lemma NoFileLineShape()
    ensures IsWarningShape(NoFileLine, "", "3", " ", " ", "x")
  {
    NoFileLineComposes();
  }

  lemma NoFileLineColons()
    ensures NoColonDigitAfter(NoFileLine, 0)
  {
  }

  /** Two spaces before a line and the line feed that reading a text file
      leaves after it do not change its record. */
  lemma IndentAndNewlineIgnored(l: string)
    ensures Parse("  " + l + "\n") == Parse(l)
  {
    ParseIgnoresPadding("  ", l, "\n");
  }

  /** The file may be empty. */
  lemma EmptyFile()
    ensures Parse(NoFileLine) == Some(Warning("", "3", "x"))
  {
    NoFileLineShape();
    NoFileLineColons();
    OnlyReading(NoFileLine, "", "3", " ", " ", "x");
  }

  /** Whitespace around a line does not matter. */
  lemma PaddedLine()
    ensures Parse(PaddedNoFileLine) == Some(Warning("", "3", "x"))
  {
    assert PaddedNoFileLine == "  " + NoFileLine + "\n";
    IndentAndNewlineIgnored(NoFileLine);
    EmptyFile();
  }

  const NestedLine: string := "a.c:1: warning: see b.c:2: warning: x"

  lemma NestedLineComposes()
    ensures Composes(NestedLine, "a.c:1: warning: see b.c", "2", " ", " ", "x")
  {
  }

  lemma NestedLineShape()
    ensures IsWarningShape(NestedLine, "a.c:1: warning: see b.c", "2", " ", " ", "x")
  {
    NestedLineComposes();
  }

  lemma NestedLineColons()
    ensures NoColonDigitAfter(NestedLine, 23)
  {
  }

  /** Group 1 is greedy: when the message itself reads like a warning, the file
      runs up to the last place where the rest of the pattern still matches. */
  lemma GreedyFile()
    ensures Parse(NestedLine) == Some(Warning("a.c:1: warning: see b.c", "2", "x"))
  {
    NestedLineShape();
    NestedLineColons();
    OnlyReading(NestedLine, "a.c:1: warning: see b.c", "2", " ", " ", "x");
  }

  const NoteLine: string := "note: this is just a note"

  /** A line without `warning:` yields nothing. */
  lemma NoteIsSkipped()
    ensures Parse(NoteLine) == None
  {
    forall p: nat ensures !OccursAt(NoteLine, Keyword, p) {
      if p + |Keyword| <= |NoteLine| {
        assert NoteLine[p..p + |Keyword|][0] == NoteLine[p] != 'w';
      }
    }
    NoKeywordNoWarning(NoteLine);
  }
}
