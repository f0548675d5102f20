/** `process_warnings_file` without its file handling: the lines of the log
    go in, the text of the CSV file and the number of records come out. */
module LogProcessor {
  import opened Wrappers
  import opened WarningParser
  import opened Csv

  /** Keeps, in order, the value `f` gives for each element it gives one for:
      the shape of the loop that appends every result that is not `None`. */
  function FilterMap<A, B>(xs: seq<A>, f: A -> Option<B>): seq<B>
  {
    if xs == [] then []
    else
      var before := FilterMap(xs[..|xs| - 1], f);
      match f(xs[|xs| - 1])
      case Some(y) => before + [y]
      case None => before
  }

  /** The positions of the elements `f` gives a value for. */
  function Hits<A, B>(xs: seq<A>, f: A -> Option<B>): set<nat>
  {
    set i: nat | i < |xs| && f(xs[i]).Some?
  }

  /** `ys` lists, in order, the values `f` gives at the strictly increasing
      positions `idx` of `xs`, and those positions are all of its hits. */
  ghost predicate SelectsInOrder<A, B>(xs: seq<A>, f: A -> Option<B>, ys: seq<B>, idx: seq<nat>)
  {
    |idx| == |ys| &&
    (forall j :: 0 <= j < |idx| ==> idx[j] < |xs| && f(xs[idx[j]]) == Some(ys[j])) &&
    (forall j, j' :: 0 <= j < j' < |idx| ==> idx[j] < idx[j']) &&
    (forall i :: 0 <= i < |xs| && f(xs[i]).Some? ==> i in idx)
  }

  /** Elements are handled independently: filter-mapping two pieces and
      joining the results is filter-mapping the whole. */
  lemma {:induction false} FilterMapAppend<A, B>(xs: seq<A>, zs: seq<A>, f: A -> Option<B>)
    ensures FilterMap(xs + zs, f) == FilterMap(xs, f) + FilterMap(zs, f)
    decreases |zs|
  {
    if zs != [] {
      var zs' := zs[..|zs| - 1];
      assert (xs + zs)[..|xs + zs| - 1] == xs + zs';
      assert (xs + zs)[|xs + zs| - 1] == zs[|zs| - 1];
      FilterMapAppend(xs, zs', f);
    } else {
      assert xs + zs == xs;
    }
  }

  /** A selection from `xs` stays one when an element `f` gives a value for is
      appended to `xs` and its value to the selection. */
  lemma SelectsExtendHit<A, B>(xs: seq<A>, f: A -> Option<B>, ys: seq<B>, idx: seq<nat>)
    requires |xs| > 0 && f(xs[|xs| - 1]).Some?
    requires SelectsInOrder(xs[..|xs| - 1], f, ys, idx)
    ensures SelectsInOrder(xs, f, ys + [f(xs[|xs| - 1]).value], idx + [|xs| - 1])
  {
    var n := |xs| - 1;
    var init := xs[..n];
    var ys', idx' := ys + [f(xs[n]).value], idx + [n];
    forall j | 0 <= j < |idx'|
      ensures idx'[j] < |xs| && f(xs[idx'[j]]) == Some(ys'[j])
    {
      if j < |idx| { assert idx'[j] == idx[j] && ys'[j] == ys[j] && xs[idx[j]] == init[idx[j]]; }
    }
    forall j, j' | 0 <= j < j' < |idx'| ensures idx'[j] < idx'[j'] {
      if j' < |idx| { assert idx'[j] == idx[j] && idx'[j'] == idx[j']; }
    }
    forall i | 0 <= i < |xs| && f(xs[i]).Some? ensures i in idx' {
      if i < n {
        assert f(init[i]).Some?;
        var j :| 0 <= j < |idx| && idx[j] == i;
        assert idx'[j] == i;
      } else {
        assert idx'[|idx|] == i;
      }
    }
  }

  /** A selection from `xs` stays one when an element `f` gives no value for is
      appended to `xs`. */
  lemma SelectsExtendMiss<A, B>(xs: seq<A>, f: A -> Option<B>, ys: seq<B>, idx: seq<nat>)
    requires |xs| > 0 && f(xs[|xs| - 1]).None?
    requires SelectsInOrder(xs[..|xs| - 1], f, ys, idx)
    ensures SelectsInOrder(xs, f, ys, idx)
  {
    var n := |xs| - 1;
    var init := xs[..n];
    forall j | 0 <= j < |idx| ensures idx[j] < |xs| && f(xs[idx[j]]) == Some(ys[j]) {
      assert xs[idx[j]] == init[idx[j]];
    }
    forall i | 0 <= i < |xs| && f(xs[i]).Some? ensures i in idx {
      assert i != n;
      assert f(init[i]).Some?;
    }
  }

  /** FilterMap keeps exactly the values of the hits, in the order of the hits. */
  lemma {:induction false} FilterMapSelectsInOrder<A, B>(xs: seq<A>, f: A -> Option<B>)
    ensures exists idx :: SelectsInOrder(xs, f, FilterMap(xs, f), idx)
    decreases |xs|
  {
    if xs == [] {
      var none: seq<nat> := [];
      assert SelectsInOrder(xs, f, FilterMap(xs, f), none);
    } else {
      var n := |xs| - 1;
      FilterMapSelectsInOrder(xs[..n], f);
      var before := FilterMap(xs[..n], f);
      var idx: seq<nat> :| SelectsInOrder(xs[..n], f, before, idx);
      if f(xs[n]).Some? {
        SelectsExtendHit(xs, f, before, idx);
        assert SelectsInOrder(xs, f, FilterMap(xs, f), idx + [n]);
      } else {
        SelectsExtendMiss(xs, f, before, idx);
        assert SelectsInOrder(xs, f, FilterMap(xs, f), idx);
      }
    }
  }

  /** FilterMap keeps one value per hit. */
  lemma {:induction false} FilterMapCount<A, B>(xs: seq<A>, f: A -> Option<B>)
    ensures |FilterMap(xs, f)| == |Hits(xs, f)|
    decreases |xs|
  {
    if xs != [] {
      var n := |xs| - 1;
      var init := xs[..n];
      FilterMapCount(init, f);
      var added := if f(xs[n]).Some? then {n} else {};
      assert Hits(xs, f) == Hits(init, f) + added;
      assert n !in Hits(init, f);
    } else {
      assert Hits(xs, f) == {};
    }
  }

  /** The records collected from the lines of a log: the parse result of every
      line that yields one, in input order. */
  function Collect(lines: seq<string>): seq<Warning>
  {
    FilterMap(lines, Parse)
  }

  /** The positions of the lines that yield a record. */
  function MatchingLines(lines: seq<string>): set<nat>
  {
    Hits(lines, Parse)
  }

  /** `process_warnings_file(input_file, output_file)` with the input file given
      as its lines and the output file returned as its text: the loop appends
      each parse result that is not `None`, the records are written as CSV,
      and the number of records is returned. */
  method ProcessWarningsFile(lines: seq<string>) returns (csv: string, count: nat)
    ensures csv == CsvText(Collect(lines))
    ensures count == |Collect(lines)| && count == |MatchingLines(lines)|
  {
    var warnings: seq<Warning> := [];
    for i := 0 to |lines|
      invariant warnings == Collect(lines[..i])
    {
      var result := Parse(lines[i]);
      if result.Some? {
        warnings := warnings + [result.value];
      }
      assert lines[..i + 1][..i] == lines[..i];
    }
    assert lines[..|lines|] == lines;
    FilterMapCount(lines, Parse);
    csv := CsvText(warnings);
    count := |warnings|;
  }

  /** An empty log gives a file holding only the header row, and a count of 0. */
  lemma EmptyLogWritesHeaderOnly()
    ensures Collect([]) == [] && |MatchingLines([])| == 0
    ensures CsvText(Collect([])) == "file,line,message\r\n"
  {
    assert MatchingLines([]) == {};
    HeaderOnlyText();
  }
}
