/** The line filter of the command-line wrapper's JSON mode: it keeps the lines of the
    numbering table that neither start with '#' nor are blank after trimming, untrimmed
    and in their original order. */
module LineFilter {
  import opened Strings

  /** A line survives the filter: it does not start with '#' and is not empty or
      whitespace-only. Whitespace before a '#' does not make the line a comment. */
  predicate IsKept(line: string)
  {
    !(StartsWithChar(line, '#') || |Trim(line)| == 0)
  }

  /** The lines the filter keeps, in order. */
  function Filtered(lines: seq<string>): (r: seq<string>)
    ensures |r| <= |lines|
    ensures forall k :: 0 <= k < |r| ==> IsKept(r[k]) && r[k] in lines
    decreases |lines|
  {
    if |lines| == 0 then []
    else
      var line := lines[|lines| - 1];
      Filtered(lines[..|lines| - 1]) + (if IsKept(line) then [line] else [])
  }

  /** The filtering loop: each line is tested and, when kept, pushed onto the results. */
  method FilterLines(lines: seq<string>) returns (results: seq<string>)
    ensures results == Filtered(lines)
  {
    results := [];
    for i := 0 to |lines|
      invariant results == Filtered(lines[..i])
    {
      assert lines[..i + 1][..i] == lines[..i];
      var line := lines[i];
      if StartsWithChar(line, '#') || |Trim(line)| == 0 {
        continue;
      }
      results := results + [line];
    }
    assert lines[..|lines|] == lines;
  }

  /** The indices of the kept lines: strictly increasing, in range, one per output
      line. */
  function KeptIndices(lines: seq<string>): (ix: seq<nat>)
    ensures |ix| == |Filtered(lines)|
    ensures forall k :: 0 <= k < |ix| ==> ix[k] < |lines|
    ensures forall k, m :: 0 <= k < m < |ix| ==> ix[k] < ix[m]
    decreases |lines|
  {
    if |lines| == 0 then []
    else
      var n := |lines| - 1;
      KeptIndices(lines[..n]) + (if IsKept(lines[n]) then [n] else [])
  }

  /** The k-th output line is the input line at the k-th kept index. */
  lemma {:induction false} FilteredAtKeptIndices(lines: seq<string>)
    ensures forall k :: 0 <= k < |KeptIndices(lines)| ==> Filtered(lines)[k] == lines[KeptIndices(lines)[k]]
    decreases |lines|
  {
    if |lines| > 0 {
      var n := |lines| - 1;
      var prefix := lines[..n];
      FilteredAtKeptIndices(prefix);
      var ix := KeptIndices(lines);
      var ixp := KeptIndices(prefix);
      var out := Filtered(lines);
      forall k | 0 <= k < |ix| ensures out[k] == lines[ix[k]] {
        if k < |ixp| {
          assert out[k] == Filtered(prefix)[k];
          assert ix[k] == ixp[k];
          assert lines[ix[k]] == prefix[ixp[k]];
        }
      }
    }
  }

  /** An index is among the kept indices exactly when its line is kept: the output
      leaves out no kept line and takes in no other. */
  lemma {:induction false} KeptIndicesAreTheKeptLines(lines: seq<string>, j: nat)
    requires j < |lines|
    ensures IsKept(lines[j]) <==> j in KeptIndices(lines)
    decreases |lines|
  {
    var n := |lines| - 1;
    var prefix := lines[..n];
    if j < n {
      KeptIndicesAreTheKeptLines(prefix, j);
      assert lines[j] == prefix[j];
      assert j in KeptIndices(lines) <==> j in KeptIndices(prefix);
    } else {
      assert n !in KeptIndices(prefix);
    }
  }

  /** Filtering distributes over concatenation. */
  lemma {:induction false} FilteredOfConcat(a: seq<string>, b: seq<string>)
    ensures Filtered(a + b) == Filtered(a) + Filtered(b)
    decreases |b|
  {
    if |b| == 0 {
      assert a + b == a;
    } else {
      var n := |b| - 1;
      var line := b[n];
      var tail := if IsKept(line) then [line] else [];
      FilteredOfConcat(a, b[..n]);
      SplitLast(a, b);
      FilteredAppend(a + b[..n], line);
      FilteredAppend(b[..n], line);
      ConcatAssociates(Filtered(a), Filtered(b[..n]), tail);
    }
  }

  /** A non-empty list is its prefix followed by its last line, also after a prefix. */
  lemma SplitLast(a: seq<string>, b: seq<string>)
    requires |b| > 0
    ensures a + b == (a + b[..|b| - 1]) + [b[|b| - 1]]
    ensures b == b[..|b| - 1] + [b[|b| - 1]]
  {
  }

  /** Concatenation of line lists is associative. */
  lemma ConcatAssociates(x: seq<string>, y: seq<string>, z: seq<string>)
    ensures (x + y) + z == x + (y + z)
  {
  }

  /** Every line of the output is kept, so filtering the output again changes nothing. */
  lemma {:induction false} FilterIsIdempotent(lines: seq<string>)
    ensures Filtered(Filtered(lines)) == Filtered(lines)
    decreases |lines|
  {
    if |lines| > 0 {
      var n := |lines| - 1;
      var line := lines[n];
      FilterIsIdempotent(lines[..n]);
      FilteredOfConcat(Filtered(lines[..n]), if IsKept(line) then [line] else []);
      if IsKept(line) {
        assert [line][..0] == [];
      }
    }
  }

  /** Filtering one more line appends it exactly when it is kept. */
  lemma FilteredAppend(prefix: seq<string>, line: string)
    ensures Filtered(prefix + [line]) == Filtered(prefix) + (if IsKept(line) then [line] else [])
  {
    assert (prefix + [line])[..|prefix|] == prefix;
  }

  /** A line that does not start with '#' and holds a non-whitespace character is kept. */
  lemma KeptByWitness(line: string, k: nat)
    requires k < |line| && line[0] != '#' && !IsWhitespace(line[k])
    ensures IsKept(line)
  {
  }

  /** Whitespace before a '#' does not make a line a comment: the line is kept, and
      kept untrimmed. */
  lemma IndentedHashLineIsKept(indent: string, rest: string)
    requires |indent| > 0 && AllWhitespace(indent)
    ensures IsKept(indent + "#" + rest)
    ensures Filtered([indent + "#" + rest]) == [indent + "#" + rest]
  {
    var line := indent + "#" + rest;
    assert line[|indent|] == '#';
    KeptByWitness(line, |indent|);
    FilteredAppend([], line);
    assert [] + [line] == [line];
  }

  /** A line starting with '#' and an empty or whitespace-only line are dropped. */
  lemma CommentAndBlankLinesAreDropped(line: string)
    requires StartsWithChar(line, '#') || AllWhitespace(line)
    ensures !IsKept(line)
    ensures Filtered([line]) == []
  {
    FilteredAppend([], line);
    assert [] + [line] == [line];
  }
}
