/** The parse of the numbering tool's output table: every row that survives the skip
    rules contributes one residue, keyed by its chain label and its IMGT position,
    to a nested map; a later row for the same chain and position overwrites an
    earlier one. */
module NumberingTable {
  import opened Wrappers
  import opened Strings

  /** Sparse map from IMGT position to one-letter residue code, for one chain. */
  type PositionMap = map<nat, char>

  /** Map from chain label to that chain's position map. */
  type ChainNumbering = map<string, PositionMap>

  /** One parsed row: chain label, position and residue. */
  datatype Entry = Entry(chain: string, position: nat, residue: char)

  /** The residue used when the third field has no first character. */
  const DefaultResidue: char := '-'

  /** The row handling of one table line, in the order the program applies its tests:
      trimmed line empty or a `#` comment, fewer than three fields, a second field
      that is not a `usize`. */
  function ParseRow(line: string): (r: Option<Entry>)
    ensures var t := Trim(line); var parts := SplitWhitespace(t);
            r.Some? <==> (|t| > 0 && !StartsWithChar(t, '#') && |parts| >= 3 && ParseUsize(parts[1]).Some?)
    ensures var parts := SplitWhitespace(Trim(line));
            r.Some? ==> |parts| >= 3 && r.value == Entry(parts[0], ParseUsize(parts[1]).value, parts[2][0])
    ensures r.Some? ==> IsWord(r.value.chain) && r.value.position <= UsizeMax
    ensures r.Some? ==> !IsWhitespace(r.value.residue)
  {
    var trimmed := Trim(line);
    if |trimmed| == 0 || StartsWithChar(trimmed, '#') then None
    else
      var parts := SplitWhitespace(trimmed);
      if |parts| < 3 then None
      else match ParseUsize(parts[1])
        case None => None
        case Some(pos) =>
          Some(Entry(parts[0], pos, if |parts[2]| > 0 then parts[2][0] else DefaultResidue))
  }

  /** `chains.entry(chain).or_insert_with(HashMap::new).insert(position, residue)`:
      sets exactly one position of one chain and leaves every other entry as it was. */
  function Insert(chains: ChainNumbering, e: Entry): (r: ChainNumbering)
    ensures r.Keys == chains.Keys + {e.chain}
    ensures r[e.chain].Keys == (if e.chain in chains then chains[e.chain].Keys else {}) + {e.position}
    ensures r[e.chain][e.position] == e.residue
    ensures forall p :: p in r[e.chain] && p != e.position ==> r[e.chain][p] == chains[e.chain][p]
    ensures forall c :: c in chains && c != e.chain ==> r[c] == chains[c]
  {
    var inner := if e.chain in chains then chains[e.chain] else map[];
    chains[e.chain := inner[e.position := e.residue]]
  }

  /** One step of the fold: a skipped row changes nothing, a valid row is inserted. */
  function Apply(chains: ChainNumbering, row: Option<Entry>): ChainNumbering
  {
    match row
    case None => chains
    case Some(e) => Insert(chains, e)
  }

  /** The nested map after folding the parsed rows in order. */
  function Fold(rows: seq<Option<Entry>>): ChainNumbering
    decreases |rows|
  {
    if |rows| == 0 then map[] else Apply(Fold(rows[..|rows| - 1]), rows[|rows| - 1])
  }

  /** Every line parsed on its own. */
  function Rows(lines: seq<string>): (rows: seq<Option<Entry>>)
    ensures |rows| == |lines|
    ensures forall j :: 0 <= j < |lines| ==> rows[j] == ParseRow(lines[j])
  {
    seq(|lines|, j requires 0 <= j < |lines| => ParseRow(lines[j]))
  }

  /** The nested map the parse builds from all of `lines`. */
  function Table(lines: seq<string>): ChainNumbering
  {
    Fold(Rows(lines))
  }

  /** The parse loop. */
  method ParseNumbering(lines: seq<string>) returns (chains: ChainNumbering)
    ensures chains == Table(lines)
  {
    ghost var rows := Rows(lines);
    chains := map[];
    for i := 0 to |lines|
      invariant chains == Fold(rows[..i])
    {
      FoldOneMore(rows, i);
      var line := Trim(lines[i]);
      if |line| == 0 || StartsWithChar(line, '#') {
        assert rows[i] == None;
        continue;
      }
      var parts := SplitWhitespace(line);
      if |parts| < 3 {
        assert rows[i] == None;
        continue;
      }
      var chain := parts[0];
      var pos: nat;
      match ParseUsize(parts[1]) {
        case None =>
          assert rows[i] == None;
          continue;
        case Some(n) => pos := n;
      }
      var aa := if |parts[2]| > 0 then parts[2][0] else DefaultResidue;
      assert rows[i] == Some(Entry(chain, pos, aa));
      var inner: PositionMap := if chain in chains then chains[chain] else map[];
      chains := chains[chain := inner[pos := aa]];
    }
    assert rows[..|lines|] == rows;
  }

  /** Row `j` is a valid row for `chain` and `position`. */
  predicate Writes(rows: seq<Option<Entry>>, j: int, chain: string, position: nat)
  {
    0 <= j < |rows| && rows[j].Some? && rows[j].value.chain == chain && rows[j].value.position == position
  }

  /** Row `j` is a valid row for `chain`. */
  predicate Mentions(rows: seq<Option<Entry>>, j: int, chain: string)
  {
    0 <= j < |rows| && rows[j].Some? && rows[j].value.chain == chain
  }

  /** The residue of a valid row is the first character of its third field, so the
      default `'-'` of `unwrap_or` is never taken. */
  lemma ResidueIsFirstCharOfThirdField(line: string)
    requires ParseRow(line).Some?
    ensures var parts := SplitWhitespace(Trim(line));
            |parts| >= 3 && |parts[2]| > 0 && ParseRow(line).value.residue == parts[2][0]
  {
  }

  /** Blank lines (whitespace only) and lines whose trimmed form starts with `#` are
      skipped; so is a line with a `#` after leading whitespace. */
  lemma BlankAndCommentLinesAreSkipped(line: string)
    requires AllWhitespace(line) || StartsWithChar(Trim(line), '#')
    ensures ParseRow(line) == None
  {
  }

  /** Rows with fewer than three fields, or whose second field is not a `usize`, are
      skipped. */
  lemma MalformedRowsAreSkipped(line: string)
    requires var parts := SplitWhitespace(Trim(line));
             |parts| < 3 || ParseUsize(parts[1]).None?
    ensures ParseRow(line) == None
  {
  }

  /** A skipped row changes nothing, whatever comes before and after it. */
  lemma {:induction false} SkippedRowIsInvisible(before: seq<Option<Entry>>, after: seq<Option<Entry>>)
    ensures Fold(before + [None] + after) == Fold(before + after)
    decreases |after|
  {
    if |after| == 0 {
      assert before + [None] + after == before + [None];
      assert (before + [None])[..|before|] == before;
      assert before + after == before;
    } else {
      var n := |after| - 1;
      SkippedRowIsInvisible(before, after[..n]);
      assert (before + [None] + after)[..|before| + 1 + n] == before + [None] + after[..n];
      assert (before + after)[..|before| + n] == before + after[..n];
    }
  }

  /** Parsing lines one by one commutes with concatenation. */
  lemma RowsOfConcat(a: seq<string>, b: seq<string>)
    ensures Rows(a + b) == Rows(a) + Rows(b)
  {
    var left, right := Rows(a + b), Rows(a) + Rows(b);
    forall j | 0 <= j < |a + b| ensures left[j] == right[j] {
      if j < |a| {
        assert (a + b)[j] == a[j];
      } else {
        assert (a + b)[j] == b[j - |a|];
      }
    }
  }

  /** A blank, comment or malformed line changes nothing, whatever lines come before
      and after it. */
  lemma SkippedLineIsInvisible(before: seq<string>, line: string, after: seq<string>)
    requires ParseRow(line).None?
    ensures Table(before + [line] + after) == Table(before + after)
  {
    RowsOfConcat(before, [line]);
    RowsOfConcat(before + [line], after);
    RowsOfConcat(before, after);
    assert Rows([line]) == [None];
    SkippedRowIsInvisible(Rows(before), Rows(after));
  }

  /** Folding one more row is one more `Apply`. */
  lemma FoldOneMore(rows: seq<Option<Entry>>, i: nat)
    requires i < |rows|
    ensures Fold(rows[..i + 1]) == Apply(Fold(rows[..i]), rows[i])
  {
    assert rows[..i + 1][..i] == rows[..i];
  }

  /** After `i` rows, the chains present are those named by a valid row. */
  lemma {:induction false} ChainsAreThoseOfValidRows(rows: seq<Option<Entry>>, i: nat, chain: string)
    requires i <= |rows|
    ensures chain in Fold(rows[..i]) <==> exists j :: j < i && Mentions(rows, j, chain)
    decreases i
  {
    if i > 0 {
      ChainsAreThoseOfValidRows(rows, i - 1, chain);
      FoldOneMore(rows, i - 1);
      if !Mentions(rows, i - 1, chain) {
        if j :| j < i && Mentions(rows, j, chain) {
          assert j < i - 1;
        }
      }
    }
  }

  /** After `i` rows, a position of a chain is present exactly when a valid row wrote
      it. */
  lemma {:induction false} PositionsAreThoseOfValidRows(rows: seq<Option<Entry>>, i: nat, chain: string, position: nat)
    requires i <= |rows|
    ensures (chain in Fold(rows[..i]) && position in Fold(rows[..i])[chain])
            <==> exists j :: j < i && Writes(rows, j, chain, position)
    decreases i
  {
    if i > 0 {
      PositionsAreThoseOfValidRows(rows, i - 1, chain, position);
      FoldOneMore(rows, i - 1);
      if !Writes(rows, i - 1, chain, position) {
        if j :| j < i && Writes(rows, j, chain, position) {
          assert j < i - 1;
        }
      }
    }
  }

  /** After `i` rows, the residue at a chain's position is that of the last valid row
      for that chain and position. */
  lemma {:induction false} LastWriteWinsUpTo(rows: seq<Option<Entry>>, i: nat, j: nat, chain: string, position: nat)
    requires j < i <= |rows|
    requires Writes(rows, j, chain, position)
    requires forall k :: j < k < i ==> !Writes(rows, k, chain, position)
    ensures chain in Fold(rows[..i]) && position in Fold(rows[..i])[chain]
    ensures Fold(rows[..i])[chain][position] == rows[j].value.residue
    decreases i
  {
    FoldOneMore(rows, i - 1);
    if j < i - 1 {
      LastWriteWinsUpTo(rows, i - 1, j, chain, position);
      assert !Writes(rows, i - 1, chain, position);
    }
  }

  /** Last write wins: the table holds a residue for a chain and position exactly when
      some valid line wrote that chain and position, and it is the residue of the last
      such line. */
  lemma LastWriteWins(lines: seq<string>, chain: string, position: nat)
    ensures var t := Table(lines);
            (chain in t && position in t[chain]) <==> exists j :: Writes(Rows(lines), j, chain, position)
    ensures forall j :: Writes(Rows(lines), j, chain, position)
                        && (forall k :: j < k < |lines| ==> !Writes(Rows(lines), k, chain, position)) ==>
              Table(lines)[chain][position] == ParseRow(lines[j]).value.residue
  {
    var rows := Rows(lines);
    assert rows[..|rows|] == rows;
    PositionsAreThoseOfValidRows(rows, |rows|, chain, position);
    forall j | Writes(rows, j, chain, position) && (forall k :: j < k < |lines| ==> !Writes(rows, k, chain, position))
      ensures Table(lines)[chain][position] == ParseRow(lines[j]).value.residue
    {
      LastWriteWinsUpTo(rows, |rows|, j, chain, position);
    }
  }

  /** The chains in the table are exactly the first fields of the valid lines. */
  lemma ChainsOfTable(lines: seq<string>, chain: string)
    ensures chain in Table(lines) <==> exists j :: Mentions(Rows(lines), j, chain)
  {
    var rows := Rows(lines);
    assert rows[..|rows|] == rows;
    ChainsAreThoseOfValidRows(rows, |rows|, chain);
  }
}
