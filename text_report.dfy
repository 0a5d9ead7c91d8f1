/** The human-readable output of the CDR extraction program: for each result entry a
    `[identifier]` line, one `cdrN: sequence` line for each of cdr1, cdr2 and cdr3
    that the entry holds, in that order, and a blank line. Lines are modelled without
    their terminating newline. */
module TextReport {
  import opened Wrappers

  /** The CDR names in the order the text output lists them. */
  const CdrNames: seq<string> := ["cdr1", "cdr2", "cdr3"]

  function CdrLine(name: string, cdr: string): string
  {
    name + ": " + cdr
  }

  function HeaderLine(id: string): string
  {
    "[" + id + "]"
  }

  /** What an entry lists: a (name, sequence) pair for each name of `names` that `cdrs`
      holds, in the order of `names`. */
  function Held(names: seq<string>, cdrs: map<string, string>): (h: seq<(string, string)>)
    ensures |h| <= |names|
    ensures forall k :: 0 <= k < |h| ==> h[k].0 in names && h[k].0 in cdrs && h[k].1 == cdrs[h[k].0]
    decreases |names|
  {
    if |names| == 0 then []
    else (if names[0] in cdrs then [(names[0], cdrs[names[0]])] else []) + Held(names[1..], cdrs)
  }

  /** The inner print loop: a `name: sequence` line for each name of `names` that `cdrs`
      holds, in order, and nothing for the others. */
  function CdrLines(names: seq<string>, cdrs: map<string, string>): (lines: seq<string>)
    ensures |lines| == |Held(names, cdrs)|
    ensures forall k :: 0 <= k < |lines| ==> lines[k] == CdrLine(Held(names, cdrs)[k].0, Held(names, cdrs)[k].1)
    decreases |names|
  {
    if |names| == 0 then []
    else (if names[0] in cdrs then [CdrLine(names[0], cdrs[names[0]])] else []) + CdrLines(names[1..], cdrs)
  }

  /** The text block of one result entry: its header, one line per CDR it holds, in
      the order cdr1, cdr2, cdr3, and a blank line. */
  function RenderEntry(id: string, cdrs: map<string, string>): (lines: seq<string>)
    ensures |lines| == 2 + |Held(CdrNames, cdrs)|
    ensures lines[0] == HeaderLine(id) && lines[|lines| - 1] == ""
    ensures forall k :: 0 <= k < |Held(CdrNames, cdrs)| ==>
      lines[k + 1] == CdrLine(Held(CdrNames, cdrs)[k].0, Held(CdrNames, cdrs)[k].1)
  {
    [HeaderLine(id)] + CdrLines(CdrNames, cdrs) + [""]
  }

  /** The blocks of the entries of `order`, one after the other. */
  function RenderEntries(order: seq<string>, results: map<string, map<string, string>>): seq<string>
    requires forall k :: k in order ==> k in results
    decreases |order|
  {
    if |order| == 0 then []
    else RenderEntry(order[0], results[order[0]]) + RenderEntries(order[1..], results)
  }

  /** `order` lists every key of `results` exactly once, as iterating over the hash map
      does. */
  predicate IsIterationOrder(order: seq<string>, results: map<string, map<string, string>>)
  {
    && (forall i, j :: 0 <= i < j < |order| ==> order[i] != order[j])
    && (forall k :: k in order ==> k in results)
    && (forall k :: k in results ==> k in order)
  }

  /** The whole text output. The program prints the entries in the iteration order of
      its hash map, which is unspecified, so the order is a parameter: any order that
      lists every entry once. Reading the output back gives each entry, in that order,
      with the CDRs it lists. */
  function RenderReport(order: seq<string>, results: map<string, map<string, string>>): (lines: seq<string>)
    requires IsIterationOrder(order, results)
    ensures var d := DecodeReport(lines);
            && d.Some? && |d.value| == |order|
            && forall i :: 0 <= i < |order| ==> d.value[i] == (order[i], Held(CdrNames, results[order[i]]))
  {
    EntriesRoundTrip(order, results);
    RenderEntries(order, results)
  }

  // ---------------------------------------------------------------------------
  // Reading the text output back
  // ---------------------------------------------------------------------------

  function DecodeHeader(line: string): Option<string>
  {
    if |line| >= 2 && line[0] == '[' && line[|line| - 1] == ']' then Some(line[1..|line| - 1]) else None
  }

  function DecodeCdrLine(line: string): Option<(string, string)>
  {
    if |line| >= 6 && line[..4] in CdrNames && line[4..6] == ": " then Some((line[..4], line[6..])) else None
  }

  function DecodeCdrLines(lines: seq<string>): Option<seq<(string, string)>>
    decreases |lines|
  {
    if |lines| == 0 then Some([])
    else match DecodeCdrLine(lines[0])
      case None => None
      case Some(pair) =>
        match DecodeCdrLines(lines[1..])
        case None => None
        case Some(pairs) => Some([pair] + pairs)
  }

  /** Reads one text block back into the identifier and the CDRs it lists, in order. */
  function DecodeEntry(lines: seq<string>): Option<(string, seq<(string, string)>)>
  {
    if |lines| < 2 || lines[|lines| - 1] != "" then None
    else match DecodeHeader(lines[0])
      case None => None
      case Some(id) =>
        match DecodeCdrLines(lines[1..|lines| - 1])
        case None => None
        case Some(pairs) => Some((id, pairs))
  }

  /** Index of the first blank line, or `|lines|` when there is none. */
  function FirstBlank(lines: seq<string>): (k: nat)
    ensures k <= |lines|
    ensures forall i :: 0 <= i < k ==> lines[i] != ""
    ensures k < |lines| ==> lines[k] == ""
    decreases |lines|
  {
    if |lines| == 0 || lines[0] == "" then 0 else 1 + FirstBlank(lines[1..])
  }

  /** Reads a whole text output back, block by block, each block ending at a blank line. */
  function DecodeReport(lines: seq<string>): Option<seq<(string, seq<(string, string)>)>>
    decreases |lines|
  {
    if |lines| == 0 then Some([])
    else
      var k := FirstBlank(lines);
      if k == |lines| then None
      else match DecodeEntry(lines[..k + 1])
        case None => None
        case Some(entry) =>
          match DecodeReport(lines[k + 1..])
          case None => None
          case Some(entries) => Some([entry] + entries)
  }

  // ---------------------------------------------------------------------------
  // Properties
  // ---------------------------------------------------------------------------

  /** Every name of `names` that `cdrs` holds is listed. */
  lemma {:induction false} HeldIsComplete(names: seq<string>, cdrs: map<string, string>, j: nat)
    requires j < |names| && names[j] in cdrs
    ensures (names[j], cdrs[names[j]]) in Held(names, cdrs)
    decreases |names|
  {
    if j > 0 {
      HeldIsComplete(names[1..], cdrs, j - 1);
      assert names[1..][j - 1] == names[j];
    }
  }

  /** The pair of a CDR listed only when the entry holds it. */
  function PairIfHeld(name: string, cdrs: map<string, string>): seq<(string, string)>
  {
    if name in cdrs then [(name, cdrs[name])] else []
  }

  /** An entry lists its CDRs in the fixed order cdr1, cdr2, cdr3, each once and only
      when held. */
  lemma HeldLayout(cdrs: map<string, string>)
    ensures Held(CdrNames, cdrs) == PairIfHeld("cdr1", cdrs) + PairIfHeld("cdr2", cdrs) + PairIfHeld("cdr3", cdrs)
  {
    var p1, p2, p3 := PairIfHeld("cdr1", cdrs), PairIfHeld("cdr2", cdrs), PairIfHeld("cdr3", cdrs);
    assert CdrNames[1..] == ["cdr2", "cdr3"];
    assert ["cdr2", "cdr3"][1..] == ["cdr3"];
    assert ["cdr3"][1..] == [];
    assert Held(["cdr3"], cdrs) == p3 + [];
    assert Held(CdrNames, cdrs) == p1 + (p2 + (p3 + []));
    assert p1 + (p2 + (p3 + [])) == p1 + p2 + p3;
  }

  /** When the names are distinct, no name is listed twice. */
  lemma {:induction false} HeldNamesDistinct(names: seq<string>, cdrs: map<string, string>)
    requires forall i, j :: 0 <= i < j < |names| ==> names[i] != names[j]
    ensures forall i, j :: 0 <= i < j < |Held(names, cdrs)| ==> Held(names, cdrs)[i].0 != Held(names, cdrs)[j].0
    decreases |names|
  {
    if |names| > 0 {
      var rest := names[1..];
      HeldNamesDistinct(rest, cdrs);
      assert names[0] !in rest by {
        forall k | 0 <= k < |rest| ensures rest[k] != names[0] {
          assert rest[k] == names[k + 1];
        }
      }
      var head := PairIfHeld(names[0], cdrs);
      var tail := Held(rest, cdrs);
      var h := Held(names, cdrs);
      assert h == head + tail;
      assert forall a, b :: 0 <= a < b < |tail| ==> tail[a].0 != tail[b].0;
      forall i, j | 0 <= i < j < |h| ensures h[i].0 != h[j].0 {
        var m := |head|;
        assert h[j] == tail[j - m];
        if i < m {
          assert h[i] == head[0] && head[0].0 == names[0];
          assert tail[j - m].0 in rest;
        } else {
          assert h[i] == tail[i - m];
          assert tail[i - m].0 != tail[j - m].0;
        }
      }
    }
  }

  /** The line of a CDR shown only when the entry holds it. */
  function LineIfHeld(name: string, cdrs: map<string, string>): seq<string>
  {
    if name in cdrs then [CdrLine(name, cdrs[name])] else []
  }

  /** The block of any entry is its header, the line of cdr1, of cdr2 and of cdr3 for
      those it holds, in that order, and a blank line. */
  lemma EntryLayout(id: string, cdrs: map<string, string>)
    ensures RenderEntry(id, cdrs) ==
      [HeaderLine(id)] + LineIfHeld("cdr1", cdrs) + LineIfHeld("cdr2", cdrs) + LineIfHeld("cdr3", cdrs) + [""]
  {
    var l1, l2, l3 := LineIfHeld("cdr1", cdrs), LineIfHeld("cdr2", cdrs), LineIfHeld("cdr3", cdrs);
    assert CdrNames[1..] == ["cdr2", "cdr3"];
    assert ["cdr2", "cdr3"][1..] == ["cdr3"];
    assert ["cdr3"][1..] == [];
    CdrLinesStep(CdrNames, cdrs);
    CdrLinesStep(["cdr2", "cdr3"], cdrs);
    CdrLinesStep(["cdr3"], cdrs);
    assert CdrLines(CdrNames, cdrs) == l1 + (l2 + (l3 + []));
    Regroup([HeaderLine(id)], l1, l2, l3, [""]);
  }

  /** The inner loop's first iteration. */
  lemma CdrLinesStep(names: seq<string>, cdrs: map<string, string>)
    requires |names| > 0
    ensures CdrLines(names, cdrs) == LineIfHeld(names[0], cdrs) + CdrLines(names[1..], cdrs)
  {
  }

  /** Regrouping a five-part concatenation. */
  lemma Regroup(h: seq<string>, a: seq<string>, b: seq<string>, c: seq<string>, t: seq<string>)
    ensures h + (a + (b + (c + []))) + t == h + a + b + c + t
  {
  }

  /** An entry holding all three CDRs is printed as exactly five lines, in the fixed
      order cdr1, cdr2, cdr3. */
  lemma FullEntryLayout(id: string, cdrs: map<string, string>)
    requires "cdr1" in cdrs && "cdr2" in cdrs && "cdr3" in cdrs
    ensures RenderEntry(id, cdrs) == [
      "[" + id + "]",
      "cdr1: " + cdrs["cdr1"],
      "cdr2: " + cdrs["cdr2"],
      "cdr3: " + cdrs["cdr3"],
      ""
    ]
  {
    EntryLayout(id, cdrs);
    assert "cdr1" + ": " == "cdr1: " && "cdr2" + ": " == "cdr2: " && "cdr3" + ": " == "cdr3: ";
  }

  lemma CdrLineRoundTrip(name: string, cdr: string)
    requires name in CdrNames
    ensures DecodeCdrLine(CdrLine(name, cdr)) == Some((name, cdr))
  {
    var line := CdrLine(name, cdr);
    assert |name| == 4;
    assert line[..4] == name;
    assert line[4..6] == ": ";
    assert line[6..] == cdr;
  }

  lemma {:induction false} CdrLinesRoundTrip(names: seq<string>, cdrs: map<string, string>)
    requires forall i :: 0 <= i < |names| ==> names[i] in CdrNames
    ensures DecodeCdrLines(CdrLines(names, cdrs)) == Some(Held(names, cdrs))
    decreases |names|
  {
    if |names| > 0 {
      CdrLinesRoundTrip(names[1..], cdrs);
      var rest := CdrLines(names[1..], cdrs);
      if names[0] in cdrs {
        CdrLineRoundTrip(names[0], cdrs[names[0]]);
        var lines := [CdrLine(names[0], cdrs[names[0]])] + rest;
        assert lines[1..] == rest;
      } else {
        assert CdrLines(names, cdrs) == rest;
        assert Held(names, cdrs) == Held(names[1..], cdrs);
      }
    }
  }

  /** Reading an entry's block back gives its identifier and the CDRs it holds, in the
      order cdr1, cdr2, cdr3, each with its sequence. */
  lemma RenderEntryRoundTrip(id: string, cdrs: map<string, string>)
    ensures DecodeEntry(RenderEntry(id, cdrs)) == Some((id, Held(CdrNames, cdrs)))
  {
    var header := HeaderLine(id);
    assert header[1..|header| - 1] == id;
    CdrLinesRoundTrip(CdrNames, cdrs);
    BlockParts(header, CdrLines(CdrNames, cdrs));
  }

  /** The parts of a block: first line, the lines between, last line. */
  lemma BlockParts(header: string, middle: seq<string>)
    ensures var block := [header] + middle + [""];
            |block| == |middle| + 2 && block[0] == header && block[|block| - 1] == ""
            && block[1..|block| - 1] == middle
  {
    var block := [header] + middle + [""];
    assert block[1..|block| - 1] == middle;
  }

  /** A block followed by more output is read back as that block's entry followed by
      the entries of the rest. */
  lemma DecodeAfterEntry(id: string, cdrs: map<string, string>, rest: seq<string>)
    ensures DecodeReport(RenderEntry(id, cdrs) + rest) ==
      match DecodeReport(rest)
      case None => None
      case Some(entries) => Some([(id, Held(CdrNames, cdrs))] + entries)
  {
    var block := RenderEntry(id, cdrs);
    var lines := block + rest;
    var n := |block| - 1;
    forall i | 0 <= i < n ensures lines[i] != "" {
      assert lines[i] == block[i];
      if i > 0 {
        assert |block[i]| >= 2;
      } else {
        assert |block[i]| >= 2;
      }
    }
    assert lines[n] == "";
    var k := FirstBlank(lines);
    assert k == n;
    assert lines[..n + 1] == block;
    assert lines[n + 1..] == rest;
    RenderEntryRoundTrip(id, cdrs);
  }

  /** What the blocks of `order` read back as: each key of `order`, in order, with the
      CDRs its entry lists. */
  function Listing(order: seq<string>, results: map<string, map<string, string>>): (l: seq<(string, seq<(string, string)>)>)
    requires forall k :: k in order ==> k in results
    ensures |l| == |order|
    ensures forall i :: 0 <= i < |order| ==> l[i] == (order[i], Held(CdrNames, results[order[i]]))
    decreases |order|
  {
    if |order| == 0 then []
    else [(order[0], Held(CdrNames, results[order[0]]))] + Listing(order[1..], results)
  }

  /** Reading the blocks of `order` back gives one entry per key of `order`, in order. */
  lemma {:induction false} EntriesRoundTrip(order: seq<string>, results: map<string, map<string, string>>)
    requires forall k :: k in order ==> k in results
    ensures DecodeReport(RenderEntries(order, results)) == Some(Listing(order, results))
    decreases |order|
  {
    if |order| > 0 {
      EntriesRoundTrip(order[1..], results);
      DecodeAfterEntry(order[0], results[order[0]], RenderEntries(order[1..], results));
    }
  }

  /** The text output lists every entry of the results exactly once. */
  lemma EveryEntryPrintedOnce(order: seq<string>, results: map<string, map<string, string>>)
    requires IsIterationOrder(order, results)
    ensures var d := DecodeReport(RenderReport(order, results)).value;
            && (forall key :: key in results <==> exists i :: 0 <= i < |d| && d[i].0 == key)
            && (forall i, j :: 0 <= i < j < |d| ==> d[i].0 != d[j].0)
  {
    var d := DecodeReport(RenderReport(order, results)).value;
    assert |d| == |order|;
    assert forall i :: 0 <= i < |d| ==> d[i].0 == order[i];
    forall key | key in results ensures exists i :: 0 <= i < |d| && d[i].0 == key {
      assert key in order;
      var i :| 0 <= i < |order| && order[i] == key;
      assert d[i].0 == key;
    }
    forall key | exists i :: 0 <= i < |d| && d[i].0 == key ensures key in results {
      var i :| 0 <= i < |d| && d[i].0 == key;
      assert order[i] == key;
    }
  }

  /** A report of entries that all hold the three CDRs has five lines per entry, and
      entry `i` starts at line `5 * i` with its header. */
  lemma {:induction false} FullEntriesLayout(order: seq<string>, results: map<string, map<string, string>>)
    requires forall k :: k in order ==> k in results
    requires forall k :: k in results ==> "cdr1" in results[k] && "cdr2" in results[k] && "cdr3" in results[k]
    ensures |RenderEntries(order, results)| == 5 * |order|
    ensures forall i :: 0 <= i < |order| ==> RenderEntries(order, results)[5 * i] == "[" + order[i] + "]"
    decreases |order|
  {
    if |order| > 0 {
      var first := RenderEntry(order[0], results[order[0]]);
      var rest := RenderEntries(order[1..], results);
      assert |first| == 5 && first[0] == "[" + order[0] + "]" by {
        FullEntryLayout(order[0], results[order[0]]);
      }
      FullEntriesLayout(order[1..], results);
      var report := first + rest;
      forall i | 0 <= i < |order| ensures report[5 * i] == "[" + order[i] + "]" {
        if i > 0 {
          IndexAfter(first, rest, 5 * (i - 1));
          assert order[1..][i - 1] == order[i];
        }
      }
    }
  }

  /** Indexing past a first part of a concatenation reads the second part. */
  lemma IndexAfter(first: seq<string>, rest: seq<string>, j: nat)
    requires j < |rest|
    ensures (first + rest)[|first| + j] == rest[j]
  {
  }

  /** When every entry holds all three CDRs, the output has five lines per entry and
      entry `i` of the order starts at line `5 * i`. */
  lemma FullReportLayout(order: seq<string>, results: map<string, map<string, string>>)
    requires IsIterationOrder(order, results)
    requires forall k :: k in results ==> "cdr1" in results[k] && "cdr2" in results[k] && "cdr3" in results[k]
    ensures |RenderReport(order, results)| == 5 * |order|
    ensures forall i :: 0 <= i < |order| ==> RenderReport(order, results)[5 * i] == "[" + order[i] + "]"
  {
    FullEntriesLayout(order, results);
  }
}
