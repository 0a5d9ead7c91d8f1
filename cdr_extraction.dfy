/** CDR extraction: for every chain of the numbering table, the three CDR sequences of
    the IMGT unique numbering for V domains are read out of that chain's sparse
    position map, a gap `'-'` standing for every position the table does not hold;
    each chain's result is then filed under the FASTA identifier recorded for its
    label, or under the bare label when none was recorded. */
module CdrExtraction {
  import opened NumberingTable
  import FastaScan

  /** A CDR's name and its inclusive IMGT position range. */
  datatype CdrRange = CdrRange(name: string, start: nat, end: nat)

  /** CDR1, CDR2 and CDR3 of the IMGT unique numbering: positions 27-38, 56-65 and
      105-117. */
  const CdrRanges: seq<CdrRange> := [
    CdrRange("cdr1", 27, 38),
    CdrRange("cdr2", 56, 65),
    CdrRange("cdr3", 105, 117)
  ]

  /** The gap character written for a position the table does not hold. */
  const Gap: char := '-'

  /** `(start..=end).map(|pos| imgt_map.get(&pos).copied().unwrap_or('-')).collect()`:
      one character per position of the inclusive range, in order. */
  function CdrSequence(positions: PositionMap, start: nat, end: nat): (s: string)
    ensures |s| == if start <= end then end - start + 1 else 0
    ensures forall i :: 0 <= i < |s| ==>
      s[i] == if start + i in positions then positions[start + i] else Gap
    decreases if start <= end then end - start + 1 else 0
  {
    if start > end then []
    else [if start in positions then positions[start] else Gap] + CdrSequence(positions, start + 1, end)
  }

  /** The CDR map built for one chain by inserting the ranges of `ranges` in order. */
  function CdrMap(positions: PositionMap, ranges: seq<CdrRange>): map<string, string>
    decreases |ranges|
  {
    if |ranges| == 0 then map[]
    else
      var last := ranges[|ranges| - 1];
      CdrMap(positions, ranges[..|ranges| - 1])[last.name := CdrSequence(positions, last.start, last.end)]
  }

  /** The CDR map of one chain: exactly the keys cdr1, cdr2 and cdr3, each holding the
      sequence of its range. */
  function ChainCdrs(positions: PositionMap): (r: map<string, string>)
    ensures r.Keys == {"cdr1", "cdr2", "cdr3"}
    ensures forall range :: range in CdrRanges ==> r[range.name] == CdrSequence(positions, range.start, range.end)
  {
    var s1 := CdrSequence(positions, 27, 38);
    var s2 := CdrSequence(positions, 56, 65);
    var s3 := CdrSequence(positions, 105, 117);
    assert CdrMap(positions, CdrRanges[..1]) == map["cdr1" := s1] by {
      assert CdrRanges[..1][..0] == [];
    }
    assert CdrMap(positions, CdrRanges[..2]) == map["cdr1" := s1, "cdr2" := s2] by {
      assert CdrRanges[..2][..1] == CdrRanges[..1];
    }
    assert CdrMap(positions, CdrRanges) == map["cdr1" := s1, "cdr2" := s2, "cdr3" := s3] by {
      assert CdrRanges[..2] == CdrRanges[..|CdrRanges| - 1];
    }
    CdrMap(positions, CdrRanges)
  }

  /** The key a chain's result is filed under: `chain_name_map.get(chain_id).unwrap_or(chain_id)`. */
  function ResultKey(chainNames: map<string, string>, chain: string): (key: string)
    ensures chain in chainNames ==> key == chainNames[chain]
    ensures chain !in chainNames ==> key == chain
  {
    if chain in chainNames then chainNames[chain] else chain
  }

  /** No two chains of `chains` are filed under the same key. */
  predicate KeysDistinct(chainNames: map<string, string>, chains: set<string>)
  {
    forall c1, c2 :: c1 in chains && c2 in chains && ResultKey(chainNames, c1) == ResultKey(chainNames, c2) ==> c1 == c2
  }

  /** The inner loop over the range table, for one chain. */
  method BuildCdrMap(positions: PositionMap) returns (cdrMap: map<string, string>)
    ensures cdrMap == ChainCdrs(positions)
  {
    cdrMap := map[];
    for k := 0 to |CdrRanges|
      invariant cdrMap == CdrMap(positions, CdrRanges[..k])
    {
      assert CdrRanges[..k + 1][..k] == CdrRanges[..k];
      var range := CdrRanges[k];
      var cdrSeq := CdrSequence(positions, range.start, range.end);
      cdrMap := cdrMap[range.name := cdrSeq];
    }
    assert CdrRanges[..|CdrRanges|] == CdrRanges;
  }

  /** The extraction loop. Chains are visited in an unspecified order (that of the
      hash map); when two chains are filed under the same key, the one visited later
      overwrites the other, so each result entry is that of SOME chain with that key. */
  method ExtractCdrs(chains: ChainNumbering, chainNames: map<string, string>)
    returns (results: map<string, map<string, string>>)
    ensures results.Keys == set c | c in chains :: ResultKey(chainNames, c)
    ensures forall key :: key in results ==>
      exists c :: c in chains && ResultKey(chainNames, c) == key && results[key] == ChainCdrs(chains[c])
    ensures KeysDistinct(chainNames, chains.Keys) ==>
      forall c :: c in chains ==> results[ResultKey(chainNames, c)] == ChainCdrs(chains[c])
  {
    results := map[];
    var pending := chains.Keys;
    while pending != {}
      invariant pending <= chains.Keys
      invariant forall c :: c in chains && c !in pending ==> ResultKey(chainNames, c) in results
      invariant forall key :: key in results ==>
        exists c :: c in chains && c !in pending && ResultKey(chainNames, c) == key && results[key] == ChainCdrs(chains[c])
      decreases pending
    {
      var chain :| chain in pending;
      var cdrMap := BuildCdrMap(chains[chain]);
      var key := if chain in chainNames then chainNames[chain] else chain;
      results := results[key := cdrMap];
      pending := pending - {chain};
      assert ResultKey(chainNames, chain) == key;
    }
    FiledResults(chains, chainNames, results);
  }

  /** What the loop invariants give once every chain has been visited. */
  lemma FiledResults(chains: ChainNumbering, chainNames: map<string, string>, results: map<string, map<string, string>>)
    requires forall c :: c in chains ==> ResultKey(chainNames, c) in results
    requires forall key :: key in results ==>
      exists c :: c in chains && ResultKey(chainNames, c) == key && results[key] == ChainCdrs(chains[c])
    ensures results.Keys == set c | c in chains :: ResultKey(chainNames, c)
    ensures KeysDistinct(chainNames, chains.Keys) ==>
      forall c :: c in chains ==> results[ResultKey(chainNames, c)] == ChainCdrs(chains[c])
  {
    if KeysDistinct(chainNames, chains.Keys) {
      forall c | c in chains ensures results[ResultKey(chainNames, c)] == ChainCdrs(chains[c]) {
        var key := ResultKey(chainNames, c);
        var c' :| c' in chains && ResultKey(chainNames, c') == key && results[key] == ChainCdrs(chains[c']);
      }
    }
  }

  /** Every chain gets CDR sequences of 12, 10 and 13 characters, each the length of
      its range, and character `i` is the residue at position `start + i` when the
      chain has one there and the gap otherwise. */
  lemma ChainCdrsContents(positions: PositionMap)
    ensures |ChainCdrs(positions)["cdr1"]| == 12
    ensures |ChainCdrs(positions)["cdr2"]| == 10
    ensures |ChainCdrs(positions)["cdr3"]| == 13
    ensures forall range, i :: range in CdrRanges && 0 <= i <= range.end - range.start ==>
      ChainCdrs(positions)[range.name][i] == if range.start + i in positions then positions[range.start + i] else Gap
  {
    assert CdrRanges[0].name == "cdr1" && CdrRanges[1].name == "cdr2" && CdrRanges[2].name == "cdr3";
  }

  /** The CDR maps of two chains agree wherever their position maps agree on the CDR
      ranges: extraction reads nothing else. */
  lemma {:induction false} CdrSequenceDependsOnlyOnRange(p1: PositionMap, p2: PositionMap, start: nat, end: nat)
    requires forall pos :: start <= pos <= end ==> (pos in p1 <==> pos in p2)
    requires forall pos :: start <= pos <= end && pos in p1 ==> p1[pos] == p2[pos]
    ensures CdrSequence(p1, start, end) == CdrSequence(p2, start, end)
    decreases if start <= end then end - start + 1 else 0
  {
    if start <= end {
      CdrSequenceDependsOnlyOnRange(p1, p2, start + 1, end);
    }
  }

  /** Under a well-labelled chain-name map, the key of chain `"H"` or `"L"` is non-empty
      and ends with the label's letter. */
  lemma KeyEndsWithLabel(chainNames: map<string, string>, chain: string)
    requires FastaScan.WellLabelled(chainNames)
    requires chain == "H" || chain == "L"
    ensures var key := ResultKey(chainNames, chain); |key| > 0 && key[|key| - 1] == chain[0]
  {
    if chain in chainNames {
      var id := chainNames[chain];
      assert id[|id| - 2..] == "_" + chain;
      assert id[|id| - 1] == id[|id| - 2..][1];
    }
  }

  /** With a well-labelled chain-name map (keys `"H"`/`"L"`, identifiers ending in the
      matching suffix), the chains `"H"` and `"L"` never collide on a result key. */
  lemma HeavyAndLightKeysDistinct(chainNames: map<string, string>, chains: set<string>)
    requires FastaScan.WellLabelled(chainNames)
    requires chains <= {"H", "L"}
    ensures KeysDistinct(chainNames, chains)
  {
    forall c1, c2 | c1 in chains && c2 in chains && ResultKey(chainNames, c1) == ResultKey(chainNames, c2)
      ensures c1 == c2
    {
      KeyEndsWithLabel(chainNames, c1);
      KeyEndsWithLabel(chainNames, c2);
    }
  }

  /** The example of the heavy chain with residues only at 27 and 38: its CDR1 is `Q`,
      ten gaps, `S`. */
  lemma HeavyChainExample()
    ensures ChainCdrs(map[27 := 'Q', 38 := 'S'])["cdr1"] == "Q----------S"
  {
    var p: PositionMap := map[27 := 'Q', 38 := 'S'];
    ChainCdrsContents(p);
    var s := ChainCdrs(p)["cdr1"];
    forall i | 0 <= i < 12 ensures s[i] == "Q----------S"[i] {
      assert CdrRanges[0] in CdrRanges;
    }
  }

  /** The light chain with a residue only at 105: its CDR3 starts with `C` and is gaps
      elsewhere. */
  lemma LightChainExample()
    ensures ChainCdrs(map[105 := 'C'])["cdr3"] == "C------------"
  {
    var p: PositionMap := map[105 := 'C'];
    ChainCdrsContents(p);
    var s := ChainCdrs(p)["cdr3"];
    forall i | 0 <= i < 13 ensures s[i] == "C------------"[i] {
      assert CdrRanges[2] in CdrRanges;
    }
  }
}
