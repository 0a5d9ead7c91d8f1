/** The FASTA header scan of the CDR extraction program: it walks the input lines
    once, remembers the identifier of the last header seen, and for every sequence
    line that follows a header whose identifier ends in `_H` or `_L` records that
    identifier under the chain label `"H"` or `"L"`. */
module FastaScan {
  import opened Wrappers
  import opened Strings

  /** The loop state: the identifier of the current record and the map from chain
      label to identifier built so far. */
  datatype ScanState = ScanState(currentId: string, chainNames: map<string, string>)

  const Initial: ScanState := ScanState("", map[])

  predicate IsHeader(line: string)
  {
    StartsWithChar(line, '>')
  }

  /** The chain label an identifier's suffix names: `_H` is checked before `_L`. */
  function ChainLabel(id: string): Option<string>
  {
    if EndsWith(id, "_H") then Some("H")
    else if EndsWith(id, "_L") then Some("L")
    else None
  }

  /** One iteration of the scan loop. */
  function Step(st: ScanState, line: string): ScanState
  {
    if IsHeader(line) then st.(currentId := TrimStartMatches(line, '>'))
    else match ChainLabel(st.currentId)
      case Some(chain) => st.(chainNames := st.chainNames[chain := st.currentId])
      case None => st
  }

  /** The state after the loop has consumed all of `lines`. */
  function Scan(lines: seq<string>): ScanState
    decreases |lines|
  {
    if |lines| == 0 then Initial else Step(Scan(lines[..|lines| - 1]), lines[|lines| - 1])
  }

  /** The identifier current when line `j` is reached. */
  function CurrentBefore(lines: seq<string>, j: nat): string
    requires j <= |lines|
  {
    Scan(lines[..j]).currentId
  }

  /** Line `j` is a sequence line whose record's identifier carries the suffix of
      `chain`, so the scan records that identifier under `chain` there. */
  predicate Records(lines: seq<string>, j: int, chain: string)
  {
    0 <= j < |lines| && !IsHeader(lines[j]) && ChainLabel(CurrentBefore(lines, j)) == Some(chain)
  }

  /** Every key is `"H"` or `"L"`, and the identifier under a chain ends with
      `"_"` followed by that chain. */
  predicate WellLabelled(chainNames: map<string, string>)
  {
    forall chain :: chain in chainNames ==>
      (chain == "H" || chain == "L") && EndsWith(chainNames[chain], "_" + chain)
  }

  /** The scan loop. */
  method ScanChainNames(lines: seq<string>) returns (chainNames: map<string, string>)
    ensures chainNames == Scan(lines).chainNames
  {
    chainNames := map[];
    var currentId := "";
    var i := 0;
    while i < |lines|
      invariant 0 <= i <= |lines|
      invariant ScanState(currentId, chainNames) == Scan(lines[..i])
    {
      var line := lines[i];
      assert lines[..i + 1][..i] == lines[..i];
      if StartsWithChar(line, '>') {
        currentId := TrimStartMatches(line, '>');
      } else if EndsWith(currentId, "_H") {
        chainNames := chainNames["H" := currentId];
      } else if EndsWith(currentId, "_L") {
        chainNames := chainNames["L" := currentId];
      }
      i := i + 1;
    }
    assert lines[..i] == lines;
  }

  lemma {:induction false} ScanIsWellLabelled(lines: seq<string>)
    ensures WellLabelled(Scan(lines).chainNames)
    decreases |lines|
  {
    if |lines| > 0 {
      ScanIsWellLabelled(lines[..|lines| - 1]);
    }
  }

  /** Consuming one more line is one more `Step`. */
  lemma ScanOneMore(lines: seq<string>, j: nat)
    requires j < |lines|
    ensures Scan(lines[..j + 1]) == Step(Scan(lines[..j]), lines[j])
  {
    assert lines[..j + 1][..j] == lines[..j];
  }

  /** Before the first header the current identifier is empty. */
  lemma {:induction false} CurrentEmptyBeforeFirstHeader(lines: seq<string>, j: nat)
    requires j <= |lines|
    requires forall k :: 0 <= k < j ==> !IsHeader(lines[k])
    ensures CurrentBefore(lines, j) == ""
    decreases j
  {
    if j > 0 {
      CurrentEmptyBeforeFirstHeader(lines, j - 1);
      ScanOneMore(lines, j - 1);
    }
  }

  /** The identifier current at line `j` is that of the last header `k` before `j`,
      with its leading `>` characters removed. */
  lemma {:induction false} CurrentIsLastHeader(lines: seq<string>, k: nat, j: nat)
    requires k < j <= |lines|
    requires IsHeader(lines[k])
    requires forall m :: k < m < j ==> !IsHeader(lines[m])
    ensures CurrentBefore(lines, j) == TrimStartMatches(lines[k], '>')
    decreases j
  {
    ScanOneMore(lines, j - 1);
    if k < j - 1 {
      CurrentIsLastHeader(lines, k, j - 1);
    }
  }

  /** A line that records `chain` sets its entry to the current identifier. */
  lemma RecordingLineSets(lines: seq<string>, n: nat, chain: string)
    requires n < |lines| && Records(lines, n, chain)
    ensures chain in Scan(lines[..n + 1]).chainNames
    ensures Scan(lines[..n + 1]).chainNames[chain] == CurrentBefore(lines, n)
  {
    ScanOneMore(lines, n);
  }

  /** A line that does not record `chain` leaves its entry, or its absence, alone. */
  lemma OtherLineKeeps(lines: seq<string>, n: nat, chain: string)
    requires n < |lines| && !Records(lines, n, chain)
    ensures var before := Scan(lines[..n]).chainNames;
            var after := Scan(lines[..n + 1]).chainNames;
            (chain in after <==> chain in before) && (chain in before ==> after[chain] == before[chain])
  {
    ScanOneMore(lines, n);
    var st := Scan(lines[..n]);
    if !IsHeader(lines[n]) && ChainLabel(st.currentId).Some? {
      var other := ChainLabel(st.currentId).value;
      assert other != chain;
      assert Scan(lines[..n + 1]).chainNames == st.chainNames[other := st.currentId];
    } else {
      assert Scan(lines[..n + 1]).chainNames == st.chainNames;
    }
  }

  /** No line removes an entry. */
  lemma StepKeepsEntry(st: ScanState, line: string, chain: string)
    requires chain in st.chainNames
    ensures chain in Step(st, line).chainNames
  {
  }

  /** An entry present after `n` lines is still present after line `n`. */
  lemma EntryPersists(lines: seq<string>, n: nat, chain: string)
    requires n < |lines| && chain in Scan(lines[..n]).chainNames
    ensures chain in Scan(lines[..n + 1]).chainNames
  {
    ScanOneMore(lines, n);
    StepKeepsEntry(Scan(lines[..n]), lines[n], chain);
  }

  /** Without a recording line among the first `i`, `chain` has no entry. */
  lemma {:induction false} NoRecordingLineNoEntry(lines: seq<string>, i: nat, chain: string)
    requires i <= |lines|
    requires forall j :: 0 <= j < i ==> !Records(lines, j, chain)
    ensures chain !in Scan(lines[..i]).chainNames
    decreases i
  {
    if i > 0 {
      NoRecordingLineNoEntry(lines, i - 1, chain);
      OtherLineKeeps(lines, i - 1, chain);
    }
  }

  /** Once a line has recorded `chain`, the entry stays. */
  lemma {:induction false} RecordingLineGivesEntry(lines: seq<string>, i: nat, j: nat, chain: string)
    requires j < i <= |lines|
    requires Records(lines, j, chain)
    ensures chain in Scan(lines[..i]).chainNames
    decreases i
  {
    if j == i - 1 {
      assert chain in Scan(lines[..j + 1]).chainNames by {
        RecordingLineSets(lines, j, chain);
      }
    } else {
      assert chain in Scan(lines[..i - 1]).chainNames by {
        RecordingLineGivesEntry(lines, i - 1, j, chain);
      }
      EntryPersists(lines, i - 1, chain);
    }
  }

  /** The scan has an entry for `chain` exactly when some sequence line belongs to a
      record whose identifier carries that chain's suffix. */
  lemma EntryIffRecordingLine(lines: seq<string>, chain: string)
    ensures chain in Scan(lines).chainNames <==> exists j :: Records(lines, j, chain)
  {
    assert lines[..|lines|] == lines;
    if j :| Records(lines, j, chain) {
      RecordingLineGivesEntry(lines, |lines|, j, chain);
    } else {
      NoRecordingLineNoEntry(lines, |lines|, chain);
    }
  }

  /** After `i` lines, the entry of `chain` is the identifier current at the last line
      before `i` that recorded it. */
  lemma {:induction false} LaterRecordOverwrites(lines: seq<string>, i: nat, j: nat, chain: string)
    requires j < i <= |lines|
    requires Records(lines, j, chain)
    requires forall k :: j < k < i ==> !Records(lines, k, chain)
    ensures chain in Scan(lines[..i]).chainNames
    ensures Scan(lines[..i]).chainNames[chain] == CurrentBefore(lines, j)
    decreases i
  {
    if j == i - 1 {
      RecordingLineSets(lines, j, chain);
    } else {
      LaterRecordOverwrites(lines, i - 1, j, chain);
      OtherLineKeeps(lines, i - 1, chain);
    }
  }

  /** The scan records a chain exactly when some sequence line belongs to a record
      with that chain's suffix, and the identifier kept is the one current at the last
      such line: a later qualifying record overwrites an earlier one. */
  lemma LastQualifyingRecordWins(lines: seq<string>, chain: string, j: nat)
    requires Records(lines, j, chain)
    requires forall k :: j < k < |lines| ==> !Records(lines, k, chain)
    ensures chain in Scan(lines).chainNames
    ensures Scan(lines).chainNames[chain] == CurrentBefore(lines, j)
  {
    LaterRecordOverwrites(lines, |lines|, j, chain);
    assert lines[..|lines|] == lines;
  }

  /** A header, and a sequence line of a record without a chain suffix (in particular
      one before the first header), leaves the map unchanged. */
  lemma NonRecordingLinesLeaveMapUnchanged(st: ScanState, line: string)
    requires IsHeader(line) || ChainLabel(st.currentId).None?
    ensures Step(st, line).chainNames == st.chainNames
  {
  }

  /** Advances a known scan state over one more line. */
  lemma ScanAdvance(prefix: seq<string>, line: string, st: ScanState, next: ScanState)
    requires Scan(prefix) == st && Step(st, line) == next
    ensures Scan(prefix + [line]) == next
  {
    assert (prefix + [line])[..|prefix|] == prefix;
  }

  /** A header line `>id`, where `id` does not itself start with `>`, makes `id` current. */
  lemma HeaderStep(st: ScanState, id: string)
    requires !StartsWithChar(id, '>')
    ensures Step(st, ">" + id) == st.(currentId := id)
  {
    assert (">" + id)[1..] == id;
    assert TrimStartMatches(id, '>') == id;
  }

  /** Two well-labelled records, one per chain. */
  lemma ScanExample()
    ensures Scan([">Ab_H", "QVQL", ">Ab_L", "DIQM"]).chainNames == map["H" := "Ab_H", "L" := "Ab_L"]
  {
    var s1 := ScanState("Ab_H", map[]);
    var s2 := ScanState("Ab_H", map["H" := "Ab_H"]);
    var s3 := ScanState("Ab_L", map["H" := "Ab_H"]);
    var s4 := ScanState("Ab_L", map["H" := "Ab_H", "L" := "Ab_L"]);
    HeaderStep(Initial, "Ab_H");
    assert ">" + "Ab_H" == ">Ab_H";
    assert ChainLabel("Ab_H") == Some("H") by {
      assert "Ab_H"[2..] == "_H";
    }
    HeaderStep(s2, "Ab_L");
    assert ">" + "Ab_L" == ">Ab_L";
    assert ChainLabel("Ab_L") == Some("L") by {
      assert "Ab_L"[2..] == "_L";
    }
    ScanAdvance([], ">Ab_H", Initial, s1);
    assert [] + [">Ab_H"] == [">Ab_H"];
    ScanAdvance([">Ab_H"], "QVQL", s1, s2);
    assert [">Ab_H"] + ["QVQL"] == [">Ab_H", "QVQL"];
    ScanAdvance([">Ab_H", "QVQL"], ">Ab_L", s2, s3);
    assert [">Ab_H", "QVQL"] + [">Ab_L"] == [">Ab_H", "QVQL", ">Ab_L"];
    ScanAdvance([">Ab_H", "QVQL", ">Ab_L"], "DIQM", s3, s4);
    assert [">Ab_H", "QVQL", ">Ab_L"] + ["DIQM"] == [">Ab_H", "QVQL", ">Ab_L", "DIQM"];
  }

  /** A header without sequence lines records nothing, even when its suffix matches. */
  lemma ScanExampleEmptyRecord()
    ensures Scan([">X_H", ">Y_L", "DIQM"]).chainNames == map["L" := "Y_L"]
  {
    var s1 := ScanState("X_H", map[]);
    var s2 := ScanState("Y_L", map[]);
    var s3 := ScanState("Y_L", map["L" := "Y_L"]);
    assert Step(Initial, ">X_H") == s1 by {
      assert ">X_H"[1..] == "X_H";
    }
    assert Step(s1, ">Y_L") == s2 by {
      assert ">Y_L"[1..] == "Y_L";
    }
    assert Step(s2, "DIQM") == s3 by {
      assert "Y_L"[1..] == "_L";
    }
    ScanAdvance([], ">X_H", Initial, s1);
    assert [] + [">X_H"] == [">X_H"];
    ScanAdvance([">X_H"], ">Y_L", s1, s2);
    assert [">X_H"] + [">Y_L"] == [">X_H", ">Y_L"];
    ScanAdvance([">X_H", ">Y_L"], "DIQM", s2, s3);
    assert [">X_H", ">Y_L"] + ["DIQM"] == [">X_H", ">Y_L", "DIQM"];
  }
}
