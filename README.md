# extracdr CDR extraction, modelled in Dafny

extracdr is a small command-line wrapper around the ANARCI antibody-numbering program.
It reads a FASTA file and remembers which record is the heavy chain (identifier ending
in `_H`) and which is the light chain (`_L`). It runs ANARCI with the IMGT scheme and
parses the numbering table ANARCI writes: one row per residue, holding the chain label,
the IMGT position and the residue. It then cuts the three complementarity-determining
regions out of each chain: CDR1 is positions 27-38, CDR2 is 56-65 and CDR3 is 105-117,
with `-` for every position the table does not hold. It files each chain's CDRs under
the chain's FASTA identifier and prints them as text blocks or as JSON. A second,
earlier copy of the program (`src/main.rs`) has a JSON mode that instead collects the
non-comment, non-blank lines of the table.

The model covers the data-processing core of both copies. Each part is one module:

- `Strings` (`strings.dfy`): the Rust string operations the core relies on. These are
  `char::is_whitespace`, `str::trim`, `str::split_whitespace`, `trim_start_matches`
  and `<usize as FromStr>`.
- `FastaScan` (`fasta_scan.dfy`): the header scan that builds the chain-label ->
  identifier map. It is a loop method proved equal to a fold (`Scan`), with lemmas
  saying which line sets an entry and which value wins.
- `NumberingTable` (`numbering_table.dfy`): the parse of the numbering table into
  chain -> position -> residue maps. It is a loop method proved equal to a fold over
  the parsed rows (`Table`), with skip and last-write-wins lemmas.
- `CdrExtraction` (`cdr_extraction.dfy`): the fixed range table, the per-chain CDR
  strings and the re-keying by FASTA identifier. Both loops are methods proved against
  specification functions.
- `TextReport` (`text_report.dfy`): the text output. It has a decoder as partner and a
  round-trip lemma.
- `LineFilter` (`line_filter.dfy`): the table-line filter of `src/main.rs`. It is a
  loop method proved equal to `Filtered`, with subsequence, bound and idempotence
  lemmas.
- `Wrappers` (`wrappers.dfy`): the `Option` type.

The program's local variables (`chain_name_map`, `chains`, `cdr_results`, `results`)
are maps and vectors that live only inside `main`. Each loop that fills one is
therefore a method returning the finished value, not a class.

The model follows these details of the code:

- A FASTA header does not itself record anything. The identifier is stored under its
  chain label only when a non-header line follows while that header is current. A
  header with no sequence lines records nothing (`FastaScan.ScanExampleEmptyRecord`).
  The last such line wins.
- `trim_start_matches('>')` strips every leading `>`, not just one.
- The numbering table parse trims each line before testing for `#`. The line filter of
  `src/main.rs` tests for `#` on the untrimmed line. So `"  # x"` is skipped by the
  former and kept by the latter (`LineFilter.IndentedHashLineIsKept`).
- The `-` default for a missing residue in the third field cannot occur, because
  `split_whitespace` never yields an empty field
  (`NumberingTable.ResidueIsFirstCharOfThirdField`).

## Model

| member | source | states |
|---|---|---|
| Strings.Trim | rust/src/main.rs:94 | the trimmed line is never longer, is empty exactly when the line is whitespace-only, and otherwise starts and ends with a non-whitespace character |
| Strings.TrimRemovesOnlyEndWhitespace | rust/src/main.rs:94 | the trimmed line is a slice `s[b..e]` of the line, and everything before `b` and after `e` is whitespace |
| Strings.SplitWhitespace | rust/src/main.rs:100 | every field is non-empty and contains no whitespace |
| Strings.TrimStartMatches | rust/src/main.rs:58 | the result is no longer than the line and does not start with the stripped character |
| Strings.TrimStartMatchesRemovesOnlyPrefix | rust/src/main.rs:58 | the result is a suffix of the line, and everything removed in front of it is the stripped character |
| Strings.ParseUsize | rust/src/main.rs:106-109 | a parsed position never exceeds `usize::MAX` |
| Strings.ParseUsizeRoundTrip | rust/src/main.rs:106-109 | the decimal form of every `usize`, with or without a leading `+`, parses back to that number |
| Strings.ParseUsizeRejectsOverflow | rust/src/main.rs:106-109 | a decimal number above `usize::MAX` is rejected, with or without `+` |
| Strings.ParseUsizeRejects | rust/src/main.rs:106-109 | the empty field, a lone `+` and any field containing `-` are rejected |
| Strings.ParseUsizeRejectsNonDigit | rust/src/main.rs:106-109 | a field holding any non-digit other than a single leading `+` (such as `27A`, `1.5` or `++7`) is rejected |
| Strings.ParseUsizeSound | rust/src/main.rs:106-109 | whatever parses is one or more digits, optionally after a `+`, and its value is the decimal value of those digits |
| Strings.ParseUsizeComplete | rust/src/main.rs:106-109 | any non-empty digit string, with or without a leading `+` and whatever its leading zeros, parses to its decimal value when that is at most `usize::MAX`, and is rejected otherwise |
| Strings.ParseUsizeIgnoresLeadingZero | rust/src/main.rs:106-109 | a leading zero does not change the result, so `007` parses as 7 |
| FastaScan.ScanChainNames | rust/src/main.rs:53-64 | the scan loop returns exactly the map of the fold `Scan` over the lines |
| FastaScan.ScanIsWellLabelled | rust/src/main.rs:59-62 | the map's only keys are `H` and `L`, and the identifier under each key ends with `_H` or `_L` respectively |
| FastaScan.CurrentEmptyBeforeFirstHeader | rust/src/main.rs:54-58 | before the first header the current identifier is empty, so such lines record nothing |
| FastaScan.CurrentIsLastHeader | rust/src/main.rs:57-58 | the identifier current at a line is the last preceding header with its leading `>` characters stripped |
| FastaScan.RecordingLineSets | rust/src/main.rs:59-62 | a sequence line whose current identifier ends in the chain's suffix sets that chain's entry to the identifier |
| FastaScan.OtherLineKeeps | rust/src/main.rs:57-63 | any other line leaves the chain's entry, or its absence, unchanged |
| FastaScan.StepKeepsEntry | rust/src/main.rs:57-63 | no line removes an entry |
| FastaScan.NoRecordingLineNoEntry | rust/src/main.rs:59-63 | with no recording line for a chain among the first i lines, the chain has no entry |
| FastaScan.RecordingLineGivesEntry | rust/src/main.rs:59-63 | once a line has recorded a chain, the entry is present from then on |
| FastaScan.EntryIffRecordingLine | rust/src/main.rs:53-64 | a chain has an entry exactly when some sequence line belongs to a record whose identifier carries that chain's suffix |
| FastaScan.LaterRecordOverwrites | rust/src/main.rs:59-62 | after i lines, the entry is the identifier current at the last recording line before i |
| FastaScan.LastQualifyingRecordWins | rust/src/main.rs:53-64 | the final entry of a chain is the identifier current at its last recording line |
| FastaScan.NonRecordingLinesLeaveMapUnchanged | rust/src/main.rs:57-63 | a header line, or a line under an identifier with neither suffix, leaves the map unchanged |
| FastaScan.ScanExample | rust/src/main.rs:53-64 | records `Ab_H` then `Ab_L`, each with a sequence line, give the map H -> `Ab_H`, L -> `Ab_L` |
| FastaScan.ScanExampleEmptyRecord | rust/src/main.rs:53-64 | a `_H` header followed directly by a `_L` header records only the light chain |
| NumberingTable.ParseRow | rust/src/main.rs:94-112 | a line yields a row exactly when its trimmed form is non-empty, does not start with `#`, has at least three whitespace-separated fields and a second field that parses as a `usize`; the row is then (first field, value of the second field, first character of the third field) |
| NumberingTable.Insert | rust/src/main.rs:112 | inserting sets the chain's position to the residue, creates the chain if absent, and keeps every other position and chain |
| NumberingTable.ParseNumbering | rust/src/main.rs:90-113 | the parse loop returns exactly the fold `Table` of the parsed rows |
| NumberingTable.ResidueIsFirstCharOfThirdField | rust/src/main.rs:110 | the residue of a valid row is the first character of its third field, so the `-` default is never taken |
| NumberingTable.BlankAndCommentLinesAreSkipped | rust/src/main.rs:94-97 | whitespace-only lines and lines whose trimmed form starts with `#` yield no row |
| NumberingTable.MalformedRowsAreSkipped | rust/src/main.rs:100-109 | lines with fewer than three fields, or whose second field is not a `usize`, yield no row |
| NumberingTable.SkippedRowIsInvisible | rust/src/main.rs:94-109 | a skipped row changes nothing, whatever comes before and after it |
| NumberingTable.SkippedLineIsInvisible | rust/src/main.rs:94-109 | removing a blank, comment or malformed line from anywhere in the table leaves the result unchanged |
| NumberingTable.ChainsAreThoseOfValidRows | rust/src/main.rs:112 | after i rows a chain is present exactly when a valid row before i names it |
| NumberingTable.PositionsAreThoseOfValidRows | rust/src/main.rs:112 | after i rows a chain's position is present exactly when a valid row before i wrote it |
| NumberingTable.LastWriteWinsUpTo | rust/src/main.rs:112 | after i rows a position holds the residue of the last valid row before i that wrote it |
| NumberingTable.LastWriteWins | rust/src/main.rs:90-113 | the table holds a chain and position exactly when some valid line wrote them, and holds the residue of the last such line |
| NumberingTable.ChainsOfTable | rust/src/main.rs:90-113 | the table's chains are exactly the first fields of the valid lines |
| CdrExtraction.CdrSequence | rust/src/main.rs:127-129 | the CDR string has one character per position from start to end inclusive, each the position's residue or `-` when absent |
| CdrExtraction.ChainCdrs | rust/src/main.rs:116-131 | a chain's CDR map has exactly the keys cdr1, cdr2 and cdr3, each holding the sequence of its range |
| CdrExtraction.ResultKey | rust/src/main.rs:134 | a chain is filed under its FASTA identifier when one is known, otherwise under its own label |
| CdrExtraction.BuildCdrMap | rust/src/main.rs:125-131 | the inner loop over the range table returns exactly `ChainCdrs` |
| CdrExtraction.ExtractCdrs | rust/src/main.rs:123-136 | the result keys are the keys of the table's chains; each entry is the CDR map of some chain filed under that key; when no two chains share a key, each chain's entry is its own CDR map |
| CdrExtraction.ChainCdrsContents | rust/src/main.rs:116-131 | CDR1, CDR2 and CDR3 are 12, 10 and 13 characters long, and character i of each is the residue at start+i or `-` |
| CdrExtraction.CdrSequenceDependsOnlyOnRange | rust/src/main.rs:127-129 | two position maps that agree on a range give the same CDR string for it |
| CdrExtraction.KeyEndsWithLabel | rust/src/main.rs:133-135 | under a well-labelled identifier map, the key of chain H or L is non-empty and ends with that letter |
| CdrExtraction.HeavyAndLightKeysDistinct | rust/src/main.rs:133-135 | under a well-labelled identifier map, chains H and L are never filed under the same key, so neither overwrites the other |
| CdrExtraction.HeavyChainExample | rust/src/main.rs:116-131 | a heavy chain with residues only at 27 and 38 has CDR1 `Q----------S` |
| CdrExtraction.LightChainExample | rust/src/main.rs:116-131 | a light chain with a residue only at 105 has CDR3 `C` followed by twelve gaps |
| TextReport.Held | rust/src/main.rs:147-148 | the listed pairs are names of the given list that the entry holds, each with its own sequence, and there are no more pairs than names |
| TextReport.HeldLayout | rust/src/main.rs:146-151 | an entry lists the pair of cdr1, then of cdr2, then of cdr3, each exactly once and only when the entry holds it |
| TextReport.HeldNamesDistinct | rust/src/main.rs:147-148 | when the names are distinct, no name is listed twice |
| TextReport.HeldIsComplete | rust/src/main.rs:147-148 | every name of the list that the entry holds is listed |
| TextReport.CdrLines | rust/src/main.rs:147-151 | line k is `name: sequence` for the k-th held pair: one line per held name, in the order of the names |
| TextReport.RenderEntry | rust/src/main.rs:146-152 | the block is the `[id]` header, then one `name: sequence` line per held CDR in the order cdr1, cdr2, cdr3, then a blank line |
| TextReport.EntryLayout | rust/src/main.rs:146-152 | for any entry, the block is the header, the cdr1 line if held, the cdr2 line if held, the cdr3 line if held, and a blank line |
| TextReport.RenderEntryRoundTrip | rust/src/main.rs:145-153 | decoding an entry's block gives back its identifier and the list of CDRs it holds, in order, each with its sequence |
| TextReport.RenderReport | rust/src/main.rs:145-153 | for any order that lists every result key once, reading the output back gives one entry per key in that order, each with the CDRs it lists |
| TextReport.Listing | rust/src/main.rs:145-153 | the read-back listing has one item per key of the order, holding that key and its listed CDRs |
| TextReport.EntriesRoundTrip | rust/src/main.rs:145-153 | reading the blocks of the entries back gives exactly their listing |
| TextReport.DecodeAfterEntry | rust/src/main.rs:146-152 | a block followed by more output reads back as its entry followed by what the rest reads back as |
| TextReport.EveryEntryPrintedOnce | rust/src/main.rs:145-153 | the output lists every key of the results, and no key twice |
| TextReport.FullEntryLayout | rust/src/main.rs:146-152 | an entry with all three CDRs prints as `[id]`, `cdr1: ...`, `cdr2: ...`, `cdr3: ...` and a blank line, in that order |
| TextReport.FullReportLayout | rust/src/main.rs:145-153 | when every entry holds all three CDRs, the output has five lines per entry, and the header of entry i is line 5i |
| LineFilter.Filtered | src/main.rs:79-85 | the output is no longer than the input, and every output line is kept and is an input line |
| LineFilter.FilterLines | src/main.rs:77-85 | the filter loop returns exactly `Filtered` of the lines |
| LineFilter.KeptIndices | src/main.rs:79-85 | the kept indices are strictly increasing, in range, and one per output line |
| LineFilter.FilteredAtKeptIndices | src/main.rs:79-85 | output line k is the input line at the k-th kept index, untrimmed |
| LineFilter.KeptIndicesAreTheKeptLines | src/main.rs:81-84 | an input index is kept exactly when its line neither starts with `#` nor is whitespace-only |
| LineFilter.FilteredOfConcat | src/main.rs:79-85 | filtering distributes over concatenation of line lists |
| LineFilter.FilterIsIdempotent | src/main.rs:79-85 | filtering the filter's output changes nothing |
| LineFilter.IndentedHashLineIsKept | src/main.rs:81-84 | a line with whitespace before its `#` is kept, and kept untrimmed |
| LineFilter.CommentAndBlankLinesAreDropped | src/main.rs:81-83 | a line starting with `#` and an empty or whitespace-only line are dropped |

## Left out

- Command-line parsing, creating the output directory, the `which` lookup, spawning
  ANARCI and its exit status: these are process and file-system effects. The
  numbering table reaches the model as a list of lines.
- Reading files and splitting them into lines with `BufRead::lines`, including the
  removal of `\r\n`. Every loop takes the lines as a `seq<string>`, and read errors are
  not modelled.
- JSON output in both copies (`serde_json`). The structured copy's JSON is the
  `ExtractCdrs` result itself. The earlier copy writes `{"cdr_results": results}`,
  where `results` is the `Filtered` line list.
- `println!` and `eprintln!`. The text output is modelled as the list of lines printed,
  without newlines, and progress messages are not modelled.
- `CdrExtraction.ExtractCdrs`: the order of hash-map iteration is not modelled. When
  two chains share a key, the contract says only that the surviving entry is one of
  theirs, not which one.
- `TextReport.RenderReport`: hash-map iteration order is not modelled. The entry order
  is a parameter, and it must list every key of the results exactly once.
- `Strings.ParseUsize`: the bound assumes a 64-bit `usize`.
- `Strings.SplitWhitespace`: the contract states only that every field is non-empty and
  whitespace-free. That the fields are the maximal runs of the line, in order, is in the
  definition but is not stated as a property.
- `Strings.IsWhitespace`: whitespace is the Unicode White_Space set that
  `char::is_whitespace` uses. There is no encoding: strings are sequences of
  characters.
