# hapFrequency in Dafny

A model of `hapFrequency.py`, a script that tabulates haplotype frequencies
per population from a FASTA alignment and an optional population map. The
model covers the whole computation of `main`:

- `read_fasta` is a left fold over the lines of the FASTA file.
- `parsePopmap` is a fold over the lines of the population map.
- The records go into the sample table `seqs`, where the last record for an
  identifier wins.
- The sequences are grouped into `pops`, with the synthetic group "TOTAL" first.
- Haplotypes are counted per group, and each count is turned into a frequency.
- `hapTotals` is filled with those frequencies.
- The output table is a header plus one line per haplotype.

Python dicts are insertion-ordered, and that order decides the table's column
and row order. So every dict is modelled as `OrderedDict.Dict`: an association
list with distinct keys, where assigning to a present key replaces its value
in place and assigning to a new key appends it. The population map is only
looked up, so it is a Dafny `map`.

Frequencies are exact rationals (`Counting.Frequency(count, total)`), not
floats. The four-decimal rendering `"{0:.4f}"` is exact round-half-even to
four decimals.

Files read from disk become sequences of lines. The table written to disk
becomes a returned `FreqTable.Table` value. The warnings printed for unmapped
samples become a returned list. Both errors the code can raise are returned
as `Result` failures:

- `stuff[1]` on a popmap line with a single field (an IndexError);
- `hapTotals[key]` for a haplotype without a row (a KeyError).

The second one is proved never to happen.

Modules, in dependency order:

| file | module | what |
|---|---|---|
| wrappers.dfy | `Wrappers` | `Option`, `Result` |
| ordered_dict.dfy | `OrderedDict` | insertion-ordered dicts, `Dedup` (distinct elements in first-occurrence order) |
| seqs.dfy | `Seqs` | facts about sequence concatenation |
| text.dfy | `Text` | `str.isspace`, `strip()`, `split()`, `replace` |
| fasta.dfy | `Fasta` | `read_fasta` |
| popmap.dfy | `Popmap` | `parsePopmap` |
| grouping.dfy | `Grouping` | `seqs` and `pops` |
| counting.dfy | `Counting` | counts, frequencies, four-decimal formatting |
| table.dfy | `FreqTable` | `hapTotals` and the output table |
| hap_frequency.dfy | `HapFrequency` | `main` end to end |

## Model

| member | source | states |
|---|---|---|
| Text.Strip | hapFrequency.py:110 | `line.strip()`: empty exactly when the line is all whitespace (Python's `isspace` code points); otherwise it starts and ends with a non-whitespace character |
| Text.StripPosition | hapFrequency.py:110 | the stripped text is the part of the line right after its leading whitespace, and only whitespace follows it |
| Text.StripTrimmed | hapFrequency.py:110 | a non-empty line without surrounding whitespace strips to itself |
| Text.Tokens | hapFrequency.py:121 | `split()` yields non-empty, whitespace-free tokens, and none at all exactly for an all-whitespace text |
| Text.TokensSplit | hapFrequency.py:121 | after leading whitespace, a maximal whitespace-free run is the next token and splitting continues on what follows it, so every token is a maximal run and the split of any text is determined |
| Text.TokensJoin | hapFrequency.py:121 | concatenating the tokens gives the text with its whitespace removed: splitting drops only whitespace |
| Text.TokensOfWord | hapFrequency.py:121 | a non-empty whitespace-free text splits into itself alone |
| Text.RemoveChar | hapFrequency.py:122 | `replace(">", "")` leaves no `>`, and a text without `>` is left unchanged |
| Text.RemoveCharKeeps | hapFrequency.py:122 | every character other than the removed one is kept, with its multiplicity |
| Text.RemoveCharAppend | hapFrequency.py:122 | removing from a concatenation is removing from each part and concatenating, so the kept characters stay in their order |
| Fasta.Classify | hapFrequency.py:110-124 | a line is blank exactly when it is all whitespace and a header exactly when its stripped text starts with `>`; a header's identifier is the first whitespace-delimited token of the stripped line with every `>` removed; any other line is sequence text, the stripped line |
| Fasta.ScanInvariant | hapFrequency.py:107-124 | the fold's invariant: emitted identifiers are non-empty; emitted sequences plus the pending one are all content lines in order; emitted plus pending identifiers are the non-empty header identifiers in order |
| Fasta.ReadFastaShape | hapFrequency.py:117-127 | every record has a non-empty identifier; the identifiers are the non-empty header identifiers in order, except that the last one may be dropped; the sequences joined are a prefix of the content, and all of it when a header was dropped; with no named header there are no records |
| Fasta.HeaderLine | hapFrequency.py:114-122 | `>` followed by a whitespace-free, `>`-free identifier is a header with that identifier |
| Fasta.HeaderWithDescription | hapFrequency.py:110-122 | a header line with leading whitespace and a description after the identifier still names exactly that identifier |
| Fasta.SpacedHeaderIsBare | hapFrequency.py:121-122 | a header line with whitespace right after its `>`, such as `> seq1 desc`, is a header with an empty identifier, a bare header |
| Fasta.ReadRender | hapFrequency.py:102-134 | reading back single-line FASTA text written from well-formed records gives those records |
| Fasta.ReadLayout | hapFrequency.py:107-127 | a file of leading blank lines and then, per record, a header naming it followed by blank and sequence lines whose stripped text joins to its sequence, reads back as exactly those records, except that a last record with an empty sequence is dropped |
| Fasta.EmptyRecordFlushedAtHeader | hapFrequency.py:117-120 | a header directly followed by another header is still emitted, with an empty sequence |
| Fasta.ReadCarried | hapFrequency.py:117-126 | blank and sequence lines before the first header, followed by records laid out as for `ReadLayout`, read back as those records with the text of the leading lines prepended to the first record's sequence, and only a last record with an empty sequence dropped; with no record the leading text yields nothing |
| Fasta.ReadAfterBare | hapFrequency.py:117-126 | after laid-out records, a bare header (first token only `>`s) flushes the last of them even when its sequence is empty and opens none; the blank and sequence lines after it are prepended to the sequence of the first record laid out after them, or lost when none follows; only a final record with an empty sequence is dropped |
| Fasta.LeadingDataCarried | hapFrequency.py:117-124 | example: whitespace-free sequence lines and then one header with one sequence line read back as that one record, with the leading lines' text first |
| Fasta.BareHeaderCarried | hapFrequency.py:117-124 | example: after single-line records, a bare `>`, one sequence line, and one more single-line record read back as the records and then that record with the line's text first |
| Fasta.TrailingHeaderDropped | hapFrequency.py:126-127 | a header with no sequence before the end of input is not emitted |
| Popmap.EntryOf | hapFrequency.py:158-163 | a blank line is skipped; a line with at least two fields assigns its first field to its second; any other line is an error |
| Popmap.ParsePopmap | hapFrequency.py:149-164 | fails exactly when some non-blank line has fewer than two fields, reporting the first such line; otherwise a sample is in the map exactly when some line assigns it, mapped to the population of the last such line |
| Popmap.LastLineWins | hapFrequency.py:163 | appending an assignment line overrides the earlier assignment of that sample |
| Popmap.BlankLineSkipped | hapFrequency.py:159-160 | appending a blank line changes nothing |
| Popmap.PopulationsNoSpace | hapFrequency.py:162-163 | every population name in a parsed map is a whitespace-free token |
| Grouping.SampleTable | hapFrequency.py:19-20 | `seqs` has one entry per distinct identifier, in first-seen order, holding the sequence of that identifier's last record |
| Grouping.GroupWithoutPopmap | hapFrequency.py:28-29 | without a population map the only group is "TOTAL", holding every sample's sequence, and there are no warnings |
| Grouping.GroupWithPopmap | hapFrequency.py:28-41 | with a map: "TOTAL" comes first and holds every sample's sequence, then those of samples mapped to a pop named "TOTAL"; the other groups follow in order of first mention, each holding exactly the sequences of its samples in order, so none is empty; every member is some sample's sequence; the unmapped samples are reported in order |
| Grouping.DistributeInvariant | hapFrequency.py:31-41 | the loop's invariant: the group keys are "TOTAL" and then the labels in order of first mention, each group is its base plus its members, and the unmapped samples are listed in order |
| Grouping.LabelHasMembers | hapFrequency.py:33-39 | a group is created only when a sample is added to it, so every named group is non-empty |
| Grouping.MembersWithin | hapFrequency.py:34-37 | a group holds only sequences of samples |
| Grouping.LabelsWithin | hapFrequency.py:31-39 | every named group is a population of the map |
| Counting.Counts | hapFrequency.py:49-56 | one count per distinct haplotype of the group, in first-occurrence order, equal to its number of occurrences |
| Counting.CountsSum | hapFrequency.py:50-56 | the counts add up to `total`, the size of the group |
| Counting.OccurrencesBound | hapFrequency.py:50-56 | no haplotype occurs more often than the group has members |
| Counting.Frequencies | hapFrequency.py:58-59 | one frequency per distinct haplotype, in first-occurrence order: its count over the group size, strictly positive and at most one |
| Counting.FrequencyOf | hapFrequency.py:58-61 | a haplotype has a frequency in a group exactly when it occurs in the group |
| Counting.FrequenciesSumToOne | hapFrequency.py:58-59 | the frequencies of a non-empty group add up to exactly one |
| Counting.RoundHalfEvenNearest | hapFrequency.py:79 | the rounded value is within half a unit of the exact quotient, and even on a tie |
| Counting.NearestIsUnique | hapFrequency.py:79 | only one integer is strictly nearer than half a unit, so rounding is determined except on ties |
| Counting.FormatRoundTrip | hapFrequency.py:79 | the four-decimal text reads back as the frequency rounded half-to-even to units of 1/10000 |
| Counting.FormatOfShare | hapFrequency.py:79 | a frequency in (0, 1] is written "1.0000" or as six characters starting "0." |
| Counting.ZeroCellIsNoFrequency | hapFrequency.py:81 | the absent-cell text `str(0.0000)` = "0.0" never reads as a four-decimal frequency |
| FreqTable.InitRows | hapFrequency.py:44-46 | one empty row per distinct haplotype of "TOTAL", in first-occurrence order |
| FreqTable.FillOne | hapFrequency.py:61 | `hapTotals[key][pop] = f` fails with a KeyError exactly when the haplotype has no row; otherwise only that row changes, gaining the pop's cell |
| FreqTable.FillOutcome | hapFrequency.py:58-61 | filling a pop's frequencies succeeds exactly when every counted haplotype has a row, and never adds or removes rows |
| FreqTable.FillFailure | hapFrequency.py:58-61 | a failed fill reports the first counted haplotype without a row |
| FreqTable.FillCells | hapFrequency.py:58-61 | after the fill, each row holds the pop's frequency exactly for the haplotypes the pop counts |
| FreqTable.FillAllOutcome | hapFrequency.py:48-61 | the whole fill succeeds exactly when every haplotype of every group has a row; a failure names such a haplotype |
| FreqTable.FillAllCells | hapFrequency.py:48-61 | each filled row is its haplotype's reference row: the cells of the groups in order |
| FreqTable.RowOfCells | hapFrequency.py:48-61 | the reference row of a haplotype holds, for every pop, exactly its frequency in that pop's group, and nothing for a pop without a group or where it does not occur |
| FreqTable.SplitJoin | hapFrequency.py:68-82 | splitting a tab-joined line at tabs gives the cells back when no cell contains a tab |
| FreqTable.LineFields | hapFrequency.py:68-82 | a written line, newline included, splits at tabs into the cells it was written from when no cell contains a tab |
| FreqTable.FileLinesFields | hapFrequency.py:64-83 | the file has one line for the header and one per row, and each line splits at tabs into its header or row cells when no cell contains a tab |
| FreqTable.LineFieldCount | hapFrequency.py:75-82 | a written line splits at tabs into as many fields as it has cells plus the tabs inside them, so each tab in a cell adds a field |
| FreqTable.TabbedCellAddsField | hapFrequency.py:75-82 | example: the cells `A<tab>C` and `1.0000` read back as the three fields `A`, `C`, `1.0000` |
| HapFrequency.TotalGroup | hapFrequency.py:29-46 | "TOTAL" is the first group, its distinct haplotypes are the distinct sample sequences, and every group's haplotypes are among them |
| HapFrequency.TableOfGroups | hapFrequency.py:44-83 | when the groups' haplotypes all have rows, the fill succeeds; the header is "Haplotype" and the groups; there is one line per distinct haplotype, holding it and then its cell for each group |
| HapFrequency.TabulateTable | hapFrequency.py:27-83 | tabulating never fails; the header is "Haplotype", then "TOTAL", then the other groups; the lines are the distinct sample sequences in order of first occurrence, each followed by its frequency in each group or "0.0"; there is one warning per unmapped sample |
| HapFrequency.TabulateWithoutPopmap | hapFrequency.py:67-72 | without a population map the header is "Haplotype", "TOTAL", and there is no warning |
| HapFrequency.TabulateLineWidth | hapFrequency.py:75-82 | every line has as many cells as the header |
| HapFrequency.TabulateFields | hapFrequency.py:64-83 | when no sample sequence or population name contains a tab, every line written to the file has as many tab-separated fields as the header |
| HapFrequency.RunFailure | hapFrequency.py:11-95 | the program fails exactly when a population map is given and one of its lines has fewer than two fields, and then with that parse error |
| HapFrequency.RunOutput | hapFrequency.py:11-83 | the program succeeds exactly when the population map, if any, parses; then the header is "Haplotype", "TOTAL" and the other groups, there is one line per distinct sequence of the sample table of the FASTA records, holding it and its cell for each group, and one warning per unmapped sample |
| HapFrequency.RunFields | hapFrequency.py:11-83 | when no FASTA record's sequence contains a tab, every line the program writes has as many tab-separated fields as the header |

## Left out

- File I/O: `os.path.exists`, `open`, the `FileNotFoundError` and `IOError` branches, and `sys.exit`. The inputs are already-read lines and the table is returned.
- Splitting the files into lines. Python's universal-newline reading is assumed to have happened, and the lines are taken as given.
- `parseArgs`, `display_help` and `fileCheck`: command-line handling.
- The unused `dip` option and the unused `Bio` and `alignment_tools` imports.
- `validatePopmap` (lines 138-146): it only prints and is never called.
- The console output of lines 57-62, the per-pop frequency printout. It is a second rendering of the same `Counting.Frequencies` and `Counting.Format`.
- The "No input provided" exit when no FASTA file is given (lines 93-95).
- Counting.Format: rounds the exact quotient half-to-even. Python rounds the nearest double, so the two can differ on exact ties whose denominator is not a power of two. The printed digits are otherwise the same.
- FreqTable.FileLines: the fields of the written file are proved (`FreqTable.FileLinesFields`, `HapFrequency.RunFields`) only when no record sequence contains a tab. `strip()` keeps an inner tab, so each tab in such a sequence widens its line by a field (`FreqTable.LineFieldCount`; for example `FreqTable.TabbedCellAddsField`); what the file should hold then is not evident from the code, so no corrected table is given.

Some behaviour of `read_fasta` that the code fixes and a reader might not expect:

- A record is flushed by the next header even when its sequence is empty (line 117); only the record open at the end of input needs a non-empty sequence (line 126). See `Fasta.EmptyRecordFlushedAtHeader` and `Fasta.ReadLayout`.
- So the number of records is not always the number of headers with sequence content.
  - A bare `>` line flushes the record before it but opens none, and the lines after it join the next record (`Fasta.ReadAfterBare`).
  - A header whose first token is only `>`s counts as bare, because every `>` is removed from it (lines 121-122). So `> seq1 desc`, with a space after the `>`, is a bare header and not a header for `seq1` (`Fasta.SpacedHeaderIsBare`).
  - Sequence lines before the first header are kept in `seq`, since it is reset only on a flush, and join the first record (`Fasta.ReadCarried`).
- The identifier is the first token with every `>` removed, not only the leading one (line 122), as `Fasta.Classify` states.
