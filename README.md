# East Asian Width generator, modelled in Dafny

iTerm2 decides which characters take two terminal cells, and which have an
ambiguous width, from two character sets declared at
`sources/NSCharacterSet+iTerm.h:19-23`. Their contents are generated by
`tools/eastasian.py`. That script reads the lines of the Unicode data file
EastAsianWidth.txt and keeps the code-point field of every line whose width
class is F (full-width) or W (wide), or A (ambiguous). The width classes are
those of Unicode Standard Annex #11, section 4. Each field is one hex code
point or a `LOW..HIGH` range, as in UAX #44 section 4.2. The script expands
every field into its code points, then coalesces consecutive code points into
runs. It prints one `addCharactersInRange:NSMakeRange(start, count)` line per
run.

This project models that script:

- `wrappers.dfy` has `Option`, the result of a step that can fail where the
  script raises `ValueError`.
- `pystr.dfy` has the two string operations the script uses:
  `str.startswith`, and `str.split` with a separator. `Split` takes the
  leftmost non-overlapping occurrences, as Python does, and is proved to
  cut there. It is also proved to be undone by `Join`, and no piece contains
  the separator.
- `hex.dfy` has `int(text, 16)` on plain hex-digit strings, and its
  inverses: the digits `hex()` prints, and the code-point fields the data
  file holds (upper-case digits, zero-padded to at least four).
- `ranges.dfy` has `get_ranges`. It groups `enumerate(values)` with
  `itertools.groupby`, keyed on value minus index, and yields the first and
  last value of each group. It is proved to round-trip and to yield maximal
  runs. It is also proved to be the only sequence of runs with those
  properties.
- `eastasian.dfy` has `parse`, the two loops of `output` (as methods whose
  contracts tie them to specification functions), the module-level line
  classifier (a method with a loop), the whole script (`Generate`), and
  lemmas about all of them. A worked five-line sample file in the data
  file's format is classified, parsed and coalesced into the wide run and
  the ambiguous run the script prints for it.

The file and standard output are replaced by values. The data file is a
`seq<string>` of lines, each with its line terminator. What `output` prints
is a sequence of `(start, count)` pairs.

## Model

| member | source | states |
|---|---|---|
| `Hex.ParseHex` | tools/eastasian.py:18-20 | `int(text, 16)`: no contract of its own; `HexValue`, `ParseFormatHex` and `CodePointFieldValue` state its value |
| `Hex.HexValue` | tools/eastasian.py:18 | the value of a digit string of length n is below 16^n |
| `Hex.ParseFormatHex` | tools/eastasian.py:18-20 | parsing the hex digits of any natural number, in lower case as `hex()` writes them or in upper case, gives that number back |
| `Hex.LeadingZero` | tools/eastasian.py:18 | a leading zero does not change the value of a code-point field |
| `Hex.ZeroPadValue` | tools/eastasian.py:18-20 | padding digits with zeros to a width reaches that width and keeps their value and their case |
| `Hex.CodePointFieldValue` | tools/eastasian.py:18-20 | a code point written as the data file writes it (upper-case digits, at least four) parses back to that code point |
| `PyStr.StartsWith` | tools/eastasian.py:43-51 | `s.startswith(prefix)`: no contract of its own; `ClassifyDataLine` and `ClassifyNoSemicolon` state how the classifier uses it |
| `PyStr.Split` | tools/eastasian.py:45 | `s.split(sep)`: at least one piece; `JoinSplit`, `SplitNoOccurrence` and `SplitAtFirstOccurrence` state which pieces |
| `PyStr.JoinSplit` | tools/eastasian.py:16 | joining the pieces of `s.split(sep)` with `sep` gives back `s` |
| `PyStr.SplitPiecesLackSeparator` | tools/eastasian.py:45 | no piece of `s.split(sep)` contains `sep` |
| `PyStr.SplitAfter` | tools/eastasian.py:16 | `a + sep + b` splits right after `a` when `a` never has the separator's first character |
| `PyStr.SplitNoOccurrence` | tools/eastasian.py:16 | a string in which `sep` never occurs splits into the one piece `[s]`, as `len(parts) == 1` expects |
| `PyStr.SplitAtFirstOccurrence` | tools/eastasian.py:16 | the first piece is the text before the leftmost occurrence of `sep`, and the other pieces are the split of what follows that occurrence |
| `EastAsian.Parse` | tools/eastasian.py:15-21 | `parse(s)`: no contract of its own; `ParseSingle`, `ParseRange` and `ParseEntryText` state it |
| `EastAsian.ParseSingle` | tools/eastasian.py:16-18 | a single hex code point "X" parses to (X, 1) |
| `EastAsian.ParseRange` | tools/eastasian.py:19-21 | "L..H" parses to (L, H - L + 1); its code points are exactly L..H and end at H; the count is at least 1 exactly when L <= H |
| `EastAsian.ParseEntryText` | tools/eastasian.py:15-21 | the data-file field for first..last (one padded upper-case code point, or two joined by "..") parses to (first, last - first + 1) |
| `EastAsian.SampleEntryTexts` | tools/eastasian.py:15-21 | the field written for U+00A1 is "00A1" and the one for U+3001..U+3003 is "3001..3003", as in the data file |
| `Ranges.Interval` | tools/eastasian.py:12 | first..last has last - first + 1 values (none when first > last), the k-th being first + k |
| `Ranges.Expand` | tools/eastasian.py:29-30 | `start + i for i in range(count)`: no contract of its own; `ExpandIsInterval` states it |
| `Ranges.Key` | tools/eastasian.py:6-8 | `difference((i, x))`, the value minus its index: no contract of its own; `GroupIsInterval` states what a constant key means |
| `Ranges.GroupEnd` | tools/eastasian.py:6-10 | a group ends at the first position whose key (value minus index) differs, or at the end of the input |
| `Ranges.RangesFrom` | tools/eastasian.py:10-12 | at most one pair per value; no pairs exactly at the end; each pair starts at the first value of its group |
| `Ranges.GroupIsInterval` | tools/eastasian.py:6-10 | within a group the key is constant, so the values step by +1 from its first to its last |
| `Ranges.RangesFromCoverage` | tools/eastasian.py:10-12 | expanding the pairs for the groups from position i covers exactly the input from i on |
| `Ranges.RangesFromMaximal` | tools/eastasian.py:6-10 | the next pair never starts at the previous pair's last value + 1 |
| `Ranges.GetRanges` | tools/eastasian.py:5-12 | `get_ranges(xs)`: no contract of its own; `GetRangesSpec` and `GetRangesUnique` state it |
| `Ranges.GetRangesSpec` | tools/eastasian.py:5-12 | round trip: expanding each (first, last) pair in order gives back the input; every pair has first <= last; adjacent pairs cannot be merged; at most as many pairs as values; none exactly for empty input |
| `Ranges.GetRangesUnique` | tools/eastasian.py:5-12 | any non-empty, maximal runs that cover the input in order are exactly what `get_ranges` yields |
| `Ranges.ExpandIsInterval` | tools/eastasian.py:29-30 | `start + i for i in range(count)` is the interval start..start + count - 1, empty when count <= 0 |
| `EastAsian.ParseAll` | tools/eastasian.py:27-28 | `parse(v)` for each `v` in order, failing at the first `ValueError`: no contract of its own; `ParseAllSpec` and `ParseAllFailsAfter` state it |
| `EastAsian.ExpandAll` | tools/eastasian.py:26-30 | `nums` after the loop, from the parsed entries: no contract of its own; `ExpandEntries`, `RunsSpec` and `ExpandIsInterval` state it |
| `EastAsian.Expanded` | tools/eastasian.py:26-30 | `nums` after the loop, or None where `parse` raises: no contract of its own; `ExpandEntries` and `ParseAllSpec` state it |
| `EastAsian.ParseAllSpec` | tools/eastasian.py:27-28 | the entries parse together exactly when each parses, and then to their parses in order |
| `EastAsian.ParseAllFailsAfter` | tools/eastasian.py:27-28 | once one entry fails to parse, the whole list fails |
| `EastAsian.ExpandEntries` | tools/eastasian.py:26-30 | the nested loop builds `nums` as the code points of the parsed entries in order, or fails with the first bad entry |
| `EastAsian.Output` | tools/eastasian.py:24-35 | the runs are those of `get_ranges(nums)` as (start, count); they fail exactly when some entry fails to parse; otherwise every count is >= 1, no run could be merged with the next, and the runs cover the entries' code points exactly and in order |
| `EastAsian.Runs` | tools/eastasian.py:24-35 | the runs `output` prints, or None where it raises: no contract of its own; `RunsSpec`, `RunsUnique` and `Output` state them |
| `EastAsian.RunsSpec` | tools/eastasian.py:31-35 | the printed runs cover the entries' code points in order, counts are >= 1, neighbours are unmergeable, and there are at most as many runs as code points |
| `EastAsian.RunsUnique` | tools/eastasian.py:31-35 | any positive-count, unmergeable runs covering the entries' code points are exactly what `output` prints |
| `EastAsian.StartCounts` | tools/eastasian.py:31-33 | `count = r[1] - r[0] + 1` for each pair: no contract of its own; `StartCountsCoverage` and `RunsSpec` state it |
| `EastAsian.StartCountsCoverage` | tools/eastasian.py:31-33 | turning (first, last) into (first, last - first + 1) keeps the covered code points |
| `EastAsian.AdjacentEntriesCoalesce` | tools/eastasian.py:26-35 | two entries where the second starts right after the first ends print as one run covering both |
| `EastAsian.SeparateEntriesStayApart` | tools/eastasian.py:26-35 | two code points with a gap between them print as two runs of one |
| `EastAsian.OneEntryOneRun` | tools/eastasian.py:26-35 | a single entry covering at least one code point prints as exactly its own (start, count) run |
| `EastAsian.Classify` | tools/eastasian.py:43-52 | the branch a line takes: no contract of its own; `ClassifyDataLine`, `ClassifyNoSemicolon` and `SelectedSpec` state it |
| `EastAsian.CodePoints` | tools/eastasian.py:45-52 | `parts[0]`, what `append` adds: no contract of its own; `ClassifyDataLine` states it |
| `EastAsian.Selected` | tools/eastasian.py:40-52 | the `wide` or `ambiguous` list after the loop: no contract of its own; `ClassifyLines`, `SelectedSpec` and `NoLineInBoth` state it |
| `EastAsian.ClassifyLines` | tools/eastasian.py:40-52 | the loop builds `wide` and `ambiguous` as the code-point fields of the lines classified F/W and A, in file order |
| `EastAsian.LineIndicesSpec` | tools/eastasian.py:42-52 | the positions of the lines of one class are exactly those lines, each once, in increasing order |
| `EastAsian.SelectedSpec` | tools/eastasian.py:42-52 | each list holds parts[0] of exactly the lines of its class, each once, in file order |
| `EastAsian.NoLineInBoth` | tools/eastasian.py:49-52 | no line lands in both `wide` and `ambiguous` |
| `EastAsian.ClassifyDataLine` | tools/eastasian.py:45-52 | a line "cp;prop" goes to wide when prop starts with "F " or "W ", to ambiguous when it starts with "A ", and is dropped otherwise; cp is what is appended |
| `EastAsian.ClassifyNoSemicolon` | tools/eastasian.py:43-47 | a line without ';' is skipped, as a comment or as having fewer than two fields |
| `EastAsian.Generate` | tools/eastasian.py:39-55 | the script prints the runs of the wide list, then those of the ambiguous list, and never gets to the second when the first fails |
| `EastAsian.SampleClassified` | tools/eastasian.py:42-52 | on the sample file, wide gets "3000" and "3001..3003" and ambiguous gets "00A1" |
| `EastAsian.SampleWideRuns` | tools/eastasian.py:54 | on the sample file, the wide entries print as the one run (0x3000, 4) |
| `EastAsian.SampleAmbiguousRuns` | tools/eastasian.py:55 | on the sample file, the ambiguous entry prints as the one run (0xA1, 1) |
| `EastAsian.SampleRuns` | tools/eastasian.py:54-55 | on the sample file, the wide list's runs are [(0x3000, 4)] and the ambiguous list's are [(0xA1, 1)]; `Generate`'s contract says the script prints them in that order |

## Left out

- File and standard-output I/O (tools/eastasian.py:25, 34-36, 39): the lines of
  EastAsianWidth.txt are an input sequence, and what `output` prints is its
  returned list of (start, count) runs. The `// label` header, the
  `addCharactersInRange` text, the `hex()` rendering and the blank line are
  not modelled. The `label` and `variable` arguments only feed that text and
  are dropped.
- Hex.ParseHex: models `int(text, 16)` only on plain hex-digit strings. Python
  also accepts surrounding whitespace, a sign, a `0x` prefix, underscores
  between digits and non-ASCII digits; the model treats those as parse
  failures.
- EastAsian.Output: a `ValueError` is modelled as the result `None`. The
  `// Wide` header printed before the error is not modelled.
- `get_ranges` is a lazy generator in Python; the model gives its whole
  output as a list, which the printing loop then walks.
- Integer width: Python integers are unbounded, and so are Dafny's `int`. The
  width of `NSMakeRange`'s fields in the generated Objective-C is not modelled.
- EastAsian.ClassifyDataLine: states the rule only for lines whose property
  part has no ';'. Other lines are covered by `Classify` itself and by
  `SelectedSpec`.
- The Objective-C headers among the repository's files
  (sources/VT100OtherParser.h, sources/VT100SixelParser.h,
  sources/VT100TmuxParser.h, sources/VT100StateTransition.h,
  sources/iTermTmuxLayoutBuilder.h and the UI, rendering, networking and
  process headers) hold declarations without bodies. So the escape-sequence
  decoder, its DCS hooks, and the Sixel and tmux sub-decoders are not part of
  this model: there is no implementation to model them against.
- `api/library/python/iterm2/iterm2/tmux.py`: asynchronous RPC client code
  over a protobuf connection. It is not part of this model.
