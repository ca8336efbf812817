# SimFileCompare name reduction and comparison, in Dafny

`SimFileCompare` compares two text files of geometry node names, one labelled
DDD and one labelled DD4Hep. Each name read from the DD4Hep file first goes
through `reducedName`. That function drops everything up to and including the
first `:`, cuts the rest before the `_` that precedes the first recognised
`shape` segment, and puts a final `_refl` back.
Then both files are tallied into frequency tables (`std::map<std::string, int>`).
The report gives the two table sizes and four sections:

- names seen more than once in the DDD file;
- names seen more than once in the DD4Hep file;
- DDD names missing from the DD4Hep table;
- DD4Hep names missing from the DDD table.

The project has four modules:

- `StringOrder` (`string_order.dfy`): the lexicographic order in which a
  `std::map` keeps its string keys. It is proved irreflexive, transitive and
  total.
- `ReducedNames` (`reduced_name.dfy`): `reducedName`. `ReducedName` is a pure
  function and `Scan` is the recursive scan. `ComputeReducedName` is the
  source's loop, proved equal to `ReducedName`. The lemmas describe the result
  without the scan.
- `FrequencyTables` (`frequency_table.dfy`): the frequency table. It is kept as
  a strictly ordered association list of `Entry(key, count)`. That matches a
  `std::map`, which stores its keys in order and iterates over them in order.
  `AsMap` gives the `map<string, nat>` the list stands for.
- `FileComparison` (`compare_files.dfy`): `CompareFiles`. It takes two already
  tokenised files, and a file may be `Unreadable`. It returns a `Report`.

The name reduction is modelled as the code is written, quirks included:

- A segment is checked for `shape` only while some `_` still occurs at or after
  the scan position. So a final segment `shapeXYZ` with no later `_` is never
  recognised, and `ns:base_shapeXYZ` stays `base_shapeXYZ`.
- The first position checked is the one right after the colon.
- If the remainder after the colon itself starts with a recognised `shape`, the
  unsigned length `last - first - 1` wraps round, and the whole remainder is
  kept. The model writes this as an explicit branch.
- `_refl` is re-appended whenever a segment was recognised and the name ends in
  `_refl`, even in the wrap case. So `ns:shape_x_refl` becomes
  `shape_x_refl_refl`.

## Model

| member | source | states |
|---|---|---|
| `ReducedNames.FindFrom` | SimG4Core/PrintGeomInfo/test/SimFileCompare.cpp:28 | `find("_", loc)`: the result is the first position at or after `loc` holding the character, and it is `None` (npos) exactly when no such position exists |
| `ReducedNames.NameStart` | SimG4Core/PrintGeomInfo/test/SimFileCompare.cpp:24 | `first` is 0 when the name has no colon; otherwise it is the position just after the first colon, with no colon before it |
| `ReducedNames.Scan` | SimG4Core/PrintGeomInfo/test/SimFileCompare.cpp:25-35 | the scan ends with `last == size + 1` (nothing recognised) or with `last` at or after the start position and inside the name; it terminates because `loc` strictly increases and never exceeds the size |
| `ReducedNames.ScanFindsFirstShape` | SimG4Core/PrintGeomInfo/test/SimFileCompare.cpp:26-35 | the scan returns the first position, among the start and the positions right after an underscore, that begins with "shape" and has a `_` at or after it; it returns `size + 1` exactly when no such position exists |
| `ReducedNames.ScanLoop` | SimG4Core/PrintGeomInfo/test/SimFileCompare.cpp:25-35 | the source's `while (1)` loop, including its `loc > size` exit, keeps `first <= loc <= size` and the scan's eventual result invariant, and ends with the same `last` as `Scan` |
| `ReducedNames.ComputeReducedName` | SimG4Core/PrintGeomInfo/test/SimFileCompare.cpp:23-38 | the whole of `reducedName` as written (find the colon, run the loop, take the substring, re-append `_refl`) computes the same name as `ReducedName` |
| `ReducedNames.ReducedNameCharacterised` | SimG4Core/PrintGeomInfo/test/SimFileCompare.cpp:24-38 | with no recognised segment the result is the whole remainder after the first colon; otherwise it is that remainder cut before the `_` preceding the first recognised segment (or whole, in the wrap case), plus `_refl` when the name ends in it |
| `ReducedNames.ReducedNameCutsAt` | SimG4Core/PrintGeomInfo/test/SimFileCompare.cpp:36-38 | the result once the first recognised segment start `p` is known: the cut remainder (whole when `p` is the first position, from the unsigned wrap), plus `_refl` when the name ends in it |
| `ReducedNames.ReducedNameUnchanged` | SimG4Core/PrintGeomInfo/test/SimFileCompare.cpp:24-36 | a name with no colon and no recognised segment comes back unchanged |
| `ReducedNames.ReducedNameDropsPrefix` | SimG4Core/PrintGeomInfo/test/SimFileCompare.cpp:24-36 | everything up to and including the first colon is dropped and later colons are kept: the result is a prefix of the rest, possibly followed by `_refl`, and is the whole rest when no segment is recognised |
| `ReducedNames.ReducedNameTruncatesAtShape` | SimG4Core/PrintGeomInfo/test/SimFileCompare.cpp:27-36 | `pre:base_shape<tail>`, with no `:` in `pre`, no `_` in `base`, `base` not starting with `shape`, and a `_` in the tail, reduces to `base` (plus `_refl` when the name ends in it) |
| `ReducedNames.ExampleTruncation` | SimG4Core/PrintGeomInfo/test/SimFileCompare.cpp:27-36 | `ns:base_shape1_x` reduces to `base` |
| `ReducedNames.ReducedNameIgnoresFinalShape` | SimG4Core/PrintGeomInfo/test/SimFileCompare.cpp:28-36 | a `shape` segment with no later `_` is not recognised, so `pre:base_shape<tail>`, with no `:` in `pre`, no `_` in `base` and no `_` in the tail, reduces to the whole remainder `base_shape<tail>`; when `base` starts with `shape` the wrap case gives the same result |
| `ReducedNames.ExampleFinalShape` | SimG4Core/PrintGeomInfo/test/SimFileCompare.cpp:28-29 | `ns:base_shapeXYZ` reduces to `base_shapeXYZ` |
| `ReducedNames.ReducedNameShapeAfterColon` | SimG4Core/PrintGeomInfo/test/SimFileCompare.cpp:26-38 | when the remainder after the colon starts with a recognised `shape`, the wrapped length keeps the whole remainder, and `_refl` is appended again if the name ends in it |
| `ReducedNames.ExampleShapeAfterColon` | SimG4Core/PrintGeomInfo/test/SimFileCompare.cpp:36-38 | `ns:shape_x_refl` reduces to `shape_x_refl_refl` |
| `ReducedNames.ReducedNameKeepsRefl` | SimG4Core/PrintGeomInfo/test/SimFileCompare.cpp:37-38 | a name ending in `_refl` reduces to a name ending in `_refl`; when the name does not end in `_refl`, or no segment is recognised, nothing is appended and the result is a prefix of the remainder |
| `FrequencyTables.Insert` | SimG4Core/PrintGeomInfo/test/SimFileCompare.cpp:56-60 | adding a name raises its count by one and leaves every other count alone (a new key is stored with count 1); the table stays ordered, every count stays at least 1, and a key below every old key stays below every new one |
| `FrequencyTables.Tally` | SimG4Core/PrintGeomInfo/test/SimFileCompare.cpp:52-61 | the table built from the names read has, for every key, the number of names equal to it; it is ordered and all counts are at least 1 |
| `FrequencyTables.AsMapAgrees` | SimG4Core/PrintGeomInfo/test/SimFileCompare.cpp:46 | the ordered list stands for a `map<string, nat>` with the same keys and counts and with as many keys as the list has entries |
| `FrequencyTables.TallyCounts` | SimG4Core/PrintGeomInfo/test/SimFileCompare.cpp:68-78 | the keys of a table are exactly the names read, each key maps to the number of times it was read (at least 1), and the table size is the number of distinct names |
| `FrequencyTables.TallyOrderIndependent` | SimG4Core/PrintGeomInfo/test/SimFileCompare.cpp:52-61 | two files holding the same names with the same multiplicities give the same table, whatever the reading order |
| `FrequencyTables.EntryInTable` | SimG4Core/PrintGeomInfo/test/SimFileCompare.cpp:84-86 | the entries a report loop visits are exactly the pairs (name, count) whose count is positive and is the count stored for that name |
| `FrequencyTables.TableExtensional` | SimG4Core/PrintGeomInfo/test/SimFileCompare.cpp:46 | two valid tables that agree on every count are equal, keys, order and all |
| `FrequencyTables.Select` | SimG4Core/PrintGeomInfo/test/SimFileCompare.cpp:84-102 | a report loop lists exactly the table entries that pass its test, and keeps them in ascending key order |
| `FileComparison.DuplicatesExact` | SimG4Core/PrintGeomInfo/test/SimFileCompare.cpp:83-92 | a duplicate section lists, in ascending order, exactly the names read more than once, each with its count |
| `FileComparison.MissingExact` | SimG4Core/PrintGeomInfo/test/SimFileCompare.cpp:93-102 | an "entry in A not in B" section lists, in ascending order, exactly the names read in A and never in B, each with its count in A |
| `FileComparison.CompareFilesReport` | SimG4Core/PrintGeomInfo/test/SimFileCompare.cpp:44-102 | the whole report: the sizes are the numbers of distinct names on each side (DD4Hep names after reduction), and all four sections are exact and in ascending order |
| `FileComparison.UnreadableFileReadsAsEmpty` | SimG4Core/PrintGeomInfo/test/SimFileCompare.cpp:48-66 | a DDD file that cannot be opened gives the same report as an empty one: its size and sections are empty, every DD4Hep entry is reported missing from it, and the DD4Hep duplicates do not depend on the DDD file |
| `FileComparison.UnreadableDD4HepFileReadsAsEmpty` | SimG4Core/PrintGeomInfo/test/SimFileCompare.cpp:64-79 | a DD4Hep file that cannot be opened gives the same report as an empty one: its size and sections are empty, every DDD entry is reported missing from it, and the DDD duplicates do not depend on the DD4Hep file |
| `FileComparison.MatchingFilesShowNoDifference` | SimG4Core/PrintGeomInfo/test/SimFileCompare.cpp:84-102 | when both sides hold the same names with the same multiplicities, both "missing" sections are empty, and the duplicate sections and the sizes agree |
| `FileComparison.OneExtraNameReported` | SimG4Core/PrintGeomInfo/test/SimFileCompare.cpp:93-102 | when the DD4Hep side holds the DDD names plus one new name, that name is the only entry missing from the DDD side, with count 1, and nothing is missing from the DD4Hep side |
| `FileComparison.SingleEntry` | SimG4Core/PrintGeomInfo/test/SimFileCompare.cpp:98-102 | an ordered section whose only element is `e` is the one-line section `[e]` |

## Left out

- Reading the files (SimFileCompare.cpp lines 48-79) is I/O. The model takes each file as its sequence of whitespace-separated names, or as `Unreadable`. It also leaves out one side effect of the `>>`-then-`good()` loop: it drops the last name of a file that does not end in whitespace.
- The printed text is left out: the debug line of `reducedName` (lines 39-40), the headings, and the `" : "` / `" appearing ... times"` formatting (lines 81-102). `ReducedName` therefore takes no `debug` argument. The report holds each section's entries rather than printed lines.
- `main` and the argument handling (lines 105-120) are left out. That code reads `argv[3]` even when only two file names are given.
- Counts are unbounded `nat` in the model. In the source they are `int` (lines 46, 60, 77), so more than 2^31 - 1 reads of one name would overflow `++(it->second)`, which is undefined behaviour. The model does not bound the counts.
- The 32-bit `uint32_t` positions are not modelled. Names of 2^32 - 1 characters or more would wrap `first`, `last` and `loc`. The one wrap that matters for real names, `last - first - 1` with `last == first`, is modelled as an explicit branch.
- `Scan` leaves out the `loc > name.size()` exit of line 34. `find` returns a position inside the name, so that exit can never be taken. `ScanLoop` keeps it.
- The second reading loop closes `fInput1` instead of `fInput2` (line 79). The model has no file handles, so this is not modelled.
- L1Trigger/DemonstratorTools/plugins/GTTFileReader.cc is not part of this model. It is a framework plugin, and its decoding lives in a library that is not shown.
- The Python job configurations (test_writeTotemDAQMapping.py, g4OverlapCheck_dd4hep_cfg.py, mtd_cfg.py) hold no algorithm and are not modelled.
- Characters are compared by their code, as `std::char_traits<char>` compares them (as unsigned values). Names are sequences of characters, with no encoding.
