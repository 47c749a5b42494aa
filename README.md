# predictPPI: missing-edge prediction from k-defective cliques

`predictPPI.py` predicts missing interactions in a protein-protein
interaction (PPI) network. It runs an external k-defective clique solver
on the network's edge list, reads the solver's result file, keeps the
cliques of at least `q` nodes, and lists for each kept clique the node
pairs it lacks in the network. A kept clique may lack at most `k` pairs.
It writes two files:

- the cliques file, one line per kept clique: its protein names, a tab,
  and `missing:` followed by the pairs it lacks;
- the predictions file, one line per lacked pair, in ascending order.

This project models that program after the solver has run:

- reading the edge list into a symmetric adjacency set (`load_adj`);
- reading the name mapping (`load_mapping`) and naming node ids
  (`id_to_name`);
- decoding the solver's result file (`parse_res`): the two mapping lines,
  the inversion of the second one, and the clique lines up to the first
  `#` line;
- the analysis loop of `main`: missing pairs per clique, the `k` bound,
  the `q` filter, the global set of predicted edges, and the two output
  files with the counts printed at the end.

Files are given as sequences of lines. Each line keeps its newline, as
`readlines` returns them. Outputs are returned as sequences of lines.
Python exceptions become the `Err` case of a `Result`. `Outcomes.Error`
names the exception kind: `IncompleteResult` stands for the
`RuntimeError` that `parse_res` raises, and `ValueError`, `KeyError`,
`IndexError` and `AssertionError` stand for themselves.

Modules:

- `Outcomes`: the error kinds, `Option` and `Result`.
- `Sequences`: element sets, ranges, flattening, unions.
- `Pairs`: lexicographic order on id pairs; `SortedPairs` is Python's
  `sorted()` on a set of pairs.
- `Strings`: Python's `str.strip`, `str.split()`, `int()` on a token,
  `str()` of an integer, and `join`.
- `Adjacency`, `Names`, `ResultDecoder`, `MissingEdges`, `Report`: the
  parts of the program listed above.
- `Pipeline`: `main` from `load_adj` to the final counts.

The loops that change state are methods proved against the functions that
specify them:

- `Adjacency.LoadAdj`;
- `ResultDecoder.ParseRes`;
- `MissingEdges.ScanRow`, `MissingEdges.ScanClique` and
  `MissingEdges.Analyze`.

`Pipeline.PredictMissingEdges` is `main`, which runs those loops in order.

## Model

| member | source | states |
|---|---|---|
| Adjacency.LoadAdj | predictPPI.py:8-17 | reading the lines one by one into a growing set gives exactly the outcome `AdjacencyOf` of the whole edge list, including the first ValueError |
| Adjacency.LineEdge | predictPPI.py:12-14 | a line is skipped exactly when it is all whitespace; any other failure to read it is a ValueError |
| Adjacency.AdjacencyFails | predictPPI.py:11-14 | load_adj fails exactly when some non-blank line is not two integers, and the error is then ValueError |
| Adjacency.AdjacencyMembers | predictPPI.py:11-16 | on success a pair is in the set exactly when some line holds it or its reverse: the set is the symmetric closure of the pairs read |
| Adjacency.AdjacencySymmetric | predictPPI.py:15-16 | every pair in the set is there together with its reverse |
| Adjacency.SameLinesSameAdjacency | predictPPI.py:11-16 | two edge lists with the same lines, in any order and with any repetition, give the same outcome |
| Adjacency.DuplicateLine | predictPPI.py:11-16 | repeating a line of the edge list changes nothing |
| Adjacency.FoldFails | predictPPI.py:11-14 | the loop fails exactly when one of the lines read fails, and with that line's error |
| Adjacency.FoldMembers | predictPPI.py:11-16 | after n lines the set holds both orientations of the pairs of those lines and nothing else |
| Adjacency.EdgeLineRoundTrip | predictPPI.py:14 | the line "u v\n" reads back as the pair (u, v), for all integers u and v |
| Names.LoadMapping | predictPPI.py:20-23 | the names are non-blank, already stripped, and no more numerous than the lines |
| Names.LoadMappingConcat | predictPPI.py:22 | the mapping of two blocks of lines is the mapping of the first followed by that of the second |
| Names.BlankLineSkipped | predictPPI.py:22 | a blank line takes no node id: removing it changes nothing |
| Names.LoadMappingNoBlank | predictPPI.py:22 | with no blank line, node i is named by line i, stripped |
| Names.IdToName | predictPPI.py:26-29 | an id in range gets its name; any other id gets its spelling by `str()`: a minus sign exactly when the id is negative, then decimal digits without a leading zero, and `int()` reads it back as the id |
| ResultDecoder.ParseRes | predictPPI.py:32-52 | the loop over the clique lines gives exactly the outcome `DecodeResult` of the whole result file |
| ResultDecoder.DecodeResult | predictPPI.py:35-39 | the file is reported incomplete exactly when it has fewer than 11 lines, and the error carries the line count |
| ResultDecoder.DecodeResultCount | predictPPI.py:45-51 | the result file has at least 11 lines and at most one clique per line after the tenth; every clique line is non-empty and does not start with '#'; the line after the last clique, if any, starts with '#' |
| ResultDecoder.PyIndex | predictPPI.py:50 | Python list indexing: defined exactly for -len <= i < len, and a negative index counts from the end |
| ResultDecoder.PositionOf | predictPPI.py:42 | the dictionary's keys are exactly the values of the line, and each maps to a position holding it |
| ResultDecoder.PositionOfLast | predictPPI.py:42 | the position kept for a repeated value is its last occurrence |
| ResultDecoder.LookupRange | predictPPI.py:43 | looking up 0 .. n-1 succeeds exactly when all of them are keys, with the looked-up values, and raises KeyError otherwise |
| ResultDecoder.PermutationDistinct | predictPPI.py:42-43 | a permutation is a list of distinct values in 0 .. len-1, and conversely |
| ResultDecoder.CoveringIsPermutation | predictPPI.py:42-43 | a list that contains each of 0 .. len-1 is a permutation, and conversely |
| ResultDecoder.Invert | predictPPI.py:42-43 | the inversion raises only KeyError; on success it has one entry per position, and entry i is a position at which the second mapping holds i |
| ResultDecoder.InvertOkIff | predictPPI.py:42-43 | inverting the second mapping succeeds exactly when it is a permutation of 0 .. len-1, and raises KeyError otherwise |
| ResultDecoder.InvertIsInverse | predictPPI.py:42-43 | on success the inversion is the inverse permutation, in both directions, and is itself a permutation |
| ResultDecoder.Through | predictPPI.py:50 | a node goes through exactly when it is a valid Python index into the inverted mapping and the value there is a valid index into the first mapping; the result is an entry of the first mapping |
| ResultDecoder.Translate | predictPPI.py:50 | a clique line translates exactly when every node passes through both mappings; each result is mapping1[mapping2[u]]; IndexError otherwise |
| ResultDecoder.DecodeLine | predictPPI.py:47-50 | a line ends the clique list exactly when it is non-empty and starts with '#'; a failure is IndexError or ValueError |
| ResultDecoder.DecodeLineClique | predictPPI.py:47-50 | a line that decodes to a clique is non-empty, does not start with '#', and its j-th integer goes through both mappings to the clique's j-th node |
| ResultDecoder.Collect | predictPPI.py:46-51 | a failure of the clique loop is the failure of one of the lines it reads |
| ResultDecoder.DecodeCliquesIff | predictPPI.py:46-51 | the clique list is cs exactly when the lines before the first '#' line decode, in order, to the cliques of cs |
| ResultDecoder.DecodeCliquesStep | predictPPI.py:46-51 | one clique line moves its clique from the rest of the file to the end of the list built so far |
| ResultDecoder.InvertExample | predictPPI.py:42-43 | the mapping 2 0 1 inverts to 1 2 0 |
| ResultDecoder.InvertDuplicateExample | predictPPI.py:42-43 | the mapping 0 0 keeps position 1 for value 0 and then raises KeyError on 1 |
| ResultDecoder.TranslateExample | predictPPI.py:50 | with mapping1 5 6 7 and inverse 1 2 0 the line 0 1 2 becomes 6 7 5; node -1 is read from the end; node 3 raises IndexError |
| Strings.Strip | predictPPI.py:12 | the stripped line is empty exactly when the line is all whitespace, and otherwise neither starts nor ends with whitespace |
| Strings.StripIsInfix | predictPPI.py:12 | strip removes only whitespace, and only from the two ends |
| Strings.SplitStrip | predictPPI.py:14 | splitting a stripped line gives the same fields as splitting the line |
| Strings.SplitTokens | predictPPI.py:14 | every field of `split()` is non-empty and whitespace-free |
| Strings.SplitJoinSpaces | predictPPI.py:14 | whitespace-free fields joined by spaces split back into the same fields |
| Strings.SplitOnJoin | predictPPI.py:130-134 | one or more parts joined with a one-character separator that none of them contains split on that character back into the same parts |
| Strings.NotInJoin | predictPPI.py:130-134 | a character that is neither in the separator nor in any part is not in the joined string |
| Strings.ParseIntToString | predictPPI.py:29 | `int()` reads back `str()` of every integer |
| Strings.IntToString | predictPPI.py:29 | `str(n)` is a whitespace-free token with a minus sign exactly when n is negative, followed by decimal digits without a leading zero |
| Strings.DecimalFormUnique | predictPPI.py:29 | `str(n)` is the only string of that form that `int()` reads as n |
| Strings.ParseInt | predictPPI.py:14 | `int()` of a token succeeds exactly when the token is an optional sign followed by digits, with single underscores allowed between digits |
| Strings.ParseDigitsSome | predictPPI.py:14 | the digits of a literal read exactly when they start and end with a digit and have no two underscores in a row |
| Strings.Split | predictPPI.py:14 | `split()` gives no field exactly when the line is all whitespace |
| Strings.ParseIntsSpec | predictPPI.py:14 | `map(int, ...)` succeeds exactly when every field reads as an integer, with the integers in field order |
| Strings.IntsLineRoundTrip | predictPPI.py:40-41 | a line of integers joined by spaces and ended by a newline reads back as the same integers |
| MissingEdges.Ordered | predictPPI.py:123-125 | the swap yields the pair with the smaller id first |
| MissingEdges.ScanRow | predictPPI.py:120-127 | the inner loop appends exactly row i of the missing pairs to clique_missing and to missing_edges, and counts each one |
| MissingEdges.ScanClique | predictPPI.py:117-127 | the double loop yields exactly the missing pairs of the clique, counts them, and adds them to missing_edges |
| MissingEdges.MissingOf | predictPPI.py:117-127 | every pair the double loop appends is written smaller id first |
| MissingEdges.MissingOfSpec | predictPPI.py:119-127 | the missing pairs are the non-adjacent position pairs a < b in lexicographic order, each written smaller id first, one per position pair |
| MissingEdges.MissingOfMembers | predictPPI.py:119-126 | a pair is missing exactly when two nodes of the clique, at positions a < b, are not adjacent and the pair is those two ordered |
| MissingEdges.IndexOfIsSorted | predictPPI.py:119-121 | the double loop meets every non-adjacent position pair once, in ascending order |
| MissingEdges.Analyze | predictPPI.py:110-129 | the loop over the cliques gives exactly the outcome `AnalysisOf` |
| MissingEdges.AnalysisErrorPersists | predictPPI.py:128 | once the bound assertion fails, later cliques do not change the outcome |
| MissingEdges.AnalysisAdvance | predictPPI.py:114-129 | a short clique is skipped; a kept clique that lacks more than k pairs raises AssertionError; otherwise it is recorded |
| MissingEdges.KeptMembers | predictPPI.py:114-116 | a clique is kept exactly when it is one of the cliques and has at least q nodes; there are no more kept cliques than cliques |
| MissingEdges.KeptIndicesSpec | predictPPI.py:114-116 | the kept cliques are the cliques at strictly ascending positions, and those positions are exactly the positions of the cliques of at least q nodes: the filter keeps their order |
| MissingEdges.KeptCount | predictPPI.py:111-129 | kept_cliques, the number of kept cliques, is the number of cliques with at least q nodes |
| MissingEdges.RecordSnoc | predictPPI.py:126-129 | recording one more clique adds its check to the bound, its report to the list, and its pairs to the global set |
| MissingEdges.AnalysisSpec | predictPPI.py:110-129 | the analysis succeeds exactly when every kept clique lacks at most k pairs; it then holds the number of kept cliques, one report per kept clique in order, and the union of their missing pairs; otherwise it is AssertionError |
| MissingEdges.UnionMissingMembers | predictPPI.py:126 | a pair is in missing_edges exactly when one of the kept cliques lacks it |
| MissingEdges.AnalysisExample | predictPPI.py:110-129 | a worked example on the graph with the single edge 1-2 and q = 3: the one-node clique 4 is skipped; the clique 1 2 3 lacks 1-3 and 2-3, so it is kept when k = 2 and raises AssertionError when k = 1 |
| Report.IdToNamePlain | predictPPI.py:26-29 | when the mapping names contain no tab, space or comma, no node name does |
| Report.CliqueLineFields | predictPPI.py:130-137 | when no mapping name contains a tab, a space or a comma and the clique has a node, a cliques-file line ends with a newline; before it the line splits on the tab into the names joined by spaces and "missing:" with the pair names joined by commas; those split back into the node names and, when the clique lacks a pair, into the pair names |
| Report.CliqueLineExample | predictPPI.py:130-137 | the clique 1 2 3 lacking 1-3 and 2-3, under names A B C, is written "B C 3\tmissing:B-3,C-3\n" |
| Report.CliqueLine | predictPPI.py:130-137 | every cliques-file line ends with its newline |
| Report.PredictedLine | predictPPI.py:141 | every predictions-file line ends with its newline |
| Report.PredictedLines | predictPPI.py:139-141 | one line per predicted edge |
| Pairs.SortedPairs | predictPPI.py:140 | `sorted()` of a set of pairs: strictly ascending in lexicographic order, exactly the set's elements, one entry per element |
| Report.PredictedLinesSorted | predictPPI.py:139-141 | the predictions file lists every predicted edge exactly once, without repetition, in strictly ascending order |
| Report.PredictedLineFields | predictPPI.py:141 | when every mapping name is non-empty and free of whitespace, a predictions-file line splits into the names of its two nodes |
| Pipeline.PredictMissingEdges | predictPPI.py:101-141 | main's steps in order give exactly the outcome `Predict`: the first error, or both files and the two counts |
| Pipeline.PredictSpec | predictPPI.py:101-158 | when the graph and the result file read cleanly, main succeeds exactly when every kept clique lacks at most k pairs; it then writes one line per kept clique and one line per pair in the union, and prints their counts |
| Pipeline.PrintedCounts | predictPPI.py:157-158 | when the graph and the result file read cleanly and every kept clique lacks at most k pairs, main succeeds; the first count printed is the number of cliques in the result file with at least q nodes, and the second the number of lines of the predictions file |
| Pipeline.PredictedUnion | predictPPI.py:126 | the predicted edges are the union of the pairs the kept cliques lack |
| Pipeline.PredictedEdges | predictPPI.py:119-126 | a pair is predicted exactly when two nodes of a kept clique, in clique order, are not adjacent and the pair is those two ordered |
| Pipeline.PredictedNotInGraph | predictPPI.py:121-126 | every predicted edge has its smaller id first and is in the graph in neither orientation |

## Left out

- Command-line parsing with argparse (lines 56-82): k and q are parameters.
- Locating the solver binary and running it as a subprocess (lines 84-99): the result file's lines are a parameter. The FileNotFoundError for a missing binary and a failing solver run are not modelled.
- Creating directories, computing output paths and removing temporary files (lines 84-88, 104-107, 143-155) are not modelled: they are file-system effects.
- Opening and reading files: each file is given as its sequence of lines, newline included, as `readlines` would return them.
- Writing files: each output file is returned as its sequence of lines.
- The prints at the end (lines 157-160): the two counts are modelled. The two file paths are not.
- The message text of the RuntimeError in parse_res: only the line count it reports is kept.
- Pipeline.PredictMissingEdges: on an AssertionError the real program has already written the lines of the cliques before the failing one to the cliques file. The model returns only the error.
- `python -O` removes the bound assertion. The model always checks it.
- Strings.ParseInt: `int()` also accepts non-ASCII Unicode digits. The model accepts ASCII digits only, with an optional sign and single underscores between digits.
- Strings.IsSpace: the whitespace set is the one `str.strip()` and `str.split()` use, written out as code points. The Unicode database lookup is not modelled.
- Integer values are unbounded, as in Python; ids, k and q are never truncated.
- Strings.ParseInt, Strings.IntToString: CPython refuses to convert between `int` and a decimal string of more than 4300 digits by default, and raises ValueError. The model converts integers of any length, so `Strings.ParseIntToString`, `Names.IdToName` and the line readers also hold where that limit would raise (predictPPI.py:14, 29, 40-41, 49).
