# aoc2024 in Dafny

A verified model of the puzzle solutions in the `aoc2024` Rust crate (Advent of Code 2024). Each solved day is a small,
self-contained, deterministic algorithm over integers, bytes and sequences. This project restates each one in Dafny
and proves what its code and its unit tests promise.

One Dafny module models one Rust source file, and keeps that file's form:

- `poc.dfy`, `day1.dfy` … `day19.dfy`: modules `Poc`, `Day1` … `Day19`.
  - Pure code (folds, matches, iterator chains) becomes datatypes, functions and lemmas.
  - Code that changes state step by step becomes methods with loops and invariants. Examples:
    - the guard map of day 6;
    - the adjacency-list graph of day 5;
    - the Dijkstra loops of days 16 and 18;
    - the stack searches of days 10 and 12;
    - the defragmenters of day 9;
    - the count tables of day 11.
  - Each such method is proved against a reference function. The properties the code promises are then proved about
    that function.
- `common.dfy` (module `Common`): Rust's `Option` and `Ordering`, bytes, and Rust's truncating `/` and `%`. It also
  holds decimal digit counts and small arithmetic facts several days share.
- `text.dfy` (module `Text`): the standard-library string operations the parsers use (`split`, `lines`, `find`,
  `parse`, `to_string`), with their round trips.

Grids are rectangular `seq<seq<Byte>>`; points are `TextPoint(row, col)` with natural coordinates. A `HashMap`,
`HashSet`, `BTreeMap` or `BinaryHeap` becomes a Dafny `map`, `set`, `multiset` or `seq`. A heap pop takes an entry no
other entry exceeds under the source's `Ord`; which of several tied entries it takes is left open. A Rust panic usually becomes a `None` result. Where the model turns a panic into a
precondition instead, the precondition is listed under "Left out".

## Model

| member | source | states |
|---|---|---|
| Common.TruncDiv | src/day13.rs:8-9 | Rust's `/` on signed integers, truncating toward zero; it agrees with Euclidean division for a non-negative dividend and a positive divisor |
| Common.TruncRem | src/day14.rs:18 | Rust's `%` on signed integers, taking the dividend's sign; it agrees with the Euclidean remainder for a non-negative dividend and a positive divisor |
| Common.DigitsBounds | src/day11.rs:10 | `Digits(n)` is the length of `n.to_string()`: `n` lies below `10^Digits(n)` and, unless zero, at or above `10^(Digits(n) - 1)` |
| Common.DigitsOfBounds | src/day11.rs:10 | conversely, a number between `10^(d-1)` and `10^d` has exactly `d` digits |
| Text.ParseShow | src/day11.rs:96 | `parse` reads back what `to_string` writes, for unsigned and signed numbers |
| Text.ParseDigits | src/day1.rs:11-12 | `parse` of a digit string is its decimal value, negated after a minus sign |
| Text.ParseNat | src/day18.rs:132-133 | `parse::<usize>` fails on the empty piece and on a piece that starts with neither `+` nor a digit, and reads a digit string as its decimal value |
| Text.ParseInts | src/day7.rs:24-28 | parsing a list of pieces yields one number per piece, or fails exactly when some piece does not parse |
| Text.ParseNats | src/day2.rs:6-8 | parsing a list of pieces as `usize` yields one natural per piece, or fails exactly when some piece does not parse |
| Text.ParseShowNats | src/day2.rs:6-8 | parsing the written naturals gives them back |
| Text.ParseShowInts | src/day7.rs:24-28 | parsing the written numbers gives the numbers back |
| Text.Find | src/day19.rs:6 | `find` returns the first position where the separator occurs, and none only when it never occurs |
| Text.Split | src/day7.rs:19 | `split` always yields at least one piece, so the first `next().unwrap()` cannot panic |
| Text.SplitJoin | src/day19.rs:6 | joining the pieces of `split` with the separator gives the text back |
| Text.JoinSplit | src/day19.rs:11 | splitting pieces joined by a separator that none of them can start gives the pieces back |
| Text.LinesUnlines | src/day19.rs:18 | `lines` reads back lines each ended by a line feed |
| Text.LinesJoin | src/day2.rs:4 | `lines` reads back lines joined by line feeds when the last one is not empty |
| Text.NoBlankFind | src/day19.rs:6 | text without a blank line has no `"\n\n"` to split at |
| Text.Lines | src/day1.rs:8 | `lines` cuts at every line feed, strips one carriage return before each, and keeps the piece after the last line feed, unstripped, only when it is not empty |
| Text.Words | src/day1.rs:9 | `split_whitespace` yields only non-empty pieces free of ASCII white space |
| Text.WordsAfterSpace | src/day1.rs:9 | white space in front of a text does not change its words |
| Text.WordsJoin | src/day1.rs:9 | words joined by runs of white space are read back by `split_whitespace` |
| Poc.FoldSpec | src/poc.rs:2-14 | the fold stays `(None, None)` while no digit is seen, and afterwards holds the first digit and the latest digit |
| Poc.Step | src/poc.rs:4-13 | a non-digit leaves the accumulator alone; while first and last are both set or both unset, a digit becomes the last digit and, if no digit was seen yet, the first as well |
| Poc.DecodeString | src/poc.rs:1-20 | a decoded line has a first and a last ASCII digit in the fold, the value's tens digit being the first and its units digit the last |
| Poc.DecodeFirstLast | src/poc.rs:1-20 | with its first digit at `i` and last at `j`, a line decodes to `10*s[i] + s[j]` |
| Poc.DecodeNoDigit | src/poc.rs:15 | a line without an ASCII digit is the `unwrap` panic (`None`) |
| Poc.DecodeRange | src/poc.rs:15-19 | a line decodes exactly when it holds a digit, and the value is at most 99 |
| Poc.DecodeSingleDigit | src/poc.rs:9 | a line with one digit `d` decodes to `11*d` |
| Poc.DecodeExamples | src/poc.rs:27-37 | "1abc2" → 12, "pqr3stu8vwx" → 38, "a1b2c3d4e5f" → 15, "treb7uchet" → 77 |
| Day1.Insert | src/day1.rs:11-12 | `SortedVec::push` keeps the list sorted, one longer, and adds exactly `x` to its multiset |
| Day1.ParsePair | src/day1.rs:9-12 | a line with fewer than two words fails; otherwise the pair is its first two words read as numbers |
| Day1.ParsePairShow | src/day1.rs:9-12 | a line of two written numbers, then any further words, separated by white space, reads back as the two numbers |
| Day1.ParsePairExample | src/day1.rs:46 | the indented example line "            4   3" reads as (4, 3) |
| Day1.Pairs | src/day1.rs:8-13 | one pair per line, each the pair its line reads as |
| Day1.Deserialize | src/day1.rs:5-15 | reading fails (an `unwrap` panics) exactly when some line does not hold two numbers; otherwise both columns come out sorted, one entry per line, and are permutations of the lines' left and right numbers |
| Day1.CountDistance | src/day1.rs:17-22 | the total distance is non-negative, and zero for equal columns |
| Day1.CountDistanceProperties | src/day1.rs:17-22 | the distance is non-negative and symmetric, and it reads only as many pairs as the shorter column holds |
| Day1.Chunks | src/day1.rs:36 | `chunk_by` cuts the list into non-empty runs that put back together give the list, each run holding one value and neighbouring runs different values |
| Day1.RunLength | src/day1.rs:36 | the leading run of equal values `chunk_by` cuts off: maximal, all copies of the first value |
| Day1.FrequencyCounts | src/day1.rs:35-37 | on a sorted list, `frequency` has exactly the list's values as keys, each mapped to its occurrence count |
| Day1.FrequencyStep | src/day1.rs:36 | splitting off the leading run: the rest is sorted, no longer holds the first value, and its frequency map plus that run is the whole map |
| Day1.CollectPrepend | src/day1.rs:36 | collecting a chunk in front of chunks with other keys adds that one key with the chunk's length |
| Day1.Prob2 | src/day1.rs:29-33 | `prob2` on a sorted right column is the reference similarity: the sum of each left value times its number of occurrences on the right |
| Day1.SimilarityIsReference | src/day1.rs:31-32 | summing through the frequency map of a sorted right column gives the reference similarity |
| Day1.DistanceExample | src/day1.rs:60-66 | the example columns are 11 apart |
| Day1.SimilarityExample | src/day1.rs:85-89 | the example's similarity score is 31 |
| Day2.IsSafe | src/day2.rs:13-26 | `is_safe` holds exactly when the gap is 1..3 and, when a direction is given, the step goes that way |
| Day2.Include | src/day2.rs:37-60 | `Failed` stays `Failed`; `Unstarted` becomes `Initial`; `Initial` becomes `Safe` with the step's direction or `Failed`; `Safe` keeps its direction or fails |
| Day2.ToBool | src/day2.rs:63-72 | a report converts to `false` exactly when it never started or has failed |
| Day2.IsSafeReport | src/day2.rs:74-77 | the fold is `Unstarted` only on the empty report and `Initial` only on one level, and a started, unfailed state holds the last level |
| Day2.IsSafeReportState | src/day2.rs:74-77 | the fold is `Unstarted` only on the empty report, `Initial` only on one level, and `Safe` exactly on monotone reports with gaps 1..3, with the direction of the first step |
| Day2.IsSafeReportCorrect | src/day2.rs:63-77 | a report is truthy exactly when it is non-empty, every gap is 1..3 and every step goes the same way |
| Day2.ShortReports | src/day2.rs:63-72 | an empty report is false and a one-level report is true |
| Day2.FailedAbsorbing | src/day2.rs:39 | once failed, no further levels rescue a report |
| Day2.Prob1 | src/day2.rs:81-83 | the sum over parsed reports counts at most every report |
| Day2.Remove | src/day2.rs:93-94 | `Vec::remove(n)` drops level `n` and shifts the rest left |
| Day2.AnyRemovalSafeSpec | src/day2.rs:91-97 | the `any` over removals holds exactly when removing one of the levels gives a safe report |
| Day2.ToleratedSpec | src/day2.rs:88-105 | `prob2` counts a report exactly when it is empty, safe, or safe after removing one level |
| Day2.Prob2 | src/day2.rs:88-106 | the sum over parsed reports counts at most every report |
| Day2.Prob2AtLeastProb1 | src/day2.rs:79-107 | `prob2` counts every report `prob1` counts |
| Day2.ParseReport | src/day2.rs:6-8 | a line yields one level per whitespace-separated word, each read by `parse::<usize>`, or nothing when some word does not parse |
| Day2.ParseReports | src/day2.rs:4-10 | every line yields its report, one per line, or nothing when some line does not parse |
| Day2.Parse | src/day2.rs:3-11 | the text yields one report per line of `lines`, or nothing exactly when some line does not parse |
| Day2.Solve1 | src/day2.rs:79-84 | `prob1` on a text fails exactly when `parse` panics and counts at most one report per line |
| Day2.Solve2 | src/day2.rs:86-107 | `prob2` on a text fails exactly when `parse` panics and counts at most one report per line |
| Day2.Solve2AtLeastSolve1 | src/day2.rs:79-107 | on any text both answers fail together, and `prob2` is at least `prob1` |
| Day2.ParseShowReport | src/day2.rs:6-8 | a report written as space-separated numbers is a single line that parses back to the report |
| Day2.SolveLayout | src/day2.rs:3-11 | the text written for any reports, one per line, parses back to them, so `prob1` and `prob2` of it are the counts of those reports |
| Day2.BlankLine | src/day2.rs:3-11 | a blank line parses to an empty report, which `prob2` counts and `prob1` does not |
| Day2.ParseIndented | src/day2.rs:3-11 | indenting every line after the first and leaving out the final line feed does not change what the written reports parse to |
| Day2.ExampleSolve | src/day2.rs:165-178 | `prob1` and `prob2` of the tests' example text, indented as written there, are 2 and 4 |
| Day2.ExampleSafe | src/day2.rs:155-163 | the first and last example reports are safe |
| Day2.ExampleUnsafe | src/day2.rs:155-163 | the four middle example reports are unsafe |
| Day2.Unsafe | src/day2.rs:13-17 | a report with one gap outside 1..3 is unsafe |
| Day2.UnsafeTurn | src/day2.rs:19-24 | a report with one rising and one falling step is unsafe |
| Day2.ExampleProb1 | src/day2.rs:165-168 | `prob1` of the example is 2 |
| Day2.Prob1Append | src/day2.rs:79-84 | one more report adds 1 to `prob1` exactly when it is safe |
| Day2.ExampleProb2 | src/day2.rs:175-178 | `prob2` of the example is 4 |
| Day2.Prob2Append | src/day2.rs:86-107 | one more report adds 1 to `prob2` exactly when it is tolerated |
| Day2.ExampleTolerated | src/day2.rs:86-107 | the two safe reports and the two that one removal repairs are counted by `prob2` |
| Day2.ExampleBeyondRepair1 | src/day2.rs:86-107 | `1 2 7 8 9` is not repaired by any single removal |
| Day2.ExampleBeyondRepair2 | src/day2.rs:86-107 | `9 7 6 2 1` is not repaired by any single removal |
| Day2.RepairedTolerated | src/day2.rs:89-98 | a report that one removal makes safe is counted by `prob2` |
| Day2.NotTolerated | src/day2.rs:89-102 | a failed report that no single removal makes safe is not counted by `prob2` |
| Day4.CmpPoint | src/day4.rs:14-18 | the derived order on `TextPoint`: `Less` exactly when lexicographically smaller by (row, col), `Equal` exactly on equal points |
| Day4.ExplodePoint | src/day4.rs:37-93 | `explode_point` returns exactly eight rays |
| Day4.ExplodePointRays | src/day4.rs:37-93 | from a point inside the box and `length >= 1`, each ray `i` (N, NE, E, SE, S, SW, W, NW) is non-empty, starts at `p`, steps one unit in direction `i`, stays inside the box, has at most `length` points and is cut only by the box edge |
| Day4.UpSteps | src/day4.rs:37-48 | `(min..=x).rev()` counts down from `x`, as many steps as fit above 0 within `length` |
| Day4.DownSteps | src/day4.rs:39-59 | `x..=max` counts up from `x`, as many steps as fit below the limit within `length` |
| Day4.ExplodeFromOrigin | src/day4.rs:247-265 | from (0,0) in a 4x4 box with length 4 the N, NE, SW, W and NW rays are just [(0,0)] and E, SE, S have four points |
| Day4.ExplodeFromFarCorner | src/day4.rs:266-282 | from (3,3) in a 4x4 box with length 4 the N, W and NW rays have four points and the other five are just [(3,3)] |
| Day4.CornerInGrid | src/day4.rs:142-145 | in a rectangular grid, a point names a cell exactly when it lies within the corner |
| Day4.ExtractString | src/day4.rs:95-105 | the extracted bytes are as many as the ray's points, byte `k` being the grid cell of point `k` |
| Day4.FindInRow | src/day4.rs:113-119 | the cells of one row holding `c`, every one of them, left to right |
| Day4.FindInRows | src/day4.rs:107-122 | the cells from a row on holding `c`, every one of them, strictly increasing in the derived order |
| Day4.FindChar | src/day4.rs:107-122 | `find_char_in_puzzle` lists exactly the cells holding `c`, each once, in row-major order |
| Day4.CountWord | src/day4.rs:151-160 | the number of rays spelling a word is at most the number of rays |
| Day4.ExplodeInGrid | src/day4.rs:142-150 | every point of every ray from a cell of a rectangular grid is a cell |
| Day4.Prob1 | src/day4.rs:141-161 | `prob1_inner` is the number of (X cell, direction) pairs along which "XMAS" is written inside the grid |
| Day4.RayWord | src/day4.rs:150-160 | a ray of length 4 spells "XMAS" exactly when the word is written from its start in its direction |
| Day4.DiagonalsFrom | src/day4.rs:170-177 | the diagonal rays kept are of length 3 and inside the grid |
| Day4.KeepLength3 | src/day4.rs:176 | `filter(len == 3)` keeps exactly the rays of length 3 |
| Day4.Candidates | src/day4.rs:169-177 | the "MAS" candidates are rays of length 3 inside the grid |
| Day4.Group | src/day4.rs:181-188 | a group holds only candidates through its middle cell |
| Day4.Prob2 | src/day4.rs:163-203 | `prob2_inner` is the number of pairs of "MAS" diagonals crossing at the same middle cell, over all middle cells |
| Day4.GroupByMiddle | src/day4.rs:179-188 | the `cs` map has the candidates' middle cells as keys and, for each, the candidates through it in order |
| Day4.CountCrossings | src/day4.rs:190-200 | the loop over `cs` counts, over every middle cell, the pairs that both spell "MAS" |
| Day4.CountGroup | src/day4.rs:193-199 | the `combinations(2)` loop over a group counts its pairs of "MAS" candidates |
| Day4.CountPartners | src/day4.rs:193-199 | the pairs with one candidate: the later "MAS" candidates, or none when it does not spell "MAS" |
| Day4.GroupStep | src/day4.rs:181-188 | one more candidate adds its middle cell and extends only that cell's group, at its end |
| Day4.GroupCrossings | src/day4.rs:192-200 | the pairs counted within the group of `k` are the crossing pairs through `k` |
| Day4.GroupPairsSnoc | src/day4.rs:193 | one more candidate in a group adds one pair per earlier "MAS" candidate when it spells "MAS" itself |
| Day4.CrossingsUnion | src/day4.rs:192 | crossings over disjoint sets of middle cells add up |
| Day5.WalkGrow | src/day5.rs:64-72 | pushing an edge does not change any existing successor chain |
| Day5.WalkTargets | src/day5.rs:88-101 | every node a successor chain yields is a node index of the graph |
| Day5.DistinctCons | src/day5.rs:223-228 | prepending a new value to a list without repeats keeps it without repeats |
| Day5.AddNodeOk | src/day5.rs:39-50 | adding a new value appends a node with no edges, indexes it, and leaves every successor list unchanged |
| Day5.AddPairOk | src/day5.rs:52-61 | recording a new pair in the edge set together with the matching edge keeps the edge set equal to the edges of the graph |
| Day5.Graph.constructor | src/day5.rs:30-36 | the default graph has no nodes, no edges, an empty index and an empty edge set |
| Day5.Graph.Clone | src/day5.rs:128 | a clone is a new graph with the same index, edge set, nodes and edges |
| Day5.Graph.SuccessorsIn | src/day5.rs:74-101 | every successor of a node is a node index |
| Day5.Graph.AddNode | src/day5.rs:39-50 | a known value returns its index and changes nothing; a new value is appended as a node without edges and indexed at the end; either way the value is then indexed |
| Day5.Graph.AddEdge | src/day5.rs:63-72 | the new edge becomes the head of the source's successor chain: its successors are the target followed by the old ones, and no other node's successors change |
| Day5.Graph.AddEdgeByValue | src/day5.rs:52-61 | a pair already in the edge set changes nothing; otherwise the pair is recorded and the target's index is put in front of the source's successors |
| Day5.Graph.AddRule | src/day5.rs:106-115 | one rule adds both pages to the index and the pair to the edge set |
| Day5.Graph.AddStep | src/day5.rs:131-135 | one step adds the next page to the index and the pair to the edge set |
| Day5.Graph.AddChain | src/day5.rs:127-137 | chaining an update adds its pages to the index and its consecutive pairs to the edge set |
| Day5.Graph.SuccessorList | src/day5.rs:74-101 | draining the successors iterator gives the successor list |
| Day5.Below | src/day5.rs:171-175 | the node indices of a graph with `n` nodes are exactly those below `n` |
| Day5.Shrink | src/day5.rs:160 | marking a new node visited lowers the number of unvisited nodes, so the recursion ends |
| Day5.CycleFromStack | src/day5.rs:157-158 | reaching a node still on the current path closes a cycle |
| Day5.RanksFall | src/day5.rs:167 | along a path of finished nodes the finishing ranks fall |
| Day5.RankedAcyclic | src/day5.rs:171-175 | when every filtered node has finished, the filtered subgraph has no cycle |
| Day5.Enter | src/day5.rs:160 | entering an unvisited filtered node extends the current path |
| Day5.Pop | src/day5.rs:167 | leaving a node takes it off the current path |
| Day5.Finish | src/day5.rs:167-168 | a node whose filtered successors are all finished finishes after them |
| Day5.StillFinished | src/day5.rs:161-163 | successors already finished stay finished |
| Day5.Fewer | src/day5.rs:160 | the number of unvisited nodes never grows |
| Day5.CycleDfs | src/day5.rs:148-169 | `dfs` reports `true` only when the filtered subgraph has a cycle; otherwise it finishes the node when it is filtered and keeps the finished nodes ranked |
| Day5.AnyCycle | src/day5.rs:161-166 | the `any` over the successors reports a cycle only when there is one, and otherwise finishes every filtered successor |
| Day5.ContainsCycle | src/day5.rs:144-176 | `contains_cycle` is true exactly when the subgraph induced by the filter has a directed cycle |
| Day5.Elems | src/day5.rs:264-265 | the set of an update's pages holds exactly its pages |
| Day5.Indices | src/day5.rs:186 | each requested value is mapped to its node index, in order |
| Day5.Push | src/day5.rs:211-212 | marking a node permanent and listing it keeps the list in reverse topological order |
| Day5.StillMarked | src/day5.rs:207-209 | successors already marked stay marked |
| Day5.TopoVisit | src/day5.rs:188-213 | `visit` marks the node permanent (unless it is on the current path) and keeps every listed node after its filtered successors, unless there is a cycle |
| Day5.VisitAll | src/day5.rs:207-209 | visiting the filtered successors marks each of them, unless there is a cycle |
| Day5.NameRequested | src/day5.rs:186 | every requested node index names a requested value |
| Day5.AllListed | src/day5.rs:215-221 | after the outer loop the list holds exactly the requested nodes |
| Day5.Unname | src/day5.rs:223-228 | each output value maps back to the node listed at the mirrored position |
| Day5.OutputValues | src/day5.rs:223-228 | the output holds exactly the requested values, each once |
| Day5.OutputOrder | src/day5.rs:223-228 | without a cycle, every edge between output values goes from an earlier to a later value |
| Day5.VisitRequested | src/day5.rs:215-221 | the outer loop lists each requested node once, after its filtered successors |
| Day5.NameBackwards | src/day5.rs:223-228 | reversing the list and naming each node gives the output |
| Day5.TopologicalSort | src/day5.rs:179-229 | `topological_sort` returns the requested values, each once, and, when the subgraph they induce is acyclic, every edge between them goes from an earlier to a later value |
| Day5.RulesNext | src/day5.rs:106-115 | one more rule adds its pages and its pair |
| Day5.BuildRules | src/day5.rs:103-118 | the rule graph indexes exactly the pages of the rules and records exactly the rule pairs |
| Day5.ElemsNext | src/day5.rs:131-135 | one more page adds that page |
| Day5.Regroup | src/day5.rs:131-135 | the edge set after a step is the old one plus the steps so far |
| Day5.ChainMember | src/day5.rs:131-135 | a pair is in an update's chain exactly when it is two consecutive pages |
| Day5.ChainNext | src/day5.rs:131-135 | one more page adds the step from the page before |
| Day5.ExtendGraph | src/day5.rs:127-137 | `extend_graph` returns a new graph with the update's pages added to the index and its consecutive pairs to the edge set |
| Day5.CycleByValue | src/day5.rs:262-266 | the node subgraph of an update's pages has a cycle exactly when the recorded pairs among those pages do |
| Day5.CycleNamed | src/day5.rs:262-266 | a cycle of node indices names a cycle of page pairs |
| Day5.SuccPair | src/day5.rs:52-72 | every edge of the graph is a recorded pair of values |
| Day5.CycleIndexed | src/day5.rs:262-266 | a cycle of page pairs gives a cycle of node indices |
| Day5.IndexOfRequested | src/day5.rs:264-265 | a requested page's index is in the filter and is a node index |
| Day5.PairStep | src/day5.rs:52-72 | every recorded pair is an edge between the indexed nodes |
| Day5.Position | src/day5.rs:274 | the position of a page in an update holds that page |
| Day5.Forward | src/day5.rs:262-266 | in a correctly ordered update every path of rules and steps moves forward |
| Day5.InOrderIffAcyclic | src/day5.rs:262-266 | for an update without repeated pages, the rules plus the update's own steps have no cycle exactly when every rule between two of its pages is respected |
| Day5.SumMiddlesNext | src/day5.rs:271-276 | the sum of middles grows by the middle page of the next update |
| Day5.AcceptedUpdates | src/day5.rs:259-267 | the accepted updates are drawn from the updates |
| Day5.RejectedUpdates | src/day5.rs:259-269 | the rejected updates are drawn from the updates |
| Day5.SplitUpdates | src/day5.rs:259-269 | the partition keeps every update exactly once, accepted ones on one side and rejected ones on the other |
| Day5.SplitByOrder | src/day5.rs:259-267 | for updates without repeated pages, the accepted ones are exactly the correctly ordered ones |
| Day5.SplitNext | src/day5.rs:259-267 | one more update lands on exactly one side |
| Day5.CheckUpdate | src/day5.rs:262-266 | an update is accepted exactly when extending the rule graph by its steps closes no cycle among its pages |
| Day5.Prob1 | src/day5.rs:258-285 | part one returns the rejected updates and the sum of the middle pages of the accepted ones |
| Day5.OrderByValue | src/day5.rs:225-228 | an output ordered by the graph respects every rule between its values |
| Day5.SortUpdate | src/day5.rs:292 | the reordered update has the same pages, each once, and respects every rule among them when those rules have no cycle |
| Day5.CorrectedNext | src/day5.rs:290-293 | reordering one more update keeps every reordered update correct |
| Day5.Prob2 | src/day5.rs:289-295 | part two reorders every rejected update and sums the middle pages of the reorderings |
| Day6.AllDirections | src/day6.rs:6-16 | `all::<Direction>()` lists the eight directions in declaration order |
| Day6.RotateRight | src/day6.rs:19-30 | `rotate_right` maps each direction to the one two places later in the cyclic order N..NW |
| Day6.RotateLeft | src/day6.rs:31-42 | `rotate_left` maps each direction to the one two places earlier |
| Day6.RotateInverse | src/day6.rs:19-42 | `rotate_left` undoes `rotate_right` and the other way round |
| Day6.RotateN | src/day6.rs:87 | `k` right turns move `2k` places around the cyclic order |
| Day6.RotateFour | src/day6.rs:19-30 | four right turns come back to the start; both rotations map cardinals to cardinals and diagonals to diagonals |
| Day6.ExplodeWithDirections | src/day6.rs:45-53 | the i-th direction is paired with the i-th ray of `explode_point` |
| Day6.FirstRayForFinds | src/day6.rs:73-77 | `filter(..).nth(0)` finds the first pair facing the direction |
| Day6.RayLookup | src/day6.rs:69-77 | looking a direction up in `explode_point_with_directions` gives the ray of that direction |
| Day6.ShortRay | src/day6.rs:69 | a ray of length 2 is the guard's cell followed by the cell ahead when that cell is in the box, and the guard's cell alone otherwise |
| Day6.Attempt | src/day6.rs:73-87 | one pass of the loop: "." leaves the map, ".." steps onto the cell ahead, anything else turns right and tries again |
| Day6.TurnsStep | src/day6.rs:72-88 | the same pass in terms of a blocked direction, leaving over the edge, and stepping ahead |
| Day6.ReplaceChar | src/day6.rs:108-112 | `replace_char_in_puzzle` keeps the grid's shape, writes the byte at `p` and changes no other cell |
| Day6.TryDirections | src/day6.rs:72-88 | the four-attempt loop ends in the direction and position of the reference `Turns` |
| Day6.GuardMap.constructor | src/day6.rs:95-106 | `parse` puts the guard on the first `^` cell facing north and opens that cell |
| Day6.GuardMap.Tick | src/day6.rs:62-92 | `tick` leaves the map alone, updates the guard as the reference `TickGuard` does (nothing once the guard has left), and returns the new position |
| Day6.TurnsOutcome | src/day6.rs:72-88 | every tick ends one of three ways after `j` blocked right turns: over the edge (`None`), one step onto the cell ahead, or, after four blocked turns, in place; the direction changes only by right turns |
| Day6.TurnsWitness | src/day6.rs:72-88 | the number of blocked turns for which the outcome holds |
| Day6.BlockedWitness | src/day6.rs:87 | a blocked first attempt adds one turn in front of the outcome of the attempts after it |
| Day6.TickLandsOnOpen | src/day6.rs:79-87 | a guard moves only onto open cells inside the map, and four blocked turns leave it where it was |
| Day6.Row | src/day6.rs:118-127 | a text row becomes its bytes |
| Day6.ExampleMap | src/day6.rs:118-127 | the example map is a 10x10 grid |
| Day6.ExplodeWithDirectionsExample | src/day6.rs:129-143 | the first pair from (3,2) in a 9x9 box is north with the ray [(3,2), (2,2)] |
| Day6.ParseExample | src/day6.rs:145-155 | the example's guard starts at (6,4) |
| Day6.CaretOnlyAt | src/day6.rs:145-155 | (6,4) is the only `^` cell of the example |
| Day6.TickExamples | src/day6.rs:157-177 | the six ticks of the test: five steps north, then a right turn at the obstacle ending at (1,5) facing east |
| Day6.TickExample | src/day6.rs:157-177 | the test run on the class, `parse` then six ticks, ends at (1,5) facing east |
| Day7.ConcatValue | src/day7.rs:75 | the concatenated number is negative exactly when the left operand is, since only the left text can start with a minus sign |
| Day7.EvalOp | src/day7.rs:70-77 | concatenation yields exactly the number that `str::parse` reads from `l.to_string() + &r.to_string()` |
| Day7.ConcatSplits | src/day7.rs:75 | concatenation is undone by splitting off the last `digits(r)` decimal digits: quotient `l`, remainder `r` |
| Day7.ConcatDigits | src/day7.rs:75 | for `l > 0` the concatenation has the digits of `l` followed by those of `r` |
| Day7.ConcatIsTextual | src/day7.rs:75 | `l.to_string() + r.to_string()` parsed back is `l * 10^digits(r) + r` (negated for a negative `l`) |
| Day7.Eval | src/day7.rs:53-61 | the pop/push loop returns the reference `PopEval` of the operators and operands |
| Day7.EvalLeftToRight | src/day7.rs:53-61 | on reversed operands, `eval` combines them left to right, applying the last operator of the tuple first |
| Day7.PopFoldIsFold | src/day7.rs:55-59 | popping from a stack with the running result on top is folding from that result |
| Day7.SingleOperand | src/day7.rs:54-60 | a single operand and no operator evaluates to 0 |
| Day7.Product | src/day7.rs:6-14 | `product_with_repeat(it, cnt)` yields the number of items raised to `cnt` tuples, each drawn from the items |
| Day7.Extend | src/day7.rs:13 | one more factor of the cartesian product multiplies the number of tuples by the number of items |
| Day7.ProductNumeral | src/day7.rs:6-14 | tuple `i` of the product is the numeral of `i` in base the number of items: lexicographic order |
| Day7.ExtendIndex | src/day7.rs:13 | tuple `i` of one more factor is tuple `i` divided by the number of items, followed by the item at `i` modulo that number |
| Day7.ProductMembers | src/day7.rs:6-14 | a tuple is in the product exactly when it has length `cnt` and draws every position from `it` |
| Day7.ProductExample | src/day7.rs:96-112 | `product_with_repeat(0..=1, 3)` is the eight binary triples in order |
| Day7.EquationExamples | src/day7.rs:86-94 | `190: 10 19`, `3267: 81 40 27` (both orders), `156: 15 6` and `7290: 6 8 6 15` evaluate to their targets |
| Day7.Alphabet | src/day7.rs:38-42 | `Op` never lists concatenation |
| Day7.CalibratedIff | src/day7.rs:130-143 | for a non-empty alphabet, with the operands after the first non-negative when concatenation is allowed: a one-operand line passes exactly when its target is 0, and a longer line exactly when some left-to-right choice of operators from the alphabet reaches the target |
| Day7.NotCalibratedExample | src/day7.rs:86-94 | `83: 17 5` passes neither check |
| Day7.CalibratedExamples | src/day7.rs:86-94 | `190: 10 19` passes with `*`, and `156: 15 6` passes once concatenation is allowed |
| Day7.ParseEquations | src/day7.rs:16-32 | `parse` yields one equation per line |
| Day7.ParseEquation | src/day7.rs:19-28 | a line without `": "` fails; otherwise the target is the number before it and there is one operand per space-separated piece after it, so at least one |
| Day7.Parse | src/day7.rs:16-32 | parsing succeeds with one equation per line, each the one its line reads as, and fails exactly when some line fails |
| Day7.ParseFormatEquation | src/day7.rs:16-32 | a line `t: x0 x1 ..` is read back as `(t, [x0, x1, ..])` |
| Day7.ParseExample | src/day7.rs:114-118 | the first example line parses to `(190, [10, 19])` |
| Day8.Apply | src/day8.rs:11-23 | `apply` succeeds exactly when both coordinates stay non-negative, and then moves the point by the difference |
| Day8.ApplyWithCorner | src/day8.rs:25-31 | `apply_with_corner` succeeds exactly when `apply` does and the new point lies within the corner, and then agrees with `apply` |
| Day8.Flip | src/day8.rs:33-38 | `flip` negates both components |
| Day8.PointDistance | src/day8.rs:41-46 | `point_distance(a, b)` is the difference that moves `a` onto `b` |
| Day8.FlipFlip | src/day8.rs:33-38 | flipping twice gives the difference back |
| Day8.DistanceApply | src/day8.rs:33-46 | the distance moves `a` onto `b`, its flip moves `b` back onto `a`, and the distance from `b` to `a` is the flip |
| Day8.ApplyFlip | src/day8.rs:11-38 | a flipped difference undoes a successful `apply` |
| Day8.DistanceExamples | src/day8.rs:73-88 | the distances and applications of the unit test, including the one that leaves the grid |
| Day8.CornerAndFlipExamples | src/day8.rs:90-105 | the `apply_with_corner` that overshoots the corner, and the flipped application of the flip test |
| Day9.Disk.constructor | src/day9.rs:12-16 | a disk holds exactly the given block list and free-span list |
| Day9.ChecksumPermutation | src/day9.rs:18-23 | the checksum, a sum of position times file id, does not depend on the order of the block list |
| Day9.Checksum | src/day9.rs:18-23 | the checksum is at least each block's position times its file id, and zero exactly when every such product is zero |
| Day9.ChecksumRemove | src/day9.rs:18-23 | removing one block lowers the checksum by exactly that block's position times its file id |
| Day9.Defrag | src/day9.rs:25-52 | block-wise defragmentation keeps every block's file and never moves a block right; the blocks up to some point stay put and the rest are moved into free positions; afterwards the occupied positions form one gap-free prefix |
| Day9.Start | src/day9.rs:27-31 | the loop's starting state (front cursor 0, back cursor on the last block, position 0) meets the defragmentation invariant |
| Day9.Ahead | src/day9.rs:33-38 | while the position has not passed the back block, the front cursor has not passed the back cursor, so the index at line 38 is in range |
| Day9.Matched | src/day9.rs:38-40 | an occupied position advances the front cursor and keeps the invariant |
| Day9.Moved | src/day9.rs:41-50 | a free position receives the back block, the back cursor steps down without underflow, and the invariant is kept |
| Day9.Finish | src/day9.rs:33-36 | when the loop runs out or breaks, the blocks are compact, keep their files and have moved only left |
| Day9.ChecksumShrinks | src/day9.rs:18-23 | moving blocks left without changing their files never raises the checksum |
| Day9.DefragChecksum | src/day9.rs:18-52 | the checksum after defragmentation is at most the checksum before |
| Day9.RunsOf | src/day9.rs:55-66 | the runs of consecutive same-file blocks: none exactly for no blocks, at most one per block, the last one belonging to the last block's file, each inside the block list |
| Day9.RunsPartition | src/day9.rs:59-66 | the runs cut the block list into maximal same-file pieces, in order, each recording its file, first position, length and list offset |
| Day9.PartitionExtend | src/day9.rs:63-64 | a block continuing the last run lengthens that run by one |
| Day9.PartitionPush | src/day9.rs:60-62 | a block of a new file opens a new run of length one |
| Day9.CollectFiles | src/day9.rs:55-66 | collecting file runs succeeds exactly when every run's file id indexes the list built so far (the source's `files[files_index]` would otherwise panic), and on a disk whose files appear in id order it yields the runs |
| Day9.NewRun | src/day9.rs:60-62 | one collection step for a new file keeps the collected list equal to the runs of the prefix |
| Day9.SameRun | src/day9.rs:63-64 | one collection step for a continuing file keeps the collected list equal to the runs of the prefix |
| Day9.FitsGrow | src/day9.rs:59-65 | a prefix on which collection cannot panic grows by a block on which it cannot panic |
| Day9.FirstFit | src/day9.rs:75-89 | the chosen free span is the first one that starts left of the file and is large enough; none before it fits, and none fits when nothing is chosen |
| Day9.Place | src/day9.rs:98-100 | writing a file run at a new position keeps the length of the block list |
| Day9.MoveFile | src/day9.rs:74-101 | trying to move one file keeps the numbers of blocks and free spans |
| Day9.MoveAll | src/day9.rs:68-102 | trying every file in turn keeps the numbers of blocks and free spans |
| Day9.SmartDefrag | src/day9.rs:54-103 | file-wise defragmentation fails (the source panics) exactly when collection would; otherwise the new disk is every collected file tried once, last file first |
| Day9.PlaceStep | src/day9.rs:98-100 | writing a run of `i` blocks is writing `i - 1` blocks and then block `i - 1` |
| Day9.TryMove | src/day9.rs:74-101 | one iteration changes the disk exactly as trying to move that file |
| Day9.MoveAllStep | src/day9.rs:68-71 | after trying the last remaining file, the rest of the reversed list is tried on the new disk |
| Day9.MoveAllNoRight | src/day9.rs:82 | no file ever moves right of where it started, since only spans left of its start are considered |
| Day9.MoveAllContiguous | src/day9.rs:95-100 | each file stays in one contiguous stretch of positions |
| Day9.MoveAllSpans | src/day9.rs:95-96 | each free span only shrinks from its left end: its end stays where it was |
| Day9.PartitionOrdered | src/day9.rs:59-66 | runs come in increasing list order |
| Day9.OrderedBefore | src/day9.rs:59-66 | an earlier run ends at or before the offset where a later one begins |
| Day9.RunLaid | src/day9.rs:105-127 | on a parsed disk each run occupies consecutive positions starting at its recorded start |
| Day9.LaidAt | src/day9.rs:105-127 | on a parsed disk the block at a run's offset `p` sits at the run's start plus `p` minus its offset |
| Day9.SmartDefragShape | src/day9.rs:54-103 | on a parsed disk, file-wise defragmentation moves no file right, keeps every file contiguous, only shrinks free spans from the left, and does not raise the checksum |
| Day9.FileBlocks | src/day9.rs:111-115 | a file of size `n` is `n` blocks at consecutive positions from the current one, all with its id |
| Day9.Parse | src/day9.rs:105-127 | parsing fails exactly when a file digit is below '0' (the source's subtraction would underflow) and otherwise builds the layout of the digit string |
| Day9.LayoutStep | src/day9.rs:110-124 | one two-character chunk appends its file's blocks and, when the second character is a digit, its free span, then parsing goes on after the gap |
| Day9.LayoutShape | src/day9.rs:105-127 | a parsed layout is sorted by position, grouped by file in id order, consecutive within each file, and every free span lies between files |
| Day9.ChunkSorted | src/day9.rs:111-115 | a file's blocks followed by a later layout stay sorted, grouped and consecutive |
| Day9.ChunkClear | src/day9.rs:118-123 | a chunk's free span lies clear of every block of the layout |
| Day9.ParseReady | src/day9.rs:105-127 | a parsed disk is well laid out, and when its first file is non-empty it begins with block 0 of file 0, as `defrag` assumes |
| Day9.ParseSmallExample | src/day9.rs:172-195 | "12345" parses to file 0 at 0, file 1 at 3-5 and file 2 at 10-14, with free spans (1,2) and (6,4) |
| Day9.SmallExampleMiddle | src/day9.rs:172-195 | the layout of "12345" from its second chunk on |
| Day9.SmallExampleLast | src/day9.rs:172-195 | the layout of "12345" from its last chunk on |
| Day10.MovesAreNeighbours | src/day10.rs:25-34 | the moves kept from the eight directions are exactly the in-grid N, E, S and W neighbours, in the direction order |
| Day10.KeepMatches | src/day10.rs:27-33 | one direction's ray is kept exactly when it is a cardinal direction whose ray reaches a second cell |
| Day10.StepsFrom | src/day10.rs:25-38 | the filtered list of second cells equals the neighbour list built direction by direction |
| Day10.NeighboursCells | src/day10.rs:25-38 | every move is an in-grid cell one orthogonal step away |
| Day10.KeepAtAdjacent | src/day10.rs:27-33 | a kept direction yields an in-grid cell one orthogonal step away |
| Day10.NeighboursComplete | src/day10.rs:25-34 | every in-grid cell one orthogonal step away is among the moves |
| Day10.NeighboursHas | src/day10.rs:25-34 | a later direction's kept cell is in the neighbour list from any earlier direction on |
| Day10.Climbable | src/day10.rs:36-44 | the pushed cells are drawn from the moves, no more of them than moves |
| Day10.ClimbableMember | src/day10.rs:40-42 | a pushed cell is a move exactly one higher than the current height |
| Day10.ClimbableHas | src/day10.rs:40-42 | every move exactly one higher is pushed (saturating subtraction makes lower cells give 0, never 1) |
| Day10.ClimbableCells | src/day10.rs:36-44 | the pushed cells are in the grid, all one higher, and include every move one higher |
| Day10.Next | src/day10.rs:25-44 | the successors of a cell are in-grid cells one higher than it |
| Day10.Lowest | src/day10.rs:18-19 | the least height on a stack: a lower bound on every entry and attained by one, 256 for an empty stack |
| Day10.CellsAppend | src/day10.rs:42 | a pushed stack stays inside the grid exactly when both parts do |
| Day10.PendingPush | src/day10.rs:42 | the summits still owed by a stack after a push are the pushed cells' summits, then the old stack's |
| Day10.PendingTop | src/day10.rs:18 | a stack owes its top's summits first and then those of what lies below |
| Day10.VisitsPush | src/day10.rs:42 | the pops still owed by a stack add up over a push |
| Day10.ClimbableStep | src/day10.rs:36-44 | one iteration of the inner loop extends the pushed cells by the current move exactly when it climbs by one |
| Day10.PushStep | src/day10.rs:36-44 | after move `i` the stack is the old stack plus the climbable moves among the first `i + 1` |
| Day10.PushClimbable | src/day10.rs:36-44 | the inner loop pushes exactly the climbable moves, in order |
| Day10.Expand | src/day10.rs:25-44 | expanding a non-summit pushes exactly its successors |
| Day10.PopStep | src/day10.rs:18-44 | popping a cell accounts for its summits, and expanding it leaves the owed summits the same with strictly fewer pops owed |
| Day10.Pop | src/day10.rs:18 | popping a non-empty stack takes its last entry and leaves an in-grid stack |
| Day10.PopSummit | src/day10.rs:20-23 | popping a '9' records it as the next summit and lowers the owed pops |
| Day10.PopClimb | src/day10.rs:25-44 | popping a lower cell keeps reported plus owed summits equal to the reference, with fewer pops owed |
| Day10.LoopStart | src/day10.rs:14-16 | the stack holding only the start owes exactly the start's summits |
| Day10.TagAppend | src/day10.rs:63 | recording a summit keeps every route tagged with the start |
| Day10.ClimbAllTrail | src/day10.rs:50-90 | `climb_all_trail` returns one (start, summit) pair per arrival at a '9', in the order the stack search reports them |
| Day10.ClimbTrail | src/day10.rs:8-48 | `climb_trail` returns the set of (start, summit) pairs of the same search |
| Day10.ClimbInNext | src/day10.rs:25-44 | an in-grid orthogonal step up by one is a successor |
| Day10.MoveOfClimb | src/day10.rs:25-34 | an in-grid orthogonal step is a move |
| Day10.NextIsClimb | src/day10.rs:36-44 | every successor is an orthogonal step up by one |
| Day10.NextClimbs | src/day10.rs:25-44 | successors are exactly the orthogonal steps up by one |
| Day10.PendingMember | src/day10.rs:18-44 | every owed summit is a summit of some stacked cell |
| Day10.PendingHas | src/day10.rs:18-44 | every summit of a stacked cell is owed |
| Day10.PendingHasCell | src/day10.rs:18-44 | a stacked cell's summits are all owed by the stack |
| Day10.SummitSound | src/day10.rs:18-44 | every summit reached from `p` ends a hiking trail from `p` |
| Day10.SummitComplete | src/day10.rs:18-44 | every hiking trail climbs to height 9 and its end is a summit reached from its start |
| Day10.SummitsAreTrailEnds | src/day10.rs:8-48 | the summits reached from `p` are '9' cells in the grid, and a cell is one exactly when some hiking trail leads from `p` to it |
| Day10.RoutesAppend | src/day10.rs:21 | inserting a summit adds its pair to the route set |
| Day10.RouteCount | src/day10.rs:16-21 | the route set has one element per distinct summit, at most one per arrival |
| Day10.AllTrailsCoverUnique | src/day10.rs:8-90 | the list of `climb_all_trail` holds exactly the routes of `climb_trail`, so scores never exceed ratings |
| Day10.Trailheads | src/day10.rs:93 | the trailheads are cells of the grid |
| Day10.TrailheadsAreZeros | src/day10.rs:93 | the trailheads are exactly the '0' cells, in row-major order |
| Day10.Score | src/day10.rs:97 | a trailhead's score is the number of distinct summits its search reaches |
| Day10.Rating | src/day10.rs:106 | a trailhead's rating is the number of arrivals at summits its search reports |
| Day10.ScoredListPush | src/day10.rs:95-98 | scoring the next trailhead extends the scored list |
| Day10.RatedListPush | src/day10.rs:104-107 | rating the next trailhead extends the rated list |
| Day10.FindUniqueTrails | src/day10.rs:92-99 | every trailhead, in order, paired with its score |
| Day10.FindAllTrails | src/day10.rs:101-108 | every trailhead, in order, paired with its rating |
| Day11.MaybeSplitEven | src/day11.rs:5-18 | a stone splits exactly when it is positive with an even number of decimal digits, into a left half and a right half that put back together give the stone, the right half shorter than the split power of ten |
| Day11.DivSplit | src/day11.rs:13-14 | the quotient and remainder by the split power put the stone back together |
| Day11.SplitHalves | src/day11.rs:10-14 | the left half of a split stone has exactly half its digits |
| Day11.MaybeReplaceZero | src/day11.rs:20-26 | only stone 0 is replaced, and by 1 |
| Day11.ApplyRules | src/day11.rs:32-37 | the rules are tried in order: 0 becomes 1, an even-length stone splits into its halves, any other stone is multiplied by 2024 |
| Day11.Blink | src/day11.rs:39-41 | a blink at least keeps and at most doubles the number of stones |
| Day11.BlinkAppend | src/day11.rs:39-41 | blinking distributes over concatenation, so every stone evolves on its own |
| Day11.BlinkPermutation | src/day11.rs:39-41 | lists with the same stone counts give the same stone counts after a blink |
| Day11.RemoveOne | src/day11.rs:39-41 | removing matching stones from two lists with equal counts keeps their counts equal |
| Day11.BlinkWithout | src/day11.rs:39-41 | the counts after a blink are those of the list without one stone plus that stone's rule output |
| Day11.Around | src/day11.rs:39-41 | a list is the part before a stone, the stone and the part after it |
| Day11.BlinkOne | src/day11.rs:39-41 | blinking a single stone is applying the rules to it |
| Day11.BlinkN | src/day11.rs:43-49 | repeated blinking never loses stones |
| Day11.Blink25 | src/day11.rs:43-49 | `blink25` gives the stones after 25 blinks |
| Day11.Repeat | src/day11.rs:53-56 | `k` copies of a list have `k` times its length |
| Day11.RepeatAppend | src/day11.rs:54-56 | counts of repeated concatenations add up |
| Day11.RepeatOne | src/day11.rs:55 | adding `k` to one stone's count is adding `k` copies of it |
| Day11.BlinkRepeat | src/day11.rs:53-56 | blinking `k` copies of a stone gives `k` copies of its rule output |
| Day11.BlinkWithCounts | src/day11.rs:51-59 | `blink_with_counts` maps the count table of any list to the count table of that list after one blink |
| Day11.AddCopies | src/day11.rs:54-56 | the inner loop adds `v` to the count of every stone the rule produces |
| Day11.AddOne | src/day11.rs:55 | one `insert` adds `v` to one stone's count |
| Day11.TakeKey | src/day11.rs:53 | each key of the table is visited once, its full count moving from still-to-do to done |
| Day11.BlinkStep | src/day11.rs:53-56 | handling one key accounts for the blink of all its copies |
| Day11.Blink75 | src/day11.rs:61-68 | `blink75` gives the count table of the 75-blink list, whose total is that list's length |
| Day11.SplitExamples | src/day11.rs:79-90 | the splits of the unit test: 0, 9, 100 and 999 do not split; 10, 19, 99, 1000 and 9999 split into the expected halves |
| Day11.FirstExample | src/day11.rs:93-101 | one blink of `0 1 10 99 999` gives `1 2024 1 0 9 9 2021976` |
| Day11.SecondExampleStep1 | src/day11.rs:105-108 | one blink of `125 17` gives `253000 1 7` |
| Day11.SecondExampleStep2 | src/day11.rs:110-111 | the next blink gives `253 0 2024 14168` |
| Day11.SecondExampleStep3 | src/day11.rs:113-114 | the next blink gives `512072 1 20 24 28676032` |
| Day12.RowPoints | src/day12.rs:13-15 | the points of one row are exactly the columns of that row |
| Day12.PointsFrom | src/day12.rs:9-17 | the points from a row on are exactly the grid cells at or below it |
| Day12.Points | src/day12.rs:9-17 | the starting stack lists exactly the cells of the grid |
| Day12.InvStart | src/day12.rs:86-90 | the search starts with every cell stacked, nothing visited, no region complete and no region open, which meets the search invariant |
| Day12.SkipVisited | src/day12.rs:26-29 | popping a visited cell keeps the invariant |
| Day12.Extend | src/day12.rs:37-39 | a popped cell with the open region's plant joins that region, keeping the invariant |
| Day12.Restart | src/day12.rs:40-46 | a popped cell with another plant closes the open region and opens a new one holding just that cell |
| Day12.CloseOpen | src/day12.rs:81-83 | closing a non-empty single-plant region disjoint from the others keeps the closed regions single-plant and disjoint, and adds its cells to the covered cells |
| Day12.PushCells | src/day12.rs:73-77 | pushing grid cells keeps the invariant |
| Day12.CloseLast | src/day12.rs:81-83 | with the stack empty, closing the open region keeps the invariant |
| Day12.SameUnvisited | src/day12.rs:60-77 | at most one cell is pushed per candidate; which candidates are pushed is stated by Day12.SameUnvisitedCells |
| Day12.SameUnvisitedCells | src/day12.rs:60-77 | a candidate is pushed exactly when it has the current plant and is unvisited |
| Day12.PushedNeighbours | src/day12.rs:51-77 | the pushed cells are exactly the unvisited in-grid orthogonal neighbours with the current plant |
| Day12.PushSame | src/day12.rs:73-77 | the `for_each` pushes exactly those cells, in order |
| Day12.FewerUnvisited | src/day12.rs:30 | visiting a new cell lowers the number of unvisited cells, so the recursion ends |
| Day12.Visit | src/day12.rs:30-77 | handling one unvisited popped cell keeps the invariant and marks it visited |
| Day12.Dfs | src/day12.rs:19-84 | `dfs` empties the stack, keeps the invariant, only adds to the visited cells, and leaves the open region among the complete ones |
| Day12.Garden | src/day12.rs:8-93 | `garden` returns non-empty regions, each of one plant, pairwise disjoint, that together cover exactly the cells of the grid |
| Day13.Solve | src/day13.rs:7-17 | a returned press count satisfies both claw equations |
| Day13.SolveComplete | src/day13.rs:7-17 | whenever the equations have an integer solution, `solve` returns it, so `None` means no integer solution exists |
| Day13.CramerNumerator | src/day13.rs:8 | for a solution, Cramer's numerator is `b` times the determinant, so the division at line 8 is exact |
| Day13.SolutionUnique | src/day13.rs:7-17 | with a non-zero determinant the equations have at most one solution |
| Day13.Cost | src/day13.rs:36-39 | the cost is defined exactly when the machine can be won, and is then three tokens per A press plus one per B press |
| Day13.SolveExamples | src/day13.rs:67-69 | the two solvable machines of the unit test give (80, 40) and (38, 86) |
| Day13.NoSolutionExample1 | src/day13.rs:68 | the second machine of the unit test has no solution |
| Day13.NoSolutionExample2 | src/day13.rs:70 | the fourth machine of the unit test has no solution |
| Day13.CostExamples | src/day13.rs:87-93 | the example machines cost 280, nothing, 200 and nothing |
| Day14.WrapRange | src/day14.rs:14-20 | for a value at least minus the limit, `wrap` lands in `[0, limit)` and agrees with the value modulo the limit |
| Day14.Wrap | src/day14.rs:14-20 | for a non-negative value and a positive limit `wrap` is the remainder; a value at most one limit below zero lands in `[0, limit)` |
| Day14.Tick | src/day14.rs:43-51 | a tick keeps the robot's velocity |
| Day14.TickInside | src/day14.rs:43-51 | a robot inside the room whose speed on each axis is at most the room's size stays inside, at its position plus velocity modulo the room's size |
| Day14.FastRobotEscapes | src/day14.rs:14-20 | a robot moving left faster than the room is wide ends outside the room, because `wrap` adds the limit once |
| Day14.TickN | src/day14.rs:137-139 | repeated ticks keep the robot inside and its velocity unchanged |
| Day14.TickNClosedForm | src/day14.rs:137-139 | after `n` ticks the robot is at its position plus `n` times its velocity, modulo the room's size |
| Day14.AxisStep | src/day14.rs:45-48 | one more tick on one axis advances the closed form by one step |
| Day14.ModAdd | src/day14.rs:45-48 | reducing before adding does not change the remainder |
| Day14.CountIn | src/day14.rs:28-38 | a quadrant's count is at most the number of robots |
| Day14.Score | src/day14.rs:22-41 | the loop computes the product of the four quadrant counts, robots on the centre lines counting in none |
| Day14.QuadrantsBounded | src/day14.rs:28-38 | the four quadrant counts together are at most the number of robots, since each robot counts in at most one |
| Day14.TickExample | src/day14.rs:110-122 | the first three ticks of the wrap test: (2,4) to (4,1) to (6,5) to (8,2) |
| Day14.TickExampleWrap | src/day14.rs:124-128 | the next two ticks of the wrap test: (8,2) to (10,6) to (1,3) |
| Day14.TickStep | src/day14.rs:43-51 | with velocity (2,-3) in an 11 by 7 room, a tick moves to the positions given by the remainders |
| Day16.CmpIgnoresDirection | src/day16.rs:17-27 | `State::cmp` as written reports two states that differ only in direction as equal, although the derived `==` tells them apart |
| Day16.Cmp | src/day16.rs:17-27 | `State::cmp` as written ties exactly the states of equal cost and position, and a state no smaller than another costs no more |
| Day16.CmpPreorder | src/day16.rs:17-27 | `State::cmp` as written is antisymmetric and transitive |
| Day16.HeapCmpOrder | src/day16.rs:17-34 | the order with ties broken on direction is total and consistent with equality, and a state no smaller than another costs no more, so the heap pops cheapest first |
| Day16.TopExists | src/day16.rs:100-104 | a non-empty heap has an entry no other entry exceeds under `State::cmp` as written, which `pop` may return |
| Day16.TopCheapest | src/day16.rs:100-104 | the popped entry has the least cost in the heap |
| Day16.TopsTie | src/day16.rs:100-104 | two entries `pop` may return differ at most in direction |
| Day16.HeapTopIsTop | src/day16.rs:17-34 | under the corrected order the entry `pop` returns is unique, and it is one that `State::cmp` as written also allows |
| Day16.Ahead | src/day16.rs:41-51 | the cell ahead in a direction lies in the grid |
| Day16.EdgeFrom | src/day16.rs:50-62 | each ray gives at most one edge, labelled with the ray's direction |
| Day16.MovesAreRays | src/day16.rs:41-48 | the eight rays of length two, in direction order, each holding the cell and the one ahead when it is in the grid |
| Day16.FilterEdgesMembers | src/day16.rs:49-63 | the collected edges are exactly the edges the individual rays give |
| Day16.EdgeFromRay | src/day16.rs:50-62 | a ray gives an edge exactly when the cell ahead is not a wall and the direction is straight on (cost 1) or a quarter turn (cost 1001) |
| Day16.FindEdgesSpec | src/day16.rs:36-64 | `find_edges` returns exactly the legal moves: straight ahead for 1, or a quarter turn and a step for 1001, onto a non-wall cell |
| Day16.FindEdges | src/day16.rs:36-64 | every edge `find_edges` yields is a legal move of the maze rules |
| Day16.FilterEdgesSorted | src/day16.rs:49-63 | the edges come in direction order |
| Day16.FewEdges | src/day16.rs:36-64 | edges with distinct directions from a set are no more than the set |
| Day16.AheadInjective | src/day16.rs:41-48 | different directions lead to different cells |
| Day16.CardinalAhead | src/day16.rs:41-48 | the cell ahead in a cardinal direction is one orthogonal step away |
| Day16.FindEdgesDirections | src/day16.rs:36-64 | no two edges share a direction |
| Day16.FindEdgesShape | src/day16.rs:36-64 | there are at most three edges, and no two lead to the same cell |
| Day16.MoveCardinal | src/day16.rs:53-58 | from a cardinal direction every move keeps a cardinal direction, steps orthogonally, and never reverses |
| Day16.FindEdgesCardinal | src/day16.rs:36-64 | every edge from a cardinal heading is cardinal, orthogonal and not a reversal |
| Day16.ExtendRoute | src/day16.rs:124-129 | an achievable state followed by a legal move gives an achievable state |
| Day16.Relaxation | src/day16.rs:124-148 | relaxing the edges keeps the cells of the distance table |
| Day16.RelaxationMonotone | src/day16.rs:143-147 | relaxation never worsens a distance, only adds to the heap, and every entry it adds is the current cost plus one of the edges |
| Day16.RelaxationNext | src/day16.rs:124-148 | relaxing one more edge is one more loop iteration |
| Day16.SplitLast | src/day16.rs:124 | with distinct targets the last edge's target is untouched by the earlier ones |
| Day16.RelaxationAt | src/day16.rs:143-147 | each edge's target ends with the judged distance: the new cost when it is no more than the recorded one, else the old value; other cells keep theirs |
| Day16.RelaxationPushes | src/day16.rs:143-145 | the heap grows by exactly the entries that pass the `<=` test |
| Day16.AddParentsAt | src/day16.rs:136-140 | every edge's target gets the current position appended to its parents, whether or not the edge improves anything; other cells keep theirs |
| Day16.AddParentsOk | src/day16.rs:136-140 | parents recorded along legal moves keep every recorded parent a neighbour one move away |
| Day16.AddParentsNext | src/day16.rs:136-140 | recording one more edge is one more loop iteration |
| Day16.EdgesInGrid | src/day16.rs:143-146 | every edge target has an entry in the distance table, so `dist[..]` cannot panic |
| Day16.RelaxEdges | src/day16.rs:124-148 | the inner loop computes the relaxation and the parent update |
| Day16.InvStart | src/day16.rs:76-99 | the initial table (the start at 0, every other cell unknown), the empty parents and the heap with the start facing east meet the search invariant |
| Day16.Pushed | src/day16.rs:124-144 | an entry pushed from an achievable state is achievable, in the grid and cardinal |
| Day16.ExpandHeap | src/day16.rs:124-148 | expanding the cheapest entry keeps the heap achievable and no cheaper than it |
| Day16.RelaxedEntry | src/day16.rs:143-145 | an entry added by relaxation is achievable, in the grid, cardinal and no cheaper than the popped one |
| Day16.NewEntry | src/day16.rs:143-145 | an entry added by relaxation comes from one of the edges |
| Day16.ExpandPrev | src/day16.rs:136-140 | expanding a state keeps every recorded parent one legal move away |
| Day16.Expand | src/day16.rs:105-148 | one iteration of the loop as a function: the heap loses the popped entry and gains only entries no cheaper than it, the distance table keeps its cells, and the result becomes the popped cost at the goal |
| Day16.Visit | src/day16.rs:105-148 | one iteration records the goal's cost when the goal is popped, skips entries dearer than the result or the recorded distance, and otherwise relaxes the popped state's edges; the new state is exactly `Expand` of the old one, keeps the invariant, and holds no entry cheaper than the popped one |
| Day16.Pop | src/day16.rs:100-104 | popped costs never decrease |
| Day16.LastGoalSpec | src/day16.rs:106-108 | the result is set exactly when the goal has been popped, and then is the cost of such a pop |
| Day16.LastGoalPush | src/day16.rs:106-108 | a pop at the goal sets the result to its cost; other pops leave it |
| Day16.PopsTopsPush | src/day16.rs:100-148 | a run extended by a pop of a top of the replayed heap is still a run, and its replay is one more `Expand` |
| Day16.Search | src/day16.rs:70-160 | the trace of pops is a run of the loop: each pop takes a top of the heap the earlier pops leave, and the heap is drained unless the fuel ran out; the result and parents are that run's; the result is the cost of the last goal pop, the cost of an actual route from the start facing east; costs are popped in increasing order; every parent is one legal move away |
| Day16.Nodes | src/day16.rs:174-201 | the cells of the parent table include every key and every recorded parent |
| Day16.BehindPrepend | src/day16.rs:196-199 | a cell behind a parent is behind the child |
| Day16.Shrinks | src/day16.rs:180-183 | each recursive call sees fewer unvisited cells, so `dfs` ends |
| Day16.Dfs | src/day16.rs:174-201 | `dfs` marks the current cell and only cells reachable backwards from it, and leaves every parent of a newly marked cell marked |
| Day16.DfsTiles | src/day16.rs:203-207 | a marked set closed under parents and reachable backwards from the goal is exactly the goal's tile set |
| Day16.ShortestPath | src/day16.rs:70-217 | for a run of the loop, `shortest_path` returns nothing exactly when the goal is never popped; otherwise the last popped goal cost, a cost some route achieves, with the number of cells reachable backwards from the goal through that run's parents, each one legal move away |
| Day17.New | src/day17.rs:12-21 | a new computer holds the program and registers given, with `ip` at 0 and no output |
| Day17.IsDone | src/day17.rs:23-25 | the computer is not done exactly when an opcode and its operand can both be read at `ip` |
| Day17.Combo | src/day17.rs:56-67 | operands 0 to 3 are literal, 4 to 6 read registers A, B and C, and 7 panics |
| Day17.Pow2 | src/day17.rs:38 | `1 << k` is at least 1, so the divisions cannot divide by zero |
| Day17.XorHalves | src/day17.rs:39 | exclusive or works bit by bit: the halves combine as the halves, the low bits as their sum modulo 2 |
| Day17.XorInverse | src/day17.rs:39 | applying the same exclusive or twice restores the value |
| Day17.XorIdentityCommute | src/day17.rs:39 | exclusive or with 0 is the identity, and the operands commute |
| Day17.Step | src/day17.rs:27-54 | a finished computer is returned unchanged; otherwise the program is kept, `ip` advances by two or jumps for opcode 3 with A non-zero, at most one value is output and only by opcode 5, and the step panics exactly on an opcode above 7 or an invalid combo operand of a combo instruction |
| Day17.StepWrites | src/day17.rs:37-51 | opcode 0 divides A by two to the combo operand and every other opcode keeps A; only opcodes 1, 2, 4 and 6 write B, with the values the instruction table gives; opcode 7 writes C and every other keeps it; opcode 5 appends the combo operand modulo 8 to the output |
| Day17.Run | src/day17.rs:94-96 | a run that completes ends on a finished computer with the same program, its output extending the initial output |
| Day17.RunMoreFuel | src/day17.rs:94-96 | once a run completes, more steps change nothing |
| Day17.SetBFromCExample | src/day17.rs:82-88 | with C = 9, `2,6` sets B to 1 |
| Day17.XorLiteralExample | src/day17.rs:114-122 | with B = 29, `1,7` leaves B = 26 |
| Day17.XorRegistersExample | src/day17.rs:125-133 | with B = 2024 and C = 43690, `4,0` leaves B = 44354 |
| Day17.OutputExample | src/day17.rs:91-99 | with A = 10, `5,0,5,1,5,4` outputs 0, 1, 2 |
| Day17.Shifts | src/day17.rs:38-47 | the loop of shifting A and printing it outputs at least one value |
| Day17.ShiftTurn | src/day17.rs:37-47 | one turn of `0,k,5,4,3,0` divides A by two to the `k`, prints the new A modulo 8, and jumps back exactly when A is non-zero |
| Day17.ShiftLoop | src/day17.rs:37-47 | `0,k,5,4,3,0` runs to completion, printing every successive quotient modulo 8 and leaving A at 0 |
| Day17.ShiftLast | src/day17.rs:37-47 | the final turn of the loop prints 0 and stops |
| Day17.ShiftsCons | src/day17.rs:37-47 | the outputs of a turn that leaves A non-zero are its printed value followed by the outputs from the new A |
| Day17.TurnThen | src/day17.rs:37-47 | a turn followed by the rest of the run is the whole run |
| Day17.ShiftRun | src/day17.rs:12-21 | from a fresh computer, `0,k,5,4,3,0` outputs the quotient sequence and ends with A at 0 |
| Day17.HalvingExample | src/day17.rs:136-144 | with A = 729, `0,1,5,4,3,0` outputs 4,6,3,5,6,3,5,2,1,0 |
| Day17.HalvingOutputs729 | src/day17.rs:136-144 | halving 729 repeatedly prints 4,6,3,5,6,3,5,2,1,0 |
| Day17.HalvingOutputs182 | src/day17.rs:136-144 | halving 182 repeatedly prints 3,5,6,3,5,2,1,0 |
| Day17.HalvingExample2024 | src/day17.rs:102-111 | with A = 2024, `0,1,5,4,3,0` outputs 4,2,5,6,7,7,7,7,3,1,0 and leaves A at 0 |
| Day17.HalvingOutputs45 | src/day17.rs:102-111 | halving 45 repeatedly prints 6,3,5,2,1,0 |
| Day17.HalvingOutputs2024 | src/day17.rs:102-111 | halving 2024 repeatedly prints 4,2,5,6,7,7,7,7,3,1,0 |
| Day17.HalvingOutputs506 | src/day17.rs:102-111 | halving 506 repeatedly prints 5,6,7,7,7,7,3,1,0 |
| Day17.HalvingOutputs253 | src/day17.rs:102-111 | halving 253 repeatedly prints 6,7,7,7,7,3,1,0 |
| Day17.HalvingOutputs31 | src/day17.rs:102-111 | halving 31 repeatedly prints 7,7,3,1,0 |
| Day17.QuineExample | src/day17.rs:164-177 | with A = 117440, `0,3,5,4,3,0` outputs its own program |
| Day17.QuineOutputs | src/day17.rs:164-177 | dividing 117440 by 8 repeatedly prints 0,3,5,4,3,0 |
| Day18.CmpOrder | src/day18.rs:17-34 | `State::cmp` is a total order consistent with equality, and a state no smaller than another costs no more, so the heap pops cheapest first |
| Day18.Cmp | src/day18.rs:17-27 | `State::cmp` ties exactly equal states, and a state no smaller than another costs no more |
| Day18.TopExists | src/day18.rs:93 | a non-empty heap has an entry no other entry exceeds, which `pop` returns |
| Day18.TopCheapest | src/day18.rs:93 | the popped entry has the least cost in the heap |
| Day18.StepsIn | src/day18.rs:46-58 | the kept steps cost 1 and are exactly the candidate cells that are in the grid and not walls |
| Day18.FindEdgesSpec | src/day18.rs:36-60 | `find_edges` returns exactly the unit-cost steps to the in-grid, non-wall, orthogonal neighbours |
| Day18.FindEdges | src/day18.rs:36-60 | every edge `find_edges` yields is a unit-cost step to an in-grid, non-wall, orthogonal neighbour |
| Day18.PrefixWalk | src/day18.rs:66-125 | a prefix of a walk from the start is a walk from the start |
| Day18.ExtendWalk | src/day18.rs:106-110 | a walk followed by an edge is a walk |
| Day18.InvStart | src/day18.rs:68-90 | the start at distance 0, every other cell unknown and only the start in the heap meet the search invariant |
| Day18.Boundary | src/day18.rs:93-118 | a walk to an unexpanded cell has a first unexpanded cell, whose predecessor is expanded |
| Day18.Frontier | src/day18.rs:93-118 | any walk to an unexpanded cell passes an unexpanded cell queued at a cost no greater than the walk's length |
| Day18.FrontierNonEmpty | src/day18.rs:93 | while an unexpanded cell is reachable, the heap is not empty |
| Day18.GoalFound | src/day18.rs:95-97 | when the goal is popped its cost is the length of a shortest walk to it |
| Day18.Drained | src/day18.rs:123-124 | when the heap empties without reaching the goal, no walk reaches it |
| Day18.Stale | src/day18.rs:99-102 | skipping an entry dearer than the recorded distance keeps the invariant |
| Day18.Relax | src/day18.rs:106-118 | the inner loop lowers exactly the neighbours whose recorded distance exceeds the new cost, leaves every neighbour within it, and pushes one entry per lowering |
| Day18.AllEdgesRelaxed | src/day18.rs:106-118 | once every edge is handled, every neighbour is within one of the current cost |
| Day18.RelaxStep | src/day18.rs:113-117 | one edge: a strictly better cost is recorded and pushed, otherwise nothing changes |
| Day18.KeepPrefix | src/day18.rs:113-117 | edges already handled stay within one of the current cost |
| Day18.Expand | src/day18.rs:99-118 | expanding the cheapest entry keeps the invariant with its cell expanded |
| Day18.ExpandSettled | src/day18.rs:99-118 | after expansion every expanded cell's distance is final and its neighbours are relaxed |
| Day18.SettleTop | src/day18.rs:93-102 | the popped non-stale entry's cost is a shortest distance |
| Day18.KeepSettled | src/day18.rs:113-117 | relaxation does not change the distance of an expanded cell |
| Day18.KeepQueued | src/day18.rs:113-117 | every recorded distance of an unexpanded cell stays queued in the heap |
| Day18.KeepPaths | src/day18.rs:113-117 | every recorded distance stays the length of a walk |
| Day18.KeepRelaxed | src/day18.rs:106-118 | expanded cells stay relaxed |
| Day18.NothingPushed | src/day18.rs:113-117 | re-expanding an expanded cell pushes nothing |
| Day18.Progress | src/day18.rs:93-118 | each iteration expands a new cell or shrinks the heap, so the loop ends |
| Day18.Visit | src/day18.rs:93-118 | one non-goal iteration keeps the invariant and makes progress |
| Day18.ExpandTop | src/day18.rs:104-118 | expanding a non-stale entry keeps the invariant and makes progress |
| Day18.ShortestPath | src/day18.rs:66-125 | `shortest_path` returns the length of a shortest walk from the top-left to the bottom-right corner through non-wall cells, and nothing exactly when no walk exists |
| Day18.BuildGraph | src/day18.rs:139-154 | `build_graph` makes a `rows` by `cols` grid with '#' exactly at the fallen bytes and '.' elsewhere |
| Day18.FallenPassable | src/day18.rs:139-154 | on a built grid the goal is the bottom-right corner and a cell is passable exactly when no byte fell on it |
| Day18.ParseBlobs | src/day18.rs:127-137 | parsing lines succeeds exactly when every line parses, giving one (row, col) pair per line |
| Day18.ParseBlob | src/day18.rs:130-134 | a line without a comma fails; otherwise the pair is the number after the comma, then the number before it: (row, col) from "x,y" |
| Day18.Parse | src/day18.rs:127-137 | parsing succeeds with one pair per line, each the one its line reads as, and fails exactly when some line fails |
| Day18.ShowNatFree | src/day18.rs:130-133 | a printed number holds no comma and no line break |
| Day18.ParseShowBlob | src/day18.rs:130-134 | a line `x,y` parses back to the pair (y, x) |
| Day18.ParseLayout | src/day18.rs:127-137 | parsing the printed list of fallen bytes gives the list back |
| Day18.ParseShowBlobs | src/day18.rs:127-137 | parsing printed lines gives the pairs back |
| Day19.Flatten | src/day19.rs:46-47 | an empty list of towels lays out nothing |
| Day19.FlattenPush | src/day19.rs:63-64 | pushing a towel onto the path appends its stripes to the layout |
| Day19.Search | src/day19.rs:45-72 | a path `search` returns lays out the whole pattern and extends the given path by towels from the list |
| Day19.TryTowels | src/day19.rs:61-69 | a path found by trying the towels from index `i` on lays out the pattern and extends the given path by towels |
| Day19.SearchComplete | src/day19.rs:45-72 | when the path so far agrees with the pattern and the rest can be arranged from the towels, `search` finds some path |
| Day19.TryComplete | src/day19.rs:61-69 | when a towel at or after index `i` starts an arrangement of the rest, trying the towels from `i` on succeeds |
| Day19.FlattenFront | src/day19.rs:46-47 | a layout is its first towel followed by the layout of the rest |
| Day19.SearchFinds | src/day19.rs:45-72 | `search` from the empty path succeeds exactly when the pattern can be arranged from the towels, and then returns such an arrangement |
| Day19.WaysPositive | src/day19.rs:74-98 | the number of arrangements is positive exactly when one exists |
| Day19.FlattenEmpty | src/day19.rs:46-47 | a non-empty layout needs at least one towel |
| Day19.PositiveTerm | src/day19.rs:84-94 | a positive sum has a towel that starts the pattern and leaves an arrangeable rest |
| Day19.TermCounts | src/day19.rs:84-94 | a towel that starts the pattern and leaves an arrangeable rest makes the sum positive |
| Day19.CountsArrangements | src/day19.rs:74-98 | for distinct towels of at least one stripe, the set the counting recursion builds holds exactly the arrangements of the pattern and has `Ways` members, so `Ways` is the number of arrangements |
| Day19.ArrsCount | src/day19.rs:84-94 | with distinct towels, the set the recursion builds has as many paths as it counts |
| Day19.ArrsSound | src/day19.rs:84-94 | every path in that set is an arrangement of the pattern |
| Day19.ArrsComplete | src/day19.rs:84-94 | every arrangement of the pattern is in that set |
| Day19.PrefixedCard | src/day19.rs:86-88 | putting one towel in front of each path loses no path |
| Day19.SearchCombos | src/day19.rs:74-98 | `search_combos` with a correct cache returns `Ways`, the count that Day19.CountsArrangements shows is the number of arrangements; it stores the count for a non-empty pattern, only adds to the cache, and keeps a correct cache correct |
| Day19.Parse | src/day19.rs:5-23 | parsing fails (the source panics) exactly when the text has no blank line |
| Day19.ParseLayout | src/day19.rs:5-23 | the text with the towels joined by ", ", a blank line and one pattern per line parses back to the towels and patterns |
| Day19.SearchExample | src/day19.rs:137-152 | on the example towels, `search` arranges "brwrr" as b, r, wr, r |
| Day19.Skip | src/day19.rs:86 | towels that do not start the pattern add nothing to the count |
| Day19.SkipOne | src/day19.rs:86 | one towel that does not start the pattern adds nothing |
| Day19.NotStartAt | src/day19.rs:86 | a towel that differs from the pattern at some position within both does not start it |
| Day19.CombosExample | src/day19.rs:180-186 | "brwrr" has two arrangements from the example towels |
| Day19.CombosRwrr | src/day19.rs:180-186 | "rwrr" has one arrangement |
| Day19.CombosWrr | src/day19.rs:180-186 | "wrr" has one arrangement |
| Day19.CombosR | src/day19.rs:180-186 | "r" has one arrangement |
| Day19.ImpossibleExample | src/day19.rs:155-164 | "ubwu" cannot be arranged: `search` fails and the count is 0 |

## Left out

- File reading, the tests that read `data/*.txt`, the `Problem` trait, the `linkme` registration and `src/main.rs`. These are input/output and dispatch glue.
- Debug output and its helpers: `println!` dumps, `print_map_with_costs` (day 18), `print_robots` and the `thread::sleep` search for the picture (day 14).
- `src/day3.rs` is not part of this model. Its behaviour is the `regex` crate's matching and the `chumsky` parser combinators, which are foreign libraries.
- `src/day20.rs` holds only an empty test.
- The regular-expression parsers of days 13 and 14. They are foreign-library matching, so `cost` takes its six numbers already read.
- Machine integers are unbounded `int`/`nat`. Overflow of `i * 2024`, of `usize` sums, of the `i64` operators of day 7 and of `1 << combo` for shifts of 64 or more is not modelled.
- `usize::MAX` "infinite distance" sentinels become `None`.
- `HashMap`, `HashSet`, `BTreeMap`, `BinaryHeap` and `SortedVec` internals are not modelled. The model uses Dafny maps, sets, multisets and sequences, so iteration order over a `HashMap` is not fixed.
- `char_matrix` is not part of this model. Every grid is a rectangular sequence of byte rows with at least one row and at least one column, as `Day4.Rectangular` demands. `garden` (day 12) would also accept an empty grid, but its only call passes the 4 by 4 test grid.
- Strings are sequences of characters with no UTF-8 encoding; `as_bytes` is the identity on the ASCII input.
- Day4.ExplodePoint: the unit tests from (3,0) and (0,3) are not restated; those from (0,0) and (3,3) are.
- Day4.ExplodePoint: requires `length >= 1`; with length 0, `length - 1` underflows and panics (src/day4.rs:38-40). Every call in the source passes a literal length of 2, 3 or 4.
- Day4.ExtractString: requires every point of the ray to lie in the grid; otherwise the index `bytes[p.row][p.col]` panics (src/day4.rs:100). The rays come from `explode_point` clipped to the grid's corner.
- Day1.Prob2: `*n as usize` wraps a negative left value to a huge number; the model multiplies the signed value. It requires a sorted right column, which `SortedVec` guarantees.
- Day1.Deserialize: white space is ASCII white space only; the Unicode white space `split_whitespace` also accepts is not modelled.
- Day4.FindChar: the `find_char_in_puzzle` and `extract_string_from_vector` unit-test values are not restated.
- Day4.Prob1: the example counts 18 and 9 (day 4, parts 1 and 2) are not derived; evaluating the example grid is beyond the verifier's budget.
- Day1.FrequencyCounts: the frequency-table unit test is not restated.
- Day2.IsSafe: the `is_safe` unit tests are not restated.
- Day2.ToleratedSpec: a blank line in the input parses to an empty report, which `prob2` counts (the fold stays `Unstarted`, matched by `_ => 1`) and `prob1` does not; the model follows the code.
- Day5.Graph.SuccessorList: the `Successors` iterator is modelled as the list it drains to, not as a lazy iterator.
- Day5.TopologicalSort: requires every requested value to be a node of the graph, because the `unwrap` on `index` (src/day5.rs:186) panics on any other value; the panic is not modelled.
- Day5.SortUpdate: requires every page of the update to be named by some rule. Part two sorts a rejected update against the rule graph alone (src/day5.rs:290-292), so an update holding a page that no rule names makes the source panic at src/day5.rs:186; that input is excluded rather than modelled as a failure.
- Day5.ExtendGraph: requires a non-empty update, because of `values[0]`.
- Day5.InOrderIffAcyclic: requires the update's pages to be distinct; the puzzle input has no repeated page.
- Day5.Prob2: the reordered update respects the rules only when the rules among its pages have no cycle; with a cycle only "same pages, each once" is promised, as in the code.
- Day5.Prob2: requires every page of every rejected update to be named by some rule, for the reason given for Day5.SortUpdate; a rejected update with an unnamed page, where the source panics, is not modelled.
- Day5: splitting the input text and `parse_updates` are not modelled; the example results `[true, true, true, false, false, false]`, 143 and 123 are not derived.
- Day6.ExplodeWithDirections: requires `length >= 1`, because it calls `explode_point`, which panics for length 0 (src/day4.rs:38-40).
- Day6.ReplaceChar: requires the point to lie in the grid; otherwise the index at src/day6.rs:110 panics. Its one call replaces the caret that was just found.
- Day6.GuardMap.constructor: requires the map to hold a caret; without one, `[0]` on the empty list of finds panics (src/day6.rs:98).
- Day6: the commented-out test that walks the guard off the map and tries obstacles (part two) is not modelled.
- Day7.Product: with zero repetitions the model yields one empty tuple, as `multi_cartesian_product` does from `itertools` 0.13 on; older versions yield nothing, and the crate's lock file is not part of this model. A one-operand line asks for zero repetitions; Day7.CalibratedIff states that case.
- Day7.ConcatIsTextual: a negative right operand puts a `-` inside the concatenated text, and parsing it panics. The model excludes it by requiring every operand after the first to be non-negative, and only when the alphabet holds concatenation (Day7.ConcatReady).
- Day8: the antinode test reads a data file and is not modelled.
- Day9.Defrag: requires a non-empty, strictly sorted block list whose first block is at position 0. The disk map "051" (one block at 5) makes `backwards_idx` underflow, while "013" (a leading gap) does not. The model keeps the stronger requirement, which the puzzle inputs meet.
- Day9.SmartDefrag: requires the blocks to be grouped by file, as `parse` produces (Day9.ParseReady).
- Day9: the sample checksums 1928 and 2858, and the gap-free prefix of the test disks after `defrag`, are not derived.
- Day10.FindAllTrails: the rating is the number of arrivals the search reports; it is not proved equal to the number of distinct hiking trails.
- Day10: the test expecting 36 from `find_all_trails` contradicts the one expecting 81 on the same data; neither total, nor the 5 summits from (0,2), is derived.
- Day11.Blink25: the example length 55312 is not derived, and neither are the count-table unit test nor the blink steps 4 to 6 of the second example.
- Day12.Garden: regions are not claimed to be connected. A region closes only when a cell of another plant is popped, so separate same-plant patches can merge. The garden unit test is not derived.
- Day12.Dfs: recursion depth is not modelled.
- Day13.Solve: requires a non-zero determinant and a non-zero `x1`; the source divides by both and panics on zero. The `i64` range is not modelled.
- Day14.TickInside: requires each speed to be at most the room's size on its axis (`SlowEnough`), and so does Day14.TickN. `wrap` adds the limit only once (src/day14.rs:15-16), so a faster robot moving left or up ends outside the room; Day14.FastRobotEscapes shows one. The model promises nothing about such robots.
- Day14.Tick: requires a non-zero room size only on an axis where the moved coordinate is non-negative, which is exactly when `wrap` takes `%` (src/day14.rs:15-18); `%` by zero panics there.
- Day14.Score: the example score 12 after 100 ticks of twelve robots is not derived; one robot's ticks are.
- Day16.Search: the heap loop runs on a `fuel` bound, because its termination is not proved; the results hold for any run that finishes within the bound. Which of several tied heap entries is popped is a free choice of the run.
- Day16.ShortestPath: the result is the cost of the last goal pop and of a real route; it is not claimed minimal, and the tile count is not claimed to be the optimal-path tiles. The maze examples 7036/45 and 11048/64 are not derived. The test expecting a turn cost of 7001 contradicts the code's 1001, and the model follows the code.
- Day17.IsDone: requires a non-empty program; with an empty one `self.program.len() - 1` underflows and panics (src/day17.rs:24).
- Day17.Step: requires a non-empty program, for the same underflow in its first test (src/day17.rs:29).
- Day17.Run: requires a non-empty program, since every turn calls `is_done` and `step`.
- Day17.Run: the run loop of the tests takes a `fuel` bound; registers are non-negative integers; the search for a quine register in the tests is not modelled.
- Day18.ShortestPath: the 7x7 example result 22 and the part-two search loop are not derived.
- Day19.Search: requires every towel to be non-empty (`Towels`), as do Day19.TryTowels and Day19.SearchFinds. `search` reads `t[0]` only for the towels its loop reaches before a success (src/day19.rs:61-62), so the source panics on an empty towel only when the loop reaches it; the model excludes empty towels altogether.
- Day19.SearchFinds: requires every towel to be non-empty, for the reason given for Day19.Search.
- Day19.SearchCombos: requires every towel to be non-empty. For an empty towel `starts_with` holds and `search_combos` recurses on the same pattern without end (src/day19.rs:86-91); the model excludes that input.
- Day19.CountsArrangements: requires distinct towels; with a repeated towel `search_combos` counts each copy, so `Ways` then exceeds the number of distinct arrangements.
- Day19.ParseLayout: the example `TEST_DATA` parse is not derived; `parse_as_string` is the same parse and is not modelled separately. The counts 6 of 8 and 16 over all example patterns are not derived.

## Findings

| source | as written | input that shows it | evidently intended | confidence | as-written member | corrected member |
|---|---|---|---|---|---|---|
| src/day16.rs:17-27 | `State::cmp` compares cost and then position, ignoring direction, so it calls two states equal that the derived `PartialEq` tells apart, which `Ord` forbids | `State(0, (0,0), E)` and `State(0, (0,0), N)` | ties broken on direction, consistent with equality; every pop under that order is one the model already allows (Day16.HeapTopIsTop), so the search results hold for it | not executed | Day16.CmpIgnoresDirection | Day16.HeapCmpOrder |
