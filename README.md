# Sliding-tile puzzle solver core, modelled in Dafny

This project models the solving core of an N×N sliding-tile puzzle (the
15-puzzle and its relatives) as it is written in `src/BoardUtil.js` and its
variant `src/BoardUtil2.js`. A board is a square grid of integers. `0` is
the blank, and tile `t` belongs at row `(t-1) div N`, column `(t-1) mod N`.
The core has these parts:

- **Board primitives** (`boards.dfy`, module `Boards`):
  - in-place `swapTiles`;
  - `findBlank`;
  - `indexToCoords` and `getGoalPosition`;
  - `generateSolved`;
  - `deepEqual`.
- **Inversion counter** (`inversions.dfy`, module `InversionCounter`): a
  top-down merge sort over an array and a scratch buffer. It counts the pairs
  `p < q` with `a[p] > a[q]` and `a[q] != 0`, and sorts its argument in place.
  - Both merge loops are modelled: `Merge` for BoardUtil.js, and `Merge2` for
    the BoardUtil2.js merge, which increments `j` before reading `a[j-1]`.
- **Solvability classifier** (`solvability.dfy`, module `Solvability`):
  `isSolvable` applies the parity rule to the inversion count of the
  flattened board and to the blank's row.
- **Shuffle and repair** (`shuffle.dfy`, module `Shuffle`):
  - the swap loop of `shuffleBoard`;
  - the one corrective swap made when the classifier rejects the result;
  - `generateRandom`.
- **Heuristics** (`heuristics.dfy`, module `Heuristics`):
  - `manhattan`;
  - `linearConflict`;
  - `heuristic = manhattan + 2 * linearConflict`;
  - `isGoal`.
- **Neighbour generation** (`neighbors.dfy`, module `Neighbors`):
  - `createNeighbor`: swap the blank with a cell, copy the board, swap back;
  - `neighbors`: up, left, down, right, in that order.
- **Search** (`search.dfy`, module `Search`):
  - `compare`, whose priority is `heuristic * 2 + steps`;
  - the best-first loop of `solve`, which skips a neighbour equal to the board
    of the popped node's predecessor;
  - the two ways of reading off the answer: blank cells in BoardUtil.js, board
    snapshots in BoardUtil2.js.

Boards are values of type `seq<seq<int>>` in the specification functions.
Code that works in place takes an `array2<int>`, and `Grid(a)` reads such an
array as a board.

Each method that works in place states its new state in terms of a function
of its old state:
- `SwapTiles` is stated by `Swap`.
- The shuffle loop is stated by `Shuffled`.
- The repair is stated by `Repaired`.
- `neighbors` is stated by `NeighborsOf`.
- The merge is stated by `MergeOf` and `Cross`.

Lemmas then prove what the program relies on about those functions.

The random choice in the shuffle loop is a parameter `js`. Entry `js[i]` is the
index swapped with index `i`, and `ValidChoices` requires `0 <= js[i] < i`, the
range `Math.floor(Math.random() * i)` produces. The search takes a `fuel`
bound on its number of passes.

Two behaviours of the code are worth stating plainly. The model follows the
code in both:
- The comment at src/BoardUtil.js:32 (and src/BoardUtil2.js:57) names the
  loop a Fisher–Yates shuffle. But `j` is drawn from `[0, i)` at
  src/BoardUtil.js:35, not from `[0, i]`. So a cell is never left in place by
  its own pass, and the shuffle is not uniform.
- `solve` never checks that the board is solvable. On an unsolvable board
  larger than 1×1 the queue never empties and the loop runs forever. On a 1×1
  board that is not a goal, the queue empties, and reading the blank of the
  missing popped node throws. The model bounds the loop with `fuel`, which
  gives the `GaveUp` outcome. The empty queue gives the `Exhausted` outcome.

## Model

| member | source | states |
|---|---|---|
| Boards.Swap | src/BoardUtil.js:6-10 | the two named cells exchange their values and every other cell of the square board is unchanged |
| Boards.SwapTwice | src/BoardUtil2.js:15-19 | swapping the same two cells twice gives back the original board |
| Boards.SwapTiles | src/BoardUtil.js:6-10 | the array afterwards holds `Swap` of the board it held before |
| Boards.SwapKeepsTiles | src/BoardUtil.js:6-10 | a swap keeps the multiset of tiles of the flattened board |
| Boards.FlattenSwap | src/BoardUtil.js:109 | flattening row by row (`[].concat(...tiles)`) turns a cell swap into a swap of flat indices `r*N+c` |
| Boards.FindBlank | src/BoardUtil.js:12-19 | returns no cell exactly when no cell holds 0; otherwise an in-bounds cell holding 0 that is the first such in row-major order |
| Boards.IndexToCoords | src/BoardUtil2.js:41-46 | for `0 <= index < N*N`, row and column lie in `[0, N)` and `row*N + col == index`; for a negative index, the truncating `%` gives a non-positive column |
| Boards.GoalPosition | src/BoardUtil2.js:185-187 | for tile `t >= 1`, the goal cell satisfies `row*N + col + 1 == t`, and lies on the board when `t < N*N` |
| Boards.GoalOfCell | src/BoardUtil.js:132-134 | the goal of tile `r*N+c+1` is exactly cell `(r, c)` |
| Boards.GenerateSolved | src/BoardUtil.js:116-126 | a fresh N×N array with `r*N+c+1` in every cell but the last, 0 in the last cell, and the blank reported at `(N-1, N-1)` |
| Boards.FlattenSolved | src/BoardUtil2.js:159-169 | the solved board flattens to `1, 2, …, N*N-1, 0` |
| Boards.DeepEqual | src/BoardUtil.js:191-199 | true exactly when the two boards are equal cell for cell |
| Boards.ToArray | src/BoardUtil.js:203 | a fresh array that reads back as the given board (the JSON deep copy as a value copy) |
| InversionCounter.MergeSort | src/BoardUtil.js:90-101 | the range ends sorted and a permutation of what it held; cells outside the range are unchanged; the result is the number of inversions of the range as it was |
| InversionCounter.Merge | src/BoardUtil.js:52-87 | merging two sorted runs leaves their sorted merge in place and nothing else changed, and returns the number of cross pairs `(p in left, q in right)` with `a[p] > a[q]` and `a[q] != 0` |
| InversionCounter.Merge2 | src/BoardUtil2.js:84-106 | the variant that increments `j` before checking `array[j-1]` has exactly the same contract as `Merge` |
| InversionCounter.HeadStep2 | src/BoardUtil2.js:92-97 | one step of the variant's main loop keeps the merge-so-far state and counts the same pairs as one step of the original loop |
| InversionCounter.MergeCountCross | src/BoardUtil.js:59-71 | for sorted runs, the counts added as right-hand elements are taken equal the number of cross inversions |
| InversionCounter.MergeOfSorted | src/BoardUtil.js:59-82 | the merge of two sorted runs is sorted |
| InversionCounter.MergeOfPerm | src/BoardUtil.js:59-82 | the merge of two runs is a permutation of their concatenation |
| InversionCounter.InversionsConcat | src/BoardUtil.js:90-101 | the inversions of a concatenation are those of each half plus the cross pairs, which justifies summing the recursive counts |
| InversionCounter.CrossPerm | src/BoardUtil.js:90-101 | the cross count does not change when either half is permuted, which makes counting after sorting the halves correct |
| InversionCounter.CountInversions | src/BoardUtil.js:103-105 | returns the number of pairs `p < q` with `a[p] > a[q]` and `a[q] != 0` of the array as passed, and leaves it sorted as a permutation of its input |
| Solvability.FlattenBoard | src/BoardUtil.js:109 | a fresh array holding the board's rows one after another |
| Solvability.IsSolvable | src/BoardUtil.js:107-114 | the answer is the parity rule applied to the inversions of the flattened board and the blank row; the board itself is not changed |
| Solvability.SolvedIsSolvable | src/BoardUtil2.js:144-169 | the solved board passes the parity rule with the blank on row `N-1` |
| Solvability.SolvedNoInversions | src/BoardUtil2.js:159-169 | the solved board has no inversions |
| Solvability.SortedNoInversions | src/BoardUtil.js:103-105 | a sorted sequence has no inversions |
| Solvability.AdjacentSwapCount | src/BoardUtil.js:44-45 | exchanging two adjacent distinct non-blank entries changes the inversion count by exactly one |
| Solvability.RepairFlips | src/BoardUtil.js:43-46 | swapping the first two cells of a row, both non-blank and different, turns an accepted board into a rejected one and back |
| Solvability.ParityFlip | src/BoardUtil.js:111-113 | changing the inversion count by one flips the parity rule for every size and blank row |
| Solvability.DistinctSwap | src/BoardUtil.js:6-10 | swapping two entries keeps a sequence free of repeats |
| Shuffle.ShuffledTiles | src/BoardUtil.js:33-39 | whatever the choices `js`, the swap loop only permutes the tiles |
| Shuffle.ShuffledDistinct | src/BoardUtil.js:33-39 | a board without repeated tiles stays without repeats through the swap loop |
| Shuffle.SwapIndices | src/BoardUtil.js:35-38 | one pass swaps the cells of flat indices `i` and `j`, located by `indexToCoords` |
| Shuffle.SwapLoop | src/BoardUtil.js:33-39 | the loop for `i` from `N*N-1` down to 1 leaves exactly `Shuffled` of the starting board |
| Shuffle.RepairInPlace | src/BoardUtil.js:41-46 | the array afterwards holds `Repaired` of the board it held before |
| Shuffle.RepairedSolvable | src/BoardUtil2.js:65-70 | for a board without repeated tiles whose blank is at the given cell, the repaired board passes the parity rule for the blank's row and still has 0 at that cell |
| Shuffle.RepairedTiles | src/BoardUtil.js:41-46 | the repair only permutes the tiles |
| Shuffle.ShuffleSolvable | src/BoardUtil.js:41-48 | shuffle then repair yields a board that passes the parity rule for the blank row found |
| Shuffle.ShuffleKeepsTiles | src/BoardUtil.js:29-48 | shuffle then repair is a permutation of the starting tiles |
| Shuffle.ShuffleBoard | src/BoardUtil2.js:53-73 | returns the blank's cell, which holds 0; the board becomes the repaired shuffle of the old one, keeps its tiles, and passes the parity rule when it had no repeated tiles |
| Shuffle.GenerateRandom | src/BoardUtil.js:236-238 | a fresh N×N board holding the tiles of the solved board, with 0 at the reported blank, that passes the parity rule for the blank row |
| Heuristics.Manhattan | src/BoardUtil.js:137-149 | returns the sum over non-blank tiles of the row and column distance to the tile's goal cell |
| Heuristics.ManhattanZeroIffAtGoal | src/BoardUtil2.js:194-207 | the Manhattan distance is 0 exactly when every non-blank tile is on its goal cell |
| Heuristics.RowsDistanceZero | src/BoardUtil.js:137-149 | the partial sum over the first `k` rows is 0 exactly when every tile of those rows is at distance 0 |
| Heuristics.TileDistanceZero | src/BoardUtil.js:142-145 | a cell adds 0 exactly when it is the blank or holds the tile whose goal it is |
| Heuristics.RowPairsLoop | src/BoardUtil.js:158-166 | the inner row loop counts the later cells of the row that conflict with `col1` |
| Heuristics.ColPairsLoop | src/BoardUtil.js:172-180 | the inner column loop counts the later cells of the column that conflict with `row1` |
| Heuristics.LinearConflict | src/BoardUtil2.js:214-249 | returns the number of pairs on a line whose tiles are both non-blank, both have that line as goal line, and lie in reversed goal order, over rows and columns |
| Heuristics.RowPairsZero | src/BoardUtil.js:158-166 | a row scan from `c1` counts 0 exactly when no later cell conflicts with `c1` |
| Heuristics.ColPairsZero | src/BoardUtil.js:172-180 | a column scan from `r1` counts 0 exactly when no later cell conflicts with `r1` |
| Heuristics.LinearConflictsAtGoal | src/BoardUtil2.js:214-249 | the linear conflict count is 0 on any board whose tiles are all on their goal cells |
| Heuristics.Heuristic | src/BoardUtil.js:187-189 | returns `manhattan + 2 * linearConflict`, which is non-negative and 0 exactly on a goal board |
| Heuristics.HeuristicZeroIffAtGoal | src/BoardUtil2.js:256-258 | the heuristic is 0 exactly when every tile is on its goal cell, that is, exactly when the Manhattan distance is 0 |
| Heuristics.SolvedAtGoal | src/BoardUtil2.js:175-177 | every tile of the solved board is on its goal cell |
| Heuristics.SolvedMeasuresZero | src/BoardUtil.js:137-189 | Manhattan distance, linear conflicts and heuristic are all 0 on the solved board |
| Heuristics.IsGoal | src/BoardUtil.js:128-130 | true exactly when every non-blank tile is on its goal cell |
| Neighbors.CreateNeighbor | src/BoardUtil.js:201-206 | the array reads the same afterwards, and the result is the board with the blank and the given cell swapped, reporting that cell as its blank |
| Neighbors.Neighbors | src/BoardUtil2.js:299-324 | the array reads the same afterwards, and the result is the list of one-move boards for the in-bounds directions up, left, down, right, in that order |
| Neighbors.PushNeighbor | src/BoardUtil.js:212-231 | one `if` of `neighbors`: appends the move to the cell tried and leaves the array as it was |
| Neighbors.Directions | src/BoardUtil.js:212-231 | every direction listed is an in-bounds cell next to the blank |
| Neighbors.NeighborsAreMoves | src/BoardUtil.js:209-234 | every neighbour is an in-bounds cell next to the blank, with the board equal to the swap of those two cells |
| Neighbors.NeighborsComplete | src/BoardUtil.js:209-234 | every in-bounds cell next to the blank gives one of the neighbours |
| Neighbors.NeighborsCount | src/BoardUtil2.js:299-324 | there is one neighbour per side of the board the blank is not on; for `N >= 2` that is 2 to 4; no two report the same blank cell |
| Neighbors.MoveMovesBlank | src/BoardUtil2.js:285-290 | when the blank holds 0, the neighbour has 0 at the new cell, the moved tile at the old blank cell, and the same tiles |
| Neighbors.NeighborsMoveBlank | src/BoardUtil.js:209-234 | every neighbour of a board whose blank cell holds 0 moves that 0 to its reported blank |
| Neighbors.MoveBack | src/BoardUtil.js:201-206 | moving the blank of a neighbour back to where it came from gives back the original board and blank |
| Search.Compare | src/BoardUtil.js:240-244 | negative, zero or positive exactly as the first node's `heuristic*2 + steps` is below, equal to or above the second's |
| Search.MinIndex | src/BoardUtil.js:259 | the index of a node whose priority is no greater than any other in the queue |
| Search.Pop | src/BoardUtil2.js:367 | removes and returns a node of least priority; the rest is the queue minus that node |
| Search.PushChildren | src/BoardUtil.js:265-284 | appends, in neighbour order, a child with one more step for each neighbour not equal to the popped node's predecessor board |
| Search.ChildrenLinked | src/BoardUtil2.js:373-391 | every pushed node has the popped node as predecessor, exactly one more step, a board one blank move away, a blank next to its parent's, and a board different from the parent's predecessor board |
| Search.Expand | src/BoardUtil.js:259-284 | one pass pops a node of least priority; the new queue is the old one without that node (as multisets), followed by exactly the children that are not skipped, in neighbour order; every queued node's chain stays well formed and rooted at the start |
| Search.SearchGoal | src/BoardUtil.js:246-285 | when the search ends with a node, that node's board is a goal and its chain of predecessors is well formed back to the start node; a start board that is already a goal is returned as is |
| Search.PathFacts | src/BoardUtil.js:288-295 | a well-formed chain's blank path has one cell more than its steps, starts at the start blank, ends at the node's blank, and moves one cell at a time |
| Search.BoardsFacts | src/BoardUtil2.js:395-399 | a well-formed chain has one board per step, the last being the node's, each one blank move on from the one before it |
| Search.CollectMoves | src/BoardUtil.js:288-299 | collecting blanks back to the start, reversing and dropping the first gives the blank path without the start cell |
| Search.CollectSnapshots | src/BoardUtil2.js:395-400 | collecting boards back to the node after the start and reversing gives the chain's boards in chronological order |
| Search.Reverse | src/BoardUtil.js:297 | element `i` of the reversal is element `n-1-i` of the input |
| Search.ReplayPath | src/BoardUtil.js:288-299 | moving the blank from the start board along a well-formed chain's blank path gives the node's board |
| Search.Solve | src/BoardUtil.js:246-300 | a found answer lists one blank cell per step of the goal node, each next to the one before and the first next to the input blank; moving the blank through those cells from the input board ends on a goal board; a start board that is a goal gives `[]` |
| Search.SolveSnapshots | src/BoardUtil2.js:354-401 | a found answer lists one board per step, chronologically, each one blank move on from the board before it and the first from the input board, the last a goal; a start board that is a goal gives `[]` |

## Left out

- Randomness. `Math.random` is replaced by the choice sequence `js`, so the model
  says nothing about the distribution of shuffles. The distribution is not
  uniform, since `j < i` always.
- Shuffle.ShuffleBoard: requires the board to hold a 0. On a board without
  one, `findBlank` returns nothing and the original throws when it reads
  `blankPos.row` (src/BoardUtil.js:41-42). That error path is not modelled.
  Its only caller, `generateRandom`, passes a solved board, which has a 0.
- Shuffle.ShuffleBoard: the parity guarantee assumes the board has no repeated
  tiles. The boards it is called on, solved boards, have none.
  - The repair swap needs two distinct non-blank cells to flip the parity.
  - The 1×1 board passes the rule and needs no repair.
- The full 15-puzzle parity theorem is not proved. That would say the rule
  characterises exactly the boards reachable from the goal. The model proves
  what the code does: the rule is computed, and the one-swap repair flips it.
- The search's termination, optimality and admissibility are not modelled. The
  search has no visited set and the heuristic is weighted by 2.
  - `solve` is given a `fuel` bound on its passes instead, and reports
    `GaveUp` when it runs out.
  - The search outcome `Exhausted` stands for the original's failure when it
    pops from an empty queue.
- The priority queue is TinyQueue, an external library. It is modelled as a
  sequence.
  - The queue is ordered by `Compare`, whose sign is that of the difference of
    the two nodes' `Priority`. `Pop` takes the first node of least priority.
  - TinyQueue's order among nodes of equal priority is not modelled, and no
    property depends on it.
- JSON deep copying is modelled as copying a board value. In the original,
  `neighbors` mutates the node's own board and restores it. The model runs it
  on a fresh array copy of the node's board, so the aliasing of a node's board
  with that transient mutation is not captured.
- Heuristics.Manhattan, Heuristics.LinearConflict and Boards.DeepEqual take
  board values, not arrays. They only read the board.
- BoardUtil2.js has the same `swapTiles`, `findBlank`, `indexToCoords`,
  `shuffleBoard`, `mergeSort`, `countInversions`, `isSolvable`,
  `generateSolved`, heuristics, `neighbors` and `compare` as BoardUtil.js. Each
  is modelled once. Its `merge` and its `solve` differ and are modelled
  separately, as `Merge2` and `SolveSnapshots`.
- `solve` is split into the search loop (`SearchGoal`) and the reconstruction
  (`CollectMoves` or `CollectSnapshots`). The inner loops of `merge` and
  `linearConflict` are split into helper methods. `manhattan` keeps both of
  its loops inline. The statements and their order are unchanged.
- The user interface (`App.jsx`, `GameBoard.jsx`, `Controls.jsx`) is not part of
  this model. That covers rendering, clicks, animation timers, alerts, and the
  replay of `solve`'s output.
