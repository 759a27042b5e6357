# Worst-case percolation time on the n×n grid: a Dafny model of the brute-force searches

The three C programs under `code-implementations/brute-force/` look for the starting pattern
that takes longest to settle under 2-neighbour bootstrap percolation on an n×n board, 1 ≤ n ≤ 8:

- a cell is one bit of a 64-bit word, at index `y*n + x`;
- one round fills every empty cell that has at least two filled orthogonal neighbours,
  all at once;
- the length of a pattern is the number of rounds until nothing changes, and the starting
  pattern counts as round 1.

The programs search this space in three ways:

- `simple.c` visits every state `0 .. 2^(n*n) - 1`. It skips any state that is not the
  smallest of its eight rotations and reflections, and keeps the first state of strictly
  larger length.
- `multithreaded.c` cuts the same range into contiguous slices. Each slice is scanned by one
  worker without symmetry pruning, and the workers' results are merged in slice order.
- `marco.c` backtracks. It fills cells in increasing index order, up to `n + 2` of them,
  and undoes every fill on the way back.

## How the model is organised

- `word.dfy` (module `Word`) models the machine word as a `nat`. It defines bit `i`, the
  single-bit `fillCell`/`unfillCell`, and `Pack`, which builds a word from a set of cells.
  It also defines the 64-bit left shift as x86-64 evaluates it.
- `grid.dfy` (module `Grid`) covers:
  - `cellIndex` and its inverse (column, row);
  - the decoding of a state word into its set of filled cells (`Cells`) and back (`Encode`);
  - the neighbour relation;
  - `buildNeighborMasks`.
- `simulation.dfy` (module `Simulation`) models `iteration_step` and `compute_length`,
  which are identical in all three programs. `popcount64(old_state & neighborMask[c])`
  becomes the number of common cells below n*n. `IterationStep` reads the table that
  `BuildNeighborMasks` builds and every search builds it first, as each `main` does. The round (`Step`) and the length
  (`Length`, `StateLength`) are pure definitions on cell sets. The methods `IterationStep`
  and `ComputeLength` follow the C loops and are proved equal to them.
- `symmetry.dfy` (module `Symmetry`) models the seven transforms plus the identity, as one
  `Transform` datatype whose coordinate map copies the C formulas. It covers:
  - the word-level transform loops (`ApplyTransform`, `TransformState`);
  - the group laws;
  - the invariance of the neighbour relation, of a round and of the length under every
    transform;
  - the canonical representative, i.e. the minimum of the eight images, taken the way
    `getCanonicalRep` takes it.
- `exhaustive.dfy` (module `Exhaustive`) covers:
  - `getCanonicalRep` as a method;
  - the pruned scan of `simple.c`;
  - `IsFirstBest`, the description of the answer both scans give: the largest length in a
    range of states, and the smallest state that reaches it.
- `partitioned.dfy` (module `Partitioned`) covers the range split, the worker and the merge
  of `multithreaded.c`. The workers run one after another; each touches only its own task.
- `backtrack.dfy` (module `Backtrack`) covers `recurse` and the top-level call of `marco.c`.
  A branch of the recursion is a strictly increasing list of cells (`Choice`).

Where the header comment of `marco.c` (lines 1-3) and its code disagree, the model follows
the code. The comment speaks of n+1 filled cells; the call at line 144 passes depth `g_n + 2`,
so `MarcoSearch` is about patterns of at most n + 2 cells.

`buildNeighborMasks`, `iteration_step` and `compute_length` are word-for-word the same in
`multithreaded.c` (lines 50-99) and `marco.c` (lines 36-81). One Dafny member models all three
copies.

## Model

| member | source | states |
|---|---|---|
| Word.FillCell | code-implementations/brute-force/simple.c:23-25 | the result has bit i set and every other bit as before |
| Word.UnfillCell | code-implementations/brute-force/marco.c:31-33 | the result has bit i clear and every other bit as before |
| Word.UnfillAfterFill | code-implementations/brute-force/marco.c:27-33 | for a bit j that was clear, unfilling j after filling j gives back the original word |
| Word.ShiftLeft64 | code-implementations/brute-force/simple.c:284 | `x << k` on a 64-bit word as x86-64 evaluates it: the result is reduced modulo 2^64, and when k < 64 and no bit is shifted out it is exactly x·2^k |
| Word.ShiftCountWraps | code-implementations/brute-force/simple.c:284 | only the shift count modulo 64 matters: shifting by k ≥ 64 is shifting by k − 64 |
| Word.BitOfPack | code-implementations/brute-force/simple.c:19-21 | bit i of the word packed from a set of cells is set exactly when cell lo+i is in the set |
| Word.PackOfBits | code-implementations/brute-force/simple.c:19-21 | packing the set bits of a word below 2^k gives back that word |
| Grid.GridFitsWord | code-implementations/brute-force/simple.c:9 | for the accepted sizes 1 ≤ n ≤ 8 the n*n cells fit the 64 bits of a word and the 64 entries of `neighborMask` |
| Grid.CoordsOfIndex | code-implementations/brute-force/simple.c:15-17 | `cellIndex(x, y)` lies below n*n, and its column and row are x and y again |
| Grid.IndexOfCoords | code-implementations/brute-force/simple.c:15-17 | every cell below n*n is `cellIndex` of its own column and row, both below n |
| Grid.Cells | code-implementations/brute-force/simple.c:19-21 | the filled cells of a state, read with `isFilled`, are all board cells |
| Grid.CellsOfEncode | code-implementations/brute-force/simple.c:19-25 | packing a set of board cells gives a state below 2^(n*n) whose filled cells are exactly that set |
| Grid.EncodeOfCells | code-implementations/brute-force/simple.c:19-25 | every state below 2^(n*n) is the packing of its own filled cells |
| Grid.StateSpaceIsAllPatterns | code-implementations/brute-force/simple.c:284 | the states below 2^(n*n) and the sets of board cells correspond one to one through `isFilled` |
| Grid.CellsOfFill | code-implementations/brute-force/simple.c:23-25 | filling a board cell adds exactly that cell to the state's pattern and keeps the state below 2^(n*n) |
| Grid.CellsOfUnfill | code-implementations/brute-force/marco.c:31-33 | unfilling a board cell removes exactly that cell from the pattern |
| Grid.CellsOfZero | code-implementations/brute-force/simple.c:54 | the word 0, from which every transform and the marco.c search start, has no filled cell |
| Grid.AdjacentIsRecorded | code-implementations/brute-force/simple.c:32-45 | every board cell at distance 1 from (x, y) is one of the four cells the guarded updates record |
| Grid.NeighborsAtAreAdjacent | code-implementations/brute-force/simple.c:32-45 | the up/down/left/right cells recorded for (x, y) are exactly the board cells at distance 1 |
| Grid.RecordCell | code-implementations/brute-force/simple.c:32-45 | the four guarded updates for one cell produce the set of its orthogonal neighbours |
| Grid.RecordRow | code-implementations/brute-force/simple.c:31-46 | after row y the table holds the neighbours of every cell of rows 0..y and nothing else |
| Grid.NeighborsSymmetric | code-implementations/brute-force/simple.c:28-47 | the neighbour relation is symmetric and irreflexive and relates board cells only |
| Grid.NeighborsAtMostFour | code-implementations/brute-force/simple.c:28-47 | every cell has at most four neighbours |
| Grid.BuildNeighborMasks | code-implementations/brute-force/simple.c:28-47 | the 64-entry table is a neighbour table (entry c holds the neighbours of c, the table `iteration_step` reads); the table is symmetric and irreflexive, stays on the board, has at most four cells per entry, and is empty for c ≥ n*n |
| Simulation.CountCommon | code-implementations/brute-force/simple.c:11-13 | the bit count of `a & b` over k bits is at most k |
| Simulation.CountCommonIsSize | code-implementations/brute-force/simple.c:11-13 | the bit count of the AND of two words over the n*n board bits is the number of cells in both patterns |
| Simulation.FilledNeighbors | code-implementations/brute-force/simple.c:224-225 | `popcount64(old_state & neighborMask[c])` is at most 4 |
| Simulation.FilledNeighborsCount | code-implementations/brute-force/simple.c:224-225 | that count is the number of filled neighbours of c, which is at most 4 |
| Simulation.Step | code-implementations/brute-force/simple.c:220-233 | a round never clears a cell and stays on the board |
| Simulation.IterationStep | code-implementations/brute-force/simple.c:220-233 | reading the neighbour table built by `buildNeighborMasks`, the loop over the cells never clears a cell; cell c is filled afterwards iff it was filled before or it is a board cell with at least two filled neighbours in the pre-round state; it reports a change iff the state changed; so the visiting order does not matter |
| Simulation.Length | code-implementations/brute-force/simple.c:236-243 | the number of rounds until the pattern stops changing is defined for every pattern (each non-final round fills a cell) and is at least 1, the starting pattern counting as round 1 |
| Simulation.LengthBound | code-implementations/brute-force/simple.c:236-243 | a pattern of \|s\| cells settles within n*n - \|s\| + 1 rounds |
| Simulation.LengthReachesFixpoint | code-implementations/brute-force/simple.c:236-243 | after Length - 1 rounds the pattern no longer changes |
| Simulation.LengthNotEarly | code-implementations/brute-force/simple.c:236-243 | before Length - 1 rounds the pattern still changes, so the count stops at the first fixed point |
| Simulation.StateLength | code-implementations/brute-force/simple.c:236-243 | the length of any state word lies in [1, n*n + 1] |
| Simulation.ComputeLength | code-implementations/brute-force/simple.c:236-243 | with the neighbour table, the loop returns the length of the state, and 1 ≤ steps ≤ n*n - \|s\| + 1 |
| Symmetry.MapXY | code-implementations/brute-force/simple.c:53-188 | each of the eight coordinate maps sends board coordinates to board coordinates |
| Symmetry.ComposeMapXY | code-implementations/brute-force/simple.c:53-188 | mapping by b then by a is mapping by Compose(a, b), so the eight maps are closed under composition |
| Symmetry.InverseMapXY | code-implementations/brute-force/simple.c:53-188 | Inverse(t) undoes t on every coordinate pair |
| Symmetry.MapXYKeepsDistance | code-implementations/brute-force/simple.c:53-188 | every map keeps the Manhattan distance between two cells |
| Symmetry.MapCell | code-implementations/brute-force/simple.c:57-61 | `newPos`, the cell number of the mapped coordinates of `oldPos`, is a board cell |
| Symmetry.MapCellCoords | code-implementations/brute-force/simple.c:57-61 | the coordinates of `newPos` are the mapped coordinates of `oldPos` |
| Symmetry.MapCellCompose | code-implementations/brute-force/simple.c:53-188 | on cell numbers, mapping by b then by a is mapping by Compose(a, b) |
| Symmetry.MapCellAdjacent | code-implementations/brute-force/simple.c:53-188 | two cells are neighbours iff their images are |
| Symmetry.MapCellInverse | code-implementations/brute-force/simple.c:53-188 | on cell numbers, Inverse(t) after t is the identity |
| Symmetry.ImageSize | code-implementations/brute-force/simple.c:53-188 | a transform maps a pattern to a pattern of the same size: it permutes the board cells |
| Symmetry.Image | code-implementations/brute-force/simple.c:53-188 | the image of a pattern under a transform lies on the board |
| Symmetry.ImageMember | code-implementations/brute-force/simple.c:58-62 | the image of cell c is in the image of a pattern iff c is in the pattern |
| Symmetry.ImageCompose | code-implementations/brute-force/simple.c:53-188 | the image under b and then a is the image under Compose(a, b) |
| Symmetry.ImageInverse | code-implementations/brute-force/simple.c:53-188 | the image under Inverse(t) of the image under t is the original pattern |
| Symmetry.TransformBelow | code-implementations/brute-force/simple.c:55-64 | the word built after any number of visited cells is a valid state below 2^(n*n) |
| Symmetry.TransformVisit | code-implementations/brute-force/simple.c:57-63 | one visit of cell c fills the image of c exactly when c is filled, extending the loop invariant to c + 1 |
| Symmetry.TransformBelowCells | code-implementations/brute-force/simple.c:55-64 | after visiting the first k cells, the filled cells of the result are the images of the filled cells below k |
| Symmetry.TransformStateCells | code-implementations/brute-force/simple.c:53-188 | the filled cells of a transformed state are the images of the state's filled cells |
| Symmetry.TransformState | code-implementations/brute-force/simple.c:53-188 | each of the eight transforms of a state is a valid state below 2^(n*n) |
| Symmetry.TransformRow | code-implementations/brute-force/simple.c:57-63 | the inner loop over row y adds the images of the filled cells of that row |
| Symmetry.ApplyTransform | code-implementations/brute-force/simple.c:53-67 | the nested loops of each transform compute the transformed state |
| Symmetry.TransformKeepsCount | code-implementations/brute-force/simple.c:53-188 | a transform keeps the number of filled cells |
| Symmetry.TransformCompose | code-implementations/brute-force/simple.c:53-188 | transforming by b and then by a is transforming by Compose(a, b) |
| Symmetry.TransformIdentity | code-implementations/brute-force/simple.c:200 | the identity image `t[0] = state` is the state itself |
| Symmetry.RotationsInverse | code-implementations/brute-force/simple.c:53-107 | `rotate90` and `rotate270` undo each other on every state |
| Symmetry.Rotate90Twice | code-implementations/brute-force/simple.c:53-87 | `rotate90` twice is `rotate180` |
| Symmetry.ReflectionsInvolutive | code-implementations/brute-force/simple.c:113-188 | each of the four reflections, applied twice, gives back the state |
| Symmetry.NeighborsImage | code-implementations/brute-force/simple.c:28-47 | the neighbours of the image of c are the images of the neighbours of c |
| Symmetry.FilledNeighborsImage | code-implementations/brute-force/simple.c:224-225 | the filled-neighbour count of a cell is the same in the transformed pattern at the image cell |
| Symmetry.StepImage | code-implementations/brute-force/simple.c:220-233 | a round commutes with every transform |
| Symmetry.LengthImage | code-implementations/brute-force/simple.c:236-243 | a transformed pattern has the same length |
| Symmetry.StateLengthTransform | code-implementations/brute-force/simple.c:320-324 | a transformed state has the same length, which is why skipping non-canonical states loses nothing |
| Symmetry.MinOf | code-implementations/brute-force/simple.c:209-215 | the keep-first, replace-if-strictly-smaller loop returns an entry of the list that is at most every entry |
| Symmetry.MinOfSameEntries | code-implementations/brute-force/simple.c:209-215 | two lists with the same entries have the same minimum |
| Symmetry.Images | code-implementations/brute-force/simple.c:199-207 | the array `t` has eight entries, the first is the state itself, and the other seven are valid states |
| Symmetry.CanonicalRep | code-implementations/brute-force/simple.c:197-217 | the canonical representative is one of the eight images, at most the state, and at most every image |
| Symmetry.TransformInImages | code-implementations/brute-force/simple.c:200-207 | every transform of a state is among its eight images |
| Symmetry.ImagesAreTransforms | code-implementations/brute-force/simple.c:199-207 | every entry of `t` is the state under one of the eight transforms |
| Symmetry.ImagesOfTransform | code-implementations/brute-force/simple.c:200-207 | a transformed state has the same eight images as the state |
| Symmetry.CanonicalInvariant | code-implementations/brute-force/simple.c:197-217 | a state and each of its transforms have the same canonical representative |
| Symmetry.CanonicalIdempotent | code-implementations/brute-force/simple.c:197-217 | the canonical representative is its own canonical representative |
| Symmetry.CanonicalLength | code-implementations/brute-force/simple.c:320-324 | the canonical representative is a valid state with the same length |
| Exhaustive.GetCanonicalRep | code-implementations/brute-force/simple.c:197-217 | the method (transform loops, then the minimum loop) returns the canonical representative |
| Exhaustive.FirstBestUnique | code-implementations/brute-force/simple.c:326-330 | the largest length of a range and the first state that reaches it are determined by the range, so two scans meeting the description agree |
| Exhaustive.FirstBestSingle | code-implementations/brute-force/multithreaded.c:149-153 | a one-state range has that state and its length as its answer |
| Exhaustive.FirstBestJoinKeep | code-implementations/brute-force/multithreaded.c:250-259 | joining a range with a later range that is not strictly better keeps the earlier answer |
| Exhaustive.FirstBestJoinTake | code-implementations/brute-force/multithreaded.c:250-259 | joining a range with a later range that is strictly better takes the later answer |
| Exhaustive.SmallerCanonicalTwin | code-implementations/brute-force/simple.c:320-324 | a valid state that is not canonical has a smaller canonical state of the same length |
| Exhaustive.ZeroIsCanonical | code-implementations/brute-force/simple.c:285-286 | the empty board, the scan's starting `bestState`, is canonical |
| Exhaustive.Scan | code-implementations/brute-force/simple.c:294-332 | with the neighbour table, the pruned loop over states 0..totalStates-1 returns the largest length over the whole range and the smallest state reaching it, and that state is canonical |
| Exhaustive.SimpleSearch | code-implementations/brute-force/simple.c:284-332 | with 2^(n*n) states the result is the first best state of the whole space, canonical, with 1 ≤ maxLength ≤ n*n + 1 |
| Exhaustive.TotalStatesAsWritten | code-implementations/brute-force/simple.c:284 | `1ULL << (g_n*g_n)` as the machine evaluates it is a 64-bit value |
| Exhaustive.TotalStatesAsWrittenBelowEight | code-implementations/brute-force/simple.c:284 | for n ≤ 7 the shift as written gives 2^(n*n) |
| Exhaustive.TotalStatesAsWrittenAtEight | code-implementations/brute-force/simple.c:284 | for n = 8 the shift as written gives 1, fewer than the 2^64 states of the board |
| Exhaustive.SimpleSearchAsWritten | code-implementations/brute-force/simple.c:284-332 | with the shift as written the scan is right for n ≤ 7 and reports length 1 and state 0 for n = 8 |
| Exhaustive.EmptyLength | code-implementations/brute-force/simple.c:236-243 | the empty board has length 1 |
| Exhaustive.UnstableLength | code-implementations/brute-force/simple.c:236-243 | a pattern that a round changes has length at least 2 |
| Exhaustive.LongerStateExists | code-implementations/brute-force/simple.c:284 | for n ≥ 2 the state with cells 0 and n+1 is valid and has length at least 2, so length 1 is not the maximum |
| Partitioned.SliceStartClosedForm | code-implementations/brute-force/multithreaded.c:231-247 | slice i starts at i*chunkSize + min(i, remainder) |
| Partitioned.SliceStartEnd | code-implementations/brute-force/multithreaded.c:231-247 | the last slice ends exactly at totalStates |
| Partitioned.SlicesContiguous | code-implementations/brute-force/multithreaded.c:234-246 | tasks built from the running start lie back to back from 0 to totalStates |
| Partitioned.SplitRange | code-implementations/brute-force/multithreaded.c:231-247 | the tasks are contiguous from 0 to totalStates; the first `totalStates % threadCount` get chunkSize+1 states and the rest chunkSize; results start at 0 |
| Partitioned.ContiguousOrdered | code-implementations/brute-force/multithreaded.c:231-247 | an earlier task ends no later than a later task starts |
| Partitioned.ContiguousCovers | code-implementations/brute-force/multithreaded.c:231-247 | every state below totalStates lies in exactly one task |
| Partitioned.Worker | code-implementations/brute-force/multithreaded.c:142-159 | a worker reports the largest length over its range and the smallest state reaching it, or 0 and 0 for an empty range |
| Partitioned.MergeResults | code-implementations/brute-force/multithreaded.c:250-259 | merging the workers in order with a strict > gives the first best state of the whole range, also when some ranges are empty |
| Partitioned.PartitionedSearch | code-implementations/brute-force/multithreaded.c:231-259 | for any threadCount ≥ 1 the split, the workers and the merge give the first best state of the whole range |
| Partitioned.MultithreadedSearch | code-implementations/brute-force/multithreaded.c:211-259 | with four workers and 2^(n*n) states the result is the first best state of the whole space |
| Partitioned.MultithreadedSearchAsWritten | code-implementations/brute-force/multithreaded.c:217 | with the shift as written the result is right for n ≤ 7 and is length 1, state 0 for n = 8 |
| Partitioned.CrossCheck | code-implementations/brute-force/simple.c:320-324 | the pruned scan of simple.c and the unpruned partitioned scan report the same length and the same state |
| Backtrack.CellsOfFillAll | code-implementations/brute-force/marco.c:117-118 | filling a list of board cells adds exactly those cells to the pattern and keeps the state valid |
| Backtrack.ChoiceCons | code-implementations/brute-force/marco.c:117-119 | putting cell j in front of a branch below j is a branch one deeper below any i < j, and fills the same cells as filling j first |
| Backtrack.ChoiceUncons | code-implementations/brute-force/marco.c:117-119 | a non-empty branch is its first cell followed by a branch below that cell, one shallower |
| Backtrack.TriedNothing | code-implementations/brute-force/marco.c:114 | before the loop, the state itself is the only branch tried, with its own length |
| Backtrack.TriedOneMore | code-implementations/brute-force/marco.c:117-124 | one turn of the loop extends "all branches starting before j are covered" to j + 1, with the running maximum |
| Backtrack.TriedAll | code-implementations/brute-force/marco.c:116-126 | after the loop, every branch of the given depth below i is covered and one of them reaches the maximum |
| Backtrack.Recurse | code-implementations/brute-force/marco.c:113-132 | with no bit above i set, the state is handed back unchanged; the result is the largest length over the state plus any set of at most `depth` cells above i, and some such set reaches it; it is at least the state's own length, at most n*n + 1, and equal to the state's length when depth = 0 |
| Backtrack.EnumerateMembers | code-implementations/brute-force/marco.c:117 | the increasing list of a set's cells below k holds exactly those cells |
| Backtrack.EnumerateSorted | code-implementations/brute-force/marco.c:117 | that list is strictly increasing |
| Backtrack.EnumerateLength | code-implementations/brute-force/marco.c:117 | that list has one entry per cell |
| Backtrack.EnumerateIsChoice | code-implementations/brute-force/marco.c:117 | the increasing list of a pattern's cells is a branch from `i = -1` whose depth is the cell count |
| Backtrack.EnumerateFills | code-implementations/brute-force/marco.c:118 | filling that list from the empty board gives back the pattern |
| Backtrack.BranchOfState | code-implementations/brute-force/marco.c:113-132 | for every state, the list of its cells in increasing order is a branch from the empty board of depth equal to its cell count, and that branch reaches a pattern of the same length, so no state escapes the search |
| Backtrack.StateOfBranch | code-implementations/brute-force/marco.c:113-132 | every branch from the empty board reaches a valid state with at most as many cells as the branch is long |
| Backtrack.MarcoSearch | code-implementations/brute-force/marco.c:143-144 | the top-level call `recurse(&0, -1, n + 2)` returns the largest length of any state with at most n + 2 filled cells, some such state reaches it, and it lies in [1, n*n + 1] |

## Left out

- Reading n with `scanf` and rejecting values outside 1..8 (simple.c:276-280,
  multithreaded.c:204-208, marco.c:135-139). This is input; 1 ≤ n ≤ 8 is a precondition
  (`Grid.ValidSize`).
- `printGrid` and every `printf` of the results. This is output formatting only.
- The progress and ETA report of simple.c (lines 288-318). It uses the wall clock
  (`time`, `difftime`) and floating point, and it does not influence the result.
- The thread plumbing of multithreaded.c:
  - `pthread_create`/`pthread_join`, `malloc`/`free`;
  - the atomic `processed_count`;
  - the progress thread with its `doneFlag` and `sleep`.

  Each worker touches only its own task, so the workers are run one after another and the
  join loop is the merge fold.
- `threadCount` is fixed at 4 in multithreaded.c:211. `MultithreadedSearch` uses 4, and
  `PartitionedSearch` is proved for every count ≥ 1.
- The debug `printf` at marco.c:127-129. It prints and changes nothing.
- `__builtin_popcountll` is a compiler builtin. It is replaced by the count of cells common
  to two patterns (`Simulation.CountCommon`), proved equal to the size of their intersection.
- Machine integer widths: states are unbounded naturals. Every state the searches visit is below
  2^(n*n) ≤ 2^64, and `Cells` ignores bits at or above n*n, as `isFilled` is only ever asked
  about board cells. Lengths are at most 65, so no `int` or `uint64_t` in the three programs can
  overflow, except the state-count shift in the findings below.
- Backtrack.Recurse: requires that no bit above i is set. The C function does not check this,
  but every call the program makes satisfies it, and without it the undo step could clear a
  bit the caller had set.
- The in-place updates through `uint64_t *state` become values: `Recurse` returns the
  state it hands back, and `IterationStep` returns the new pattern.

## Findings

| source | as written | input that shows it | evidently intended | confidence | as-written member | corrected member |
|---|---|---|---|---|---|---|
| code-implementations/brute-force/simple.c:284 | `totalStates = 1ULL << (g_n*g_n)` shifts a 64-bit value by 64 when n = 8. C leaves this undefined, and x86-64 reduces the count mod 64, so totalStates becomes 1 and the scan visits state 0 alone, reporting length 1. | n = 8. The state with cells 0 and 9 (`Exhaustive.LongerStateExists`) has length at least 2. | scan all 2^64 states | not executed; the shift result assumes x86-64 count masking | Exhaustive.SimpleSearchAsWritten | Exhaustive.SimpleSearch |
| code-implementations/brute-force/multithreaded.c:217 | the same shift: totalStates becomes 1 for n = 8, so task 0 gets state 0 and the other three tasks are empty; the program reports length 1 | n = 8, as above | split all 2^64 states among the workers | not executed; the shift result assumes x86-64 count masking | Partitioned.MultithreadedSearchAsWritten | Partitioned.MultithreadedSearch |
