# Sudoku search engine (Parallel_Sodoku_Solver) in Dafny

This project models the search engine of a Java Sudoku application: the
9×9 board and its `isSafe` constraint check, the single-threaded
backtracking solver with its "skip the first k solutions" counter, the
capped multi-solution enumerator, the fork/join task that splits the top
of the search tree into sub-tasks, and the puzzle generator (random full
grid, then random cells cleared).

Modules:

- `SudokuBoard` (`board.dfy`): a board is an immutable sequence of 81
  cells in row-major order, 0 meaning empty. It holds `get`, `set`,
  `isSafe`, `copy` and both constructors. It also holds the unit
  constraint (`Consistent`), and the proof that `isSafe` is exactly the
  condition under which a placement keeps a consistent board consistent.
- `Search` (`search.dfy`): the search order every solver shares. The
  first empty cell is taken in row-major order and digits are tried from
  1 to 9. `Solutions(b)` lists the complete boards that depth-first walk
  reaches, in order. It is characterised independently of the walk: it
  lists exactly the completions of `b` (full, extending `b`, no conflict
  among the placed digits), in strictly increasing lexicographic order.
- `SequentialSolver` (`sequential.dfy`): `SequentialSudokuSolver`, with
  the board and the found-counter threaded through the recursion. The
  counter and the target are Java `int`s, and the counter's wrap-around
  past 2^31 - 1 is modelled.
- `MultiSolutionSolver` (`multi.dfy`): `findAll(max)`.
- `SolverTask` (`task.dfy`): `SudokuSolverTask` and the depth-0 entry
  point of `ParallelSudokuSolver`.
- `Generator` (`generator.dfy`): `SudokuGenerator`. The shared
  `java.util.Random` is a parameter here: a stream `rng` of naturals plus
  a cursor, where `nextInt(bound)` at cursor k is `rng(k) % bound`.

Java mutates boards in place. Here every operation takes the board as it
is on entry and returns it as it is on exit. "The board is restored on
failure" is therefore an ordinary postcondition.

The fork/join task joins its children in the order it spawned them, so
its result does not depend on scheduling: it is always the first
solution in the search order. `SolverTask.ParallelAgreesWithSequential`
proves that it equals the sequential solver's result for target 0.

## Model

| member | source | states |
|---|---|---|
| SudokuBoard.NewBoard | src/main/java/com/sudoku/SudokuBoard.java:8-10 | the new board has every cell empty, so all 81 cells count as empty |
| SudokuBoard.FromRows | src/main/java/com/sudoku/SudokuBoard.java:12-17 | cell (r, c) of the new board is entry r, c of the given rows |
| SudokuBoard.Get | src/main/java/com/sudoku/SudokuBoard.java:19-21 | `get` reads one cell, which holds 0 for empty or a digit 1..9; `SudokuBoard.Set` states that it reads back what `set` wrote |
| SudokuBoard.Set | src/main/java/com/sudoku/SudokuBoard.java:23-25 | `set` writes exactly one cell and leaves every other cell unchanged; filling an empty cell lowers the empty count by one, and clearing a filled cell raises it by one |
| SudokuBoard.SetRestores | src/main/java/com/sudoku/SudokuBoard.java:23-25 | writing a cell's old value back restores the board exactly, which is what the backtracking `set(r, c, 0)` relies on |
| SudokuBoard.EmptyCountUpdate | src/main/java/com/sudoku/SudokuBoard.java:23-25 | one write changes the empty count by what leaves and what arrives |
| SudokuBoard.BoxStart | src/main/java/com/sudoku/SudokuBoard.java:37-38 | `row - row % 3` is the first row of the 3-row band holding `row`: 0, 3 or 6 |
| SudokuBoard.RowCells | src/main/java/com/sudoku/SudokuBoard.java:29-31 | the row scan reads exactly the nine cells of row r, in column order |
| SudokuBoard.InColumnCells | src/main/java/com/sudoku/SudokuBoard.java:33-35 | a digit occurs among the nine cells the column scan reads iff some cell of column c holds it |
| SudokuBoard.InBoxCells | src/main/java/com/sudoku/SudokuBoard.java:37-43 | a digit occurs among the nine cells the box scan reads iff some cell of the 3×3 box of (r, c) holds it |
| SudokuBoard.AbsentMeans | src/main/java/com/sudoku/SudokuBoard.java:29-43 | the early-return scan loop succeeds iff the digit is not among the scanned cells |
| SudokuBoard.IsSafeMeans | src/main/java/com/sudoku/SudokuBoard.java:27-45 | `isSafe(r, c, n)` holds iff n occurs in no cell of row r, of column c, or of the box of (r, c) |
| SudokuBoard.OccupiedByNIsUnsafe | src/main/java/com/sudoku/SudokuBoard.java:27-45 | a digit already at (r, c) is never safe there, because the row scan meets the cell itself |
| SudokuBoard.SafeExcludesUnit | src/main/java/com/sudoku/SudokuBoard.java:27-45 | a safe digit appears in no cell that shares a row, column or box with (r, c) |
| SudokuBoard.SafeIffStaysConsistent | src/main/java/com/sudoku/SudokuBoard.java:27-45 | on a consistent board, placing n in an empty cell keeps it consistent iff `isSafe` holds: the check is the whole constraint, no more and no less |
| SudokuBoard.SafePlacementConsistent | src/main/java/com/sudoku/SudokuBoard.java:27-45 | placing a safe digit keeps a consistent board consistent |
| SudokuBoard.ConsistentPlacementSafe | src/main/java/com/sudoku/SudokuBoard.java:27-45 | a placement that leaves the board consistent passed `isSafe` |
| SudokuBoard.Copy | src/main/java/com/sudoku/SudokuBoard.java:47-53 | the copy holds the same 81 cells as the original |
| Search.FirstEmpty | src/main/java/com/sudoku/SequentialSudokuSolver.java:59-66 | returns no cell iff the board is full; otherwise an empty cell with every cell before it in row-major order filled |
| Search.ScanFrom | src/main/java/com/sudoku/SudokuSolverTask.java:123-130 | the row-major scan from (r, c) returns an empty cell at or after (r, c), and every cell it passes over is filled |
| Search.SetExtends | src/main/java/com/sudoku/SequentialSudokuSolver.java:38-44 | placing a digit into an empty cell keeps every filled cell |
| Search.PlacedExtends | src/main/java/com/sudoku/SequentialSudokuSolver.java:38-47 | a board that extends the board after a placement also extends the board before it |
| Search.CompletionOfConsistent | src/main/java/com/sudoku/SequentialSudokuSolver.java:19-57 | for a consistent board, its completions are exactly the full, consistent boards that keep its filled cells |
| Search.BranchesStep | src/main/java/com/sudoku/SequentialSudokuSolver.java:34-55 | the leaves from digit n on are the leaves under n, when n is safe, followed by the leaves from n + 1 on |
| Search.CompletionStep | src/main/java/com/sudoku/SequentialSudokuSolver.java:38-47 | a completion of the board with a safe digit placed is a completion of the board before the placement |
| Search.CompletionStepBack | src/main/java/com/sudoku/SequentialSudokuSolver.java:34-55 | every completion puts a safe digit in 1..9 at the first empty cell, and completes the board with that digit placed |
| Search.CompletionDigitSafe | src/main/java/com/sudoku/SequentialSudokuSolver.java:34-38 | a completion's digit at an empty cell is in 1..9 and passes `isSafe` |
| Search.CompletionKeepsPlaced | src/main/java/com/sudoku/SequentialSudokuSolver.java:38-47 | a completion also completes the board with its own digit placed at the empty cell |
| Search.SolutionsAreCompletions | src/main/java/com/sudoku/SequentialSudokuSolver.java:19-57 | every leaf the depth-first walk reaches is a completion of the start board |
| Search.BranchesAreCompletions | src/main/java/com/sudoku/SequentialSudokuSolver.java:34-55 | every leaf reached from digit n on completes the board and holds a digit of at least n at the cell |
| Search.CompletionsAreSolutions | src/main/java/com/sudoku/SequentialSudokuSolver.java:19-57 | the walk misses no completion: every completion of the board is among its leaves |
| Search.SubtreeInBranches | src/main/java/com/sudoku/SequentialSudokuSolver.java:34-55 | the leaves under a safe digit m are among the leaves from any digit n <= m on |
| Search.SolutionsCharacterised | src/main/java/com/sudoku/SequentialSudokuSolver.java:19-57 | a board is a leaf of the walk iff it is a completion of the start board |
| Search.SolutionsSorted | src/main/java/com/sudoku/SequentialSudokuSolver.java:34-55 | with row-major cells and ascending digits, the walk reaches the leaves in strictly increasing lexicographic order |
| Search.BranchesSorted | src/main/java/com/sudoku/SequentialSudokuSolver.java:34-55 | the leaves from digit n on come in strictly increasing lexicographic order |
| Search.SubtreeBeforeLaterBranches | src/main/java/com/sudoku/SequentialSudokuSolver.java:34-55 | every leaf under digit n is lexicographically below every leaf under a larger digit |
| Search.SubtreeLeaves | src/main/java/com/sudoku/SequentialSudokuSolver.java:38-47 | the leaves under digit n keep the board's filled cells and hold n at the cell |
| Search.LaterLeaves | src/main/java/com/sudoku/SequentialSudokuSolver.java:34-55 | the leaves from digit n on keep the board's filled cells and hold a digit of at least n at the cell |
| Search.HeadBeforeTail | src/main/java/com/sudoku/SequentialSudokuSolver.java:34-55 | two boards that agree on every cell before the first empty cell are ordered by their digits there |
| Search.ConcatSorted | src/main/java/com/sudoku/SequentialSudokuSolver.java:34-55 | appending sorted leaf lists, each earlier leaf below each later one, keeps the list sorted |
| Search.LexLessDistinct | src/main/java/com/sudoku/SequentialSudokuSolver.java:34-55 | lexicographically ordered boards differ |
| Search.SolutionsDistinct | src/main/java/com/sudoku/SequentialSudokuSolver.java:19-57 | the walk never reaches the same complete board twice |
| Search.FullBoardIsOnlySolution | src/main/java/com/sudoku/SequentialSudokuSolver.java:21-29 | a full board is its own single leaf |
| Search.FirstOfAppend | src/main/java/com/sudoku/SudokuSolverTask.java:53-57 | the first result of two lists in order is the first of the first list, or the first of the second when the first list is empty |
| SequentialSolver.Inc32 | src/main/java/com/sudoku/SequentialSudokuSolver.java:26 | `solutionsFoundCount++` stays in the `int` range and adds one below 2^31 - 1 |
| SequentialSolver.Inc32Wraps | src/main/java/com/sudoku/SequentialSudokuSolver.java:26 | the increment equals x + 1 modulo 2^32, so 2^31 - 1 wraps to -2^31 |
| SequentialSolver.Distance | src/main/java/com/sudoku/SequentialSudokuSolver.java:23-27 | the number of increments before the counter equals the target: below 2^32, and zero exactly when they are already equal |
| SequentialSolver.DistanceIsDifference | src/main/java/com/sudoku/SequentialSudokuSolver.java:23-27 | that number is target − counter reduced modulo 2^32 |
| SequentialSolver.DistanceInjective | src/main/java/com/sudoku/SequentialSudokuSolver.java:7 | for a fixed target, the distance determines the counter, so stating the distance states the counter |
| SequentialSolver.CountOneMore | src/main/java/com/sudoku/SequentialSudokuSolver.java:23-27 | counting a board that was not the target takes the counter one step closer to the target, across the wrap as well |
| SequentialSolver.SolveRecursive | src/main/java/com/sudoku/SequentialSudokuSolver.java:19-57 | a false return leaves the board as it was on entry; a true return leaves it full and extending the entry board, with the counter equal to the target; the counter stays in the `int` range |
| SequentialSolver.TryDigits | src/main/java/com/sudoku/SequentialSudokuSolver.java:34-56 | the digit loop restores the cell on failure, and on success returns a full board extending its input with the counter at the target |
| SequentialSolver.Solve | src/main/java/com/sudoku/SequentialSudokuSolver.java:15-17 | `solve()` on a full board succeeds iff the target is 0, and leaves the board alone either way |
| SequentialSolver.SolveRecursiveSkips | src/main/java/com/sudoku/SequentialSudokuSolver.java:19-57 | entered with a counter d increments away from the target, a call succeeds iff it has more than d leaves, and then returns leaf d; otherwise it counts all of its leaves, leaving the counter that many increments closer, with 32-bit wrap-around |
| SequentialSolver.TryDigitsSkips | src/main/java/com/sudoku/SequentialSudokuSolver.java:34-56 | the same skip rule for the leaves from digit n on |
| SequentialSolver.SafeDigitSkips | src/main/java/com/sudoku/SequentialSudokuSolver.java:38-54 | the same skip rule at a safe digit: the target is met inside its subtree, or the subtree is counted and the later digits continue |
| SequentialSolver.TryDigitsStep | src/main/java/com/sudoku/SequentialSudokuSolver.java:38-54 | one iteration: return the child's success, or go on with digit n + 1 after the backtracking write |
| SequentialSolver.SolveReturnsKthSolution | src/main/java/com/sudoku/SequentialSudokuSolver.java:9-17 | `solve()` on a new solver with target k >= 0 succeeds iff the walk has more than k leaves, and then returns leaf k; a negative k is met after the counter wraps, at leaf 2^32 + k |
| SequentialSolver.SolveIsValid | src/main/java/com/sudoku/SequentialSudokuSolver.java:15-17 | on a consistent board, a solved board is full, consistent and keeps every given digit |
| MultiSolutionSolver.Room | src/main/java/com/sudoku/MultiSolutionSolver.java:21 | the number of leaves still accepted: none once the cap is reached, otherwise the smaller of the remaining room and what is available |
| MultiSolutionSolver.SolveCapped | src/main/java/com/sudoku/MultiSolutionSolver.java:20-40 | `solve` leaves the board as it found it and only ever appends to the solution list |
| MultiSolutionSolver.TryDigits | src/main/java/com/sudoku/MultiSolutionSolver.java:32-39 | the digit loop leaves the board as it found it and only ever appends |
| MultiSolutionSolver.FindAll | src/main/java/com/sudoku/MultiSolutionSolver.java:14-18 | `findAll(max)` returns at most max boards (none when max <= 0), no more than there are leaves, and each is full and keeps the puzzle's digits |
| MultiSolutionSolver.LeavesFullAndExtend | src/main/java/com/sudoku/MultiSolutionSolver.java:24-27 | every recorded leaf is full and keeps the puzzle's digits |
| MultiSolutionSolver.SolveCappedAppends | src/main/java/com/sudoku/MultiSolutionSolver.java:20-40 | `solve` appends the walk's leaves in order, stopping the moment the list holds max boards |
| MultiSolutionSolver.TryDigitsAppends | src/main/java/com/sudoku/MultiSolutionSolver.java:32-39 | the digit loop appends the leaves from digit n on, in order, up to the cap |
| MultiSolutionSolver.SafeDigitAppends | src/main/java/com/sudoku/MultiSolutionSolver.java:33-37 | the same for a safe digit n: its subtree's leaves come first, then the later digits' leaves if the cap allows |
| MultiSolutionSolver.TryDigitsStep | src/main/java/com/sudoku/MultiSolutionSolver.java:33-37 | one iteration: after the recursive call, return once the cap is reached, otherwise go on with digit n + 1 |
| MultiSolutionSolver.AppendSlices | src/main/java/com/sudoku/MultiSolutionSolver.java:37 | taking up to the cap from a head list and then from a tail list is taking up to the cap from their concatenation |
| MultiSolutionSolver.FindAllIsPrefix | src/main/java/com/sudoku/MultiSolutionSolver.java:14-18 | `findAll(max)` is the first max leaves of the walk |
| MultiSolutionSolver.FindAllMatchesSkipOrder | src/main/java/com/sudoku/MultiSolutionSolver.java:14-18 | the i-th board of `findAll` is what the sequential solver with target i returns; the list has no duplicates; and with enough room it lists every leaf |
| MultiSolutionSolver.FindAllListsCompletions | src/main/java/com/sudoku/MultiSolutionSolver.java:14-18 | when the cap is not reached, a board is listed iff it is a completion of the puzzle |
| SolverTask.Compute | src/main/java/com/sudoku/SudokuSolverTask.java:21-59 | `compute` returns a full board extending the task's board, or null; a full task board is returned as is |
| SolverTask.SafeDigits | src/main/java/com/sudoku/SudokuSolverTask.java:33-51 | the digits that get a child task lie between n and 9 |
| SolverTask.SafeDigitsStep | src/main/java/com/sudoku/SudokuSolverTask.java:33-51 | digit n gets a child before the children of later digits iff it is safe |
| SolverTask.SafeDigitsExact | src/main/java/com/sudoku/SudokuSolverTask.java:33-51 | a digit gets a child iff it is safe and not below n |
| SolverTask.SafeDigitsAscending | src/main/java/com/sudoku/SudokuSolverTask.java:33-51 | children are spawned in strictly ascending digit order |
| SolverTask.ConsAscending | src/main/java/com/sudoku/SudokuSolverTask.java:33-51 | a digit below every later child's digit, put in front of them, keeps the order ascending |
| SolverTask.ForkSpawnsExactly | src/main/java/com/sudoku/SudokuSolverTask.java:33-51 | a child holding digit n at the cell is spawned iff n is in num..9 and passes `isSafe` |
| SolverTask.ForkChildShape | src/main/java/com/sudoku/SudokuSolverTask.java:37-47 | every child is a copy of the parent with its digit 1..9 placed at the cell, one level deeper |
| SolverTask.ForkSpawnsAscending | src/main/java/com/sudoku/SudokuSolverTask.java:33-51 | children are spawned in strictly ascending order of their digit |
| SolverTask.ForkedChildrenSmaller | src/main/java/com/sudoku/SudokuSolverTask.java:37-47 | each child has one empty cell fewer than its parent and keeps its digits |
| SolverTask.ForkStep | src/main/java/com/sudoku/SudokuSolverTask.java:33-51 | a safe digit n contributes the first child, followed by the children of later digits; an unsafe one contributes nothing |
| SolverTask.Join | src/main/java/com/sudoku/SudokuSolverTask.java:53-57 | the joined result is a full board extending the parent, or null |
| SolverTask.SolveSequentially | src/main/java/com/sudoku/SudokuSolverTask.java:61-89 | `solveSequentially` returns a full board extending its input, or null |
| SolverTask.SolveRecursive | src/main/java/com/sudoku/SudokuSolverTask.java:91-121 | false leaves the board as on entry; true leaves it full and extending the entry board |
| SolverTask.TryDigits | src/main/java/com/sudoku/SudokuSolverTask.java:99-120 | the digit loop restores the cell on failure and on success returns a full extension |
| SolverTask.ParallelSolve | src/main/java/com/sudoku/SudokuSolverTask.java:14-59 | the depth-0 task on the puzzle returns a full board extending the puzzle, or null |
| SolverTask.SolveRecursiveFindsFirst | src/main/java/com/sudoku/SudokuSolverTask.java:91-121 | `solveRecursive` succeeds iff the walk has a leaf, and then leaves the board equal to the first leaf |
| SolverTask.TryDigitsFindsFirst | src/main/java/com/sudoku/SudokuSolverTask.java:99-120 | the digit loop succeeds iff some digit from n on leads to a leaf, and returns the first such leaf |
| SolverTask.TryDigitsStep | src/main/java/com/sudoku/SudokuSolverTask.java:102-112 | one iteration: return the child's success, or go on with digit n + 1 after the backtracking write |
| SolverTask.SolveSequentiallyFindsFirst | src/main/java/com/sudoku/SudokuSolverTask.java:61-89 | `solveSequentially` returns the first leaf under the digits from n on, or null when there is none |
| SolverTask.ComputeFindsFirst | src/main/java/com/sudoku/SudokuSolverTask.java:21-59 | at any depth, `compute` returns the first leaf of the walk, or null when there is none |
| SolverTask.ForkJoinFindsFirst | src/main/java/com/sudoku/SudokuSolverTask.java:33-57 | forking one child per safe digit and joining in spawn order yields the first leaf of the walk |
| SolverTask.ParallelAgreesWithSequential | src/main/java/com/sudoku/SudokuSolverTask.java:21-59 | the parallel result is null iff the sequential solver with target 0 fails, and otherwise equals its board |
| SolverTask.DeepTaskSearchesSequentially | src/main/java/com/sudoku/SudokuSolverTask.java:29-30 | a task at depth 3 or more does not fork: it is `solveSequentially` at the first empty cell |
| Generator.SwapExchanges | src/main/java/com/sudoku/SudokuGenerator.java:52-54 | the swap exchanges positions `index` and i and leaves every other position alone |
| Generator.SwapPermutes | src/main/java/com/sudoku/SudokuGenerator.java:52-54 | the three-assignment swap permutes the array |
| Generator.ShuffleDown | src/main/java/com/sudoku/SudokuGenerator.java:50-55 | the loop from position i down keeps the array length and makes exactly one draw per position i..1 |
| Generator.Shuffle | src/main/java/com/sudoku/SudokuGenerator.java:49-56 | `shuffleArray` keeps the array length and makes length − 1 draws (none for an empty array) |
| Generator.ShuffleDownPermutes | src/main/java/com/sudoku/SudokuGenerator.java:50-55 | whatever indices are drawn, the loop from i down permutes the array and uses one draw per position |
| Generator.ShuffleDownFrame | src/main/java/com/sudoku/SudokuGenerator.java:50-55 | the loop from i down never touches the positions above i |
| Generator.ShufflePermutes | src/main/java/com/sudoku/SudokuGenerator.java:49-56 | `shuffleArray` returns a permutation of its input for every sequence of drawn indices, and draws length − 1 times |
| Generator.ShuffleLastFromFirstDraw | src/main/java/com/sudoku/SudokuGenerator.java:50-55 | the last position ends up holding the element at the first drawn index |
| Generator.PermutedDigits | src/main/java/com/sudoku/SudokuGenerator.java:22-23 | a permutation of the digit array still holds every digit 1..9 and nothing else |
| Generator.ShuffledDigits | src/main/java/com/sudoku/SudokuGenerator.java:22-24 | after shuffling, the loop over `nums` tries only digits, and every digit 1..9 |
| Generator.FillBoard | src/main/java/com/sudoku/SudokuGenerator.java:18-36 | `fillBoard` returns true only with every cell filled and the entry digits kept; a false return leaves the board as it was |
| Generator.TryNums | src/main/java/com/sudoku/SudokuGenerator.java:24-31 | the digit loop: true leaves the board full and extending its input; false restores the cell |
| Generator.TryNumsStep | src/main/java/com/sudoku/SudokuGenerator.java:25-28 | one iteration: return on the child's success, otherwise go on with the next shuffled digit after writing 0 back |
| Generator.FillBoardSound | src/main/java/com/sudoku/SudokuGenerator.java:18-36 | a filled board completes the entry board: every digit placed passed `isSafe` |
| Generator.TryNumsSound | src/main/java/com/sudoku/SudokuGenerator.java:24-31 | the digit loop's successes are completions of its board |
| Generator.FillBoardComplete | src/main/java/com/sudoku/SudokuGenerator.java:18-36 | `fillBoard` succeeds on every board that has a completion, whatever the shuffles draw |
| Generator.TryNumsComplete | src/main/java/com/sudoku/SudokuGenerator.java:24-31 | if a completion's digit for the cell is still ahead in `nums`, the loop succeeds |
| Generator.FillBoardDecides | src/main/java/com/sudoku/SudokuGenerator.java:18-36 | `fillBoard` succeeds iff the board has a completion, and then returns one of the leaves of the deterministic walk |
| Generator.EmptyBoardFills | src/main/java/com/sudoku/SudokuGenerator.java:9-10 | `fillBoard` on the new empty board always succeeds, and the grid it produces is consistent |
| Generator.RemoveCells | src/main/java/com/sudoku/SudokuGenerator.java:38-47 | the loop makes two draws per iteration, a row then a column, over at most `fuel` iterations, so it uses at most 2 · `fuel` draws |
| Generator.ClearExtends | src/main/java/com/sudoku/SudokuGenerator.java:42-43 | clearing a cell keeps every other filled cell |
| Generator.RemoveCellsOnlyClears | src/main/java/com/sudoku/SudokuGenerator.java:38-47 | `removeCells` only ever writes 0: every filled cell of the result holds the input's digit |
| Generator.RemoveCellsCounts | src/main/java/com/sudoku/SudokuGenerator.java:38-47 | the empty count grows by exactly the number of removals made |
| Generator.RemoveCellsLeft | src/main/java/com/sudoku/SudokuGenerator.java:38-47 | between 0 and `count` removals are made, and none for a negative count |
| Generator.RemoveCellsRunsOut | src/main/java/com/sudoku/SudokuGenerator.java:39-46 | the loop stops with removals still owed only after using every iteration, two draws each |
| Generator.ClearedConsistent | src/main/java/com/sudoku/SudokuGenerator.java:42-43 | clearing cells of a consistent board leaves it consistent |
| Generator.Generate | src/main/java/com/sudoku/SudokuGenerator.java:8-16 | the grid `generate` fills is full, the board it returns keeps only digits of that grid, and no more cells are owed than the difficulty asks for |
| Generator.GridCompletesPuzzle | src/main/java/com/sudoku/SudokuGenerator.java:8-16 | a consistent full grid completes every consistent board carved from it |
| Generator.GenerateSolvable | src/main/java/com/sudoku/SudokuGenerator.java:8-16 | the generated board is consistent, and the full grid it was carved from is full, consistent and one of its solutions |
| Generator.GenerateRemovesCount | src/main/java/com/sudoku/SudokuGenerator.java:13-14 | once the removal loop finishes, the board has 30 empty cells for difficulty 1, 45 for difficulty 2 and 58 for any other value; in general, the table's count minus the removals still owed |

## Left out

- The Swing user interface, the observer callbacks (`onCellUpdate`, `onLog`), log strings, `BoardUpdate` and `Thread.sleep` are presentation only. They do not affect any board or result.
- `ComplexitySimulator.simulate()` is a floating-point busy loop used as artificial load. It is a no-op here.
- Real concurrency is not modelled. `fork`/`join` are modelled as the children evaluated one by one in spawn order. Because the Java code joins in spawn order, that order alone fixes the result, whatever the scheduling.
- `ParallelSudokuSolver.java` is not part of this model. It copies the board and invokes the depth-0 task; `SolverTask.ParallelSolve` stands in for it.
- `java.util.Random` is a parameter: a stream of naturals and a cursor, with `nextInt(bound)` read as the drawn value mod bound. The properties hold for every stream, but nothing is said about the distribution of the results.
- Generator.RemoveCells: runs for at most `fuel` iterations. The Java loop may, in principle, keep drawing empty cells forever, so termination is not modelled. The `left` field reports the removals still owed when the iterations were used up.
- Generator.Generate: returns, besides the board that `generate` returns, the full grid, the removals still owed and the draw cursor, so the lemmas can refer to them.
- Generator.RemovalCount: the difficulty table is stated in the contract of `Generator.GenerateRemovesCount`, not of its own.
- SequentialSolver.Solve: models `solve()` on a newly built solver, whose counter starts at 0. The counter is a field, so a second `solve()` on the same object resumes from the count the first left behind; `SequentialSolver.SolveRecursive` with that count, and `SequentialSolver.SolveRecursiveSkips`, describe such a call.
- Aliasing is not modelled. Java passes boards by reference. The model threads values, so a board shared between two tasks cannot be observed changing; the Java code avoids such sharing by copying before each fork.
- Out-of-range coordinates and values are excluded by preconditions rather than modelled as Java exceptions: `get`/`set` need 0 ≤ row, col < 9, and `set` needs a value in 0..9. Every cell of a board holds 0..9, because the constructors and the solvers only ever store such values. The `int[][]` constructor is given exactly nine rows, each with at least nine entries in 0..9; its only caller, `copy`, passes nine rows.
