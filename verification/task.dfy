/** SudokuSolverTask and ParallelSudokuSolver: the depth-bounded fork/join
    search.

    Below depth `Threshold` a task spawns one child per safe digit at the
    first empty cell, each child holding its own copy of the board with that
    digit placed, and joins the children in spawn order, taking the first
    non-null result. At `Threshold` or deeper it searches sequentially. The
    children run on a thread pool, but each owns its board and the parent
    inspects their results in the fixed spawn order, so the result is the
    one obtained by evaluating the children one after another; that is how
    `Join` models it. */
module SolverTask {
  import opened SudokuBoard
  import opened Search
  import SequentialSolver

  /** Fork depth at which a task stops forking. */
  const Threshold := 3

  /** A task: its own board snapshot and its fork depth. */
  datatype Task = Task(board: Board, depth: int)

  /** What the in-place `solveRecursive` returns, with the board it leaves. */
  datatype Attempt = Attempt(solved: bool, board: Board)

  /** `compute()`: a full board is its own result; deep tasks search
      sequentially; shallow tasks fork and join. */
  function Compute(t: Task): (res: Option<Board>)
    decreases EmptyCount(t.board), 2
    ensures res.Some? ==> Full(res.value) && Extends(t.board, res.value)
    ensures Full(t.board) ==> res == Some(t.board)
  {
    match FirstEmpty(t.board)
    case None => Some(t.board)
    case Some(cell) =>
      if t.depth >= Threshold then SolveSequentially(t.board, cell.row, cell.col, 1)
      else
        ForkedChildrenSmaller(t.board, cell.row, cell.col, t.depth, 1);
        Join(t.board, Fork(t.board, cell.row, cell.col, t.depth, 1))
  }

  /** The digits num..9 that are safe at (r, c), in ascending order. */
  function SafeDigits(b: Board, r: int, c: int, num: int): (ds: seq<int>)
    requires InGrid(r, c) && 1 <= num <= 10
    decreases EmptyCount(b), 10 - num
    ensures forall k | 0 <= k < |ds| :: num <= ds[k] <= 9
  {
    if num == 10 then []
    else (if IsSafe(b, r, c, num) then [num] else []) + SafeDigits(b, r, c, num + 1)
  }

  /** One digit of `SafeDigits`: listed first when it is safe. */
  lemma SafeDigitsStep(b: Board, r: int, c: int, num: int)
    requires InGrid(r, c) && 1 <= num <= 9
    ensures SafeDigits(b, r, c, num) ==
      if IsSafe(b, r, c, num) then [num] + SafeDigits(b, r, c, num + 1) else SafeDigits(b, r, c, num + 1)
  {
    if !IsSafe(b, r, c, num) {
      assert [] + SafeDigits(b, r, c, num + 1) == SafeDigits(b, r, c, num + 1);
    }
  }

  /** Every safe digit from num on is listed, and nothing else is. */
  lemma {:induction false} SafeDigitsExact(b: Board, r: int, c: int, num: int, n: int)
    requires InGrid(r, c) && 1 <= num <= 10
    ensures n in SafeDigits(b, r, c, num) <==> num <= n <= 9 && IsSafe(b, r, c, n)
    decreases 10 - num
  {
    if num < 10 {
      SafeDigitsExact(b, r, c, num + 1, n);
      SafeDigitsStep(b, r, c, num);
    }
  }

  /** The safe digits come in strictly ascending order, so children are
      spawned, and joined, from the smallest digit up. */
  lemma {:induction false} SafeDigitsAscending(b: Board, r: int, c: int, num: int)
    requires InGrid(r, c) && 1 <= num <= 10
    ensures forall k, k' | 0 <= k < k' < |SafeDigits(b, r, c, num)| ::
      SafeDigits(b, r, c, num)[k] < SafeDigits(b, r, c, num)[k']
    decreases 10 - num
  {
    if num < 10 {
      SafeDigitsAscending(b, r, c, num + 1);
      SafeDigitsStep(b, r, c, num);
      if IsSafe(b, r, c, num) {
        ConsAscending(num, SafeDigits(b, r, c, num + 1));
      }
    }
  }

  /** Putting a digit below every element in front of an ascending list
      keeps it ascending. */
  lemma ConsAscending(x: int, rest: seq<int>)
    requires forall k | 0 <= k < |rest| :: x < rest[k]
    requires forall k, k' | 0 <= k < k' < |rest| :: rest[k] < rest[k']
    ensures forall k, k' | 0 <= k < k' < |[x] + rest| :: ([x] + rest)[k] < ([x] + rest)[k']
  {
    var xs := [x] + rest;
    forall k, k' | 0 <= k < k' < |xs|
      ensures xs[k] < xs[k']
    {
      assert xs[k'] == rest[k' - 1];
      if k > 0 {
        assert xs[k] == rest[k - 1];
      }
    }
  }

  /** The forking loop of `compute()` over the digits num..9 at the empty
      cell (r, c): for each safe digit, in ascending order, a child task on
      a copy of the parent with that digit placed, one level deeper. The
      parent board itself is left as it was. */
  function Fork(b: Board, r: int, c: int, depth: int, num: int): (children: seq<Task>)
    requires InGrid(r, c) && Get(b, r, c) == 0 && 1 <= num <= 10
    ensures |children| == |SafeDigits(b, r, c, num)|
    ensures forall k | 0 <= k < |children| :: children[k] == Task(Set(b, r, c, SafeDigits(b, r, c, num)[k]), depth + 1)
  {
    var ds := SafeDigits(b, r, c, num);
    seq(|ds|, k requires 0 <= k < |ds| => Task(Set(b, r, c, ds[k]), depth + 1))
  }

  /** The forking loop spawns one child per safe digit from num on and no
      other: a child whose board holds n at (r, c) exists exactly when n is
      in num..9 and safe there. */
  lemma ForkSpawnsExactly(b: Board, r: int, c: int, depth: int, num: int, n: int)
    requires InGrid(r, c) && Get(b, r, c) == 0 && 1 <= num <= 10
    ensures (exists t | t in Fork(b, r, c, depth, num) :: Get(t.board, r, c) == n) <==>
      num <= n <= 9 && IsSafe(b, r, c, n)
  {
    SafeDigitsExact(b, r, c, num, n);
    var children := Fork(b, r, c, depth, num);
    if exists k | 0 <= k < |children| :: SafeDigits(b, r, c, num)[k] == n {
      var k :| 0 <= k < |children| && SafeDigits(b, r, c, num)[k] == n;
      ForkChildDigit(b, r, c, depth, num, k);
    }
    if exists t | t in children :: Get(t.board, r, c) == n {
      var t :| t in children && Get(t.board, r, c) == n;
      var k :| 0 <= k < |children| && children[k] == t;
      ForkChildDigit(b, r, c, depth, num, k);
    }
  }

  /** Child k holds the k-th safe digit at (r, c). */
  lemma ForkChildDigit(b: Board, r: int, c: int, depth: int, num: int, k: int)
    requires InGrid(r, c) && Get(b, r, c) == 0 && 1 <= num <= 10
    requires 0 <= k < |Fork(b, r, c, depth, num)|
    ensures Get(Fork(b, r, c, depth, num)[k].board, r, c) == SafeDigits(b, r, c, num)[k]
  {
  }

  /** Every child is the parent with its own digit placed at (r, c), one
      level deeper. */
  lemma ForkChildShape(b: Board, r: int, c: int, depth: int, num: int)
    requires InGrid(r, c) && Get(b, r, c) == 0 && 1 <= num <= 10
    ensures forall t | t in Fork(b, r, c, depth, num) ::
      && t.depth == depth + 1
      && 1 <= Get(t.board, r, c) <= 9
      && t.board == Set(b, r, c, Get(t.board, r, c))
  {
  }

  /** Children are spawned in strictly ascending order of the digit each
      places at (r, c). */
  lemma ForkSpawnsAscending(b: Board, r: int, c: int, depth: int, num: int)
    requires InGrid(r, c) && Get(b, r, c) == 0 && 1 <= num <= 10
    ensures forall k, k' | 0 <= k < k' < |Fork(b, r, c, depth, num)| ::
      Get(Fork(b, r, c, depth, num)[k].board, r, c) < Get(Fork(b, r, c, depth, num)[k'].board, r, c)
  {
    SafeDigitsAscending(b, r, c, num);
  }

  /** Each child has one empty cell fewer than its parent and keeps all of
      the parent's digits; this is what makes the fork/join recursion
      finite. */
  lemma ForkedChildrenSmaller(b: Board, r: int, c: int, depth: int, num: int)
    requires InGrid(r, c) && Get(b, r, c) == 0 && 1 <= num <= 10
    ensures forall k | 0 <= k < |Fork(b, r, c, depth, num)| ::
      && EmptyCount(Fork(b, r, c, depth, num)[k].board) < EmptyCount(b)
      && Extends(b, Fork(b, r, c, depth, num)[k].board)
  {
    var ds, children := SafeDigits(b, r, c, num), Fork(b, r, c, depth, num);
    forall k | 0 <= k < |children|
      ensures EmptyCount(children[k].board) < EmptyCount(b) && Extends(b, children[k].board)
    {
      assert children[k].board == Set(b, r, c, ds[k]);
      SetExtends(b, r, c, ds[k]);
    }
  }

  /** One step of the forking loop: digit num contributes the first child
      exactly when it is safe, ahead of the children for num + 1..9. */
  lemma ForkStep(b: Board, r: int, c: int, depth: int, num: int)
    requires InGrid(r, c) && Get(b, r, c) == 0 && 1 <= num <= 9
    ensures IsSafe(b, r, c, num) ==>
      && Fork(b, r, c, depth, num) != []
      && Fork(b, r, c, depth, num)[0] == Task(Set(b, r, c, num), depth + 1)
      && Fork(b, r, c, depth, num)[1..] == Fork(b, r, c, depth, num + 1)
    ensures !IsSafe(b, r, c, num) ==> Fork(b, r, c, depth, num) == Fork(b, r, c, depth, num + 1)
  {
    var ds, rest := SafeDigits(b, r, c, num), SafeDigits(b, r, c, num + 1);
    var children, later := Fork(b, r, c, depth, num), Fork(b, r, c, depth, num + 1);
    SafeDigitsStep(b, r, c, num);
    var skip := if IsSafe(b, r, c, num) then 1 else 0;
    forall k | 0 <= k < |later|
      ensures children[k + skip] == later[k]
    {
      assert ds[k + skip] == rest[k];
    }
    if IsSafe(b, r, c, num) {
      assert children[1..] == later;
    } else {
      assert children == later;
    }
  }

  /** The join loop: the first child, in spawn order, whose result is not
      null; null when every child fails. */
  function Join(parent: Board, children: seq<Task>): (res: Option<Board>)
    requires forall k | 0 <= k < |children| ::
      EmptyCount(children[k].board) < EmptyCount(parent) && Extends(parent, children[k].board)
    decreases EmptyCount(parent), 1, |children|
    ensures res.Some? ==> Full(res.value) && Extends(parent, res.value)
  {
    if children == [] then None
    else
      match Compute(children[0])
      case Some(s) =>
        ExtendsTransitive(parent, children[0].board, s);
        Some(s)
      case None => Join(parent, children[1..])
  }

  /** `solveSequentially`: for each safe digit at (r, c), solve a fresh copy
      with the digit placed; the argument board is never written. */
  function SolveSequentially(b: Board, r: int, c: int, num: int): (res: Option<Board>)
    requires InGrid(r, c) && Get(b, r, c) == 0 && 1 <= num <= 10
    decreases EmptyCount(b), 10 - num
    ensures res.Some? ==> Full(res.value) && Extends(b, res.value)
  {
    if num == 10 then None
    else if IsSafe(b, r, c, num) then
      var attempt := SolveRecursive(Set(b, r, c, num));
      if attempt.solved then
        PlacedExtends(b, r, c, num, attempt.board);
        Some(attempt.board)
      else SolveSequentially(b, r, c, num + 1)
    else SolveSequentially(b, r, c, num + 1)
  }

  /** The in-place `solveRecursive(b)`: true leaves b full and extending its
      entry state; false leaves b exactly as it was on entry. */
  function SolveRecursive(b: Board): (a: Attempt)
    decreases EmptyCount(b), 1
    ensures a.solved ==> Full(a.board) && Extends(b, a.board)
    ensures !a.solved ==> a.board == b
  {
    match FirstEmpty(b)
    case None => Attempt(true, b)
    case Some(cell) => TryDigits(b, cell.row, cell.col, 1)
  }

  /** The digit loop of `solveRecursive`: set, recurse, set back to 0. */
  function TryDigits(b: Board, r: int, c: int, num: int): (a: Attempt)
    requires InGrid(r, c) && Get(b, r, c) == 0 && 1 <= num <= 10
    decreases EmptyCount(b), 0, 10 - num
    ensures a.solved ==> Full(a.board) && Extends(b, a.board)
    ensures !a.solved ==> a.board == b
  {
    if num == 10 then Attempt(false, b)
    else if IsSafe(b, r, c, num) then
      var child := SolveRecursive(Set(b, r, c, num));
      if child.solved then
        PlacedExtends(b, r, c, num, child.board);
        child
      else
        SetRestores(b, r, c, num);
        TryDigits(Set(child.board, r, c, 0), r, c, num + 1)
    else TryDigits(b, r, c, num + 1)
  }

  /** `ParallelSudokuSolver.solve`: a root task on a copy of the board, at
      depth 0. */
  function ParallelSolve(b: Board): (res: Option<Board>)
    ensures res.Some? ==> Full(res.value) && Extends(b, res.value)
  {
    Compute(Task(b, 0))
  }

  // ---------------------------------------------------------------------
  // Every path finds the first leaf of the walk.

  lemma {:induction false} SolveRecursiveFindsFirst(b: Board)
    ensures SolveRecursive(b).solved <==> Solutions(b) != []
    ensures SolveRecursive(b).solved ==> SolveRecursive(b).board == Solutions(b)[0]
    decreases EmptyCount(b), 1
  {
    match FirstEmpty(b)
    case None =>
    case Some(cell) =>
      TryDigitsFindsFirst(b, cell.row, cell.col, 1);
  }

  lemma {:induction false} TryDigitsFindsFirst(b: Board, r: int, c: int, num: int)
    requires InGrid(r, c) && Get(b, r, c) == 0 && 1 <= num <= 10
    ensures TryDigits(b, r, c, num).solved <==> Branches(b, r, c, num) != []
    ensures TryDigits(b, r, c, num).solved ==> TryDigits(b, r, c, num).board == Branches(b, r, c, num)[0]
    decreases EmptyCount(b), 0, 10 - num
  {
    if num < 10 {
      TryDigitsFindsFirst(b, r, c, num + 1);
      if IsSafe(b, r, c, num) {
        var b' := Set(b, r, c, num);
        SolveRecursiveFindsFirst(b');
        TryDigitsStep(b, r, c, num);
        FirstOfAppend(Solutions(b'), Branches(b, r, c, num + 1));
      }
    }
  }

  /** One safe digit of the in-place loop: its subtree's result if it
      solved, otherwise the loop resumed on the restored board. */
  lemma TryDigitsStep(b: Board, r: int, c: int, num: int)
    requires InGrid(r, c) && Get(b, r, c) == 0 && 1 <= num <= 9 && IsSafe(b, r, c, num)
    ensures var child := SolveRecursive(Set(b, r, c, num));
      TryDigits(b, r, c, num) == if child.solved then child else TryDigits(b, r, c, num + 1)
  {
    SetRestores(b, r, c, num);
  }

  lemma {:induction false} SolveSequentiallyFindsFirst(b: Board, r: int, c: int, num: int)
    requires InGrid(r, c) && Get(b, r, c) == 0 && 1 <= num <= 10
    ensures SolveSequentially(b, r, c, num) == FirstOf(Branches(b, r, c, num))
    decreases 10 - num
  {
    if num < 10 {
      SolveSequentiallyFindsFirst(b, r, c, num + 1);
      if IsSafe(b, r, c, num) {
        SolveRecursiveFindsFirst(Set(b, r, c, num));
        FirstOfAppend(Solutions(Set(b, r, c, num)), Branches(b, r, c, num + 1));
      }
    }
  }

  /** Whatever its depth, a task returns the first leaf of the walk from its
      board, or null when the walk has none. */
  lemma {:induction false} ComputeFindsFirst(t: Task)
    ensures Compute(t) == FirstOf(Solutions(t.board))
    decreases EmptyCount(t.board), 1
  {
    match FirstEmpty(t.board)
    case None =>
    case Some(cell) =>
      if t.depth >= Threshold {
        SolveSequentiallyFindsFirst(t.board, cell.row, cell.col, 1);
      } else {
        ForkJoinFindsFirst(t.board, cell.row, cell.col, t.depth, 1);
      }
  }

  /** Joining the children spawned for digits num..9 in spawn order yields
      the first leaf below those digits. */
  lemma {:induction false} ForkJoinFindsFirst(b: Board, r: int, c: int, depth: int, num: int)
    requires InGrid(r, c) && Get(b, r, c) == 0 && 1 <= num <= 10
    ensures Join(b, Fork(b, r, c, depth, num)) == FirstOf(Branches(b, r, c, num))
    decreases EmptyCount(b), 0, 10 - num
  {
    if num < 10 {
      ForkJoinFindsFirst(b, r, c, depth, num + 1);
      ForkStep(b, r, c, depth, num);
      BranchesStep(b, r, c, num);
      if IsSafe(b, r, c, num) {
        ComputeFindsFirst(Task(Set(b, r, c, num), depth + 1));
        FirstOfAppend(Solutions(Set(b, r, c, num)), Branches(b, r, c, num + 1));
      }
    }
  }

  /** The parallel solver and the sequential solver with target 0 agree:
      both fail, or both return the same board, the first leaf of the
      walk. */
  lemma ParallelAgreesWithSequential(b: Board)
    ensures ParallelSolve(b).Some? <==> SequentialSolver.Solve(b, 0).solved
    ensures ParallelSolve(b).Some? ==> ParallelSolve(b).value == SequentialSolver.Solve(b, 0).board
  {
    ComputeFindsFirst(Task(b, 0));
    SequentialSolver.SolveReturnsKthSolution(b, 0);
  }

  /** A child at depth >= Threshold does not fork: its result is the
      sequential search's. */
  lemma DeepTaskSearchesSequentially(t: Task)
    requires t.depth >= Threshold && FirstEmpty(t.board).Some?
    ensures var cell := FirstEmpty(t.board).value;
      Compute(t) == SolveSequentially(t.board, cell.row, cell.col, 1)
  {
  }
}
