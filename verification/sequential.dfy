/** SequentialSudokuSolver: single-threaded backtracking with a "skip k
    complete assignments" counter.

    The Java solver mutates one board in place and keeps the counter
    `solutionsFoundCount` in a field. Here both are threaded through the
    recursion: every call takes the board and the counter as they are on
    entry and returns them as they are on exit, together with the boolean
    the Java method returns. */
module SequentialSolver {
  import opened SudokuBoard
  import opened Search

  /** The number of values a Java `int` takes. */
  const IntModulus: int := 0x1_0000_0000

  /** The range of a Java `int`: the target index and the found-counter are
      both `int` fields. */
  predicate IsInt32(x: int) {
    -0x8000_0000 <= x < 0x8000_0000
  }

  /** `solutionsFoundCount++` on a Java `int`: two's-complement wrap-around
      takes 2^31 - 1 to -2^31. */
  function Inc32(x: int): (y: int)
    requires IsInt32(x)
    ensures IsInt32(y)
    ensures x < 0x7fff_ffff ==> y == x + 1
  {
    if x == 0x7fff_ffff then -0x8000_0000 else x + 1
  }

  /** The increment is x + 1 reduced into the `int` range. */
  lemma Inc32Wraps(x: int)
    requires IsInt32(x)
    ensures (Inc32(x) - x - 1) % IntModulus == 0
  {
  }

  /** How many increments take the counter from `found` to `target`: zero
      exactly when they are equal, and below 2^32, because the counter wraps
      round. For fixed target, different counters have different
      distances. */
  function Distance(target: int, found: int): (d: nat)
    requires IsInt32(target) && IsInt32(found)
    ensures d < IntModulus
    ensures d == 0 <==> found == target
  {
    if found <= target then target - found else target - found + IntModulus
  }

  /** The distance is the difference target - found reduced mod 2^32. */
  lemma DistanceIsDifference(target: int, found: int)
    requires IsInt32(target) && IsInt32(found)
    ensures (target - found - Distance(target, found)) % IntModulus == 0
  {
  }

  /** One increment of the counter past a board that was not the target
      brings it one step closer to the target. */
  lemma CountOneMore(target: int, found: int)
    requires IsInt32(target) && IsInt32(found) && found != target
    ensures Distance(target, Inc32(found)) == Distance(target, found) - 1
  {
  }

  /** The distance to a target fixes the counter. */
  lemma DistanceInjective(target: int, f1: int, f2: int)
    requires IsInt32(target) && IsInt32(f1) && IsInt32(f2)
    ensures Distance(target, f1) == Distance(target, f2) ==> f1 == f2
  {
  }

  /** What a `solveRecursive` frame leaves behind: its result, the board and
      the found-counter. */
  datatype State = State(solved: bool, board: Board, found: int)

  /** `solveRecursive`: at a full board, accept it if it is the target-th one
      reached, otherwise count it and backtrack; else try the digits at the
      first empty cell. */
  function SolveRecursive(b: Board, target: int, found: int): (s: State)
    requires IsInt32(target) && IsInt32(found)
    decreases EmptyCount(b), 1
    ensures !s.solved ==> s.board == b
    ensures s.solved ==> Full(s.board) && Extends(b, s.board)
    ensures IsInt32(s.found)
    ensures s.solved ==> s.found == target
  {
    match FirstEmpty(b)
    case None =>
      if found == target then State(true, b, found) else State(false, b, Inc32(found))
    case Some(cell) =>
      TryDigits(b, cell.row, cell.col, 1, target, found)
  }

  /** The `for (num = num..9)` loop at the empty cell (r, c): place a safe
      digit, recurse, and on failure write 0 back before the next digit. */
  function TryDigits(b: Board, r: int, c: int, num: int, target: int, found: int): (s: State)
    requires InGrid(r, c) && Get(b, r, c) == 0 && 1 <= num <= 10
    requires IsInt32(target) && IsInt32(found)
    decreases EmptyCount(b), 0, 10 - num
    ensures !s.solved ==> s.board == b
    ensures s.solved ==> Full(s.board) && Extends(b, s.board)
    ensures IsInt32(s.found)
    ensures s.solved ==> s.found == target
  {
    if num == 10 then State(false, b, found)
    else if IsSafe(b, r, c, num) then
      var child := SolveRecursive(Set(b, r, c, num), target, found);
      if child.solved then
        PlacedExtends(b, r, c, num, child.board);
        child
      else
        SetRestores(b, r, c, num);
        TryDigits(Set(child.board, r, c, 0), r, c, num + 1, target, child.found)
    else TryDigits(b, r, c, num + 1, target, found)
  }

  /** `new SequentialSudokuSolver(board, observer, target).solve()`: the
      counter starts at 0. On success the board is the solved one
      (`getSolvedBoard`); on failure it is the input, untouched. */
  function Solve(b: Board, target: int): (s: State)
    requires IsInt32(target)
    ensures s.solved ==> Full(s.board) && Extends(b, s.board)
    ensures !s.solved ==> s.board == b
    ensures Full(b) ==> s.board == b && (s.solved <==> target == 0)
  {
    SolveRecursive(b, target, 0)
  }

  /** Skip semantics of one frame: entered with counter `found`, the frame
      succeeds exactly when the leaf at which the counter reaches the target
      lies among its own leaves, and then returns that leaf; otherwise it
      counts all of its leaves, with 32-bit wrap-around. */
  lemma {:induction false} SolveRecursiveSkips(b: Board, target: int, found: int)
    requires IsInt32(target) && IsInt32(found)
    ensures var s := SolveRecursive(b, target, found);
      var d := Distance(target, found);
      && (s.solved <==> d < |Solutions(b)|)
      && (s.solved ==> s.board == Solutions(b)[d])
      && (!s.solved ==> Distance(target, s.found) == d - |Solutions(b)|)
    decreases EmptyCount(b), 1
  {
    match FirstEmpty(b)
    case None =>
      if found != target {
        CountOneMore(target, found);
      }
    case Some(cell) =>
      TryDigitsSkips(b, cell.row, cell.col, 1, target, found);
  }

  lemma {:induction false} TryDigitsSkips(b: Board, r: int, c: int, num: int, target: int, found: int)
    requires InGrid(r, c) && Get(b, r, c) == 0 && 1 <= num <= 10
    requires IsInt32(target) && IsInt32(found)
    ensures var s := TryDigits(b, r, c, num, target, found);
      var sols := Branches(b, r, c, num);
      var d := Distance(target, found);
      && (s.solved <==> d < |sols|)
      && (s.solved ==> s.board == sols[d])
      && (!s.solved ==> Distance(target, s.found) == d - |sols|)
    decreases EmptyCount(b), 0, 10 - num, 2
  {
    if num < 10 {
      if IsSafe(b, r, c, num) {
        SafeDigitSkips(b, r, c, num, target, found);
      } else {
        BranchesStep(b, r, c, num);
        TryDigitsSkips(b, r, c, num + 1, target, found);
      }
    }
  }

  /** The skip rule at a safe digit: the target is met within its subtree,
      or the subtree's leaves are counted and the later digits take over. */
  lemma {:induction false} SafeDigitSkips(b: Board, r: int, c: int, num: int, target: int, found: int)
    requires InGrid(r, c) && Get(b, r, c) == 0 && 1 <= num <= 9 && IsSafe(b, r, c, num)
    requires IsInt32(target) && IsInt32(found)
    ensures var s := TryDigits(b, r, c, num, target, found);
      var sols := Branches(b, r, c, num);
      var d := Distance(target, found);
      && (s.solved <==> d < |sols|)
      && (s.solved ==> s.board == sols[d])
      && (!s.solved ==> Distance(target, s.found) == d - |sols|)
    decreases EmptyCount(b), 0, 10 - num, 1
  {
    var b' := Set(b, r, c, num);
    SolveRecursiveSkips(b', target, found);
    TryDigitsStep(b, r, c, num, target, found);
    BranchesStep(b, r, c, num);
    var child := SolveRecursive(b', target, found);
    if !child.solved {
      TryDigitsSkips(b, r, c, num + 1, target, child.found);
    }
    SafeDigitJoin(b, r, c, num, target, found);
  }

  /** The two halves of `SafeDigitSkips`, put together once the subtree and
      the later digits have been accounted for. */
  lemma SafeDigitJoin(b: Board, r: int, c: int, num: int, target: int, found: int)
    requires InGrid(r, c) && Get(b, r, c) == 0 && 1 <= num <= 9 && IsSafe(b, r, c, num)
    requires IsInt32(target) && IsInt32(found)
    requires var child := SolveRecursive(Set(b, r, c, num), target, found);
      var sub := Solutions(Set(b, r, c, num));
      var d := Distance(target, found);
      && (child.solved <==> d < |sub|)
      && (child.solved ==> child.board == sub[d])
      && (!child.solved ==> Distance(target, child.found) == d - |sub|)
      && TryDigits(b, r, c, num, target, found) ==
         (if child.solved then child else TryDigits(b, r, c, num + 1, target, child.found))
      && Branches(b, r, c, num) == sub + Branches(b, r, c, num + 1)
      && (!child.solved ==>
            var later := TryDigits(b, r, c, num + 1, target, child.found);
            var rest := Branches(b, r, c, num + 1);
            var dc := Distance(target, child.found);
            && (later.solved <==> dc < |rest|)
            && (later.solved ==> later.board == rest[dc])
            && (!later.solved ==> Distance(target, later.found) == dc - |rest|))
    ensures var s := TryDigits(b, r, c, num, target, found);
      var sols := Branches(b, r, c, num);
      var d := Distance(target, found);
      && (s.solved <==> d < |sols|)
      && (s.solved ==> s.board == sols[d])
      && (!s.solved ==> Distance(target, s.found) == d - |sols|)
  {
    var child := SolveRecursive(Set(b, r, c, num), target, found);
    var s := TryDigits(b, r, c, num, target, found);
    var sub := Solutions(Set(b, r, c, num));
    var rest := Branches(b, r, c, num + 1);
    var d := Distance(target, found);
    if child.solved {
      JoinSkips(sub, rest, d, child, child, s, 0, 0);
    } else {
      var later := TryDigits(b, r, c, num + 1, target, child.found);
      JoinSkips(sub, rest, d, child, later, s, Distance(target, child.found), Distance(target, s.found));
    }
  }

  /** The skip rule composes over `sub + rest`: a frame whose first part
      reports against `sub` and whose continuation reports against `rest`
      reports against both together. `dc` and `ds` are the distances left
      after the first part and after the whole frame. */
  lemma JoinSkips(sub: seq<Board>, rest: seq<Board>, d: nat, child: State, later: State, s: State, dc: int, ds: int)
    requires child.solved <==> d < |sub|
    requires child.solved ==> child.board == sub[d]
    requires !child.solved ==> dc == d - |sub|
    requires s == if child.solved then child else later
    requires !child.solved ==> (later.solved <==> dc < |rest|)
    requires !child.solved && later.solved ==> later.board == rest[dc]
    requires !child.solved && !later.solved ==> ds == dc - |rest|
    ensures s.solved <==> d < |sub + rest|
    ensures s.solved ==> s.board == (sub + rest)[d]
    ensures !s.solved ==> ds == d - |sub + rest|
  {
  }

  /** One safe digit of the loop: the subtree's result if it solved,
      otherwise the loop resumed on the restored board with the subtree's
      count. */
  lemma TryDigitsStep(b: Board, r: int, c: int, num: int, target: int, found: int)
    requires InGrid(r, c) && Get(b, r, c) == 0 && 1 <= num <= 9 && IsSafe(b, r, c, num)
    requires IsInt32(target) && IsInt32(found)
    ensures var child := SolveRecursive(Set(b, r, c, num), target, found);
      TryDigits(b, r, c, num, target, found) ==
        if child.solved then child else TryDigits(b, r, c, num + 1, target, child.found)
  {
    SetRestores(b, r, c, num);
  }

  /** `solve()` on a fresh solver with target k succeeds exactly when the
      walk has more than i leaves, and then returns leaf i (counting from 0),
      where i is k for a non-negative target. The counter is a Java `int`:
      for a negative k it climbs to 2^31 - 1, wraps to -2^31 and meets k at
      leaf 2^32 + k. */
  lemma SolveReturnsKthSolution(b: Board, k: int)
    requires IsInt32(k)
    ensures var i := if k >= 0 then k else k + IntModulus;
      && (Solve(b, k).solved <==> i < |Solutions(b)|)
      && (Solve(b, k).solved ==> Solve(b, k).board == Solutions(b)[i])
  {
    SolveRecursiveSkips(b, k, 0);
  }

  /** A solved result from a consistent input is a valid Sudoku grid that
      keeps every given digit. */
  lemma SolveIsValid(b: Board, k: int)
    requires IsInt32(k)
    requires Consistent(b)
    requires Solve(b, k).solved
    ensures Consistent(Solve(b, k).board) && Full(Solve(b, k).board) && Extends(b, Solve(b, k).board)
  {
    SolveReturnsKthSolution(b, k);
    SolutionsAreCompletions(b);
    CompletionOfConsistent(b, Solve(b, k).board);
  }
}
