/** MultiSolutionSolver: the same depth-first walk, recording every complete
    board it reaches until the list holds `max` boards.

    The Java `solve(b, max)` mutates the working board `b` and appends to the
    field `solutions`; here both are threaded through the recursion. */
module MultiSolutionSolver {
  import opened SudokuBoard
  import opened Search
  import opened SequentialSolver

  /** The working board and the solutions list after a `solve` frame. */
  datatype Walk = Walk(board: Board, found: seq<Board>)

  /** The number of leaves a frame may still add: what is left of the cap,
      and never more than there are. */
  function Room(max: int, have: int, available: nat): (n: nat)
    ensures n <= available
    ensures have < max ==> n <= max - have
    ensures have < max ==> n == available || n == max - have
    ensures have >= max ==> n == 0
  {
    if have >= max then 0 else if max - have < available then max - have else available
  }

  /** `solve(b, max)`: stop at once when the cap is met; at a full board
      record a copy of it; otherwise try the digits at the first empty cell. */
  function SolveCapped(b: Board, max: int, found: seq<Board>): (w: Walk)
    decreases EmptyCount(b), 1
    ensures w.board == b
    ensures |found| <= |w.found| && w.found[..|found|] == found
  {
    if |found| >= max then Walk(b, found)
    else
      match FirstEmpty(b)
      case None => Walk(b, found + [b])
      case Some(cell) => TryDigits(b, cell.row, cell.col, 1, max, found)
  }

  /** The digit loop: place, recurse, unset, and stop as soon as the list is
      full. */
  function TryDigits(b: Board, r: int, c: int, num: int, max: int, found: seq<Board>): (w: Walk)
    requires InGrid(r, c) && Get(b, r, c) == 0 && 1 <= num <= 10
    decreases EmptyCount(b), 0, 10 - num
    ensures w.board == b
    ensures |found| <= |w.found| && w.found[..|found|] == found
  {
    if num == 10 then Walk(b, found)
    else if IsSafe(b, r, c, num) then
      var child := SolveCapped(Set(b, r, c, num), max, found);
      SetRestores(b, r, c, num);
      var restored := Set(child.board, r, c, 0);
      if |child.found| >= max then Walk(restored, child.found)
      else TryDigits(restored, r, c, num + 1, max, child.found)
    else TryDigits(b, r, c, num + 1, max, found)
  }

  /** `findAll(max)`: clears the list and walks a copy of the board, so the
      caller's board is never touched and calls never accumulate. */
  function FindAll(b: Board, max: int): (sols: seq<Board>)
    ensures |sols| <= max || sols == []
    ensures |sols| <= |Solutions(b)|
    ensures forall s | s in sols :: Full(s) && Extends(b, s)
  {
    var sols := SolveCapped(b, max, []).found;
    FindAllIsPrefix(b, max);
    LeavesFullAndExtend(b);
    assert forall s | s in sols :: s in Solutions(b);
    sols
  }

  /** Every leaf of the walk, and so every board `solve` records, is full
      and keeps the puzzle's digits. */
  lemma LeavesFullAndExtend(b: Board)
    ensures forall s | s in Solutions(b) :: Full(s) && Extends(b, s)
  {
    SolutionsAreCompletions(b);
  }

  /** A frame entered with a list of length < max appends the first leaves of
      its subtree, as many as fit. */
  lemma {:induction false} SolveCappedAppends(b: Board, max: int, found: seq<Board>)
    ensures SolveCapped(b, max, found).found == found + Solutions(b)[..Room(max, |found|, |Solutions(b)|)]
    decreases EmptyCount(b), 1
  {
    var sols := Solutions(b);
    if |found| >= max {
      assert sols[..0] == [];
    } else {
      match FirstEmpty(b)
      case None =>
        assert sols[..Room(max, |found|, |sols|)] == [b];
      case Some(cell) =>
        TryDigitsAppends(b, cell.row, cell.col, 1, max, found);
    }
  }

  lemma {:induction false} TryDigitsAppends(b: Board, r: int, c: int, num: int, max: int, found: seq<Board>)
    requires InGrid(r, c) && Get(b, r, c) == 0 && 1 <= num <= 10
    requires |found| < max
    ensures TryDigits(b, r, c, num, max, found).found ==
      found + Branches(b, r, c, num)[..Room(max, |found|, |Branches(b, r, c, num)|)]
    decreases EmptyCount(b), 0, 10 - num, 1
  {
    if num < 10 {
      if IsSafe(b, r, c, num) {
        SafeDigitAppends(b, r, c, num, max, found);
      } else {
        BranchesStep(b, r, c, num);
        TryDigitsAppends(b, r, c, num + 1, max, found);
      }
    } else {
      assert found + [] == found;
    }
  }

  /** The safe-digit case of `TryDigitsAppends`: the subtree of `num` fills
      the list first, then the later digits fill what room is left. */
  lemma {:induction false} SafeDigitAppends(b: Board, r: int, c: int, num: int, max: int, found: seq<Board>)
    requires InGrid(r, c) && Get(b, r, c) == 0 && 1 <= num <= 9 && IsSafe(b, r, c, num)
    requires |found| < max
    ensures TryDigits(b, r, c, num, max, found).found ==
      found + Branches(b, r, c, num)[..Room(max, |found|, |Branches(b, r, c, num)|)]
    decreases EmptyCount(b), 0, 10 - num, 0
  {
    var b' := Set(b, r, c, num);
    var child := SolveCapped(b', max, found);
    var head, tail := Solutions(b'), Branches(b, r, c, num + 1);
    SolveCappedAppends(b', max, found);
    TryDigitsStep(b, r, c, num, max, found);
    if |child.found| < max {
      TryDigitsAppends(b, r, c, num + 1, max, child.found);
    }
    AppendSlices(found, head, tail, max, child.found, TryDigits(b, r, c, num, max, found).found);
  }

  /** One safe digit of the loop: stop with the restored board once the
      subtree has filled the list, otherwise resume the loop on it. */
  lemma TryDigitsStep(b: Board, r: int, c: int, num: int, max: int, found: seq<Board>)
    requires InGrid(r, c) && Get(b, r, c) == 0 && 1 <= num <= 9 && IsSafe(b, r, c, num)
    ensures var child := SolveCapped(Set(b, r, c, num), max, found);
      TryDigits(b, r, c, num, max, found) ==
        if |child.found| >= max then Walk(b, child.found) else TryDigits(b, r, c, num + 1, max, child.found)
  {
    SetRestores(b, r, c, num);
  }

  /** Taking what fits of `head`, then (if room remains) what fits of `tail`,
      is taking what fits of `head + tail`. */
  lemma AppendSlices(found: seq<Board>, head: seq<Board>, tail: seq<Board>,
                     max: int, child: seq<Board>, res: seq<Board>)
    ensures
      && |found| < max
      && child == found + head[..Room(max, |found|, |head|)]
      && (|child| >= max ==> res == child)
      && (|child| < max ==> res == child + tail[..Room(max, |child|, |tail|)])
      ==> res == found + (head + tail)[..Room(max, |found|, |head + tail|)]
  {
    var all := head + tail;
    if |found| < max && child == found + head[..Room(max, |found|, |head|)] {
      if |child| >= max {
        assert all[..Room(max, |found|, |all|)] == head[..Room(max, |found|, |head|)];
      } else {
        assert Room(max, |found|, |head|) == |head|;
        assert all[..Room(max, |found|, |all|)] == head + tail[..Room(max, |child|, |tail|)];
      }
    }
  }

  /** `findAll(max)` returns the first min(max, number of leaves) leaves of
      the walk, in the order it reaches them. */
  lemma FindAllIsPrefix(b: Board, max: int)
    ensures var sols := Solutions(b);
      SolveCapped(b, max, []).found == sols[..Room(max, 0, |sols|)]
  {
    SolveCappedAppends(b, max, []);
  }

  /** The i-th recorded board is the one the sequential solver returns with
      target i; the list holds no duplicates; and when the puzzle has at
      most `max` solutions the list holds every one of them. */
  lemma FindAllMatchesSkipOrder(b: Board, max: int)
    requires IsInt32(max)
    ensures forall i | 0 <= i < |FindAll(b, max)| :: Solve(b, i).solved && Solve(b, i).board == FindAll(b, max)[i]
    ensures forall i, j | 0 <= i < j < |FindAll(b, max)| :: FindAll(b, max)[i] != FindAll(b, max)[j]
    ensures |Solutions(b)| <= max ==> FindAll(b, max) == Solutions(b)
  {
    var sols := FindAll(b, max);
    FindAllIsPrefix(b, max);
    SolutionsDistinct(b);
    forall i | 0 <= i < |sols|
      ensures Solve(b, i).solved && Solve(b, i).board == sols[i]
    {
      SolveReturnsKthSolution(b, i);
    }
  }

  /** Every board in the list is a completion of the input, and every
      completion is in the list unless the cap cut the walk short. */
  lemma FindAllListsCompletions(b: Board, max: int, s: Board)
    requires |Solutions(b)| <= max
    ensures s in FindAll(b, max) <==> IsCompletion(b, s)
  {
    FindAllIsPrefix(b, max);
    SolutionsCharacterised(b, s);
  }
}
