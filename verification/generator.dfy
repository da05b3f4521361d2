/** SudokuGenerator: a random complete grid, then random cells cleared.

    The Java class draws from one shared `java.util.Random`. Here the
    random source is a parameter: a stream `rng` of natural numbers and a
    cursor `k` saying how many draws were already consumed. A call
    `nextInt(bound)` at cursor k yields `rng(k) % bound` and moves the
    cursor on by one. Every property below holds for every stream, i.e.
    for every sequence of values the random generator might return. */
module Generator {
  import opened SudokuBoard
  import opened Search

  /** The random source: draw number k is `rng(k)`. */
  type Draws = nat -> nat

  /** `nextInt(bound)` at draw k. */
  function NextInt(rng: Draws, k: nat, bound: int): (v: int)
    requires bound > 0
    ensures 0 <= v < bound
  {
    rng(k) % bound
  }

  // ---------------------------------------------------------------------
  // shuffleArray
  // ---------------------------------------------------------------------

  /** The swap in the loop body: position `index` receives the element at
      position i, and position i the element that was at `index`. */
  function Swap(ar: seq<int>, index: int, i: int): (res: seq<int>)
    requires 0 <= index < |ar| && 0 <= i < |ar|
    ensures |res| == |ar|
  {
    ar[index := ar[i]][i := ar[index]]
  }

  lemma SwapPermutes(ar: seq<int>, index: int, i: int)
    requires 0 <= index < |ar| && 0 <= i < |ar|
    ensures multiset(Swap(ar, index, i)) == multiset(ar)
  {
    var a := ar[index := ar[i]];
    assert multiset(a) == multiset(ar) - multiset{ar[index]} + multiset{ar[i]};
    assert a[i] == (if i == index then ar[i] else ar[i]);
  }

  /** The swap exchanges the two positions and leaves every other position
      as it was. */
  lemma SwapExchanges(ar: seq<int>, index: int, i: int)
    requires 0 <= index < |ar| && 0 <= i < |ar|
    ensures Swap(ar, index, i)[index] == ar[i] && Swap(ar, index, i)[i] == ar[index]
    ensures forall p | 0 <= p < |ar| && p != index && p != i :: Swap(ar, index, i)[p] == ar[p]
  {
  }

  /** The state after shuffling: the array and the draw cursor. */
  datatype Shuffled = Shuffled(digits: seq<int>, cursor: nat)

  /** The `shuffleArray` loop from position i down to 1. */
  function ShuffleDown(ar: seq<int>, i: int, rng: Draws, k: nat): (res: Shuffled)
    requires 0 <= i < |ar|
    decreases i
    ensures |res.digits| == |ar|
    ensures res.cursor == k + i
  {
    if i == 0 then Shuffled(ar, k)
    else ShuffleDown(Swap(ar, NextInt(rng, k, i + 1), i), i - 1, rng, k + 1)
  }

  /** `shuffleArray(ar)`: for i from |ar| - 1 down to 1, swap position i
      with a position drawn uniformly from 0..i. */
  function Shuffle(ar: seq<int>, rng: Draws, k: nat): (res: Shuffled)
    ensures |res.digits| == |ar|
    ensures res.cursor == k + (if |ar| == 0 then 0 else |ar| - 1)
  {
    if |ar| == 0 then Shuffled(ar, k) else ShuffleDown(ar, |ar| - 1, rng, k)
  }

  /** Whatever the draws, the loop from i down permutes the array and
      consumes one draw per position. */
  lemma {:induction false} ShuffleDownPermutes(ar: seq<int>, i: int, rng: Draws, k: nat)
    requires 0 <= i < |ar|
    ensures |ShuffleDown(ar, i, rng, k).digits| == |ar|
    ensures multiset(ShuffleDown(ar, i, rng, k).digits) == multiset(ar)
    ensures ShuffleDown(ar, i, rng, k).cursor == k + i
    decreases i
  {
    if i > 0 {
      var index := NextInt(rng, k, i + 1);
      var swapped := Swap(ar, index, i);
      assert ShuffleDown(ar, i, rng, k) == ShuffleDown(swapped, i - 1, rng, k + 1);
      SwapPermutes(ar, index, i);
      ShuffleDownPermutes(swapped, i - 1, rng, k + 1);
    }
  }

  /** The loop from i down never touches the positions above i. */
  lemma {:induction false} ShuffleDownFrame(ar: seq<int>, i: int, rng: Draws, k: nat)
    requires 0 <= i < |ar|
    ensures |ShuffleDown(ar, i, rng, k).digits| == |ar|
    ensures forall p | i < p < |ar| :: ShuffleDown(ar, i, rng, k).digits[p] == ar[p]
    decreases i
  {
    if i > 0 {
      var swapped := Swap(ar, NextInt(rng, k, i + 1), i);
      ShuffleDownFrame(swapped, i - 1, rng, k + 1);
    }
  }

  /** `shuffleArray` yields a permutation of its input for every sequence
      of random indices, and draws exactly |ar| - 1 of them. */
  lemma ShufflePermutes(ar: seq<int>, rng: Draws, k: nat)
    ensures |Shuffle(ar, rng, k).digits| == |ar|
    ensures multiset(Shuffle(ar, rng, k).digits) == multiset(ar)
    ensures Shuffle(ar, rng, k).cursor == k + (if |ar| == 0 then 0 else |ar| - 1)
  {
    if |ar| > 0 {
      ShuffleDownPermutes(ar, |ar| - 1, rng, k);
    }
  }

  /** The first draw picks the final occupant of the last position: after
      swapping position |ar| - 1 with the drawn index, no later iteration
      touches that position again. */
  lemma ShuffleLastFromFirstDraw(ar: seq<int>, rng: Draws, k: nat)
    requires |ar| >= 2
    ensures |Shuffle(ar, rng, k).digits| == |ar| && Shuffle(ar, rng, k).digits[|ar| - 1] == ar[rng(k) % |ar|]
  {
    var i := |ar| - 1;
    var swapped := Swap(ar, NextInt(rng, k, i + 1), i);
    ShuffleDownFrame(swapped, i - 1, rng, k + 1);
  }

  /** The digit array `{1, 2, ..., 9}` of `fillBoard`. */
  const Digits: seq<int> := [1, 2, 3, 4, 5, 6, 7, 8, 9]

  /** The digit array holds the digits 1..9 and nothing else. */
  predicate AllDigits(ar: seq<int>) {
    && (forall p | 0 <= p < |ar| :: 1 <= ar[p] <= 9)
    && (forall n | 1 <= n <= 9 :: n in ar)
  }

  lemma DigitsAreAllDigits()
    ensures AllDigits(Digits)
  {
    forall n | 1 <= n <= 9
      ensures n in Digits
    {
      assert Digits[n - 1] == n;
    }
  }

  /** A permutation of the digits is again a list of all digits. */
  lemma PermutedDigits(a: seq<int>, d: seq<int>)
    requires AllDigits(a) && multiset(d) == multiset(a)
    ensures AllDigits(d)
  {
    forall p | 0 <= p < |d|
      ensures 1 <= d[p] <= 9
    {
      assert d[p] in multiset(d);
    }
    forall n | 1 <= n <= 9
      ensures n in d
    {
      assert n in a;
      assert n in multiset(a);
      assert n in multiset(d);
    }
  }

  /** Shuffling the digit array keeps every digit and adds none, so the
      loop of `fillBoard` tries only digits, and every one of 1..9, at each
      cell. */
  lemma ShuffledDigits(ar: seq<int>, rng: Draws, k: nat)
    requires AllDigits(ar)
    ensures AllDigits(Shuffle(ar, rng, k).digits)
    ensures k <= Shuffle(ar, rng, k).cursor
  {
    ShufflePermutes(ar, rng, k);
    PermutedDigits(ar, Shuffle(ar, rng, k).digits);
  }

  // ---------------------------------------------------------------------
  // fillBoard
  // ---------------------------------------------------------------------

  /** What `fillBoard` leaves behind: its result, the board and the draw
      cursor. */
  datatype Fill = Fill(filled: bool, board: Board, cursor: nat)

  /** `fillBoard`: at the first empty cell in row-major order, try the
      digits in shuffled order; a full board is a success. */
  function FillBoard(b: Board, rng: Draws, k: nat): (f: Fill)
    decreases EmptyCount(b), 1
    ensures !f.filled ==> f.board == b
    ensures f.filled ==> Full(f.board) && Extends(b, f.board)
    ensures k <= f.cursor
  {
    match FirstEmpty(b)
    case None => Fill(true, b, k)
    case Some(cell) =>
      var order := Shuffle(Digits, rng, k);
      DigitsAreAllDigits();
      ShuffledDigits(Digits, rng, k);
      TryNums(b, cell.row, cell.col, order.digits, 0, rng, order.cursor)
  }

  /** The `for (int num : nums)` loop, from position i of the array on:
      place a safe digit and recurse; on failure write 0 back and go on
      with the next digit; after the last digit report failure. */
  function TryNums(b: Board, r: int, c: int, nums: seq<int>, i: nat, rng: Draws, k: nat): (f: Fill)
    requires InGrid(r, c) && Get(b, r, c) == 0
    requires forall p | 0 <= p < |nums| :: 1 <= nums[p] <= 9
    decreases EmptyCount(b), 0, |nums| - i
    ensures !f.filled ==> f.board == b
    ensures f.filled ==> Full(f.board) && Extends(b, f.board)
    ensures k <= f.cursor
  {
    if i >= |nums| then Fill(false, b, k)
    else if IsSafe(b, r, c, nums[i]) then
      var child := FillBoard(Set(b, r, c, nums[i]), rng, k);
      if child.filled then
        PlacedExtends(b, r, c, nums[i], child.board);
        child
      else
        SetRestores(b, r, c, nums[i]);
        TryNums(Set(child.board, r, c, 0), r, c, nums, i + 1, rng, child.cursor)
    else TryNums(b, r, c, nums, i + 1, rng, k)
  }

  /** One iteration of the digit loop, with the backtracking write folded
      away. */
  lemma TryNumsStep(b: Board, r: int, c: int, nums: seq<int>, i: nat, rng: Draws, k: nat)
    requires InGrid(r, c) && Get(b, r, c) == 0
    requires forall p | 0 <= p < |nums| :: 1 <= nums[p] <= 9
    requires i < |nums| && IsSafe(b, r, c, nums[i])
    ensures TryNums(b, r, c, nums, i, rng, k) ==
      if FillBoard(Set(b, r, c, nums[i]), rng, k).filled then FillBoard(Set(b, r, c, nums[i]), rng, k)
      else TryNums(b, r, c, nums, i + 1, rng, FillBoard(Set(b, r, c, nums[i]), rng, k).cursor)
  {
    SetRestores(b, r, c, nums[i]);
  }

  /** A successful fill is a completion of the board it started from: every
      digit it placed passed `isSafe`. */
  lemma {:induction false} FillBoardSound(b: Board, rng: Draws, k: nat)
    ensures FillBoard(b, rng, k).filled ==> IsCompletion(b, FillBoard(b, rng, k).board)
    decreases EmptyCount(b), 1
  {
    match FirstEmpty(b)
    case None =>
      assert Extends(b, b);
    case Some(cell) =>
      var order := Shuffle(Digits, rng, k);
      DigitsAreAllDigits();
      ShuffledDigits(Digits, rng, k);
      TryNumsSound(b, cell.row, cell.col, order.digits, 0, rng, order.cursor);
  }

  lemma {:induction false} TryNumsSound(b: Board, r: int, c: int, nums: seq<int>, i: nat, rng: Draws, k: nat)
    requires InGrid(r, c) && Get(b, r, c) == 0
    requires forall p | 0 <= p < |nums| :: 1 <= nums[p] <= 9
    ensures TryNums(b, r, c, nums, i, rng, k).filled ==> IsCompletion(b, TryNums(b, r, c, nums, i, rng, k).board)
    decreases EmptyCount(b), 0, |nums| - i
  {
    if i < |nums| {
      var n := nums[i];
      if IsSafe(b, r, c, n) {
        var child := FillBoard(Set(b, r, c, n), rng, k);
        FillBoardSound(Set(b, r, c, n), rng, k);
        TryNumsStep(b, r, c, nums, i, rng, k);
        if child.filled {
          CompletionStep(b, r, c, n, child.board);
        } else {
          TryNumsSound(b, r, c, nums, i + 1, rng, child.cursor);
        }
      } else {
        TryNumsSound(b, r, c, nums, i + 1, rng, k);
      }
    }
  }

  /** The fill never gives up on a completable board, whatever order the
      shuffles produce. */
  lemma {:induction false} FillBoardComplete(b: Board, rng: Draws, k: nat, s: Board)
    requires IsCompletion(b, s)
    ensures FillBoard(b, rng, k).filled
    decreases EmptyCount(b), 1
  {
    match FirstEmpty(b)
    case None =>
    case Some(cell) =>
      var order := Shuffle(Digits, rng, k);
      DigitsAreAllDigits();
      ShuffledDigits(Digits, rng, k);
      CompletionDigitSafe(b, cell.row, cell.col, s);
      var j := DigitPosition(order.digits, Get(s, cell.row, cell.col));
      TryNumsComplete(b, cell.row, cell.col, order.digits, 0, rng, order.cursor, s, j);
  }

  lemma DigitPosition(nums: seq<int>, n: int) returns (j: nat)
    requires n in nums
    ensures j < |nums| && nums[j] == n
  {
    j :| 0 <= j < |nums| && nums[j] == n;
  }

  /** If the completion's digit for (r, c) sits at position j >= i of the
      array, the loop from i fills the board. */
  lemma {:induction false} TryNumsComplete(b: Board, r: int, c: int, nums: seq<int>, i: nat, rng: Draws, k: nat, s: Board, j: nat)
    requires InGrid(r, c) && Get(b, r, c) == 0
    requires forall p | 0 <= p < |nums| :: 1 <= nums[p] <= 9
    requires IsCompletion(b, s) && i <= j < |nums| && nums[j] == Get(s, r, c)
    ensures TryNums(b, r, c, nums, i, rng, k).filled
    decreases EmptyCount(b), 0, |nums| - i
  {
    var n := nums[i];
    if i == j {
      CompletionDigitSafe(b, r, c, s);
      CompletionKeepsPlaced(b, r, c, s);
      FillBoardComplete(Set(b, r, c, n), rng, k, s);
      TryNumsStep(b, r, c, nums, i, rng, k);
    } else if IsSafe(b, r, c, n) {
      var child := FillBoard(Set(b, r, c, n), rng, k);
      TryNumsStep(b, r, c, nums, i, rng, k);
      if !child.filled {
        TryNumsComplete(b, r, c, nums, i + 1, rng, child.cursor, s, j);
      }
    } else {
      TryNumsComplete(b, r, c, nums, i + 1, rng, k, s, j);
    }
  }

  /** `fillBoard` succeeds exactly when the board can be completed, and then
      returns one of the completions the deterministic search enumerates
      (not necessarily the first: the digit order is random). */
  lemma FillBoardDecides(b: Board, rng: Draws, k: nat)
    ensures FillBoard(b, rng, k).filled <==> Solutions(b) != []
    ensures FillBoard(b, rng, k).filled ==> FillBoard(b, rng, k).board in Solutions(b)
  {
    var f := FillBoard(b, rng, k);
    FillBoardSound(b, rng, k);
    SolutionsAreCompletions(b);
    if f.filled {
      CompletionsAreSolutions(b, f.board);
    }
    if Solutions(b) != [] {
      assert Solutions(b)[0] in Solutions(b);
      FillBoardComplete(b, rng, k, Solutions(b)[0]);
    }
  }

  // ---------------------------------------------------------------------
  // The empty board can be filled
  // ---------------------------------------------------------------------

  /** How far row r of the pattern grid is rotated. */
  function Shift(r: int): (s: int)
    requires 0 <= r < 9
    ensures 0 <= s < 9
  {
    3 * (r % 3) + r / 3
  }

  /** x mod 9 for 0 <= x < 18. */
  function Wrap(x: int): int {
    if x >= 9 then x - 9 else x
  }

  /** A complete grid: row r holds 1..9 rotated left by Shift(r). */
  function PatternGrid(): (g: Board)
    ensures forall r, c | InGrid(r, c) :: Get(g, r, c) == Wrap(Shift(r) + c) + 1
  {
    var g := seq(81, k requires 0 <= k < 81 => (Shift(k / 9) + k % 9) % 9 + 1);
    assert forall r, c | InGrid(r, c) :: (r * 9 + c) / 9 == r && (r * 9 + c) % 9 == c;
    g
  }

  /** Two distinct cells of one unit get different pattern digits. */
  lemma PatternCellsDiffer(r1: int, c1: int, r2: int, c2: int)
    requires InGrid(r1, c1) && InGrid(r2, c2) && (r1, c1) != (r2, c2) && SameUnit(r1, c1, r2, c2)
    ensures Wrap(Shift(r1) + c1) != Wrap(Shift(r2) + c2)
  {
    if r1 == r2 {
    } else if c1 == c2 {
      assert Shift(r1) != Shift(r2);
    } else {
      assert r1 / 3 == r2 / 3 && c1 / 3 == c2 / 3;
    }
  }

  /** The pattern grid is full and satisfies every unit constraint, so it
      completes the empty board. */
  lemma PatternGridSolvesEmpty()
    ensures Full(PatternGrid()) && Consistent(PatternGrid())
    ensures IsCompletion(NewBoard(), PatternGrid())
  {
    var g := PatternGrid();
    forall r1, c1, r2, c2 |
      InGrid(r1, c1) && InGrid(r2, c2) && (r1, c1) != (r2, c2) && SameUnit(r1, c1, r2, c2) && Get(g, r1, c1) != 0
      ensures Get(g, r1, c1) != Get(g, r2, c2)
    {
      PatternCellsDiffer(r1, c1, r2, c2);
    }
    EmptyIsConsistent();
    CompletionOfConsistent(NewBoard(), g);
  }

  /** The empty board has no non-zero cell, hence no conflict. */
  lemma EmptyIsConsistent()
    ensures Consistent(NewBoard()) && forall s: Board :: Extends(NewBoard(), s)
  {
  }

  /** Filling the empty board always succeeds, whatever the draws. */
  lemma EmptyBoardFills(rng: Draws, k: nat)
    ensures FillBoard(NewBoard(), rng, k).filled
    ensures Consistent(FillBoard(NewBoard(), rng, k).board)
  {
    PatternGridSolvesEmpty();
    FillBoardComplete(NewBoard(), rng, k, PatternGrid());
    FillBoardSound(NewBoard(), rng, k);
    EmptyIsConsistent();
    CompletionOfConsistent(NewBoard(), FillBoard(NewBoard(), rng, k).board);
  }

  // ---------------------------------------------------------------------
  // removeCells
  // ---------------------------------------------------------------------

  /** What `removeCells` leaves behind: the board, the count still owed
      (0 once the loop has finished) and the draw cursor. */
  datatype Removal = Removal(board: Board, left: int, cursor: nat)

  /** `removeCells(board, count)`, run for at most `fuel` iterations: draw
      a row, then a column; if that cell is filled, clear it and count it
      down. */
  function RemoveCells(b: Board, count: int, rng: Draws, k: nat, fuel: nat): (res: Removal)
    decreases fuel
    ensures k <= res.cursor <= k + 2 * fuel
  {
    if count <= 0 || fuel == 0 then Removal(b, count, k)
    else
      var r := NextInt(rng, k, 9);
      var c := NextInt(rng, k + 1, 9);
      if Get(b, r, c) != 0 then RemoveCells(Set(b, r, c, 0), count - 1, rng, k + 2, fuel - 1)
      else RemoveCells(b, count, rng, k + 2, fuel - 1)
  }

  /** Clearing a cell keeps every other cell. */
  lemma ClearExtends(b: Board, r: int, c: int)
    requires InGrid(r, c)
    ensures Extends(Set(b, r, c, 0), b)
  {
    var b' := Set(b, r, c, 0);
    forall k | 0 <= k < 81 && b'[k] != 0
      ensures b[k] == b'[k]
    {
      assert k != r * 9 + c;
    }
  }

  /** `removeCells` only ever writes 0: every cell of the result is either
      the input's or empty. */
  lemma {:induction false} RemoveCellsOnlyClears(b: Board, count: int, rng: Draws, k: nat, fuel: nat)
    ensures Extends(RemoveCells(b, count, rng, k, fuel).board, b)
    decreases fuel
  {
    if count > 0 && fuel > 0 {
      var r := NextInt(rng, k, 9);
      var c := NextInt(rng, k + 1, 9);
      if Get(b, r, c) != 0 {
        var b' := Set(b, r, c, 0);
        assert RemoveCells(b, count, rng, k, fuel) == RemoveCells(b', count - 1, rng, k + 2, fuel - 1);
        RemoveCellsOnlyClears(b', count - 1, rng, k + 2, fuel - 1);
        ClearExtends(b, r, c);
        ExtendsTransitive(RemoveCells(b', count - 1, rng, k + 2, fuel - 1).board, b', b);
      } else {
        RemoveCellsOnlyClears(b, count, rng, k + 2, fuel - 1);
      }
    } else {
      assert Extends(b, b);
    }
  }

  /** One iteration of the removal loop. */
  lemma RemoveCellsStep(b: Board, count: int, rng: Draws, k: nat, fuel: nat)
    requires count > 0 && fuel > 0
    ensures var r, c := NextInt(rng, k, 9), NextInt(rng, k + 1, 9);
      RemoveCells(b, count, rng, k, fuel) ==
        if Get(b, r, c) != 0 then RemoveCells(Set(b, r, c, 0), count - 1, rng, k + 2, fuel - 1)
        else RemoveCells(b, count, rng, k + 2, fuel - 1)
  {
  }

  /** Each write clears a filled cell, so the number of empty cells grows
      by exactly the number of removals made. */
  lemma {:induction false} RemoveCellsCounts(b: Board, count: int, rng: Draws, k: nat, fuel: nat)
    ensures EmptyCount(RemoveCells(b, count, rng, k, fuel).board) == EmptyCount(b) + count - RemoveCells(b, count, rng, k, fuel).left
    decreases fuel
  {
    if count > 0 && fuel > 0 {
      var r := NextInt(rng, k, 9);
      var c := NextInt(rng, k + 1, 9);
      RemoveCellsStep(b, count, rng, k, fuel);
      if Get(b, r, c) != 0 {
        var b' := Set(b, r, c, 0);
        var rest := RemoveCells(b', count - 1, rng, k + 2, fuel - 1);
        assert EmptyCount(b') == EmptyCount(b) + 1;
        RemoveCellsCounts(b', count - 1, rng, k + 2, fuel - 1);
        assert RemoveCells(b, count, rng, k, fuel) == rest;
      } else {
        RemoveCellsCounts(b, count, rng, k + 2, fuel - 1);
      }
    }
  }

  /** Between 0 and `count` removals are made; a negative count makes the
      loop do nothing. */
  lemma {:induction false} RemoveCellsLeft(b: Board, count: int, rng: Draws, k: nat, fuel: nat)
    ensures count >= 0 ==> 0 <= RemoveCells(b, count, rng, k, fuel).left <= count
    ensures count < 0 ==> RemoveCells(b, count, rng, k, fuel).left == count
    decreases fuel
  {
    if count > 0 && fuel > 0 {
      var r := NextInt(rng, k, 9);
      var c := NextInt(rng, k + 1, 9);
      if Get(b, r, c) != 0 {
        RemoveCellsLeft(Set(b, r, c, 0), count - 1, rng, k + 2, fuel - 1);
      } else {
        RemoveCellsLeft(b, count, rng, k + 2, fuel - 1);
      }
    }
  }

  /** The loop only stops with removals still owed when every iteration
      was used, two draws each: it never stops early. */
  lemma {:induction false} RemoveCellsRunsOut(b: Board, count: int, rng: Draws, k: nat, fuel: nat)
    ensures RemoveCells(b, count, rng, k, fuel).left > 0 ==> RemoveCells(b, count, rng, k, fuel).cursor == k + 2 * fuel
    decreases fuel
  {
    if count > 0 && fuel > 0 {
      var r := NextInt(rng, k, 9);
      var c := NextInt(rng, k + 1, 9);
      if Get(b, r, c) != 0 {
        RemoveCellsRunsOut(Set(b, r, c, 0), count - 1, rng, k + 2, fuel - 1);
      } else {
        RemoveCellsRunsOut(b, count, rng, k + 2, fuel - 1);
      }
    }
  }

  /** Clearing cells never creates a conflict. */
  lemma ClearedConsistent(a: Board, b: Board)
    requires Extends(a, b) && Consistent(b)
    ensures Consistent(a)
  {
    forall r1, c1, r2, c2 |
      InGrid(r1, c1) && InGrid(r2, c2) && (r1, c1) != (r2, c2) && SameUnit(r1, c1, r2, c2) && Get(a, r1, c1) != 0
      ensures Get(a, r1, c1) != Get(a, r2, c2)
    {
      assert Get(b, r1, c1) != Get(b, r2, c2);
    }
  }

  // ---------------------------------------------------------------------
  // generate
  // ---------------------------------------------------------------------

  /** The difficulty table of `generate`: 1 is easy, 2 medium, anything
      else hard. */
  function RemovalCount(difficulty: int): int {
    if difficulty == 1 then 30 else if difficulty == 2 then 45 else 58
  }

  /** A run of `generate`: the board it returns (`puzzle`), the full grid
      it was carved from, the removals still owed when the iterations were
      used up, and the draw cursor. */
  datatype Generation = Generation(puzzle: Board, solution: Board, left: int, cursor: nat)

  /** `generate(difficulty)`: fill an empty board, then clear cells. */
  function Generate(difficulty: int, rng: Draws, k: nat, fuel: nat): (g: Generation)
    ensures Full(g.solution) && Extends(g.puzzle, g.solution)
    ensures g.left <= RemovalCount(difficulty)
  {
    var fill := FillBoard(NewBoard(), rng, k);
    EmptyBoardFills(rng, k);
    RemoveCellsOnlyClears(fill.board, RemovalCount(difficulty), rng, fill.cursor, fuel);
    RemoveCellsLeft(fill.board, RemovalCount(difficulty), rng, fill.cursor, fuel);
    var removal := RemoveCells(fill.board, RemovalCount(difficulty), rng, fill.cursor, fuel);
    Generation(removal.board, fill.board, removal.left, removal.cursor)
  }

  /** The generated board's digits are mutually consistent, and the full
      grid it was carved from is one of its solutions. */
  lemma GenerateSolvable(difficulty: int, rng: Draws, k: nat, fuel: nat)
    ensures Full(Generate(difficulty, rng, k, fuel).solution)
    ensures Consistent(Generate(difficulty, rng, k, fuel).solution)
    ensures Consistent(Generate(difficulty, rng, k, fuel).puzzle)
    ensures Generate(difficulty, rng, k, fuel).solution in Solutions(Generate(difficulty, rng, k, fuel).puzzle)
  {
    var g := Generate(difficulty, rng, k, fuel);
    var fill := FillBoard(NewBoard(), rng, k);
    EmptyBoardFills(rng, k);
    RemoveCellsOnlyClears(fill.board, RemovalCount(difficulty), rng, fill.cursor, fuel);
    ClearedConsistent(g.puzzle, g.solution);
    GridCompletesPuzzle(g.puzzle, g.solution);
    CompletionsAreSolutions(g.puzzle, g.solution);
  }

  /** A consistent full grid completes every board carved from it. */
  lemma GridCompletesPuzzle(puzzle: Board, grid: Board)
    requires Full(grid) && Consistent(grid) && Extends(puzzle, grid) && Consistent(puzzle)
    ensures IsCompletion(puzzle, grid)
  {
    CompletionOfConsistent(puzzle, grid);
  }

  /** When the removal loop finishes, the generated board has exactly as
      many empty cells as the difficulty asks for: 30, 45 or 58. */
  lemma GenerateRemovesCount(difficulty: int, rng: Draws, k: nat, fuel: nat)
    ensures 0 <= Generate(difficulty, rng, k, fuel).left <= RemovalCount(difficulty)
    ensures Generate(difficulty, rng, k, fuel).left == 0 ==>
      EmptyCount(Generate(difficulty, rng, k, fuel).puzzle) == if difficulty == 1 then 30 else if difficulty == 2 then 45 else 58
    ensures EmptyCount(Generate(difficulty, rng, k, fuel).puzzle) == RemovalCount(difficulty) - Generate(difficulty, rng, k, fuel).left
  {
    var fill := FillBoard(NewBoard(), rng, k);
    EmptyBoardFills(rng, k);
    FullCountsNoEmpty(fill.board);
    RemoveCellsCounts(fill.board, RemovalCount(difficulty), rng, fill.cursor, fuel);
    RemoveCellsLeft(fill.board, RemovalCount(difficulty), rng, fill.cursor, fuel);
  }

  lemma {:induction false} FullCountsNoEmpty(s: seq<int>)
    requires forall k | 0 <= k < |s| :: s[k] != 0
    ensures EmptyCount(s) == 0
  {
    if s != [] {
      FullCountsNoEmpty(s[1..]);
    }
  }
}
