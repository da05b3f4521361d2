/** The search order shared by every solver of the engine.

    All search variants (sequential, multi-solution, task-based, generator)
    pick the first empty cell in row-major order. The deterministic solvers
    then try digits 1..9 in ascending order, so they all walk one and the
    same depth-first tree. `Solutions(b)` lists the leaves of that tree
    (complete boards) in the order the walk reaches them; it is the
    reference every solver is proved against, and it is itself
    characterised without reference to the walk: it lists exactly the
    completions of `b` (`SolutionsAreCompletions`,
    `CompletionsAreSolutions`) in strictly increasing lexicographic order
    (`SolutionsSorted`). */
module Search {
  import opened SudokuBoard

  datatype Option<T> = None | Some(value: T)

  /** A (row, column) coordinate, as the Java `int[]{r, c}`. */
  datatype Cell = Cell(row: int, col: int)

  /** No cell is empty. */
  predicate Full(b: Board) {
    forall k | 0 <= k < 81 :: b[k] != 0
  }

  /** s keeps every non-zero cell of b. */
  predicate Extends(b: Board, s: Board) {
    forall k | 0 <= k < 81 && b[k] != 0 :: s[k] == b[k]
  }

  lemma ExtendsTransitive(a: Board, b: Board, s: Board)
    requires Extends(a, b) && Extends(b, s)
    ensures Extends(a, s)
  {
  }

  /** Filling an empty cell keeps every digit already placed. */
  lemma SetExtends(b: Board, r: int, c: int, v: int)
    requires InGrid(r, c) && Get(b, r, c) == 0 && 0 <= v <= 9
    ensures Extends(b, Set(b, r, c, v))
  {
    var b' := Set(b, r, c, v);
    forall k | 0 <= k < 81 && b[k] != 0
      ensures b'[k] == b[k]
    {
      assert k != r * 9 + c;
    }
  }

  /** Whatever extends b with a digit placed in an empty cell extends b. */
  lemma PlacedExtends(b: Board, r: int, c: int, v: int, s: Board)
    requires InGrid(r, c) && Get(b, r, c) == 0 && 0 <= v <= 9
    requires Extends(Set(b, r, c, v), s)
    ensures Extends(b, s)
  {
    SetExtends(b, r, c, v);
    ExtendsTransitive(b, Set(b, r, c, v), s);
  }

  /** Every digit s holds where b was empty differs from every other cell
      of its row, column and box in s. */
  ghost predicate PlacedConsistent(b: Board, s: Board) {
    forall r1, c1, r2, c2 |
      InGrid(r1, c1) && InGrid(r2, c2) && (r1, c1) != (r2, c2) && SameUnit(r1, c1, r2, c2) && Get(b, r1, c1) == 0
      :: Get(s, r1, c1) != Get(s, r2, c2)
  }

  /** s is a complete board that could have been reached from b by safe
      placements: full, agreeing with b on b's digits, and with no digit it
      added clashing with anything. */
  ghost predicate IsCompletion(b: Board, s: Board) {
    Full(s) && Extends(b, s) && PlacedConsistent(b, s)
  }

  /** When b itself is consistent, its completions are exactly its full,
      consistent extensions. */
  lemma CompletionOfConsistent(b: Board, s: Board)
    requires Consistent(b)
    ensures IsCompletion(b, s) <==> Full(s) && Extends(b, s) && Consistent(s)
  {
    if IsCompletion(b, s) {
      forall r1, c1, r2, c2 |
        InGrid(r1, c1) && InGrid(r2, c2) && (r1, c1) != (r2, c2) && SameUnit(r1, c1, r2, c2) && Get(s, r1, c1) != 0
        ensures Get(s, r1, c1) != Get(s, r2, c2)
      {
        if Get(b, r1, c1) != 0 && Get(b, r2, c2) != 0 {
          assert Get(b, r1, c1) != Get(b, r2, c2);
        } else if Get(b, r2, c2) == 0 {
          assert SameUnit(r2, c2, r1, c1);
        }
      }
    }
  }

  /** The row-major scan of `findNextEmpty`, resumed at (r, c); column 9
      stands for "end of row r". */
  function ScanFrom(b: Board, r: int, c: int): (res: Option<Cell>)
    requires 0 <= r <= 9 && 0 <= c <= 9
    decreases |b| - (r * 9 + c), c
    ensures res.Some? ==> InGrid(res.value.row, res.value.col) && Get(b, res.value.row, res.value.col) == 0
    ensures res.Some? ==> r * 9 + c <= res.value.row * 9 + res.value.col
    ensures forall k | r * 9 + c <= k < (if res.Some? then res.value.row * 9 + res.value.col else 81) :: b[k] != 0
  {
    if r == 9 then None
    else if c == 9 then ScanFrom(b, r + 1, 0)
    else if Get(b, r, c) == 0 then Some(Cell(r, c))
    else ScanFrom(b, r, c + 1)
  }

  /** `findNextEmpty` / `findEmpty` / `findFirstEmptyCell`: the first empty
      cell in row-major order, or None when the board is full. */
  function FirstEmpty(b: Board): (res: Option<Cell>)
    ensures res.None? <==> Full(b)
    ensures res.Some? ==> InGrid(res.value.row, res.value.col) && Get(b, res.value.row, res.value.col) == 0
    ensures res.Some? ==> forall k | 0 <= k < res.value.row * 9 + res.value.col :: b[k] != 0
  {
    ScanFrom(b, 0, 0)
  }

  /** The leaves of the depth-first walk from b, in the order it reaches
      them. */
  function Solutions(b: Board): seq<Board>
    decreases EmptyCount(b), 1
  {
    match FirstEmpty(b)
    case None => [b]
    case Some(cell) => Branches(b, cell.row, cell.col, 1)
  }

  /** The leaves below the digits n..9 tried at the empty cell (r, c). */
  function Branches(b: Board, r: int, c: int, n: int): seq<Board>
    requires InGrid(r, c) && Get(b, r, c) == 0 && 1 <= n <= 10
    decreases EmptyCount(b), 0, 10 - n
  {
    if n == 10 then []
    else (if IsSafe(b, r, c, n) then Solutions(Set(b, r, c, n)) else []) + Branches(b, r, c, n + 1)
  }

  /** One digit of `Branches`: its subtree when it is safe, then the later
      digits' leaves. */
  lemma BranchesStep(b: Board, r: int, c: int, n: int)
    requires InGrid(r, c) && Get(b, r, c) == 0 && 1 <= n <= 9
    ensures Branches(b, r, c, n) ==
      if IsSafe(b, r, c, n) then Solutions(Set(b, r, c, n)) + Branches(b, r, c, n + 1) else Branches(b, r, c, n + 1)
  {
    if !IsSafe(b, r, c, n) {
      assert [] + Branches(b, r, c, n + 1) == Branches(b, r, c, n + 1);
    }
  }

  /** The first leaf, as `Option`. */
  function FirstOf(sols: seq<Board>): (res: Option<Board>)
    ensures res.None? <==> sols == []
    ensures res.Some? ==> res.value == sols[0]
  {
    if sols == [] then None else Some(sols[0])
  }

  lemma FirstOfAppend(a: seq<Board>, b: seq<Board>)
    ensures FirstOf(a + b) == if a != [] then FirstOf(a) else FirstOf(b)
  {
    if a != [] {
      assert (a + b)[0] == a[0];
    } else {
      assert a + b == b;
    }
  }

  // ---------------------------------------------------------------------
  // One placement, forwards and backwards.

  /** A safe placement followed by a completion is a completion. */
  lemma CompletionStep(b: Board, r: int, c: int, m: int, s: Board)
    requires InGrid(r, c) && Get(b, r, c) == 0 && 1 <= m <= 9 && IsSafe(b, r, c, m)
    requires IsCompletion(Set(b, r, c, m), s)
    ensures IsCompletion(b, s) && Get(s, r, c) == m
  {
    var b' := Set(b, r, c, m);
    assert b'[r * 9 + c] == m;
    forall r1, c1, r2, c2 |
      InGrid(r1, c1) && InGrid(r2, c2) && (r1, c1) != (r2, c2) && SameUnit(r1, c1, r2, c2) && Get(b, r1, c1) == 0
      ensures Get(s, r1, c1) != Get(s, r2, c2)
    {
      if (r1, c1) == (r, c) {
        if Get(b', r2, c2) == 0 {
          assert SameUnit(r2, c2, r1, c1);
          assert Get(s, r2, c2) != Get(s, r1, c1);
        } else {
          SafeExcludesUnit(b, r, c, m, r2, c2);
        }
      }
    }
  }

  /** A completion fixes a digit at every empty cell; that digit is safe
      there and the completion still completes the board with it placed. */
  lemma CompletionStepBack(b: Board, r: int, c: int, s: Board)
    requires InGrid(r, c) && Get(b, r, c) == 0 && IsCompletion(b, s)
    ensures 1 <= Get(s, r, c) <= 9
    ensures IsSafe(b, r, c, Get(s, r, c))
    ensures IsCompletion(Set(b, r, c, Get(s, r, c)), s)
  {
    CompletionDigitSafe(b, r, c, s);
    CompletionKeepsPlaced(b, r, c, s);
  }

  /** The digit a completion puts at an empty cell clashes with nothing the
      board already holds in the cell's row, column or box. */
  lemma CompletionDigitSafe(b: Board, r: int, c: int, s: Board)
    requires InGrid(r, c) && Get(b, r, c) == 0 && IsCompletion(b, s)
    ensures 1 <= Get(s, r, c) <= 9 && IsSafe(b, r, c, Get(s, r, c))
  {
    var m := Get(s, r, c);
    IsSafeMeans(b, r, c, m);
    assert s[r * 9 + c] != 0;
    forall i, j | InGrid(i, j) && (i, j) != (r, c) && SameUnit(r, c, i, j)
      ensures Get(b, i, j) != m
    {
      assert Get(s, r, c) != Get(s, i, j);
    }
    forall j | 0 <= j < 9
      ensures Get(b, r, j) != m
    {
      if j != c {
        assert SameUnit(r, c, r, j);
      }
    }
    forall i | 0 <= i < 9
      ensures Get(b, i, c) != m
    {
      if i != r {
        assert SameUnit(r, c, i, c);
      }
    }
    forall i, j | InBox(r, c, i, j)
      ensures Get(b, i, j) != m
    {
      if (i, j) != (r, c) {
        assert SameUnit(r, c, i, j);
      }
    }
  }

  /** Placing the completion's own digit at (r, c) leaves the completion a
      completion of the fuller board. */
  lemma CompletionKeepsPlaced(b: Board, r: int, c: int, s: Board)
    requires InGrid(r, c) && Get(b, r, c) == 0 && IsCompletion(b, s)
    ensures IsCompletion(Set(b, r, c, Get(s, r, c)), s)
  {
    var b' := Set(b, r, c, Get(s, r, c));
    forall k | 0 <= k < 81 && b'[k] != 0
      ensures s[k] == b'[k]
    {
      if k != r * 9 + c {
        assert b'[k] == b[k];
      }
    }
    forall r1, c1, r2, c2 |
      InGrid(r1, c1) && InGrid(r2, c2) && (r1, c1) != (r2, c2) && SameUnit(r1, c1, r2, c2) && Get(b', r1, c1) == 0
      ensures Get(s, r1, c1) != Get(s, r2, c2)
    {
      assert (r1, c1) != (r, c);
    }
  }

  // ---------------------------------------------------------------------
  // Soundness and completeness of the walk.

  /** Every leaf of the walk is a completion of the root. */
  lemma {:induction false} SolutionsAreCompletions(b: Board)
    ensures forall s | s in Solutions(b) :: IsCompletion(b, s)
    decreases EmptyCount(b), 1
  {
    match FirstEmpty(b)
    case None =>
    case Some(cell) =>
      BranchesAreCompletions(b, cell.row, cell.col, 1);
  }

  lemma {:induction false} BranchesAreCompletions(b: Board, r: int, c: int, n: int)
    requires InGrid(r, c) && Get(b, r, c) == 0 && 1 <= n <= 10
    ensures forall s | s in Branches(b, r, c, n) :: IsCompletion(b, s) && n <= Get(s, r, c)
    decreases EmptyCount(b), 0, 10 - n
  {
    if n < 10 {
      BranchesAreCompletions(b, r, c, n + 1);
      if IsSafe(b, r, c, n) {
        SolutionsAreCompletions(Set(b, r, c, n));
        forall s | s in Solutions(Set(b, r, c, n))
          ensures IsCompletion(b, s) && n <= Get(s, r, c)
        {
          CompletionStep(b, r, c, n, s);
        }
      }
    }
  }

  /** Every completion of the root is a leaf of the walk. */
  lemma {:induction false} CompletionsAreSolutions(b: Board, s: Board)
    requires IsCompletion(b, s)
    ensures s in Solutions(b)
    decreases EmptyCount(b)
  {
    match FirstEmpty(b)
    case None =>
      assert s == b;
    case Some(cell) =>
      var m := Get(s, cell.row, cell.col);
      CompletionStepBack(b, cell.row, cell.col, s);
      CompletionsAreSolutions(Set(b, cell.row, cell.col, m), s);
      SubtreeInBranches(b, cell.row, cell.col, 1, m);
  }

  /** The subtree of a safe digit m is part of the branches from any n <= m. */
  lemma {:induction false} SubtreeInBranches(b: Board, r: int, c: int, n: int, m: int)
    requires InGrid(r, c) && Get(b, r, c) == 0 && 1 <= n <= m <= 9 && IsSafe(b, r, c, m)
    ensures forall s | s in Solutions(Set(b, r, c, m)) :: s in Branches(b, r, c, n)
    decreases m - n
  {
    if n < m {
      SubtreeInBranches(b, r, c, n + 1, m);
    }
  }

  /** The walk is complete and sound: a board is one of its leaves exactly
      when it is a completion of the root. */
  lemma SolutionsCharacterised(b: Board, s: Board)
    ensures s in Solutions(b) <==> IsCompletion(b, s)
  {
    SolutionsAreCompletions(b);
    if IsCompletion(b, s) {
      CompletionsAreSolutions(b, s);
    }
  }

  // ---------------------------------------------------------------------
  // Order of the leaves.

  /** a comes strictly before b in lexicographic (row-major) order. */
  predicate LexLess(a: Board, b: Board) {
    exists k | 0 <= k < 81 :: a[k] < b[k] && forall j | 0 <= j < k :: a[j] == b[j]
  }

  /** Strictly increasing, hence free of duplicates. */
  predicate StrictlySorted(sols: seq<Board>) {
    forall i, j | 0 <= i < j < |sols| :: LexLess(sols[i], sols[j])
  }

  lemma LexLessDistinct(a: Board, b: Board)
    requires LexLess(a, b)
    ensures a != b
  {
    var k :| 0 <= k < 81 && a[k] < b[k] && forall j | 0 <= j < k :: a[j] == b[j];
  }

  /** The walk reaches its leaves in strictly increasing lexicographic
      order; in particular no complete board is reached twice. */
  lemma {:induction false} SolutionsSorted(b: Board)
    ensures StrictlySorted(Solutions(b))
    decreases EmptyCount(b), 1
  {
    match FirstEmpty(b)
    case None =>
    case Some(cell) =>
      BranchesSorted(b, cell.row, cell.col, 1);
  }

  lemma {:induction false} BranchesSorted(b: Board, r: int, c: int, n: int)
    requires InGrid(r, c) && Get(b, r, c) == 0 && 1 <= n <= 10
    requires forall k | 0 <= k < r * 9 + c :: b[k] != 0
    ensures StrictlySorted(Branches(b, r, c, n))
    decreases EmptyCount(b), 0, 10 - n
  {
    if n < 10 {
      BranchesSorted(b, r, c, n + 1);
      if IsSafe(b, r, c, n) {
        SolutionsSorted(Set(b, r, c, n));
        SubtreeBeforeLaterBranches(b, r, c, n);
        ConcatSorted(Solutions(Set(b, r, c, n)), Branches(b, r, c, n + 1));
      }
    }
  }

  /** Every leaf below digit n precedes every leaf below a larger digit. */
  lemma SubtreeBeforeLaterBranches(b: Board, r: int, c: int, n: int)
    requires InGrid(r, c) && Get(b, r, c) == 0 && 1 <= n <= 9 && IsSafe(b, r, c, n)
    requires forall k | 0 <= k < r * 9 + c :: b[k] != 0
    ensures forall x, y | x in Solutions(Set(b, r, c, n)) && y in Branches(b, r, c, n + 1) :: LexLess(x, y)
  {
    SubtreeLeaves(b, r, c, n);
    LaterLeaves(b, r, c, n + 1);
    forall x, y | x in Solutions(Set(b, r, c, n)) && y in Branches(b, r, c, n + 1)
      ensures LexLess(x, y)
    {
      HeadBeforeTail(b, r, c, x, y);
    }
  }

  lemma SubtreeLeaves(b: Board, r: int, c: int, n: int)
    requires InGrid(r, c) && Get(b, r, c) == 0 && 1 <= n <= 9 && IsSafe(b, r, c, n)
    ensures forall x | x in Solutions(Set(b, r, c, n)) :: Extends(b, x) && Get(x, r, c) == n
  {
    SolutionsAreCompletions(Set(b, r, c, n));
    forall x | x in Solutions(Set(b, r, c, n))
      ensures Extends(b, x) && Get(x, r, c) == n
    {
      CompletionStep(b, r, c, n, x);
    }
  }

  lemma LaterLeaves(b: Board, r: int, c: int, n: int)
    requires InGrid(r, c) && Get(b, r, c) == 0 && 1 <= n <= 10
    ensures forall y | y in Branches(b, r, c, n) :: Extends(b, y) && n <= Get(y, r, c)
  {
    BranchesAreCompletions(b, r, c, n);
  }

  /** Two extensions of b that agree up to the cell (r, c), where b is first
      empty, are ordered by their digit there. */
  lemma HeadBeforeTail(b: Board, r: int, c: int, x: Board, y: Board)
    requires InGrid(r, c) && forall k | 0 <= k < r * 9 + c :: b[k] != 0
    requires Extends(b, x) && Extends(b, y) && Get(x, r, c) < Get(y, r, c)
    ensures LexLess(x, y)
  {
    var k := r * 9 + c;
    assert x[k] < y[k] && forall j | 0 <= j < k :: x[j] == y[j];
  }

  lemma ConcatSorted(a: seq<Board>, b: seq<Board>)
    requires StrictlySorted(a) && StrictlySorted(b)
    requires forall x, y | x in a && y in b :: LexLess(x, y)
    ensures StrictlySorted(a + b)
  {
    var ab := a + b;
    forall i, j | 0 <= i < j < |ab|
      ensures LexLess(ab[i], ab[j])
    {
      if j < |a| {
        assert ab[i] == a[i] && ab[j] == a[j];
      } else if i >= |a| {
        assert ab[i] == b[i - |a|] && ab[j] == b[j - |a|];
      } else {
        assert ab[i] == a[i] && ab[j] == b[j - |a|];
      }
    }
  }

  /** No complete board is listed twice. */
  lemma SolutionsDistinct(b: Board)
    ensures forall i, j | 0 <= i < j < |Solutions(b)| :: Solutions(b)[i] != Solutions(b)[j]
  {
    SolutionsSorted(b);
    var sols := Solutions(b);
    forall i, j | 0 <= i < j < |sols|
      ensures sols[i] != sols[j]
    {
      LexLessDistinct(sols[i], sols[j]);
    }
  }

  /** A full board is its own and only leaf. */
  lemma FullBoardIsOnlySolution(b: Board)
    requires Full(b)
    ensures Solutions(b) == [b]
  {
  }
}
