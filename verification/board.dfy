/** The 9×9 Sudoku grid and its constraint queries (SudokuBoard).

    A board is a value: the Java class owns a mutable int[9][9], and every
    caller that needs an independent board calls `copy()`. Here a board is an
    immutable sequence of 81 cells in row-major order, cell (r, c) at index
    r * 9 + c; 0 means empty and 1..9 a placed digit. */
module SudokuBoard {

  /** All 81 cells hold 0..9. */
  type Board = b: seq<int> | |b| == 81 && forall k | 0 <= k < |b| :: 0 <= b[k] <= 9
    witness seq(81, k => 0)

  predicate InGrid(r: int, c: int) {
    0 <= r < 9 && 0 <= c < 9
  }

  function Get(b: Board, r: int, c: int): (v: int)
    requires InGrid(r, c)
    ensures 0 <= v <= 9
  {
    b[r * 9 + c]
  }

  /** Number of empty cells; the measure every search decreases. */
  function EmptyCount(b: seq<int>): nat
    decreases |b|
  {
    if b == [] then 0 else (if b[0] == 0 then 1 else 0) + EmptyCount(b[1..])
  }

  /** Writing v at index k changes the count by what leaves and what
      arrives. */
  lemma {:induction false} EmptyCountUpdate(s: seq<int>, k: int, v: int)
    requires 0 <= k < |s|
    ensures EmptyCount(s[k := v]) == EmptyCount(s) - (if s[k] == 0 then 1 else 0) + (if v == 0 then 1 else 0)
    decreases |s|
  {
    if k == 0 {
      assert s[k := v][1..] == s[1..];
    } else {
      assert s[k := v][1..] == s[1..][k - 1 := v];
      EmptyCountUpdate(s[1..], k - 1, v);
    }
  }

  /** `new SudokuBoard()`: a grid of 81 zeros. */
  function NewBoard(): (b: Board)
    ensures forall r, c | InGrid(r, c) :: Get(b, r, c) == 0
    ensures EmptyCount(b) == 81
  {
    var z := seq(81, k => 0);
    assert forall k | 0 <= k < 81 :: z[k] == 0;
    CountAllZeros(z);
    z
  }

  lemma {:induction false} CountAllZeros(z: seq<int>)
    requires forall k | 0 <= k < |z| :: z[k] == 0
    ensures EmptyCount(z) == |z|
  {
    if z != [] {
      CountAllZeros(z[1..]);
    }
  }

  /** `new SudokuBoard(int[][])`: copies the first nine entries of each of
      the nine rows. */
  function FromRows(rows: seq<seq<int>>): (b: Board)
    requires |rows| == 9
    requires forall i | 0 <= i < 9 :: |rows[i]| >= 9
    requires forall i, j | 0 <= i < 9 && 0 <= j < 9 :: 0 <= rows[i][j] <= 9
    ensures forall r, c | InGrid(r, c) :: Get(b, r, c) == rows[r][c]
  {
    var b := seq(81, k requires 0 <= k < 81 => rows[k / 9][k % 9]);
    assert forall r, c | InGrid(r, c) :: (r * 9 + c) / 9 == r && (r * 9 + c) % 9 == c;
    b
  }

  /** `set(row, col, value)`: writes one cell and nothing else. */
  function Set(b: Board, r: int, c: int, v: int): (b': Board)
    requires InGrid(r, c) && 0 <= v <= 9
    ensures Get(b', r, c) == v
    ensures forall r', c' | InGrid(r', c') && (r', c') != (r, c) :: Get(b', r', c') == Get(b, r', c')
    ensures Get(b, r, c) == 0 && v != 0 ==> EmptyCount(b') == EmptyCount(b) - 1
    ensures Get(b, r, c) != 0 && v == 0 ==> EmptyCount(b') == EmptyCount(b) + 1
  {
    EmptyCountUpdate(b, r * 9 + c, v);
    b[r * 9 + c := v]
  }

  /** Writing the old value back restores the board exactly. */
  lemma SetRestores(b: Board, r: int, c: int, v: int)
    requires InGrid(r, c) && 0 <= v <= 9
    ensures Set(Set(b, r, c, v), r, c, Get(b, r, c)) == b
  {
    assert Set(Set(b, r, c, v), r, c, Get(b, r, c)) == b[r * 9 + c := v][r * 9 + c := b[r * 9 + c]];
  }

  /** First row (or column) of the 3×3 box holding row (or column) x. */
  function BoxStart(x: int): (s: int)
    requires 0 <= x < 9
    ensures s % 3 == 0 && s <= x < s + 3
    ensures s == if x < 3 then 0 else if x < 6 then 3 else 6
  {
    x - x % 3
  }

  /** The cells the row loop of `isSafe` reads: row r, left to right. */
  function RowCells(b: Board, r: int): (cells: seq<int>)
    requires 0 <= r < 9
    ensures |cells| == 9 && forall j | 0 <= j < 9 :: cells[j] == Get(b, r, j)
  {
    b[r * 9 .. r * 9 + 9]
  }

  /** The cells the column loop of `isSafe` reads: column c, top to bottom. */
  function ColumnCells(b: Board, c: int): (cells: seq<int>)
    requires 0 <= c < 9
    ensures |cells| == 9 && forall i | 0 <= i < 9 :: cells[i] == Get(b, i, c)
  {
    seq(9, i requires 0 <= i < 9 => Get(b, i, c))
  }

  /** The cells the nested box loops of `isSafe` read: the three row
      segments of the box holding (r, c), top to bottom, each left to right. */
  function BoxCells(b: Board, r: int, c: int): (cells: seq<int>)
    requires InGrid(r, c)
    ensures |cells| == 9
  {
    var i0, j0 := BoxStart(r), BoxStart(c);
    RowCells(b, i0)[j0 .. j0 + 3] + RowCells(b, i0 + 1)[j0 .. j0 + 3] + RowCells(b, i0 + 2)[j0 .. j0 + 3]
  }

  /** A cell of the box holding (r, c). */
  predicate InBox(r: int, c: int, i: int, j: int)
    requires InGrid(r, c)
  {
    BoxStart(r) <= i < BoxStart(r) + 3 && BoxStart(c) <= j < BoxStart(c) + 3
  }

  /** One scanning loop of `isSafe`: true when no cell read equals n, false
      at the first that does. */
  predicate Absent(cells: seq<int>, n: int)
    decreases |cells|
  {
    cells == [] || (cells[0] != n && Absent(cells[1..], n))
  }

  /** `isSafe(row, col, num)`: the row scan, then the column scan, then the
      scan of the box whose corner is (row - row % 3, col - col % 3). */
  predicate IsSafe(b: Board, r: int, c: int, n: int)
    requires InGrid(r, c)
  {
    Absent(RowCells(b, r), n) && Absent(ColumnCells(b, c), n) && Absent(BoxCells(b, r, c), n)
  }

  lemma {:induction false} AbsentMeans(cells: seq<int>, n: int)
    ensures Absent(cells, n) <==> n !in cells
    decreases |cells|
  {
    if cells != [] {
      AbsentMeans(cells[1..], n);
      assert cells == [cells[0]] + cells[1..];
    }
  }

  /** The constraint `isSafe` is meant to check: n occurs nowhere in row r,
      nowhere in column c and nowhere in the box of (r, c); the cell (r, c)
      itself belongs to all three. */
  ghost predicate NoConflict(b: Board, r: int, c: int, n: int)
    requires InGrid(r, c)
  {
    && (forall j | 0 <= j < 9 :: Get(b, r, j) != n)
    && (forall i | 0 <= i < 9 :: Get(b, i, c) != n)
    && (forall i, j | InBox(r, c, i, j) :: Get(b, i, j) != n)
  }

  /** A digit occurs among the cells the column scan reads iff some cell of
      column c holds it. */
  lemma InColumnCells(b: Board, c: int, n: int)
    requires 0 <= c < 9
    ensures n in ColumnCells(b, c) <==> exists i | 0 <= i < 9 :: Get(b, i, c) == n
  {
    var cells := ColumnCells(b, c);
    if n in cells {
      var i :| 0 <= i < 9 && cells[i] == n;
      assert Get(b, i, c) == n;
    }
  }

  /** n is among three consecutive cells of row i exactly when one of them
      holds n. */
  lemma InRowSegment(b: Board, i: int, j0: int, n: int)
    requires 0 <= i < 9 && 0 <= j0 <= 6
    ensures n in RowCells(b, i)[j0 .. j0 + 3] <==> exists j | j0 <= j < j0 + 3 :: Get(b, i, j) == n
  {
    var seg := RowCells(b, i)[j0 .. j0 + 3];
    if n in seg {
      var d :| 0 <= d < 3 && seg[d] == n;
      assert Get(b, i, j0 + d) == n;
    }
    if exists j | j0 <= j < j0 + 3 :: Get(b, i, j) == n {
      var j :| j0 <= j < j0 + 3 && Get(b, i, j) == n;
      assert seg[j - j0] == n;
    }
  }

  /** n is among the box's cells exactly when some cell of the box holds n. */
  lemma InBoxCells(b: Board, r: int, c: int, n: int)
    requires InGrid(r, c)
    ensures n in BoxCells(b, r, c) <==> exists i, j | InBox(r, c, i, j) :: Get(b, i, j) == n
  {
    var i0, j0 := BoxStart(r), BoxStart(c);
    InRowSegment(b, i0, j0, n);
    InRowSegment(b, i0 + 1, j0, n);
    InRowSegment(b, i0 + 2, j0, n);
    if exists i, j | InBox(r, c, i, j) :: Get(b, i, j) == n {
      var i, j :| InBox(r, c, i, j) && Get(b, i, j) == n;
      assert i == i0 || i == i0 + 1 || i == i0 + 2;
    }
  }

  /** The three scans of `isSafe` check exactly the row, column and box
      constraint. */
  lemma IsSafeMeans(b: Board, r: int, c: int, n: int)
    requires InGrid(r, c)
    ensures IsSafe(b, r, c, n) <==> NoConflict(b, r, c, n)
  {
    AbsentMeans(RowCells(b, r), n);
    AbsentMeans(ColumnCells(b, c), n);
    AbsentMeans(BoxCells(b, r, c), n);
    InBoxCells(b, r, c, n);
    if n in RowCells(b, r) {
      var j :| 0 <= j < 9 && RowCells(b, r)[j] == n;
      assert Get(b, r, j) == n;
    }
    if n in ColumnCells(b, c) {
      var i :| 0 <= i < 9 && ColumnCells(b, c)[i] == n;
      assert Get(b, i, c) == n;
    }
  }

  /** The row scan includes the cell itself, so a cell never counts as safe
      for the digit it already holds. */
  lemma OccupiedByNIsUnsafe(b: Board, r: int, c: int)
    requires InGrid(r, c)
    ensures !IsSafe(b, r, c, Get(b, r, c))
  {
    IsSafeMeans(b, r, c, Get(b, r, c));
  }

  /** `copy()`: a row-by-row copy with identical contents. Since boards are
      values, later writes to either board cannot reach the other. */
  method Copy(b: Board) returns (b': Board)
    ensures b' == b
  {
    var cells: seq<int> := [];
    for i := 0 to 9
      invariant cells == b[..i * 9]
    {
      cells := cells + b[i * 9 .. i * 9 + 9];
    }
    assert cells == b;
    b' := cells;
  }

  /** Two distinct cells constrain each other when they share a row, a
      column or a 3×3 box. */
  predicate SameUnit(r1: int, c1: int, r2: int, c2: int)
    requires InGrid(r1, c1) && InGrid(r2, c2)
  {
    r1 == r2 || c1 == c2 || (BoxStart(r1) == BoxStart(r2) && BoxStart(c1) == BoxStart(c2))
  }

  /** The non-zero cells satisfy row, column and box uniqueness among
      themselves. */
  ghost predicate Consistent(b: Board) {
    forall r1, c1, r2, c2 |
      InGrid(r1, c1) && InGrid(r2, c2) && (r1, c1) != (r2, c2) && SameUnit(r1, c1, r2, c2) && Get(b, r1, c1) != 0
      :: Get(b, r1, c1) != Get(b, r2, c2)
  }

  /** On a consistent board, placing a digit into an empty cell keeps the
      board consistent exactly when `isSafe` holds: the safety check is the
      whole constraint, no more and no less. */
  lemma SafeIffStaysConsistent(b: Board, r: int, c: int, n: int)
    requires Consistent(b) && InGrid(r, c) && Get(b, r, c) == 0 && 1 <= n <= 9
    ensures IsSafe(b, r, c, n) <==> Consistent(Set(b, r, c, n))
  {
    IsSafeMeans(b, r, c, n);
    if IsSafe(b, r, c, n) {
      SafePlacementConsistent(b, r, c, n);
    }
    if Consistent(Set(b, r, c, n)) {
      ConsistentPlacementSafe(b, r, c, n);
    }
  }

  lemma SafePlacementConsistent(b: Board, r: int, c: int, n: int)
    requires Consistent(b) && InGrid(r, c) && IsSafe(b, r, c, n) && 0 <= n <= 9
    ensures Consistent(Set(b, r, c, n))
  {
    IsSafeMeans(b, r, c, n);
    var b' := Set(b, r, c, n);
    forall r1, c1, r2, c2 |
      InGrid(r1, c1) && InGrid(r2, c2) && (r1, c1) != (r2, c2) && SameUnit(r1, c1, r2, c2) && Get(b', r1, c1) != 0
      ensures Get(b', r1, c1) != Get(b', r2, c2)
    {
      if (r1, c1) == (r, c) {
        SafeExcludesUnit(b, r, c, n, r2, c2);
      } else if (r2, c2) == (r, c) {
        assert SameUnit(r2, c2, r1, c1);
        SafeExcludesUnit(b, r, c, n, r1, c1);
      } else {
        assert Get(b, r1, c1) != Get(b, r2, c2);
      }
    }
  }

  /** A safe digit occurs in no cell sharing a unit with (r, c). */
  lemma SafeExcludesUnit(b: Board, r: int, c: int, n: int, i: int, j: int)
    requires InGrid(r, c) && IsSafe(b, r, c, n) && InGrid(i, j) && SameUnit(r, c, i, j)
    ensures Get(b, i, j) != n
  {
    IsSafeMeans(b, r, c, n);
    if i == r {
    } else if j == c {
    } else {
      assert BoxStart(r) <= i < BoxStart(r) + 3 && BoxStart(c) <= j < BoxStart(c) + 3;
    }
  }

  lemma ConsistentPlacementSafe(b: Board, r: int, c: int, n: int)
    requires InGrid(r, c) && Get(b, r, c) == 0 && 1 <= n <= 9 && Consistent(Set(b, r, c, n))
    ensures IsSafe(b, r, c, n)
  {
    IsSafeMeans(b, r, c, n);
    var b' := Set(b, r, c, n);
    forall j | 0 <= j < 9
      ensures Get(b, r, j) != n
    {
      if j != c {
        assert SameUnit(r, c, r, j);
        assert Get(b', r, c) != Get(b', r, j);
      }
    }
    forall i | 0 <= i < 9
      ensures Get(b, i, c) != n
    {
      if i != r {
        assert SameUnit(r, c, i, c);
        assert Get(b', r, c) != Get(b', i, c);
      }
    }
    forall i, j | BoxStart(r) <= i < BoxStart(r) + 3 && BoxStart(c) <= j < BoxStart(c) + 3
      ensures Get(b, i, j) != n
    {
      if (i, j) != (r, c) {
        assert SameUnit(r, c, i, j);
        assert Get(b', r, c) != Get(b', i, j);
      }
    }
  }
}
