/**
  The 9x9 Sudoku board as a value: nine rows of nine integer cells, where 0
  marks an empty cell. This module holds the reference definitions the engine
  is proved against: when a board is valid, when a value may be placed in a
  cell, what a completion of a board is, and how many cells are blank.
 */
module SudokuBoard {

  type Board = seq<seq<int>>

  /** Side of the board (DIMENSION in the program). */
  const Size := 9

  predicate InRange(r: int, c: int) {
    0 <= r < 9 && 0 <= c < 9
  }

  /** Nine rows of nine cells. */
  predicate Shaped(g: Board) {
    |g| == 9 && forall r :: 0 <= r < 9 ==> |g[r]| == 9
  }

  /** Every cell holds 0 (empty) or a digit 1..9. */
  ghost predicate WellFormed(g: Board)
    requires Shaped(g)
  {
    forall r, c :: InRange(r, c) ==> 0 <= g[r][c] <= 9
  }

  /** Row-major position of a cell; position 81 is one past the last cell. */
  function Pos(r: int, c: int): (p: int) {
    9 * r + c
  }

  /** The number the program gives the 3x3 box of a cell. */
  function BoxIndex(r: int, c: int): (k: int) {
    (r / 3) * 3 + c / 3
  }

  predicate SameBox(r1: int, c1: int, r2: int, c2: int) {
    r1 / 3 == r2 / 3 && c1 / 3 == c2 / 3
  }

  /** Two different cells that share a row, a column or a box. */
  predicate Peers(r1: int, c1: int, r2: int, c2: int) {
    (r1 != r2 || c1 != c2) && (r1 == r2 || c1 == c2 || SameBox(r1, c1, r2, c2))
  }

  /** No row, column or box holds the same nonzero value twice. */
  ghost predicate ValidBoard(g: Board)
    requires Shaped(g)
  {
    forall r1, c1, r2, c2 ::
      InRange(r1, c1) && InRange(r2, c2) && Peers(r1, c1, r2, c2) && g[r1][c1] != 0
      ==> g[r1][c1] != g[r2][c2]
  }

  /** `n` occurs nowhere in row `i`, column `j` or the box of (i, j); the cell (i, j) itself included. */
  predicate MoveOk(g: Board, i: int, j: int, n: int)
    requires Shaped(g) && InRange(i, j)
  {
    && (forall c :: 0 <= c < 9 ==> g[i][c] != n)
    && (forall r :: 0 <= r < 9 ==> g[r][j] != n)
    && (forall r, c :: 0 <= r < 9 && 0 <= c < 9 && SameBox(r, c, i, j) ==> g[r][c] != n)
  }

  /** Writes `v` into cell (i, j) (`board[i][j] = v`). */
  function Place(g: Board, i: int, j: int, v: int): (h: Board)
    requires Shaped(g) && InRange(i, j)
    ensures Shaped(h) && h[i][j] == v
    ensures forall r, c :: InRange(r, c) && (r != i || c != j) ==> h[r][c] == g[r][c]
  {
    g[i := g[i][j := v]]
  }

  /** A solved board: every cell a digit 1..9 and no row, column or box repeats one. */
  ghost predicate IsSolution(s: Board) {
    Shaped(s) && (forall r, c :: InRange(r, c) ==> 1 <= s[r][c] <= 9) && ValidBoard(s)
  }

  /** `s` keeps every nonzero cell of `g`. */
  ghost predicate Extends(s: Board, g: Board)
    requires Shaped(s) && Shaped(g)
  {
    forall r, c :: InRange(r, c) && g[r][c] != 0 ==> s[r][c] == g[r][c]
  }

  /** Some solved board keeps every given of `g`. */
  ghost predicate HasCompletion(g: Board)
    requires Shaped(g)
  {
    exists s :: IsSolution(s) && Extends(s, g)
  }

  function RowZeros(row: seq<int>): (n: nat) {
    if row == [] then 0 else (if row[0] == 0 then 1 else 0) + RowZeros(row[1..])
  }

  /** Number of blank cells. */
  function ZeroCount(g: Board): (n: nat) {
    if g == [] then 0 else RowZeros(g[0]) + ZeroCount(g[1..])
  }

  /** Two shaped boards that agree cell by cell are equal. */
  lemma BoardsEqual(g: Board, h: Board)
    requires Shaped(g) && Shaped(h)
    requires forall r, c :: InRange(r, c) ==> g[r][c] == h[r][c]
    ensures g == h
  {
    forall r | 0 <= r < 9
      ensures g[r] == h[r]
    {
      assert forall c :: 0 <= c < 9 ==> g[r][c] == h[r][c];
    }
  }

  /** Writing back the old value of a cell restores the board. */
  lemma PlaceRestore(g: Board, i: int, j: int, v: int)
    requires Shaped(g) && InRange(i, j)
    ensures Place(Place(g, i, j, v), i, j, g[i][j]) == g
  {
    BoardsEqual(Place(Place(g, i, j, v), i, j, g[i][j]), g);
  }

  /** The two box numberings agree: cells share a box exactly when the program gives them the same box index. */
  lemma BoxIndexSame(r1: int, c1: int, r2: int, c2: int)
    requires InRange(r1, c1) && InRange(r2, c2)
    ensures 0 <= BoxIndex(r1, c1) < 9
    ensures BoxIndex(r1, c1) == BoxIndex(r2, c2) <==> SameBox(r1, c1, r2, c2)
  {
  }

  /** Two peers holding the same nonzero value make a board invalid. */
  lemma DuplicateInvalid(g: Board, r1: int, c1: int, r2: int, c2: int)
    requires Shaped(g) && InRange(r1, c1) && InRange(r2, c2) && Peers(r1, c1, r2, c2)
    requires g[r1][c1] != 0 && g[r1][c1] == g[r2][c2]
    ensures !ValidBoard(g)
  {
  }

  /**
    Agreement of the move test with the validity test: on a valid board,
    writing a nonzero `n` into an empty cell keeps the board valid exactly
    when `n` is a legal move there.
   */
  lemma PlaceKeepsValid(g: Board, i: int, j: int, n: int)
    requires Shaped(g) && ValidBoard(g) && InRange(i, j) && g[i][j] == 0 && n != 0
    ensures ValidBoard(Place(g, i, j, n)) <==> MoveOk(g, i, j, n)
  {
    var h := Place(g, i, j, n);
    if MoveOk(g, i, j, n) {
      forall r1, c1, r2, c2 |
        InRange(r1, c1) && InRange(r2, c2) && Peers(r1, c1, r2, c2) && h[r1][c1] != 0
        ensures h[r1][c1] != h[r2][c2]
      {
        if r1 == i && c1 == j {
          assert h[r2][c2] == g[r2][c2];
          assert r2 == i || c2 == j || SameBox(r2, c2, i, j);
        } else if r2 == i && c2 == j {
          assert h[r1][c1] == g[r1][c1];
          assert r1 == i || c1 == j || SameBox(r1, c1, i, j);
        } else {
          assert h[r1][c1] == g[r1][c1] && h[r2][c2] == g[r2][c2];
        }
      }
    } else {
      var r, c :| InRange(r, c) && (r == i || c == j || SameBox(r, c, i, j)) && g[r][c] == n;
      assert r != i || c != j;
      assert h[r][c] == n;
      if r != i && c != j {
        assert SameBox(r, c, i, j);
        assert SameBox(i, j, r, c);
      }
      DuplicateInvalid(h, i, j, r, c);
    }
  }

  /** A completion's value for an empty cell is always a legal move there. */
  lemma CompletionMoveOk(s: Board, g: Board, i: int, j: int)
    requires IsSolution(s) && Shaped(g) && Extends(s, g) && InRange(i, j) && g[i][j] == 0
    ensures MoveOk(g, i, j, s[i][j])
  {
    forall r, c | InRange(r, c) && (r == i || c == j || SameBox(r, c, i, j))
      ensures g[r][c] != s[i][j]
    {
      if g[r][c] != 0 {
        assert Peers(r, c, i, j);
      }
    }
  }

  /** Blanking cells of a valid board keeps it valid. */
  lemma SubBoardValid(s: Board, g: Board)
    requires Shaped(s) && Shaped(g) && ValidBoard(s) && Extends(s, g)
    ensures ValidBoard(g)
  {
    forall r1, c1, r2, c2 |
      InRange(r1, c1) && InRange(r2, c2) && Peers(r1, c1, r2, c2) && g[r1][c1] != 0
      ensures g[r1][c1] != g[r2][c2]
    {
      if g[r2][c2] != 0 {
        assert s[r1][c1] != s[r2][c2];
      }
    }
  }

  lemma {:induction false} RowZerosUpdate(row: seq<int>, k: int, v: int)
    requires 0 <= k < |row|
    ensures RowZeros(row[k := v]) + (if row[k] == 0 then 1 else 0)
         == RowZeros(row) + (if v == 0 then 1 else 0)
  {
    if k > 0 {
      assert row[k := v][1..] == row[1..][k - 1 := v];
      RowZerosUpdate(row[1..], k - 1, v);
    } else {
      assert row[k := v][1..] == row[1..];
    }
  }

  lemma {:induction false} ZeroCountUpdate(g: Board, i: int, row: seq<int>)
    requires 0 <= i < |g|
    ensures ZeroCount(g[i := row]) + RowZeros(g[i]) == ZeroCount(g) + RowZeros(row)
  {
    if i > 0 {
      assert g[i := row][1..] == g[1..][i - 1 := row];
      ZeroCountUpdate(g[1..], i - 1, row);
    } else {
      assert g[i := row][1..] == g[1..];
    }
  }

  /** Blanking a filled cell adds exactly one blank; filling a blank removes one. */
  lemma ZeroCountPlace(g: Board, i: int, j: int, v: int)
    requires Shaped(g) && InRange(i, j)
    ensures ZeroCount(Place(g, i, j, v)) + (if g[i][j] == 0 then 1 else 0)
         == ZeroCount(g) + (if v == 0 then 1 else 0)
  {
    RowZerosUpdate(g[i], j, v);
    ZeroCountUpdate(g, i, g[i][j := v]);
  }

  lemma {:induction false} RowZerosNone(row: seq<int>)
    ensures RowZeros(row) == 0 <==> forall k :: 0 <= k < |row| ==> row[k] != 0
  {
    if row != [] {
      RowZerosNone(row[1..]);
      assert forall k :: 1 <= k < |row| ==> row[k] == row[1..][k - 1];
    }
  }

  lemma {:induction false} ZeroCountNoneRows(g: Board)
    ensures ZeroCount(g) == 0 <==> forall r :: 0 <= r < |g| ==> RowZeros(g[r]) == 0
  {
    if g != [] {
      ZeroCountNoneRows(g[1..]);
      assert forall r :: 1 <= r < |g| ==> g[r] == g[1..][r - 1];
    }
  }

  /** A board has no blanks exactly when no cell is 0. */
  lemma ZeroCountNone(g: Board)
    requires Shaped(g)
    ensures ZeroCount(g) == 0 <==> forall r, c :: InRange(r, c) ==> g[r][c] != 0
  {
    ZeroCountNoneRows(g);
    forall r | 0 <= r < 9
      ensures RowZeros(g[r]) == 0 <==> forall c :: 0 <= c < 9 ==> g[r][c] != 0
    {
      RowZerosNone(g[r]);
    }
  }
}
