/**
  The program's `SudokuGrid` engine on a mutable 9x9 array: the validity
  test, the move test, the backtracking solver that fills a board in place
  or works on a copy, the probe named `has_unique_solution`, and the part of
  `generate` that seeds, completes and carves a puzzle. Every method is
  proved against the reference definitions of SudokuBoard and the search
  model of SudokuSearch, through the ghost view `Cells` of the array.
 */
module SudokuEngine {
  import opened SudokuBoard
  import opened SudokuSearch
  import opened Completions

  /** The board held in a 9x9 array, as a value. */
  ghost function Cells(b: array2<int>): (g: Board)
    reads b
    requires b.Length0 == 9 && b.Length1 == 9
    ensures Shaped(g)
    ensures forall r, c :: InRange(r, c) ==> g[r][c] == b[r, c]
  {
    seq(9, r requires 0 <= r < 9 reads b => seq(9, c requires 0 <= c < 9 reads b => b[r, c]))
  }

  // ----- what the validity test has looked at -----

  /** Values of the nonzero cells of row r before position p. */
  ghost function RowSeen(g: Board, r: int, p: int): (vs: set<int>)
    requires Shaped(g) && 0 <= r < 9
  {
    set c | 0 <= c < 9 && Pos(r, c) < p && g[r][c] != 0 :: g[r][c]
  }

  /** Values of the nonzero cells of column c before position p. */
  ghost function ColSeen(g: Board, c: int, p: int): (vs: set<int>)
    requires Shaped(g) && 0 <= c < 9
  {
    set r | 0 <= r < 9 && Pos(r, c) < p && g[r][c] != 0 :: g[r][c]
  }

  /** Values of the nonzero cells of the box numbered k before position p. */
  ghost function BoxSeen(g: Board, k: int, p: int): (vs: set<int>)
    requires Shaped(g)
  {
    set r, c | 0 <= r < 9 && 0 <= c < 9 && BoxIndex(r, c) == k && Pos(r, c) < p && g[r][c] != 0 :: g[r][c]
  }

  /** No two peers before position p hold the same nonzero value. */
  ghost predicate ValidBefore(g: Board, p: int)
    requires Shaped(g)
  {
    forall r1, c1, r2, c2 ::
      InRange(r1, c1) && InRange(r2, c2) && Pos(r1, c1) < p && Pos(r2, c2) < p
      && Peers(r1, c1, r2, c2) && g[r1][c1] != 0
      ==> g[r1][c1] != g[r2][c2]
  }

  /** The per-row, per-column and per-box sets hold what was seen before position p. */
  ghost predicate Tracks(g: Board, p: int, rows: seq<set<int>>, cols: seq<set<int>>, boxes: seq<set<int>>)
    requires Shaped(g)
  {
    && |rows| == 9 && |cols| == 9 && |boxes| == 9
    && (forall k :: 0 <= k < 9 ==> rows[k] == RowSeen(g, k, p))
    && (forall k :: 0 <= k < 9 ==> cols[k] == ColSeen(g, k, p))
    && (forall k :: 0 <= k < 9 ==> boxes[k] == BoxSeen(g, k, p))
  }

  lemma SeenEmpty(g: Board)
    requires Shaped(g)
    ensures Tracks(g, 0, seq(9, _ => {}), seq(9, _ => {}), seq(9, _ => {}))
  {
    forall k | 0 <= k < 9
      ensures RowSeen(g, k, 0) == {} && ColSeen(g, k, 0) == {} && BoxSeen(g, k, 0) == {}
    {
    }
  }

  /** The only cell at position Pos(i, j) is (i, j). */
  lemma PosInjective(r: int, c: int, i: int, j: int)
    requires InRange(r, c) && InRange(i, j) && Pos(r, c) == Pos(i, j)
    ensures r == i && c == j
  {
  }

  /** Moving past the cell (i, j) adds its value, if nonzero, to the sets of its row, column and box only. */
  lemma SeenStep(g: Board, i: int, j: int)
    requires Shaped(g) && InRange(i, j)
    ensures forall k :: 0 <= k < 9 ==>
      RowSeen(g, k, Pos(i, j) + 1) == RowSeen(g, k, Pos(i, j)) + (if k == i && g[i][j] != 0 then {g[i][j]} else {})
    ensures forall k :: 0 <= k < 9 ==>
      ColSeen(g, k, Pos(i, j) + 1) == ColSeen(g, k, Pos(i, j)) + (if k == j && g[i][j] != 0 then {g[i][j]} else {})
    ensures forall k :: 0 <= k < 9 ==>
      BoxSeen(g, k, Pos(i, j) + 1) == BoxSeen(g, k, Pos(i, j)) + (if k == BoxIndex(i, j) && g[i][j] != 0 then {g[i][j]} else {})
  {
    var p := Pos(i, j);
    forall k | 0 <= k < 9
      ensures RowSeen(g, k, p + 1) == RowSeen(g, k, p) + (if k == i && g[i][j] != 0 then {g[i][j]} else {})
    {
      forall c | 0 <= c < 9 && Pos(k, c) < p + 1 && g[k][c] != 0
        ensures g[k][c] in RowSeen(g, k, p) + (if k == i && g[i][j] != 0 then {g[i][j]} else {})
      {
        if Pos(k, c) == p {
          PosInjective(k, c, i, j);
        }
      }
    }
    forall k | 0 <= k < 9
      ensures ColSeen(g, k, p + 1) == ColSeen(g, k, p) + (if k == j && g[i][j] != 0 then {g[i][j]} else {})
    {
      forall r | 0 <= r < 9 && Pos(r, k) < p + 1 && g[r][k] != 0
        ensures g[r][k] in ColSeen(g, k, p) + (if k == j && g[i][j] != 0 then {g[i][j]} else {})
      {
        if Pos(r, k) == p {
          PosInjective(r, k, i, j);
        }
      }
    }
    forall k | 0 <= k < 9
      ensures BoxSeen(g, k, p + 1) == BoxSeen(g, k, p) + (if k == BoxIndex(i, j) && g[i][j] != 0 then {g[i][j]} else {})
    {
      forall r, c | 0 <= r < 9 && 0 <= c < 9 && BoxIndex(r, c) == k && Pos(r, c) < p + 1 && g[r][c] != 0
        ensures g[r][c] in BoxSeen(g, k, p) + (if k == BoxIndex(i, j) && g[i][j] != 0 then {g[i][j]} else {})
      {
        if Pos(r, c) == p {
          PosInjective(r, c, i, j);
        }
      }
    }
  }

  /**
    Moving past the cell (i, j) keeps the prefix valid exactly when the cell
    is blank or its value is in none of the sets of its row, column and box.
   */
  lemma ValidStep(g: Board, i: int, j: int)
    requires Shaped(g) && InRange(i, j)
    ensures ValidBefore(g, Pos(i, j) + 1) <==>
      ValidBefore(g, Pos(i, j)) &&
      (g[i][j] == 0 || (g[i][j] !in RowSeen(g, i, Pos(i, j)) && g[i][j] !in ColSeen(g, j, Pos(i, j))
                        && g[i][j] !in BoxSeen(g, BoxIndex(i, j), Pos(i, j))))
  {
    var p := Pos(i, j);
    var n := g[i][j];
    if ValidBefore(g, p + 1) && n != 0 {
      if n in RowSeen(g, i, p) {
        var c :| 0 <= c < 9 && Pos(i, c) < p && g[i][c] != 0 && g[i][c] == n;
        assert Peers(i, j, i, c);
        assert false;
      }
      if n in ColSeen(g, j, p) {
        var r :| 0 <= r < 9 && Pos(r, j) < p && g[r][j] != 0 && g[r][j] == n;
        assert Peers(i, j, r, j);
        assert false;
      }
      if n in BoxSeen(g, BoxIndex(i, j), p) {
        var r, c :| 0 <= r < 9 && 0 <= c < 9 && BoxIndex(r, c) == BoxIndex(i, j) && Pos(r, c) < p && g[r][c] != 0 && g[r][c] == n;
        BoxIndexSame(i, j, r, c);
        assert Peers(i, j, r, c);
        assert false;
      }
    }
    if ValidBefore(g, p) && (n == 0 || (n !in RowSeen(g, i, p) && n !in ColSeen(g, j, p) && n !in BoxSeen(g, BoxIndex(i, j), p))) {
      forall r1, c1, r2, c2 |
        InRange(r1, c1) && InRange(r2, c2) && Pos(r1, c1) < p + 1 && Pos(r2, c2) < p + 1
        && Peers(r1, c1, r2, c2) && g[r1][c1] != 0
        ensures g[r1][c1] != g[r2][c2]
      {
        if Pos(r1, c1) == p {
          PosInjective(r1, c1, i, j);
          if g[r2][c2] != 0 {
            PeerSeen(g, i, j, r2, c2);
          }
        } else if Pos(r2, c2) == p {
          PosInjective(r2, c2, i, j);
          if g[r2][c2] != 0 {
            PeerSeen(g, i, j, r1, c1);
          }
        }
      }
    }
  }

  /** The nonzero value of a peer before (i, j) is in one of the three sets of (i, j). */
  lemma PeerSeen(g: Board, i: int, j: int, r: int, c: int)
    requires Shaped(g) && InRange(i, j) && InRange(r, c) && Peers(i, j, r, c) && Pos(r, c) < Pos(i, j)
    requires g[r][c] != 0
    ensures g[r][c] in RowSeen(g, i, Pos(i, j)) || g[r][c] in ColSeen(g, j, Pos(i, j))
         || g[r][c] in BoxSeen(g, BoxIndex(i, j), Pos(i, j))
  {
    if r == i {
      assert g[r][c] in RowSeen(g, i, Pos(i, j));
    } else if c == j {
      assert g[r][c] in ColSeen(g, j, Pos(i, j));
    } else {
      BoxIndexSame(i, j, r, c);
      assert g[r][c] in BoxSeen(g, BoxIndex(i, j), Pos(i, j));
    }
  }

  /** The whole board is valid exactly when everything before position 81 is. */
  lemma ValidBoardBefore(g: Board, p: int)
    requires Shaped(g)
    ensures ValidBoard(g) ==> ValidBefore(g, p)
    ensures p >= 81 && ValidBefore(g, p) ==> ValidBoard(g)
  {
  }

  // ----- what the carving loop of `generate` produces -----

  predicate PicksInRange(picks: seq<(int, int)>) {
    forall t :: 0 <= t < |picks| ==> InRange(picks[t].0, picks[t].1)
  }

  /** The test of the carving loop: `is_valid_sudoku` and `has_unique_solution` both accept the board. */
  ghost predicate Accepted(h: Board) {
    Shaped(h) && ValidBoard(h) && Search(h, 0, 0, true).count == 1
  }

  /** The state of the carving loop: the board, and `count`, the blanks kept so far. */
  datatype Carving = Carving(board: Board, count: int)

  /**
    The carving loop of `generate` from board g and `count` on, over the
    picked cells from index t on: it stops once `count` reaches `blanks`;
    a blank pick is skipped; otherwise the cell is blanked and kept blank
    only when the board passes the test `accept`, and restored when not.
    The loop of `generate` is Carve(..., Accepted).
   */
  ghost function Carve(g: Board, count: int, picks: seq<(int, int)>, t: int, blanks: int, accept: Board -> bool): (r: Carving)
    requires Shaped(g) && PicksInRange(picks) && 0 <= t <= |picks|
    ensures Shaped(r.board)
    decreases |picks| - t
  {
    if count >= blanks || t == |picks| then Carving(g, count)
    else
      var i, j := picks[t].0, picks[t].1;
      if g[i][j] == 0 then Carve(g, count, picks, t + 1, blanks, accept)
      else
        var h := Place(g, i, j, 0);
        if accept(h) then Carve(h, count + 1, picks, t + 1, blanks, accept)
        else Carve(g, count, picks, t + 1, blanks, accept)
  }

  /** One step of the carving loop, with the outcome of the test named. */
  lemma CarveStep(g: Board, count: int, picks: seq<(int, int)>, t: int, blanks: int, accept: Board -> bool)
    requires Shaped(g) && PicksInRange(picks) && 0 <= t < |picks| && count < blanks
    ensures var i, j := picks[t].0, picks[t].1;
      && (g[i][j] == 0 ==> Carve(g, count, picks, t, blanks, accept) == Carve(g, count, picks, t + 1, blanks, accept))
      && (g[i][j] != 0 && accept(Place(g, i, j, 0))
          ==> Carve(g, count, picks, t, blanks, accept) == Carve(Place(g, i, j, 0), count + 1, picks, t + 1, blanks, accept))
      && (g[i][j] != 0 && !accept(Place(g, i, j, 0))
          ==> Carve(g, count, picks, t, blanks, accept) == Carve(g, count, picks, t + 1, blanks, accept))
  {
  }

  /** Blanking a cell of a board keeps what the board keeps: `g` extends the result. */
  lemma BlankedExtends(g: Board, i: int, j: int)
    requires Shaped(g) && InRange(i, j)
    ensures Extends(g, Place(g, i, j, 0))
  {
  }

  /** `Extends` is transitive. */
  lemma ExtendsTrans(a: Board, b: Board, c: Board)
    requires Shaped(a) && Shaped(b) && Shaped(c) && Extends(a, b) && Extends(b, c)
    ensures Extends(a, c)
  {
  }

  /** Carving only blanks cells: the board carved from extends the result. */
  lemma {:induction false} CarveOnlyBlanks(g: Board, count: int, picks: seq<(int, int)>, t: int, blanks: int, accept: Board -> bool)
    requires Shaped(g) && PicksInRange(picks) && 0 <= t <= |picks|
    ensures Extends(g, Carve(g, count, picks, t, blanks, accept).board)
    decreases |picks| - t
  {
    if count < blanks && t < |picks| {
      var i, j := picks[t].0, picks[t].1;
      CarveStep(g, count, picks, t, blanks, accept);
      if g[i][j] != 0 {
        var h := Place(g, i, j, 0);
        BlankedExtends(g, i, j);
        CarveOnlyBlanks(h, count + 1, picks, t + 1, blanks, accept);
        ExtendsTrans(g, h, Carve(h, count + 1, picks, t + 1, blanks, accept).board);
      }
      CarveOnlyBlanks(g, count, picks, t + 1, blanks, accept);
    }
  }

  /**
    `count` tracks the blanks: every kept blank adds one blank cell and one
    to `count`, which never passes `blanks`.
   */
  lemma {:induction false} CarveCounts(g: Board, count: int, picks: seq<(int, int)>, t: int, blanks: int, accept: Board -> bool)
    requires Shaped(g) && PicksInRange(picks) && 0 <= t <= |picks| && count <= blanks
    ensures var r := Carve(g, count, picks, t, blanks, accept);
      count <= r.count <= blanks && ZeroCount(r.board) == ZeroCount(g) + r.count - count
    decreases |picks| - t
  {
    if count < blanks && t < |picks| {
      var i, j := picks[t].0, picks[t].1;
      var h := Place(g, i, j, 0);
      if g[i][j] != 0 && accept(h) {
        assert Carve(g, count, picks, t, blanks, accept) == Carve(h, count + 1, picks, t + 1, blanks, accept);
        ZeroCountBlank(g, i, j);
        CarveCounts(h, count + 1, picks, t + 1, blanks, accept);
      } else {
        assert Carve(g, count, picks, t, blanks, accept) == Carve(g, count, picks, t + 1, blanks, accept);
        CarveCounts(g, count, picks, t + 1, blanks, accept);
      }
    }
  }

  /** Blanking a filled cell adds one blank. */
  lemma ZeroCountBlank(g: Board, i: int, j: int)
    requires Shaped(g) && InRange(i, j) && g[i][j] != 0
    ensures ZeroCount(Place(g, i, j, 0)) == ZeroCount(g) + 1
  {
    ZeroCountPlace(g, i, j, 0);
  }

  /** Every cell picked from index t on is blank in h. */
  ghost predicate AllPicked(h: Board, picks: seq<(int, int)>, t: int)
    requires Shaped(h) && PicksInRange(picks) && 0 <= t
  {
    forall u :: t <= u < |picks| ==> h[picks[u].0][picks[u].1] == 0
  }

  /**
    Carving a board that a solved board `s` extends: the restore branch is
    never taken, so every picked cell is blanked until `count` reaches
    `blanks`; the loop ends with `count == blanks`, or else with every
    cell picked from index t on blank.
   */
  lemma {:induction false} CarveBlanksPicks(g: Board, count: int, picks: seq<(int, int)>, t: int, blanks: int, accept: Board -> bool, s: Board)
    requires Shaped(g) && PicksInRange(picks) && 0 <= t <= |picks| && count <= blanks
    requires IsSolution(s) && Extends(s, g)
    requires forall h :: Shaped(h) && Extends(s, h) ==> accept(h)
    ensures var r := Carve(g, count, picks, t, blanks, accept);
      r.count == blanks || AllPicked(r.board, picks, t)
    decreases |picks| - t
  {
    if count < blanks && t < |picks| {
      var i, j := picks[t].0, picks[t].1;
      var r := Carve(g, count, picks, t, blanks, accept);
      CarveStep(g, count, picks, t, blanks, accept);
      if g[i][j] == 0 {
        CarveBlanksPicks(g, count, picks, t + 1, blanks, accept, s);
        CarveOnlyBlanks(g, count, picks, t + 1, blanks, accept);
        if r.count != blanks {
          assert r.board[i][j] == 0;
        }
      } else {
        var h := Place(g, i, j, 0);
        BlankKeepsExtended(g, s, i, j);
        CarveBlanksPicks(h, count + 1, picks, t + 1, blanks, accept, s);
        CarveOnlyBlanks(h, count + 1, picks, t + 1, blanks, accept);
        if r.count != blanks {
          assert r.board[i][j] == 0;
        }
      }
    }
  }

  /** Blanking a cell of a board a solved board extends keeps it extended. */
  lemma BlankKeepsExtended(g: Board, s: Board, i: int, j: int)
    requires Shaped(g) && InRange(i, j) && IsSolution(s) && Extends(s, g)
    ensures Extends(s, Place(g, i, j, 0))
  {
    BlankedExtends(g, i, j);
    ExtendsTrans(s, g, Place(g, i, j, 0));
  }

  /** A sub-board of a solved board is a valid board of digits 0..9 that the search reports solved. */
  lemma SubBoardSolvable(s: Board, g: Board)
    requires IsSolution(s) && Shaped(g) && Extends(s, g)
    ensures WellFormed(g) && ValidBoard(g) && HasCompletion(g)
    ensures Search(g, 0, 0, true).count == 1
  {
    SubBoardValid(s, g);
    SearchComplete(g, 0, 0, true, s);
  }

  /** Every sub-board of a solved board passes the test of the carving loop. */
  lemma SubBoardsAccepted(s: Board)
    requires IsSolution(s)
    ensures forall h :: Shaped(h) && Extends(s, h) ==> Accepted(h)
  {
    forall h | Shaped(h) && Extends(s, h)
      ensures Accepted(h)
    {
      SubBoardSolvable(s, h);
    }
  }

  /**
    What the carving loop makes of a solved board: a sub-board of it with
    exactly `count` blanks, at most `blanks`, that ends with `count ==
    blanks` or with every picked cell blank, and that is valid and
    reported solved by `has_unique_solution`.
   */
  lemma CarvedPuzzle(s: Board, picks: seq<(int, int)>, blanks: int)
    requires IsSolution(s) && PicksInRange(picks) && 0 <= blanks
    ensures var r := Carve(s, 0, picks, 0, blanks, Accepted);
      && Extends(s, r.board) && ZeroCount(r.board) == r.count <= blanks
      && (r.count == blanks || AllPicked(r.board, picks, 0))
      && WellFormed(r.board) && ValidBoard(r.board) && Search(r.board, 0, 0, true).count == 1
  {
    var r := Carve(s, 0, picks, 0, blanks, Accepted);
    CarveOnlyBlanks(s, 0, picks, 0, blanks, Accepted);
    assert ZeroCount(s) == 0 by {
      ZeroCountNone(s);
    }
    CarveCounts(s, 0, picks, 0, blanks, Accepted);
    SubBoardsAccepted(s);
    CarveBlanksPicks(s, 0, picks, 0, blanks, Accepted, s);
    SubBoardSolvable(s, r.board);
  }

  /** How many cells each difficulty blanks: EASY 25..30, MEDIUM 30..35, any other level 35..45. */
  function BlankRange(level: string): (r: (int, int))
    ensures 25 <= r.0 <= r.1 <= 45
    ensures level == "EASY" ==> r == (25, 30)
    ensures level == "MEDIUM" ==> r == (30, 35)
    ensures level != "EASY" && level != "MEDIUM" ==> r == (35, 45)
  {
    if level == "EASY" then (25, 30)
    else if level == "MEDIUM" then (30, 35)
    else (35, 45)
  }

  class SudokuGrid {
    /** The current puzzle; `[[]]` before the first `generate`. */
    var board: array2<int>

    constructor()
      ensures board.Length0 == 1 && board.Length1 == 0
    {
      board := new int[1, 0];
    }

    /**
      `is_valid_sudoku`: one pass in row-major order with a set of seen
      values per row, column and box; a blank cell is skipped and a value
      already seen in its row, column or box ends the pass with false.
     */
    static method IsValidSudoku(b: array2<int>) returns (ok: bool)
      requires b.Length0 == 9 && b.Length1 == 9
      ensures ok == ValidBoard(Cells(b))
    {
      ghost var g := Cells(b);
      var rowSet: seq<set<int>> := seq(9, _ => {});
      var colSet: seq<set<int>> := seq(9, _ => {});
      var boxSet: seq<set<int>> := seq(9, _ => {});
      SeenEmpty(g);
      for i := 0 to 9
        invariant Tracks(g, Pos(i, 0), rowSet, colSet, boxSet)
        invariant ValidBefore(g, Pos(i, 0))
      {
        for j := 0 to 9
          invariant Tracks(g, Pos(i, j), rowSet, colSet, boxSet)
          invariant ValidBefore(g, Pos(i, j))
        {
          var ok;
          ok, rowSet, colSet, boxSet := ScanCell(b, i, j, rowSet, colSet, boxSet);
          if !ok {
            return false;
          }
        }
      }
      ValidBoardBefore(g, 81);
      return true;
    }

    /**
      One pass of the inner loop of `is_valid_sudoku` at cell (i, j): a
      blank cell changes nothing; a value already in the set of its row,
      column or box means the board is invalid; otherwise the value is
      added to the three sets.
     */
    static method ScanCell(b: array2<int>, i: int, j: int, rows: seq<set<int>>, cols: seq<set<int>>, boxes: seq<set<int>>)
      returns (ok: bool, rows': seq<set<int>>, cols': seq<set<int>>, boxes': seq<set<int>>)
      requires b.Length0 == 9 && b.Length1 == 9 && InRange(i, j)
      requires Tracks(Cells(b), Pos(i, j), rows, cols, boxes) && ValidBefore(Cells(b), Pos(i, j))
      ensures ok ==> Tracks(Cells(b), Pos(i, j) + 1, rows', cols', boxes') && ValidBefore(Cells(b), Pos(i, j) + 1)
      ensures !ok ==> !ValidBoard(Cells(b))
      ensures ok <==> ValidBefore(Cells(b), Pos(i, j) + 1)
    {
      ghost var g := Cells(b);
      rows', cols', boxes' := rows, cols, boxes;
      var num := b[i, j];
      SeenStep(g, i, j);
      ValidStep(g, i, j);
      if num == 0 {
        return true, rows', cols', boxes';
      }
      var box := (i / 3) * 3 + j / 3;
      BoxIndexSame(i, j, i, j);
      if num in rows[i] || num in cols[j] || num in boxes[box] {
        ValidBoardBefore(g, Pos(i, j) + 1);
        return false, rows', cols', boxes';
      }
      rows' := rows[i := rows[i] + {num}];
      cols' := cols[j := cols[j] + {num}];
      boxes' := boxes[box := boxes[box] + {num}];
      ok := true;
    }

    /**
      `is_valid_move`: k runs over 0..8 and probes cell (i, k) of the row,
      (k, j) of the column and the k-th cell of the box of (i, j).
     */
    static method IsValidMove(b: array2<int>, i: int, j: int, num: int) returns (ok: bool)
      requires b.Length0 == 9 && b.Length1 == 9 && InRange(i, j)
      ensures ok == MoveOk(Cells(b), i, j, num)
    {
      ghost var g := Cells(b);
      for k := 0 to 9
        invariant ProbesMiss(g, i, j, num, k)
      {
        BoxProbe(i, j, k);
        var r, c := (i / 3) * 3 + k / 3, (j / 3) * 3 + k % 3;
        if b[i, k] == num || b[k, j] == num || b[r, c] == num {
          ProbeHit(g, i, j, num, k);
          return false;
        }
        ProbeMissStep(g, i, j, num, k);
      }
      ProbesCover(g, i, j, num);
      return true;
    }

    /** The board `[row[:] for row in board]`: a fresh array with the same cells. */
    static method CopyBoard(b: array2<int>) returns (c: array2<int>)
      requires b.Length0 == 9 && b.Length1 == 9
      ensures fresh(c) && c.Length0 == 9 && c.Length1 == 9
      ensures Cells(c) == Cells(b)
    {
      c := new int[9, 9];
      for r := 0 to 9
        invariant forall r', k :: 0 <= r' < r && 0 <= k < 9 ==> c[r', k] == b[r', k]
      {
        for k := 0 to 9
          invariant forall r', k' :: 0 <= r' < r && 0 <= k' < 9 ==> c[r', k'] == b[r', k']
          invariant forall k' :: 0 <= k' < k ==> c[r, k'] == b[r, k']
        {
          c[r, k] := b[r, k];
        }
      }
      BoardsEqual(Cells(c), Cells(b));
    }

    /**
      `solve_sudoku(board, i, j, count_solutions, inplace)`: returns what the
      search model reports from (i, j) on the board as it was on entry. With
      `inplace` the array ends up holding the board the search leaves; without
      it the search runs on a copy and the caller's array is not touched.
     */
    method SolveSudoku(b: array2<int>, i: int, j: int, countSolutions: bool, inplace: bool) returns (count: int)
      requires b.Length0 == 9 && b.Length1 == 9 && 0 <= i < 9 && 0 <= j <= 9
      modifies if inplace then {b} else {}
      ensures count == Search(old(Cells(b)), i, j, countSolutions).count
      ensures inplace ==> Cells(b) == Search(old(Cells(b)), i, j, countSolutions).board
      ensures !inplace ==> Cells(b) == old(Cells(b))
      decreases 81 - Pos(i, j), 2
    {
      var board := b;
      if !inplace {
        board := CopyBoard(b);
      }
      var ii, jj := i, j;
      if jj == 9 {
        ii, jj := ii + 1, 0;
        if ii == 9 {
          return 1;
        }
      }
      if board[ii, jj] != 0 {
        count := SolveSudoku(board, ii, jj + 1, countSolutions, true);
      } else {
        count := TryCandidates(board, ii, jj, countSolutions);
      }
    }

    /**
      The `for num in range(1, 10)` loop of `solve_sudoku` at the empty cell
      (i, j): each legal candidate is written, the search goes on from the
      next cell, and the cell is reset to 0 when that search fails.
     */
    method TryCandidates(board: array2<int>, i: int, j: int, countSolutions: bool) returns (count: int)
      requires board.Length0 == 9 && board.Length1 == 9 && InRange(i, j) && board[i, j] == 0
      modifies board
      ensures count == TryValues(old(Cells(board)), i, j, 1, countSolutions).count
      ensures Cells(board) == TryValues(old(Cells(board)), i, j, 1, countSolutions).board
      decreases 81 - Pos(i, j), 1
    {
      ghost var r0 := TryValues(Cells(board), i, j, 1, countSolutions);
      var num := 1;
      while num < 10
        invariant 1 <= num <= 10 && board[i, j] == 0
        invariant TryValues(Cells(board), i, j, num, countSolutions) == r0
      {
        var stop, sc := TryCandidate(board, i, j, num, countSolutions);
        if stop {
          return sc;
        }
        num := num + 1;
      }
      return 0;
    }

    /**
      One pass of the candidate loop for `num`: when `num` is a legal move
      it is written and the search goes on from the next cell; the loop
      stops with that search's report when it is 1 (or above 1 while
      counting); otherwise the cell is reset to 0 and the loop goes on.
     */
    method TryCandidate(board: array2<int>, i: int, j: int, num: int, countSolutions: bool) returns (stop: bool, count: int)
      requires board.Length0 == 9 && board.Length1 == 9 && InRange(i, j) && board[i, j] == 0 && 1 <= num < 10
      modifies board
      ensures var r := TryValues(old(Cells(board)), i, j, num, countSolutions);
        && (stop ==> count == r.count && Cells(board) == r.board)
        && (!stop ==> Cells(board)[i][j] == 0 && TryValues(Cells(board), i, j, num + 1, countSolutions) == r)
      ensures !stop ==> Cells(board) == old(Cells(board))
      decreases 81 - Pos(i, j), 0
    {
      ghost var h := Cells(board);
      TryValuesStep(h, i, j, num, countSolutions);
      SearchReportsAtMostOne(Place(h, i, j, num), i, j + 1, countSolutions);
      PlaceRestore(h, i, j, num);
      var ok := IsValidMove(board, i, j, num);
      if !ok {
        return false, 0;
      }
      board[i, j] := num;
      BoardsEqual(Cells(board), Place(h, i, j, num));
      var sc := SolveSudoku(board, i, j + 1, countSolutions, true);
      if countSolutions && sc > 1 {
        return true, sc;
      }
      if sc == 1 {
        return true, 1;
      }
      ghost var k := Cells(board);
      board[i, j] := 0;
      BoardsEqual(Cells(board), Place(k, i, j, 0));
      return false, 0;
    }

    /**
      `has_unique_solution`: the search from (0, 0) with count_solutions on
      a private copy reports 1. On a valid board of digits 0..9 that is the
      case exactly when some completion exists, unique or not.
     */
    method HasUniqueSolution(b: array2<int>) returns (unique: bool)
      requires b.Length0 == 9 && b.Length1 == 9
      ensures unique <==> Search(Cells(b), 0, 0, true).count == 1
      ensures WellFormed(Cells(b)) && ValidBoard(Cells(b)) ==> (unique <==> HasCompletion(Cells(b)))
    {
      var count := SolveSudoku(b, 0, 0, true, false);
      unique := count == 1;
      if WellFormed(Cells(b)) && ValidBoard(Cells(b)) {
        SolvedIffCompletable(Cells(b), true);
      }
    }

    /**
      The board-building and carving part of `generate(level)`. The
      shuffled first row, the drawn number of blanks and the sequence of
      drawn cells are parameters. The board is seeded with the first row,
      filled by the solver, then cells are blanked one pick at a time while
      fewer than `blanks` are blank and picks remain.
     */
    method Generate(level: string, firstRow: seq<int>, blanks: int, picks: seq<(int, int)>) returns (res: array2<int>)
      requires IsDigitShuffle(firstRow)
      requires BlankRange(level).0 <= blanks <= BlankRange(level).1
      requires PicksInRange(picks)
      modifies this
      ensures res == board && fresh(board) && board.Length0 == 9 && board.Length1 == 9
      ensures var s := Search(Seed(firstRow), 0, 0, false).board;
        var r := Carve(s, 0, picks, 0, blanks, Accepted);
        && IsSolution(s) && s[0] == firstRow
        && Cells(board) == r.board && Extends(s, Cells(board))
        && ZeroCount(Cells(board)) == r.count <= blanks
        && (r.count == blanks || AllPicked(Cells(board), picks, 0))
      ensures WellFormed(Cells(board)) && ValidBoard(Cells(board))
      ensures Search(Cells(board), 0, 0, true).count == 1
    {
      var a := SeedBoard(firstRow);
      board := a;
      var _ := SolveSudoku(a, 0, 0, false, true);
      ghost var s := Cells(a);
      assert IsSolution(s) && s[0] == firstRow by {
        SeedIsSolved(firstRow, false);
      }
      var _ := BlankCells(a, blanks, picks);
      CarvedPuzzle(s, picks, blanks);
      res := a;
    }

    /** A fresh 9x9 board of zeros with `firstRow` written into row 0. */
    static method SeedBoard(firstRow: seq<int>) returns (a: array2<int>)
      requires |firstRow| == 9
      ensures fresh(a) && a.Length0 == 9 && a.Length1 == 9
      ensures Cells(a) == Seed(firstRow)
    {
      a := new int[9, 9]((_, _) => 0);
      for j := 0 to 9
        invariant forall r, c :: InRange(r, c) ==> a[r, c] == (if r == 0 && c < j then firstRow[c] else 0)
      {
        a[0, j] := firstRow[j];
      }
      BoardsEqual(Cells(a), Seed(firstRow));
    }

    /**
      The `while count < blanks` loop of `generate`, run over the drawn
      cells in order until `blanks` cells are blank or the draws run out:
      a drawn blank cell is skipped; otherwise the cell is blanked and kept
      blank only when `is_valid_sudoku` and `has_unique_solution` both
      accept the board, and restored otherwise. Returns the final `count`.
     */
    method BlankCells(a: array2<int>, blanks: int, picks: seq<(int, int)>) returns (count: int)
      requires a.Length0 == 9 && a.Length1 == 9 && PicksInRange(picks)
      modifies a
      ensures Carving(Cells(a), count) == Carve(old(Cells(a)), 0, picks, 0, blanks, Accepted)
    {
      ghost var r0 := Carve(Cells(a), 0, picks, 0, blanks, Accepted);
      count := 0;
      var t := 0;
      while count < blanks && t < |picks|
        invariant 0 <= t <= |picks|
        invariant Carve(Cells(a), count, picks, t, blanks, Accepted) == r0
        decreases |picks| - t
      {
        var i, j := picks[t].0, picks[t].1;
        ghost var g := Cells(a);
        CarveStep(g, count, picks, t, blanks, Accepted);
        t := t + 1;
        if a[i, j] == 0 {
          continue;
        }
        var kept := TryBlank(a, i, j);
        if kept {
          count := count + 1;
        }
      }
      assert Carve(Cells(a), count, picks, t, blanks, Accepted) == Carving(Cells(a), count);
    }

    /**
      One pass of the carving loop's body on a filled cell: blank (i, j),
      keep it blank when `is_valid_sudoku` and `has_unique_solution` both
      accept the board, and write the old value back otherwise.
     */
    method TryBlank(a: array2<int>, i: int, j: int) returns (kept: bool)
      requires a.Length0 == 9 && a.Length1 == 9 && InRange(i, j)
      modifies a
      ensures kept == Accepted(Place(old(Cells(a)), i, j, 0))
      ensures Cells(a) == if kept then Place(old(Cells(a)), i, j, 0) else old(Cells(a))
    {
      var temp := a[i, j];
      ghost var before := Cells(a);
      a[i, j] := 0;
      BoardsEqual(Cells(a), Place(before, i, j, 0));
      var valid := IsValidSudoku(a);
      var unique := false;
      if valid {
        unique := HasUniqueSolution(a);
      }
      kept := valid && unique;
      if !kept {
        a[i, j] := temp;
        BoardsEqual(Cells(a), before);
      }
    }
  }

  /** None of the first k probes of the move test at (i, j) finds `num`. */
  predicate ProbesMiss(g: Board, i: int, j: int, num: int, k: int)
    requires Shaped(g) && InRange(i, j) && 0 <= k <= 9
  {
    forall m :: 0 <= m < k ==>
      g[i][m] != num && g[m][j] != num && g[(i / 3) * 3 + m / 3][(j / 3) * 3 + m % 3] != num
  }

  /** A k-th probe that misses extends the run of missed probes. */
  lemma ProbeMissStep(g: Board, i: int, j: int, num: int, k: int)
    requires Shaped(g) && InRange(i, j) && 0 <= k < 9 && ProbesMiss(g, i, j, num, k)
    requires g[i][k] != num && g[k][j] != num && g[(i / 3) * 3 + k / 3][(j / 3) * 3 + k % 3] != num
    ensures ProbesMiss(g, i, j, num, k + 1)
  {
  }

  /** A probe that finds `num` makes the move illegal. */
  lemma ProbeHit(g: Board, i: int, j: int, num: int, k: int)
    requires Shaped(g) && InRange(i, j) && 0 <= k < 9
    requires g[i][k] == num || g[k][j] == num || g[(i / 3) * 3 + k / 3][(j / 3) * 3 + k % 3] == num
    ensures !MoveOk(g, i, j, num)
  {
    BoxProbe(i, j, k);
  }

  /** When all nine probes miss, `num` is nowhere in the row, the column or the box. */
  lemma ProbesCover(g: Board, i: int, j: int, num: int)
    requires Shaped(g) && InRange(i, j) && ProbesMiss(g, i, j, num, 9)
    ensures MoveOk(g, i, j, num)
  {
    forall r, c | 0 <= r < 9 && 0 <= c < 9 && SameBox(r, c, i, j)
      ensures g[r][c] != num
    {
      BoxCover(i, j, r, c);
      var k := 3 * (r % 3) + c % 3;
      assert g[(i / 3) * 3 + k / 3][(j / 3) * 3 + k % 3] != num;
    }
  }

  /** The k-th probe of the box scan lies in the box of (i, j). */
  lemma BoxProbe(i: int, j: int, k: int)
    requires InRange(i, j) && 0 <= k < 9
    ensures InRange((i / 3) * 3 + k / 3, (j / 3) * 3 + k % 3)
    ensures SameBox((i / 3) * 3 + k / 3, (j / 3) * 3 + k % 3, i, j)
  {
  }

  /** Every cell of the box of (i, j) is probed: by k = 3 * (r % 3) + c % 3. */
  lemma BoxCover(i: int, j: int, r: int, c: int)
    requires InRange(i, j) && InRange(r, c) && SameBox(r, c, i, j)
    ensures var k := 3 * (r % 3) + c % 3;
      0 <= k < 9 && (i / 3) * 3 + k / 3 == r && (j / 3) * 3 + k % 3 == c
  {
  }
}
