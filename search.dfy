/**
  A functional model of the program's backtracking search `solve_sudoku`:
  the value it returns and the board it leaves behind, step for step as the
  code computes them. Search(g, i, j, cs) is one call at cell (i, j) on board
  g with count_solutions = cs; TryValues(g, i, j, num, cs) is the `for num`
  loop of that call from candidate `num` on, with g the board at that
  iteration.

  The lemmas below establish what the code promises: the search reports 0 or
  1 and nothing else, a report of 0 leaves the board as it was, a report of 1
  leaves every cell filled and every given in place, and on a valid board
  that holds only 0..9 the search reports 1 exactly when a solved board
  extends it -- whether or not that solved board is the only one.
 */
module SudokuSearch {
  import opened SudokuBoard

  datatype SearchResult = SearchResult(count: int, board: Board)

  /** `solve_sudoku(board, i, j, count_solutions)` on a board it owns. */
  function Search(g: Board, i: int, j: int, countSolutions: bool): (r: SearchResult)
    requires Shaped(g) && 0 <= i < 9 && 0 <= j <= 9
    ensures Shaped(r.board)
    decreases 81 - Pos(i, j), 10
  {
    if j == 9 && i + 1 == 9 then
      SearchResult(1, g)
    else
      var i', j' := if j == 9 then i + 1 else i, if j == 9 then 0 else j;
      if g[i'][j'] != 0 then Search(g, i', j' + 1, countSolutions)
      else TryValues(g, i', j', 1, countSolutions)
  }

  /** The `for num in range(num, 10)` loop at the empty cell (i, j). */
  function TryValues(g: Board, i: int, j: int, num: int, countSolutions: bool): (r: SearchResult)
    requires Shaped(g) && InRange(i, j) && g[i][j] == 0 && 1 <= num <= 10
    ensures Shaped(r.board)
    decreases 81 - Pos(i, j), 10 - num
  {
    if num == 10 then
      SearchResult(0, g)
    else if MoveOk(g, i, j, num) then
      var sub := Search(Place(g, i, j, num), i, j + 1, countSolutions);
      if countSolutions && sub.count > 1 then sub
      else if sub.count == 1 then SearchResult(1, sub.board)
      else TryValues(Place(sub.board, i, j, 0), i, j, num + 1, countSolutions)
    else
      TryValues(g, i, j, num + 1, countSolutions)
  }

  /** One pass of the candidate loop at num, unfolded. */
  lemma TryValuesStep(g: Board, i: int, j: int, num: int, countSolutions: bool)
    requires Shaped(g) && InRange(i, j) && g[i][j] == 0 && 1 <= num < 10
    ensures !MoveOk(g, i, j, num) ==>
      TryValues(g, i, j, num, countSolutions) == TryValues(g, i, j, num + 1, countSolutions)
    ensures MoveOk(g, i, j, num) ==>
      var sub := Search(Place(g, i, j, num), i, j + 1, countSolutions);
      TryValues(g, i, j, num, countSolutions) ==
        if countSolutions && sub.count > 1 then sub
        else if sub.count == 1 then SearchResult(1, sub.board)
        else TryValues(Place(sub.board, i, j, 0), i, j, num + 1, countSolutions)
  {
  }

  /** The search reports 0 or 1, and a report of 0 hands the board back unchanged. */
  lemma {:induction false} SearchReportsAtMostOne(g: Board, i: int, j: int, countSolutions: bool)
    requires Shaped(g) && 0 <= i < 9 && 0 <= j <= 9
    ensures var r := Search(g, i, j, countSolutions);
      (r.count == 0 || r.count == 1) && (r.count == 0 ==> r.board == g)
    decreases 81 - Pos(i, j), 10
  {
    if !(j == 9 && i + 1 == 9) {
      var i', j' := if j == 9 then i + 1 else i, if j == 9 then 0 else j;
      if g[i'][j'] != 0 {
        SearchReportsAtMostOne(g, i', j' + 1, countSolutions);
      } else {
        TryValuesReportsAtMostOne(g, i', j', 1, countSolutions);
      }
    }
  }

  lemma {:induction false} TryValuesReportsAtMostOne(g: Board, i: int, j: int, num: int, countSolutions: bool)
    requires Shaped(g) && InRange(i, j) && g[i][j] == 0 && 1 <= num <= 10
    ensures var r := TryValues(g, i, j, num, countSolutions);
      (r.count == 0 || r.count == 1) && (r.count == 0 ==> r.board == g)
    decreases 81 - Pos(i, j), 10 - num
  {
    if num < 10 {
      if MoveOk(g, i, j, num) {
        var h := Place(g, i, j, num);
        SearchReportsAtMostOne(h, i, j + 1, countSolutions);
        var sub := Search(h, i, j + 1, countSolutions);
        if sub.count != 1 {
          PlaceRestore(g, i, j, num);
          TryValuesReportsAtMostOne(g, i, j, num + 1, countSolutions);
        }
      } else {
        TryValuesReportsAtMostOne(g, i, j, num + 1, countSolutions);
      }
    }
  }

  /**
    `count_solutions` changes nothing: the branch it guards needs a report
    above 1, which never comes, so the uniqueness probe runs the very same
    search as the board-filling call.
   */
  lemma {:induction false} CountFlagIrrelevant(g: Board, i: int, j: int)
    requires Shaped(g) && 0 <= i < 9 && 0 <= j <= 9
    ensures Search(g, i, j, true) == Search(g, i, j, false)
    decreases 81 - Pos(i, j), 10
  {
    if !(j == 9 && i + 1 == 9) {
      var i', j' := if j == 9 then i + 1 else i, if j == 9 then 0 else j;
      if g[i'][j'] != 0 {
        CountFlagIrrelevant(g, i', j' + 1);
      } else {
        TryValuesCountFlagIrrelevant(g, i', j', 1);
      }
    }
  }

  lemma {:induction false} TryValuesCountFlagIrrelevant(g: Board, i: int, j: int, num: int)
    requires Shaped(g) && InRange(i, j) && g[i][j] == 0 && 1 <= num <= 10
    ensures TryValues(g, i, j, num, true) == TryValues(g, i, j, num, false)
    decreases 81 - Pos(i, j), 10 - num
  {
    if num < 10 {
      if MoveOk(g, i, j, num) {
        var h := Place(g, i, j, num);
        CountFlagIrrelevant(h, i, j + 1);
        SearchReportsAtMostOne(h, i, j + 1, true);
        var sub := Search(h, i, j + 1, true);
        if sub.count != 1 {
          TryValuesCountFlagIrrelevant(Place(sub.board, i, j, 0), i, j, num + 1);
        }
      } else {
        TryValuesCountFlagIrrelevant(g, i, j, num + 1);
      }
    }
  }

  /**
    A board with no blank cell from (i, j) on is reported as solved at once
    and left as it is, whatever duplicates it holds: filled cells are skipped
    without any check.
   */
  lemma {:induction false} FullBoardReportsOne(g: Board, i: int, j: int, countSolutions: bool)
    requires Shaped(g) && 0 <= i < 9 && 0 <= j <= 9
    requires forall r, c :: InRange(r, c) && Pos(r, c) >= Pos(i, j) ==> g[r][c] != 0
    ensures Search(g, i, j, countSolutions) == SearchResult(1, g)
    decreases 81 - Pos(i, j)
  {
    if !(j == 9 && i + 1 == 9) {
      var i', j' := if j == 9 then i + 1 else i, if j == 9 then 0 else j;
      assert g[i'][j'] != 0;
      FullBoardReportsOne(g, i', j' + 1, countSolutions);
    }
  }

  /**
    What a report of 1 leaves behind, seen from position p: cells before p
    and the nonzero cells of g are untouched, every cell from p on is
    nonzero, and every cell that changed holds a digit 1..9.
   */
  ghost predicate FilledFrom(g: Board, h: Board, p: int)
    requires Shaped(g) && Shaped(h)
  {
    forall r, c :: InRange(r, c) ==>
      && (Pos(r, c) < p || g[r][c] != 0 ==> h[r][c] == g[r][c])
      && (Pos(r, c) >= p ==> h[r][c] != 0)
      && (h[r][c] != g[r][c] ==> 1 <= h[r][c] <= 9)
  }

  /**
    Soundness: a report of 1 leaves a board filled from (i, j) on that keeps
    all givens, and a valid board stays valid, because every value the
    search writes passed the move test on a valid board.
   */
  lemma {:induction false} SearchSound(g: Board, i: int, j: int, countSolutions: bool)
    requires Shaped(g) && 0 <= i < 9 && 0 <= j <= 9
    requires Search(g, i, j, countSolutions).count == 1
    ensures var h := Search(g, i, j, countSolutions).board;
      FilledFrom(g, h, Pos(i, j)) && (ValidBoard(g) ==> ValidBoard(h))
    decreases 81 - Pos(i, j), 10
  {
    if !(j == 9 && i + 1 == 9) {
      var i', j' := if j == 9 then i + 1 else i, if j == 9 then 0 else j;
      assert Pos(i', j') == Pos(i, j);
      if g[i'][j'] != 0 {
        assert Search(g, i, j, countSolutions) == Search(g, i', j' + 1, countSolutions);
        SearchSound(g, i', j' + 1, countSolutions);
        FilledSkip(g, Search(g, i', j' + 1, countSolutions).board, i', j');
      } else {
        assert Search(g, i, j, countSolutions) == TryValues(g, i', j', 1, countSolutions);
        TryValuesSound(g, i', j', 1, countSolutions);
      }
    }
  }

  /** Skipping the filled cell (i, j): filled on from the next cell means filled on from (i, j). */
  lemma FilledSkip(g: Board, h: Board, i: int, j: int)
    requires Shaped(g) && Shaped(h) && InRange(i, j) && g[i][j] != 0
    requires FilledFrom(g, h, Pos(i, j) + 1)
    ensures FilledFrom(g, h, Pos(i, j))
  {
  }

  lemma {:induction false} TryValuesSound(g: Board, i: int, j: int, num: int, countSolutions: bool)
    requires Shaped(g) && InRange(i, j) && g[i][j] == 0 && 1 <= num <= 10
    requires TryValues(g, i, j, num, countSolutions).count == 1
    ensures var h := TryValues(g, i, j, num, countSolutions).board;
      FilledFrom(g, h, Pos(i, j)) && (ValidBoard(g) ==> ValidBoard(h))
    decreases 81 - Pos(i, j), 10 - num
  {
    if num < 10 {
      if MoveOk(g, i, j, num) {
        var h := Place(g, i, j, num);
        SearchReportsAtMostOne(h, i, j + 1, countSolutions);
        var sub := Search(h, i, j + 1, countSolutions);
        if sub.count == 1 {
          assert TryValues(g, i, j, num, countSolutions) == SearchResult(1, sub.board);
          SearchSound(h, i, j + 1, countSolutions);
          if ValidBoard(g) {
            PlaceKeepsValid(g, i, j, num);
          }
          FilledStep(g, h, sub.board, i, j);
        } else {
          assert TryValues(g, i, j, num, countSolutions) == TryValues(g, i, j, num + 1, countSolutions) by {
            PlaceRestore(g, i, j, num);
          }
          TryValuesSound(g, i, j, num + 1, countSolutions);
        }
      } else {
        assert TryValues(g, i, j, num, countSolutions) == TryValues(g, i, j, num + 1, countSolutions);
        TryValuesSound(g, i, j, num + 1, countSolutions);
      }
    }
  }

  /** Filling the empty cell (i, j) with a digit and then filling on from the next cell fills on from (i, j). */
  lemma FilledStep(g: Board, h: Board, k: Board, i: int, j: int)
    requires Shaped(g) && Shaped(h) && Shaped(k) && InRange(i, j) && g[i][j] == 0
    requires 1 <= h[i][j] <= 9
    requires forall r, c :: InRange(r, c) && (r != i || c != j) ==> h[r][c] == g[r][c]
    requires FilledFrom(h, k, Pos(i, j) + 1)
    ensures FilledFrom(g, k, Pos(i, j))
  {
    forall r, c | InRange(r, c)
      ensures Pos(r, c) < Pos(i, j) || g[r][c] != 0 ==> k[r][c] == g[r][c]
      ensures Pos(r, c) >= Pos(i, j) ==> k[r][c] != 0
      ensures k[r][c] != g[r][c] ==> 1 <= k[r][c] <= 9
    {
      if r == i && c == j {
        assert k[r][c] == h[r][c];
      } else {
        assert h[r][c] == g[r][c];
        assert Pos(r, c) != Pos(i, j);
      }
    }
  }

  /**
    Completeness: if some solved board keeps every given of g, the search
    from any cell reports 1. The value that solved board holds at an empty
    cell always passes the move test, and a failed candidate before it hands
    the board back unchanged.
   */
  lemma {:induction false} SearchComplete(g: Board, i: int, j: int, countSolutions: bool, s: Board)
    requires Shaped(g) && 0 <= i < 9 && 0 <= j <= 9
    requires IsSolution(s) && Extends(s, g)
    ensures Search(g, i, j, countSolutions).count == 1
    decreases 81 - Pos(i, j), 10
  {
    if !(j == 9 && i + 1 == 9) {
      var i', j' := if j == 9 then i + 1 else i, if j == 9 then 0 else j;
      if g[i'][j'] != 0 {
        SearchComplete(g, i', j' + 1, countSolutions, s);
      } else {
        TryValuesComplete(g, i', j', 1, countSolutions, s);
      }
    }
  }

  lemma {:induction false} TryValuesComplete(g: Board, i: int, j: int, num: int, countSolutions: bool, s: Board)
    requires Shaped(g) && InRange(i, j) && g[i][j] == 0 && 1 <= num <= 10
    requires IsSolution(s) && Extends(s, g) && num <= s[i][j]
    ensures TryValues(g, i, j, num, countSolutions).count == 1
    decreases 81 - Pos(i, j), 10 - num
  {
    var h := Place(g, i, j, num);
    if MoveOk(g, i, j, num) {
      SearchReportsAtMostOne(h, i, j + 1, countSolutions);
      var sub := Search(h, i, j + 1, countSolutions);
      if num == s[i][j] {
        SearchComplete(h, i, j + 1, countSolutions, s);
      }
      if sub.count == 1 {
        assert TryValues(g, i, j, num, countSolutions) == SearchResult(1, sub.board);
      } else {
        assert TryValues(g, i, j, num, countSolutions) == TryValues(g, i, j, num + 1, countSolutions) by {
          PlaceRestore(g, i, j, num);
        }
        TryValuesComplete(g, i, j, num + 1, countSolutions, s);
      }
    } else {
      CompletionMoveOk(s, g, i, j);
      assert TryValues(g, i, j, num, countSolutions) == TryValues(g, i, j, num + 1, countSolutions);
      TryValuesComplete(g, i, j, num + 1, countSolutions, s);
    }
  }

  /**
    The whole-board search on a valid board of cells 0..9: it reports 1
    exactly when the board has a completion, and then the board it leaves
    is such a completion.
   */
  lemma SolvedIffCompletable(g: Board, countSolutions: bool)
    requires Shaped(g) && WellFormed(g) && ValidBoard(g)
    ensures var r := Search(g, 0, 0, countSolutions);
      (r.count == 1 <==> HasCompletion(g)) && (r.count == 1 ==> IsSolution(r.board) && Extends(r.board, g))
  {
    var r := Search(g, 0, 0, countSolutions);
    if r.count == 1 {
      SearchSound(g, 0, 0, countSolutions);
      assert IsSolution(r.board) && Extends(r.board, g);
    }
    if HasCompletion(g) {
      var s :| IsSolution(s) && Extends(s, g);
      SearchComplete(g, 0, 0, countSolutions, s);
    }
  }
}
