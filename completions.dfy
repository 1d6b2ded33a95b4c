/**
  Concrete solved boards, used to show that the board the program seeds
  (a shuffled first row, everything else blank) always has a completion, so
  the filling call in `generate` always reports 1; and to show that the
  probe named `has_unique_solution` says yes on a board with more than one
  completion.

  The pattern puts digit p[(3 * (r % 3) + r / 3 + c) % 9] at (r, c): each
  row is the previous one shifted by three places, and every third row by
  one more, which makes every row, column and box hold all nine digits
  whenever p is an arrangement of 1..9.
 */
module Completions {
  import opened SudokuBoard
  import opened SudokuSearch

  /** An arrangement of the digits 1..9, what `random.shuffle(list(range(1, 10)))` yields. */
  predicate IsDigitShuffle(p: seq<int>) {
    |p| == 9 && (forall k :: 0 <= k < 9 ==> 1 <= p[k] <= 9)
    && (forall k, m :: 0 <= k < m < 9 ==> p[k] != p[m])
  }

  function PatternIndex(r: int, c: int): (k: int)
    ensures 0 <= k < 9
  {
    (3 * (r % 3) + r / 3 + c) % 9
  }

  function Pattern(p: seq<int>): (s: Board)
    requires |p| == 9
    ensures Shaped(s)
    ensures forall r, c :: InRange(r, c) ==> s[r][c] == p[PatternIndex(r, c)]
  {
    seq(9, r => seq(9, c => p[PatternIndex(r, c)]))
  }

  /** The board `generate` hands to the solver: first row `p`, all else blank. */
  function Seed(p: seq<int>): (g: Board)
    requires |p| == 9
    ensures Shaped(g) && g[0] == p
    ensures forall r, c :: InRange(r, c) && r > 0 ==> g[r][c] == 0
  {
    seq(9, r => if r == 0 then p else seq(9, c => 0))
  }

  function EmptyBoard(): (g: Board)
    ensures Shaped(g) && forall r, c :: InRange(r, c) ==> g[r][c] == 0
  {
    seq(9, r => seq(9, c => 0))
  }

  /** A cell index 0..8 splits into a third and a remainder 0..2. */
  lemma Thirds(r: int)
    requires 0 <= r < 9
    ensures 0 <= r / 3 < 3 && 0 <= r % 3 < 3 && r == 3 * (r / 3) + r % 3
  {
  }

  /** Different sums less than 9 apart leave different remainders mod 9. */
  lemma NineApart(x1: int, x2: int)
    requires x1 != x2 && -9 < x1 - x2 < 9
    ensures x1 % 9 != x2 % 9
  {
  }

  /** Peers get different pattern indices. */
  lemma PatternIndexDistinct(r1: int, c1: int, r2: int, c2: int)
    requires InRange(r1, c1) && InRange(r2, c2) && Peers(r1, c1, r2, c2)
    ensures PatternIndex(r1, c1) != PatternIndex(r2, c2)
  {
    Thirds(r1);
    Thirds(r2);
    Thirds(c1);
    Thirds(c2);
    var a1, b1, a2, b2 := r1 / 3, r1 % 3, r2 / 3, r2 % 3;
    var x1, x2 := 3 * b1 + a1 + c1, 3 * b2 + a2 + c2;
    if r1 == r2 {
      assert a1 == a2 && b1 == b2;
      assert x1 - x2 == c1 - c2;
    } else if c1 == c2 {
      assert a1 != a2 || b1 != b2;
      assert x1 - x2 == 3 * (b1 - b2) + (a1 - a2);
    } else {
      assert a1 == a2 && b1 != b2;
      Thirds(c1);
      Thirds(c2);
      assert -3 < c1 - c2 < 3;
      assert x1 - x2 == 3 * (b1 - b2) + (c1 - c2);
    }
    NineApart(x1, x2);
  }

  /** The pattern over an arrangement of 1..9 is a solved board. */
  lemma PatternIsSolution(p: seq<int>)
    requires IsDigitShuffle(p)
    ensures IsSolution(Pattern(p))
  {
    var s := Pattern(p);
    forall r1, c1, r2, c2 |
      InRange(r1, c1) && InRange(r2, c2) && Peers(r1, c1, r2, c2) && s[r1][c1] != 0
      ensures s[r1][c1] != s[r2][c2]
    {
      PatternIndexDistinct(r1, c1, r2, c2);
      var k1, k2 := PatternIndex(r1, c1), PatternIndex(r2, c2);
      if k1 < k2 {
        assert p[k1] != p[k2];
      } else {
        assert p[k2] != p[k1];
      }
    }
  }

  /** Row 0 of the pattern is `p` itself. */
  lemma PatternFirstRow(p: seq<int>)
    requires |p| == 9
    ensures forall c :: 0 <= c < 9 ==> Pattern(p)[0][c] == p[c]
  {
    forall c | 0 <= c < 9
      ensures PatternIndex(0, c) == c
    {
    }
  }

  /** So the pattern completes the seed. */
  lemma PatternExtendsSeed(p: seq<int>)
    requires |p| == 9
    ensures Extends(Pattern(p), Seed(p))
  {
    PatternFirstRow(p);
    var s, g := Pattern(p), Seed(p);
    forall r, c | InRange(r, c) && g[r][c] != 0
      ensures s[r][c] == g[r][c]
    {
      assert r == 0;
    }
  }

  /** The seeded board is a valid board of digits 0..9 that the pattern completes. */
  lemma SeedCompletable(p: seq<int>)
    requires IsDigitShuffle(p)
    ensures WellFormed(Seed(p)) && ValidBoard(Seed(p))
    ensures IsSolution(Pattern(p)) && Extends(Pattern(p), Seed(p))
  {
    PatternIsSolution(p);
    PatternExtendsSeed(p);
    SubBoardValid(Pattern(p), Seed(p));
  }

  /**
    The filling call `solve_sudoku(board, 0, 0)` of `generate` always
    reports 1 on the seeded board and leaves a solved board whose first row
    is the shuffled one.
   */
  lemma SeedIsSolved(p: seq<int>, countSolutions: bool)
    requires IsDigitShuffle(p)
    ensures var r := Search(Seed(p), 0, 0, countSolutions);
      r.count == 1 && IsSolution(r.board) && r.board[0] == p
  {
    var g := Seed(p);
    SeedCompletable(p);
    SearchComplete(g, 0, 0, countSolutions, Pattern(p));
    SolvedIffCompletable(g, countSolutions);
    FullRowKept(Search(g, 0, 0, countSolutions).board, g, 0);
  }

  /** A completion keeps a row that has no blank exactly as it is. */
  lemma FullRowKept(s: Board, g: Board, r: int)
    requires Shaped(s) && Shaped(g) && Extends(s, g) && 0 <= r < 9
    requires forall c :: 0 <= c < 9 ==> g[r][c] != 0
    ensures s[r] == g[r]
  {
    assert forall c :: 0 <= c < 9 ==> s[r][c] == g[r][c];
  }

  /** The pattern completes the blank board. */
  lemma PatternExtendsBlank(p: seq<int>, g: Board)
    requires |p| == 9
    requires Shaped(g) && forall r, c :: InRange(r, c) ==> g[r][c] == 0
    ensures Extends(Pattern(p), g)
  {
  }

  /** Cell (0, 0) of the pattern is the first digit of the arrangement. */
  lemma PatternFirstCell(p: seq<int>)
    requires |p| == 9
    ensures Pattern(p)[0][0] == p[0]
  {
    assert PatternIndex(0, 0) == 0;
  }

  /** Any arrangement of 1..9 gives a completion of the blank board whose cell (0, 0) is its first digit. */
  lemma PatternCompletesBlank(p: seq<int>, g: Board)
    requires IsDigitShuffle(p)
    requires Shaped(g) && forall r, c :: InRange(r, c) ==> g[r][c] == 0
    ensures IsSolution(Pattern(p)) && Extends(Pattern(p), g) && Pattern(p)[0][0] == p[0]
  {
    PatternIsSolution(p);
    PatternExtendsBlank(p, g);
    PatternFirstCell(p);
  }

  /** The blank board is valid, and the search reports it solved. */
  lemma BlankBoardSolved(g: Board)
    requires Shaped(g) && forall r, c :: InRange(r, c) ==> g[r][c] == 0
    ensures ValidBoard(g)
    ensures Search(g, 0, 0, true).count == 1
  {
    var p := [1, 2, 3, 4, 5, 6, 7, 8, 9];
    PatternCompletesBlank(p, g);
    SearchComplete(g, 0, 0, true, Pattern(p));
  }

  /** Two arrangements with different first digits give two completions of the blank board that differ in cell (0, 0). */
  lemma TwoPatternsCompleteBlank(p1: seq<int>, p2: seq<int>, g: Board)
    requires IsDigitShuffle(p1) && IsDigitShuffle(p2) && p1[0] != p2[0]
    requires Shaped(g) && forall r, c :: InRange(r, c) ==> g[r][c] == 0
    ensures IsSolution(Pattern(p1)) && IsSolution(Pattern(p2))
    ensures Extends(Pattern(p1), g) && Extends(Pattern(p2), g)
    ensures Pattern(p1)[0][0] != Pattern(p2)[0][0]
  {
    PatternCompletesBlank(p1, g);
    PatternCompletesBlank(p2, g);
  }

  /** The blank board has two completions that differ in cell (0, 0). */
  lemma BlankBoardTwoCompletions(g: Board) returns (s1: Board, s2: Board)
    requires Shaped(g) && forall r, c :: InRange(r, c) ==> g[r][c] == 0
    ensures IsSolution(s1) && IsSolution(s2) && Extends(s1, g) && Extends(s2, g)
    ensures s1[0][0] != s2[0][0]
  {
    var p1 := [1, 2, 3, 4, 5, 6, 7, 8, 9];
    var p2 := [9, 8, 7, 6, 5, 4, 3, 2, 1];
    assert IsDigitShuffle(p1) && IsDigitShuffle(p2);
    TwoPatternsCompleteBlank(p1, p2, g);
    s1, s2 := Pattern(p1), Pattern(p2);
  }

  /**
    The blank board is valid and the probe named `has_unique_solution`
    reports 1 on it, although two solved boards that differ in cell (0, 0) complete it.
   */
  lemma BlankBoardReportsOne(g: Board) returns (s1: Board, s2: Board)
    requires Shaped(g) && forall r, c :: InRange(r, c) ==> g[r][c] == 0
    ensures ValidBoard(g)
    ensures Search(g, 0, 0, true).count == 1
    ensures IsSolution(s1) && IsSolution(s2) && Extends(s1, g) && Extends(s2, g)
    ensures s1[0][0] != s2[0][0]
  {
    BlankBoardSolved(g);
    s1, s2 := BlankBoardTwoCompletions(g);
  }

  /** Two 5s in row 0 make a board the validity test rejects. */
  lemma TwoFivesInRowInvalid()
    ensures !ValidBoard(Place(Place(EmptyBoard(), 0, 0, 5), 0, 1, 5))
  {
    var g := Place(Place(EmptyBoard(), 0, 0, 5), 0, 1, 5);
    DuplicateInvalid(g, 0, 0, 0, 1);
  }

  /** A board of 81 fives is invalid, yet the search reports it solved. */
  lemma AllFivesReportsOne()
    ensures !ValidBoard(seq(9, r => seq(9, c => 5)))
    ensures Search(seq(9, r => seq(9, c => 5)), 0, 0, true).count == 1
  {
    var g: Board := seq(9, r => seq(9, c => 5));
    DuplicateInvalid(g, 0, 0, 0, 1);
    FullBoardReportsOne(g, 0, 0, true);
  }

  /** Every solved board with one cell cleared is reported solved again. */
  lemma OneBlankReportsOne(s: Board, i: int, j: int)
    requires IsSolution(s) && InRange(i, j)
    ensures Search(Place(s, i, j, 0), 0, 0, true) == SearchResult(1, s)
  {
    var g := Place(s, i, j, 0);
    SearchComplete(g, 0, 0, true, s);
    SearchSound(g, 0, 0, true);
    var h := Search(g, 0, 0, true).board;
    assert h[i][j] != 0;
    CompletionMoveOk(s, g, i, j);
    forall r, c | InRange(r, c)
      ensures h[r][c] == s[r][c]
    {
      if r == i && c == j {
        OnlyValueLeft(s, h, i, j);
      }
    }
    BoardsEqual(h, s);
  }

  /** If two valid boards agree on every cell but (i, j) and one is solved, they agree on (i, j) too. */
  lemma OnlyValueLeft(s: Board, h: Board, i: int, j: int)
    requires IsSolution(s) && Shaped(h) && ValidBoard(h) && InRange(i, j)
    requires 1 <= h[i][j] <= 9
    requires forall r, c :: InRange(r, c) && (r != i || c != j) ==> h[r][c] == s[r][c]
    ensures h[i][j] == s[i][j]
  {
    DigitInRow(s, i, h[i][j]);
    var c :| 0 <= c < 9 && s[i][c] == h[i][j];
    if c != j {
      assert h[i][c] == s[i][c];
      DuplicateInvalid(h, i, j, i, c);
    }
  }

  /** Every digit occurs in every row of a solved board. */
  lemma DigitInRow(s: Board, i: int, v: int)
    requires IsSolution(s) && 0 <= i < 9 && 1 <= v <= 9
    ensures exists c :: 0 <= c < 9 && s[i][c] == v
  {
    var row := s[i];
    RowDistinct(s, i);
    ImageCard(row, 9);
    ImageDigits(row);
    FullDigits(set k | 0 <= k < 9 :: row[k]);
  }

  /** A row of a solved board holds nine different digits. */
  lemma RowDistinct(s: Board, i: int)
    requires IsSolution(s) && 0 <= i < 9
    ensures forall k, m :: 0 <= k < m < 9 ==> s[i][k] != s[i][m]
  {
    forall k, m | 0 <= k < m < 9
      ensures s[i][k] != s[i][m]
    {
      assert Peers(i, k, i, m);
    }
  }

  lemma ImageDigits(row: seq<int>)
    requires |row| == 9 && forall k :: 0 <= k < 9 ==> 1 <= row[k] <= 9
    ensures (set k | 0 <= k < 9 :: row[k]) <= {1, 2, 3, 4, 5, 6, 7, 8, 9}
  {
  }

  /** Nine values from 1..9 are all the digits. */
  lemma FullDigits(seen: set<int>)
    requires seen <= {1, 2, 3, 4, 5, 6, 7, 8, 9} && |seen| == 9
    ensures seen == {1, 2, 3, 4, 5, 6, 7, 8, 9}
  {
    var digits := {1, 2, 3, 4, 5, 6, 7, 8, 9};
    assert |digits| == 9;
    assert |digits - seen| == 0;
  }

  /** Pairwise different values at n places make a set of n values. */
  lemma {:induction false} ImageCard(row: seq<int>, n: nat)
    requires n <= |row|
    requires forall k, m :: 0 <= k < m < n ==> row[k] != row[m]
    ensures |set k | 0 <= k < n :: row[k]| == n
  {
    if n > 0 {
      ImageCard(row, n - 1);
      var before := set k | 0 <= k < n - 1 :: row[k];
      assert (set k | 0 <= k < n :: row[k]) == before + {row[n - 1]};
      assert row[n - 1] !in before;
    }
  }
}
