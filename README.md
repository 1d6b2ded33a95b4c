# Sudoku engine of flet-sudoku, modelled in Dafny

The grid widget `SudokuGrid` of `main.py` contains a small Sudoku engine:

- `is_valid_sudoku`, a duplicate test over rows, columns and 3x3 boxes;
- `is_valid_move`, a placement test for one cell;
- `solve_sudoku`, a row-major backtracking search that works on the board in place or on a private copy;
- `has_unique_solution`, the search run on a copy with counting switched on;
- the part of `generate(level)` that builds a puzzle. It seeds row 0 with a shuffled 1..9, fills the board with the search, draws a number of blanks for the level, and then blanks drawn cells one at a time. A blank is kept only when the board still passes `is_valid_sudoku` and `has_unique_solution`.

The model keeps the program's imperative form. The board is a 9x9 `array2<int>` (0 is an empty cell), and the engine is the class `SudokuEngine.SudokuGrid` with the field `board`. Each Python method is a method of that class. Some loop bodies are split into helper methods: `ScanCell`, `TryCandidate` and `TryBlank`. The carving loop of `generate` is its own method, `BlankCells`. The row copy in `solve_sudoku` is `CopyBoard`, and the seeding of `generate` is `SeedBoard`. The loops are `for` and `while` loops with invariants. Each method is proved against reference functions on the board read as a value, `Cells(b): seq<seq<int>>`:

| module | file | contents |
|---|---|---|
| `SudokuBoard` | board.dfy | The board as a value. Validity (`ValidBoard`), the move test (`MoveOk`), solved boards (`IsSolution`), completions (`Extends`, `HasCompletion`) and the blank count (`ZeroCount`). |
| `SudokuSearch` | search.dfy | `Search` and `TryValues` give the value `solve_sudoku` returns and the board it leaves. Each follows the code branch for branch, including the branch that can never be taken. Lemmas state what the search does. |
| `Completions` | completions.dfy | Concrete solved boards. They show the seeded board always has a completion, and they are the witnesses for the properties of `has_unique_solution` below. |
| `SudokuEngine` | engine.dfy | The class with its methods, and `Carve`, the carving loop of `generate` as a function of its inputs. Lemmas state what the carved board is. |

What the proofs establish, in the program's terms:

- **Validity test.** `is_valid_sudoku` says yes exactly when no row, column or box repeats a nonzero value. `is_valid_move(b, i, j, n)` says yes exactly when `n` is nowhere in row `i`, column `j` or the box of `(i, j)`, the cell itself included. On a valid board with `b[i][j] == 0`, writing a nonzero `n` keeps the board valid exactly when the move test allows it.
- **Search results.** `solve_sudoku` only ever returns 0 or 1. So the `count_solutions and solutions_count > 1` branch is dead, and the counting flag changes nothing.
  - A result of 0 leaves the board exactly as it was.
  - A result of 1 leaves a board with no blanks that keeps every given. If the board was valid, the result is still valid.
  - With `inplace=False` the caller's board is not touched.
- **Full boards.** A board with no blanks returns 1 without any check, even when it repeats values.
- **What `has_unique_solution` tests.** On a valid board of digits 0..9, it says yes exactly when some solved board completes it, unique or not. The empty board has two completions that differ in cell (0, 0), and the test still says yes.
- **Generation.** The search always fills the seeded board into a solved board that keeps the shuffled first row. The carving loop never restores a cell: every sub-board of a solved board passes both tests. The result is a sub-board of the solved board with exactly `count` blanks, and `count <= blanks`. It has `count == blanks` unless the drawn cells ran out first, and in that case every drawn cell is blank. The result is valid, and `has_unique_solution` says yes on it.

## Model

| member | source | states |
|---|---|---|
| SudokuEngine.SudokuGrid.constructor | main.py:92 | The board starts as `[[]]`: one row with no cells. |
| SudokuEngine.SudokuGrid.IsValidSudoku | main.py:199-217 | Returns true exactly when no two cells that share a row, a column or a box hold the same nonzero value (`ValidBoard`). Blank cells are skipped. The board is not modified. |
| SudokuEngine.SudokuGrid.ScanCell | main.py:204-216 | One cell of the scan. It answers true exactly when no two peers up to and including this cell repeat a value, so it answers false only at the first repeat. If it answers false, the board is invalid. If it answers true, the three sets hold exactly the values of the nonzero cells up to and including this one. |
| SudokuEngine.SudokuGrid.IsValidMove | main.py:246-254 | Returns true exactly when `num` occurs nowhere in row `i`, column `j` or the box of `(i, j)`, the cell itself included (`MoveOk`). The box probe `(i // 3) * 3 + k // 3, (j // 3) * 3 + k % 3` for k in 0..8 covers exactly that box. |
| SudokuEngine.SudokuGrid.CopyBoard | main.py:226 | Returns a fresh array with the same cells as the caller's board. |
| SudokuEngine.SudokuGrid.SolveSudoku | main.py:224-242 | Returns what `Search` reports for the board as it was on entry. With `inplace` the array ends up holding the board the search leaves. Without it the caller's array is unchanged. |
| SudokuEngine.SudokuGrid.TryCandidates | main.py:233-242 | The `for num in range(1, 10)` loop at an empty cell. Returns and leaves what `TryValues` from candidate 1 gives, reporting 0 when no candidate leads to a solution. |
| SudokuEngine.SudokuGrid.TryCandidate | main.py:234-241 | One candidate. It either stops the loop with the report and the board that `TryValues` gives from `num`, or undoes the failed candidate: the board is exactly as on entry, with the cell at 0, and `TryValues` at `num + 1` on it gives the same result. |
| SudokuEngine.SudokuGrid.HasUniqueSolution | main.py:220-221 | Says yes exactly when the counting search from (0, 0) reports 1. On a valid board of digits 0..9, that is exactly when some solved board extends the board. It changes no array. |
| SudokuEngine.SudokuGrid.Generate | main.py:156-184 | Sets `board` to a fresh 9x9 array holding the carving of a solved board whose row 0 is the shuffled row. Its blank count equals the loop's `count` and is at most `blanks`, and is exactly `blanks` unless every drawn cell is blank. The board is valid, holds 0..9, and `has_unique_solution` says yes on it. |
| SudokuEngine.SudokuGrid.SeedBoard | main.py:156-161 | A fresh 9x9 board with the shuffled row in row 0 and zeros elsewhere (`Seed`). |
| SudokuEngine.SudokuGrid.BlankCells | main.py:171-184 | The `while count < blanks` loop over the drawn cells. Leaves the board and returns the `count` that `Carve` gives. |
| SudokuEngine.SudokuGrid.TryBlank | main.py:176-184 | Blanks a filled cell. If both tests accept the result it keeps the blank and reports true; otherwise it writes the old value back and leaves the board as it was. |
| SudokuEngine.Accepted | main.py:179-181 | The test a blank must pass to be kept: the board is valid, and the counting search from (0, 0) reports 1. |
| SudokuEngine.Carve | main.py:171-184 | The `while count < blanks` loop as a function of the board, `count`, the drawn cells from index t on, `blanks` and the test. It stops when `count` reaches `blanks` or the draws run out, skips a drawn blank, and keeps a blank (adding one to `count`) only when the test accepts the board; otherwise the board is unchanged. The result keeps the 9x9 shape. |
| SudokuEngine.BlankRange | main.py:164-169 | The blank range for the level: 25..30 for "EASY", 30..35 for "MEDIUM", 35..45 for any other string. |
| SudokuEngine.CarveOnlyBlanks | main.py:172-184 | Carving only blanks cells: every nonzero cell of the result equals the board's value before carving, because a rejected blank is restored. |
| SudokuEngine.CarveCounts | main.py:171-184 | The invariant on `count`: the blank count grows by exactly the blanks kept, and `count` never passes `blanks`. |
| SudokuEngine.CarveBlanksPicks | main.py:172-184 | Carving sub-boards of a solved board, when the test accepts all of them: the loop ends with `count == blanks`, or else with every drawn cell blank. |
| SudokuEngine.SubBoardSolvable | main.py:179-181 | A sub-board of a solved board holds 0..9, is valid and has a completion, and the counting search reports 1 on it. |
| SudokuEngine.SubBoardsAccepted | main.py:179-181 | Every sub-board of a solved board passes `is_valid_sudoku` and `has_unique_solution`, so the restore at main.py:182 never runs on the boards `generate` carves. |
| SudokuEngine.CarvedPuzzle | main.py:171-184 | The carving of a solved board is a sub-board of it with exactly `count` blanks and `count <= blanks`. `count == blanks` unless every drawn cell is blank. The result is valid and reported solved. |
| SudokuBoard.BoxIndexSame | main.py:211-216 | The program's box number `(i // 3) * 3 + j // 3` lies in 0..8. Two cells get the same number exactly when they share a 3x3 box. |
| SudokuBoard.DuplicateInvalid | main.py:208-213 | Two cells in one row, column or box holding the same nonzero value make the board invalid. |
| SudokuBoard.PlaceKeepsValid | main.py:233-235 | On a valid board with `b[i][j] == 0` and a nonzero `n`, writing `n` at (i, j) keeps the board valid exactly when the move test allows `n`. |
| SudokuBoard.PlaceRestore | main.py:235-241 | Writing 0 back after a tentative write restores the board. |
| SudokuBoard.CompletionMoveOk | main.py:246-254 | The value a solved board gives a blank cell of a board it extends is always a legal move there. |
| SudokuBoard.SubBoardValid | main.py:179-182 | Blanking cells of a valid board keeps it valid. |
| SudokuBoard.ZeroCountPlace | main.py:178-184 | Blanking a filled cell adds exactly one blank. Filling a blank removes one. |
| SudokuBoard.ZeroCountNone | main.py:171-184 | A board has no blanks exactly when no cell is 0. |
| SudokuSearch.Search | main.py:224-232 | The value `solve_sudoku(board, i, j, count_solutions)` returns and the board it leaves, on a board it owns. The result keeps the 9x9 shape. What else it means is proved in the lemmas below. |
| SudokuSearch.TryValues | main.py:233-242 | The candidate loop from `num` on at an empty cell. The result keeps the 9x9 shape. |
| SudokuSearch.SearchReportsAtMostOne | main.py:227-242 | The search reports only 0 or 1, and a report of 0 hands back the board unchanged: every tentative write is reset. |
| SudokuSearch.TryValuesReportsAtMostOne | main.py:233-242 | The candidate loop reports only 0 or 1, and a report of 0 hands back the board unchanged. |
| SudokuSearch.CountFlagIrrelevant | main.py:237-238 | The result is the same with `count_solutions` on or off, so the `solutions_count > 1` branch is dead. |
| SudokuSearch.TryValuesCountFlagIrrelevant | main.py:237-238 | The same for the candidate loop. |
| SudokuSearch.FullBoardReportsOne | main.py:227-232 | A board with no blank from (i, j) on gets 1 and is left as it is, with no check of its values. |
| SudokuSearch.SearchSound | main.py:227-242 | After a report of 1, the board has no blank from (i, j) on, keeps every cell before (i, j) and every given, and holds digits 1..9 in every changed cell. A valid board stays valid. |
| SudokuSearch.TryValuesSound | main.py:233-242 | The same for the candidate loop from any `num`. |
| SudokuSearch.SearchComplete | main.py:227-242 | If some solved board extends the board, the search reports 1. |
| SudokuSearch.TryValuesComplete | main.py:233-242 | If a solved board extends the board and its value at (i, j) is a candidate not yet tried, the candidate loop reports 1. |
| SudokuSearch.SolvedIffCompletable | main.py:220-242 | On a valid board of digits 0..9, the search from (0, 0) reports 1 exactly when some solved board extends it. The board it then leaves is a solved board that extends it. |
| Completions.Seed | main.py:156-161 | The board `generate` hands to the solver: row 0 is the shuffled row and every other cell is 0. |
| Completions.SeedCompletable | main.py:156-162 | The seeded board (a shuffled 1..9 in row 0, zeros elsewhere) is valid, holds 0..9, and is extended by a solved board. |
| Completions.SeedIsSolved | main.py:156-163 | The filling call `solve_sudoku(board, 0, 0)` reports 1 on the seeded board and leaves a solved board whose row 0 is the shuffled row. |
| Completions.BlankBoardReportsOne | main.py:220-221 | On the all-zero board the counting search reports 1, although two solved boards that differ in cell (0, 0) both extend it. |
| Completions.TwoFivesInRowInvalid | main.py:208-213 | A board with 5 in both (0, 0) and (0, 1) fails the validity test. |
| Completions.AllFivesReportsOne | main.py:227-232 | A board of 81 fives is invalid, yet the search reports 1 on it. |
| Completions.OneBlankReportsOne | main.py:220-242 | A solved board with one cell blanked gets 1 from the counting search, which hands back the solved board itself. |

## Left out

- The Flet user interface is not part of this model: `SudokuRectangle`, `SudokuGrid.build` and `_Sudoku`. That includes the drawing loop at main.py:185-193, the `start_time` stamp at main.py:194, `main` and `async_partial`. It is presentation and event glue.
- `SudokuGrid.input` (main.py:110-151) is not part of this model. It reads widget state, and it mixes `""` strings with integers in the board.
- `ms_to_time` (main.py:16-21) formats a timer string using floating-point division.
- Randomness and the clock are parameters:
  - `Generate`'s `firstRow` must be an arrangement of 1..9, as `random.shuffle(list(range(1, 10)))` yields.
  - `blanks` must lie in the level's range, as `random.randint(blank_min, blank_max)` yields.
  - `picks` is the sequence of cells the two `random.randint(0, 8)` calls draw.
- `Generate` / `BlankCells`: the program's `while count < blanks` loop draws cells for as long as it needs, and its termination depends on the random draws. The model runs over a finite sequence of draws, which may run out first. Every property is stated for both ways of stopping.
- `Generate` returns the array, and the async method's return of `self.board` is that value. `async`/`await` is not modelled.
- `SearchSound`, `TryValuesSound`: the legality of each value the search writes is stated as validity of the final board, and only when the board it starts from is valid. For an invalid starting board, no per-placement statement is made.
- Python's `board` is a list of lists, and `[i[:] for i in board]` copies its rows. `CopyBoard` copies the cells of a 9x9 array into a fresh one. The model does not capture ragged boards or rows shared between lists.
- The dead `if count_solutions and solutions_count > 1: return solutions_count` branch is kept in `TryValues` and in `TryCandidate`. `CountFlagIrrelevant` and `SearchReportsAtMostOne` show that it is never taken.
- The method named `has_unique_solution` tests for at least one completion, not for a unique one. The model states what the code does: `HasUniqueSolution`, `SolvedIffCompletable` and `BlankBoardReportsOne`.
- The program's comments call the carved puzzle uniquely solvable. For the code as written, the model proves only what the code checks: the search reports 1.
