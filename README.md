# Sudoku rule checkers

This project models the two Sudoku rule checkers of a Svelte Sudoku app. Both
work on an N×N grid (N = 9 or 16 in the app) that is cut into aligned b×b
boxes with b·b = N.

- **`isValidSudoku`** (src/lib/index.ts) checks a board of strings, where `"."`
  marks an empty cell.
  - It reuses one counting buffer of N+1 entries. The buffer is cleared
    before each row, column and box.
  - It answers `false` as soon as a count passes 1.
  - Box `i` has its corner at row `trunc(i/b)·b` and column `(i mod b)·b`.
- **`checkSudokuErrors`** (src/lib/uiErrorChecker.ts) runs on the UI grid,
  where each cell holds an optional number and an `error` flag.
  - It clears every flag, then runs a row pass, a column pass and a box pass.
  - Each pass keeps a `seen` map from a number to the positions where it
    occurred in the current unit.
  - When a number comes again, every position in its list is flagged. The
    flags of the three passes accumulate.
- **`checkSudokuState`** (src/lib/uiErrorChecker.ts) reports three things:
  - `isComplete`: every row, column and box holds 1..N, checked with sets
    and early returns.
  - `isValid`: no cell carries an error flag.
  - `usedNumbers`: how many cells hold each number.

Files:

- `wrappers.dfy`: `Option`.
- `geometry.dfy`: box arithmetic shared by both checkers.
- `validator.dfy`: `isValidSudoku`, on a `seq<seq<Cell>>` board with an
  `array<int>` counting buffer.
- `error_checker.dfy`: `checkSudokuErrors` and its three passes, on an
  `array2` of cells that the passes update in place.
- `grid_state.dfy`: `checkSudokuState`, `checkRows`, `checkColumns`,
  `checkSubgrids` and the `usedNumbers` count.

Each loop of the source is a Dafny loop with its invariants, except two
clearings that touch every entry at once: `countArray.fill(0)`
(src/lib/index.ts:9, 16, 23) and the reset of every error flag
(src/lib/uiErrorChecker.ts:10) are `forall` statements. Where the source
has a nested loop or a long loop body, that body is a helper method whose
contract carries the loop invariant one step forward. For example,
`VisitRowCell` is the body of the column loop of `checkDuplicatesInRow`, and
`CheckBand` is one row band of `checkSubgrids`. A `return false` inside a
helper becomes a result that the caller returns at once.

## Model

| member | source | states |
|---|---|---|
| Validator.IsValidSudoku | src/lib/index.ts:3-34 | The answer is true exactly when no row, no column and no box `i` (corner `trunc(i/b)·b`, `(i mod b)·b`) holds the same number twice. It is equally exactly when no two distinct cells of a common row, column or aligned box hold the same number. Empty cells never count, so a partly filled or empty board can be valid. The board is a value and is only read. |
| Validator.CountRow | src/lib/index.ts:9-15 | After clearing the buffer, the row scan reports a repeat exactly when row `i` holds some number twice. |
| Validator.CountColumn | src/lib/index.ts:16-22 | After clearing the buffer, the column scan reports a repeat exactly when column `i` holds some number twice. |
| Validator.CountBox | src/lib/index.ts:23-31 | After clearing the buffer, the scan of the b×b square at (r1, c1) reports a repeat exactly when box `i` holds some number twice. |
| Validator.CountBoxRow | src/lib/index.ts:25-30 | One row of a box scan keeps the buffer equal to the number of occurrences seen so far, and it reports a repeat only when the box really has one. |
| Validator.CountCell | src/lib/index.ts:11-14 | One cell step of every scan. An empty cell is skipped. A number raises its count, and a count above 1 proves a duplicate. Otherwise the buffer still counts the occurrences in the prefix and the prefix is still duplicate-free. Every buffer index stays within 0..N. |
| Validator.TallyEmpty | src/lib/index.ts:12 | Skipping an empty cell keeps the buffer equal to the occurrence counts of the scanned prefix, now one cell longer. |
| Validator.TallyFilled | src/lib/index.ts:13 | Raising the count of the current number keeps the buffer equal to the occurrence counts of the scanned prefix. |
| Validator.RepeatIsDuplicate | src/lib/index.ts:14 | A number that was already seen once in the unit is a duplicate. |
| Validator.ExtendDistinct | src/lib/index.ts:12-14 | An empty cell, or a number not seen before, keeps the scanned prefix free of duplicates. |
| Validator.ValidIffNoConflict | src/lib/index.ts:5-32 | "Row i, column i and box i are duplicate-free for every i" is equivalent to "no two distinct cells of a common row, column or aligned box hold the same number". |
| Validator.ConflictBreaksUnit | src/lib/index.ts:5-32 | Two clashing cells put a duplicate into some row, column or enumerated box. |
| Validator.BoxDuplicateClashes | src/lib/index.ts:24-29 | A duplicate in box `i` gives two clashing cells, so the board has a conflict. |
| Validator.BoxCellOf | src/lib/index.ts:24-26 | The t-th cell of box `i` lies on the grid in row band `i / b` and column band `i mod b`. |
| Geometry.CornerInGrid | src/lib/index.ts:6-7 | Every corner `trunc(i/b)·b`, `(i mod b)·b` for i < b·b has its whole b×b square on the grid. |
| Geometry.CornersDistinct | src/lib/index.ts:6-7 | Distinct box indices give distinct corners, so no box is checked twice. |
| Geometry.CornersCover | src/lib/index.ts:6-7 | Every aligned box (q·b, m·b) is reached, by index q·b + m. |
| Geometry.InBoxIffSameBox | src/lib/index.ts:24-25 | A cell lies inside a box's square exactly when it shares that box's row and column bands. |
| ErrorChecker.CheckSudokuErrors | src/lib/uiErrorChecker.ts:8-29 | Afterwards every cell keeps its number. Its flag is true exactly when the cell holds a number that another cell of its row, its column or its aligned box also holds. The result does not depend on the flags before the call, so a second call changes nothing. |
| ErrorChecker.CheckBandDuplicates | src/lib/uiErrorChecker.ts:25-27 | One row band of the box pass adds the box flags of that band's boxes to the flags already set. |
| ErrorChecker.InConflictIffPeerShares | src/lib/uiErrorChecker.ts:13-28 | The three passes together flag exactly the cells with a number shared by a peer cell. An empty cell is never flagged. |
| ErrorChecker.BoxSizeOf | src/lib/uiErrorChecker.ts:23 | The box side for N = 9 or 16 is a positive b with b·b = N. |
| ErrorChecker.CheckDuplicatesInRow | src/lib/uiErrorChecker.ts:37-52 | Sets the flag of exactly those cells of the row whose number occurs elsewhere in the row. It only sets flags and leaves all numbers, and every cell outside the row, unchanged. |
| ErrorChecker.VisitRowCell | src/lib/uiErrorChecker.ts:41-50 | One column step keeps the invariant: `seen` lists, per number, the columns of the prefix holding it, and the flagged cells are those repeating within the prefix. |
| ErrorChecker.MarkInRow | src/lib/uiErrorChecker.ts:48 | Sets the flag of exactly the listed cells of the row and changes nothing else. |
| ErrorChecker.CheckDuplicatesInColumn | src/lib/uiErrorChecker.ts:60-75 | Sets the flag of exactly those cells of the column whose number occurs elsewhere in the column, and nothing else. |
| ErrorChecker.VisitColumnCell | src/lib/uiErrorChecker.ts:64-73 | One row step of the column pass keeps the same `seen`/flag invariant. |
| ErrorChecker.MarkInColumn | src/lib/uiErrorChecker.ts:71 | Sets the flag of exactly the listed cells of the column and changes nothing else. |
| ErrorChecker.CheckDuplicatesInBox | src/lib/uiErrorChecker.ts:84-105 | Sets the flag of exactly those cells of the b×b square whose number occurs elsewhere in the square, and nothing else. |
| ErrorChecker.ScanBoxRow | src/lib/uiErrorChecker.ts:88-103 | One row of the square keeps the invariant: `seen` maps each number to the (row, col) pairs of the prefix holding it, and the flags are the repeats within the prefix. |
| ErrorChecker.VisitBoxCell | src/lib/uiErrorChecker.ts:89-102 | One cell step of the box pass keeps that invariant. |
| ErrorChecker.FlagBoxRepeat | src/lib/uiErrorChecker.ts:96-100 | Flagging every cell of a repeated number's list brings the flags up to date with the longer prefix. |
| ErrorChecker.MarkCells | src/lib/uiErrorChecker.ts:98-100 | Sets the flag of exactly the listed (row, col) cells and changes nothing else. |
| ErrorChecker.SeenSkip | src/lib/uiErrorChecker.ts:42 | An empty cell leaves `seen` describing the longer prefix and creates no new repeat. |
| ErrorChecker.SeenFirst | src/lib/uiErrorChecker.ts:43-44 | A number met for the first time starts its position list and flags nothing new. |
| ErrorChecker.SeenAgain | src/lib/uiErrorChecker.ts:45-48 | A number met again extends its list, and the cells newly in conflict are exactly those on the list. |
| ErrorChecker.BoxLineRepeat | src/lib/uiErrorChecker.ts:89-91 | A repeat in the row-major listing of a square is a repeat among the square's cells. |
| ErrorChecker.AlignedSquare | src/lib/uiErrorChecker.ts:24-26 | The square at (kr·b, kc·b) is the aligned box of band (kr, kc), so its repeats are the cells' box repeats. |
| GridState.CheckSudokuState | src/lib/uiErrorChecker.ts:113-132 | `isComplete` holds exactly when every row, column and aligned box holds each of 1..N once. `isValid` holds exactly when no cell is flagged. `usedNumbers` counts, for each number, the cells holding it, and its total is the number of filled cells. The grid is not modified. |
| GridState.CheckRows | src/lib/uiErrorChecker.ts:142-158 | True exactly when every row holds N distinct numbers in 1..N. An empty, 0, below-1 or above-N cell, or a repeat, makes it false. |
| GridState.CheckColumns | src/lib/uiErrorChecker.ts:167-181 | True exactly when every column holds N distinct numbers in 1..N. |
| GridState.CheckSubgrids | src/lib/uiErrorChecker.ts:190-212 | True exactly when every aligned box holds N distinct numbers in 1..N. |
| GridState.CheckBand | src/lib/uiErrorChecker.ts:194-210 | One row band of boxes: true exactly when each of its b boxes is complete. |
| GridState.CheckSubgrid | src/lib/uiErrorChecker.ts:195-208 | True exactly when the box's cells are N distinct numbers in 1..N. |
| GridState.ScanAccept | src/lib/uiErrorChecker.ts:151-154 | A cell holding a number of 1..N not yet in the set extends the scan: the set holds exactly the prefix's numbers, all in range and distinct. |
| GridState.ScanReject | src/lib/uiErrorChecker.ts:151-152 | A cell that is empty, out of range or already in the set rules out completeness, so the early `return false` is right. |
| GridState.ScanStep | src/lib/uiErrorChecker.ts:203-206 | A rejected cell (empty, 0, below 1, above N or already in the set) rules out completeness. Otherwise the set still holds exactly the prefix's numbers, all in range and distinct. |
| GridState.CompleteIffAllPresent | src/lib/uiErrorChecker.ts:151-154 | A line of N cells passes the scan exactly when each of 1..N occurs in it. |
| GridState.CompleteGridIffAllPresent | src/lib/uiErrorChecker.ts:116-117 | `isComplete` is equivalent to every row, column and box containing every number of 1..N. |
| GridState.CompleteHasNoConflict | src/lib/uiErrorChecker.ts:116-117 | A complete grid has no cell that the error checker would flag. |
| GridState.CompleteGridCounts | src/lib/uiErrorChecker.ts:120-126 | On a complete grid, every number of 1..N is counted N times in `usedNumbers`. |
| GridState.CompleteGridFilled | src/lib/uiErrorChecker.ts:120-126 | On a complete grid, `usedNumbers` adds up to N·N. |
| GridState.AnyError | src/lib/uiErrorChecker.ts:119 | Reports exactly whether some cell carries a set error flag. It reads the flags and does not recompute them. |
| GridState.UsedNumbers | src/lib/uiErrorChecker.ts:120-126 | Counts, for every number v, the cells holding v, and the counts add up to the number of filled cells. |
| GridState.TallyStep | src/lib/uiErrorChecker.ts:122-124 | Counting one more cell keeps the tally exact: a filled cell adds one to its number, an empty cell adds nothing. |
| GridState.CountAppend | src/lib/uiErrorChecker.ts:120 | Counts over the rows of the grid add up. |

## Left out

- `parseInt` on board strings (src/lib/index.ts:13, 20, 28) is not modelled. A cell is `Empty` (`"."`) or `Filled(v)`. The caller must keep every number within 0..N, the range the buffer can index. Malformed strings are not modelled, and neither is what the code does with a number outside 0..N. A number above N grows the array, its count becomes NaN and `NaN > 1` is false, so its repeat goes unreported in the first unit where it appears (the grown entry is reset to 0 by the next clearing and counted in later units). A negative or non-numeric index is never counted.
- `Math.sqrt(size)` is floating point. `BoxSizeOf` gives the exact side for N = 9 and N = 16, the two sizes the UI functions accept. `isValidSudoku` takes `boxSize` with the precondition boxSize·boxSize = N.
- The cell type of the app is not part of this model. Only the `value` and `error` fields the checkers use are modelled.
  - A missing value (`undefined`) is `None`.
  - `error = undefined` is modelled as `false`, which `isValid`'s truthiness test reads the same way.
  - `null` and non-integer values are not modelled.
- Cells are shared JavaScript objects. The model holds them as values in an `array2` and updates one entry at a time, so aliasing between cells is not modelled.
- `usedNumbers` is a sparse JavaScript array. The model is a `multiset<int>`, where a number never entered has count 0 (a hole of the array).
- The unused `usedNumbers` parameter of `checkRows` (src/lib/uiErrorChecker.ts:142) does nothing and is left out.
- The puzzle generator, the backtracking solver, the clue-count logic, random cell removal and the Svelte UI are not part of this model.
- GridState.CheckSubgrid: the box's cells are passed as a ghost row-major listing tied to the grid by its precondition. The code reads the same cells from the grid.
