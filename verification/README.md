# A verified model of a forward-checking Sudoku solver

This project models `solver.py`, a 9×9 Sudoku solver written in Python, and
proves what it promises. The solver runs in five steps:

- It rejects a board with a repeated non-zero digit in a row, column or 3×3
  box (`is_unique`, `valid_sudoku`).
- It computes, for every empty cell, the digits still legal there
  (`valid_values`). It puts these into a heap of `(count, row, col, options)`
  entries (`compute_empty_cells`).
- `csp_solve` is a backtracking search. It pops the entry with the fewest
  options, ties broken by row and then column. It writes each option in turn
  and removes that digit from the options of every peer cell
  (`update_cells`, forward checking).
- It abandons a branch as soon as some peer has no option left, and writes 0
  back before trying the next option.
- `sudoku_solver` returns the solved board, or a board of -1 entries when
  there is no solution.

Modules, in dependency order:

- `Wrappers`: `Option`, standing for Python's value-or-`None`.
- `Board`: the grid and its row, column and box projections, plus the peer
  relation. It also holds the reference predicates the code is proved
  against: `Consistent`, `Legal`, `Solved`, `Extends`, `Solvable`.
- `Validator`: `is_unique` and `valid_sudoku`.
- `Candidates`: `valid_values`.
- `Domains`: the frontier of entries. This covers `heappop`, `update_cells`
  and `compute_empty_cells`, and the lemmas showing that popping and
  propagating keep the search invariant. The invariant is: one entry per
  empty cell, whose options are exactly the digits legal there.
- `Solver`: `csp_solve`, as `Search` and `TryOptions`.
- `Correctness`: soundness and completeness of the search.
- `Sudoku`: `sudoku_solver`, whose contract states what the whole solver
  guarantees.
- `Properties`: every row, column and box of an answer holds each digit
  once, and the heap's layout does not matter.

The Python code writes into the caller's array and returns that array. The
model passes the board explicitly instead. `Search` returns an `Outcome`
holding the answer and the board as the caller sees it afterwards. When
there is an answer, it is that board. When there is none, the board is the
one passed in, because every trial digit is reset to 0.

## Model

| member | source | states |
|---|---|---|
| Validator.NonZero | solver.py:86 | the result holds exactly the non-zero values of the list, each as often as in the list (the same multiset with the zeros removed), so repeats survive for the length test |
| Validator.SetSizeIffDistinct | solver.py:87 | a list's set of values is never larger than the list, and is as large exactly when the values are pairwise distinct |
| Validator.DistinctCons | solver.py:87 | a list whose head does not recur is pairwise distinct exactly when its tail is |
| Validator.NoRepeatGivesDistinct | solver.py:86-87 | when no non-zero value occurs twice in the list, the zero-free list is pairwise distinct |
| Validator.DistinctGivesNoRepeat | solver.py:86-87 | when the zero-free list is pairwise distinct, no non-zero value occurs twice in the list |
| Validator.NonZeroDistinctIffNoRepeat | solver.py:86-87 | the non-zero entries are pairwise distinct exactly when no non-zero value occurs twice in the list |
| Validator.IsUnique | solver.py:85-87 | `is_unique` is true exactly when no non-zero value repeats; zeros may repeat |
| Validator.RowNoRepeat | solver.py:75 | a row passes exactly when no two different cells of that row hold the same non-zero digit |
| Validator.ColumnNoRepeat | solver.py:75 | a column passes exactly when no two different cells of that column hold the same non-zero digit |
| Validator.BoxNoRepeat | solver.py:81 | the flattened 3×3 box passes exactly when no two different cells of that box hold the same non-zero digit |
| Validator.ProjectionsGiveConsistent | solver.py:73-83 | when every row, column and box passes, no two different peer cells share a non-zero digit |
| Validator.ConsistentLines | solver.py:74-76 | on a consistent board every row and every column passes |
| Validator.ConsistentBox | solver.py:78-82 | on a consistent board every box at rows and columns 0, 3, 6 passes |
| Validator.ConsistentGivesProjections | solver.py:73-83 | on a consistent board every row, column and box passes |
| Validator.ConsistentIffProjections | solver.py:73-83 | all 9 rows, all 9 columns and the 9 boxes at rows and columns 0, 3, 6 pass exactly when no two different peer cells share a non-zero digit |
| Validator.ValidSudoku | solver.py:73-83 | `valid_sudoku` is true exactly when the board is consistent: no two different peer cells share a non-zero digit |
| Candidates.Missing | solver.py:70 | the result holds exactly the elements of the list outside the used set, and is strictly ascending when the list is |
| Candidates.DigitRange | solver.py:70 | `range(1, 10)` is strictly ascending and holds exactly the digits 1..9 |
| Candidates.UnusedIsLegal | solver.py:66-70 | a digit 1..9 missing from the union of row, column and box values is held by no peer cell |
| Candidates.LegalIsUnused | solver.py:66-70 | a digit no peer cell holds is missing from the union of row, column and box values |
| Candidates.UsedIsPeerValues | solver.py:66-69 | a digit 1..9 is missing from the union of row, column and box values exactly when no peer cell holds it |
| Candidates.ValidValues | solver.py:65-70 | `valid_values` is strictly ascending and holds exactly the digits legal at the cell |
| Candidates.AscendingTail | solver.py:70 | the tail of a strictly ascending list is strictly ascending and holds exactly its elements other than the head |
| Candidates.AscendingUnique | solver.py:70 | two strictly ascending lists with the same elements are equal |
| Candidates.LegalListIsValidValues | solver.py:65-70 | any strictly ascending list of exactly the legal digits is the list `valid_values` returns |
| Board.Assign | solver.py:38 | the written cell holds the new value and every other cell is unchanged |
| Board.Sentinel | solver.py:14-18 | the "no solution" answer is a 9×9 board whose every entry is -1 |
| Board.AssignRestores | solver.py:46 | writing the old value back after a write restores the board exactly |
| Board.LegalAfterAssign | solver.py:53-54 | after a digit is written into an empty cell, a digit stays legal at a cell exactly when it was legal and is not the written digit at a peer of the written cell |
| Board.AssignKeepsConsistent | solver.py:38 | writing a legal digit into an empty cell keeps the board consistent |
| Board.SolutionDigitIsLegal | solver.py:14 | the digit a solution puts into a cell that is still empty is legal there |
| Board.SolvedIsNotSentinel | solver.py:24-26 | no solution equals the all -1 board, so the caller can tell the two answers apart |
| Domains.MinIndex | solver.py:34 | the index found holds an entry whose `(count, row, col)` key is no larger than any other entry's |
| Domains.Without | solver.py:34 | removing an entry keeps the others in order and shortens the frontier by one |
| Domains.Pop | solver.py:34 | the popped entry and the rest make up the frontier; the popped key is no larger than any remaining key, and strictly smaller when cells are distinct (least count, then least row, then least column) |
| Domains.Remove | solver.py:54 | filtering keeps exactly the options other than the written digit, and keeps them ascending |
| Domains.UpdateCells | solver.py:50-62 | `update_cells` fails exactly when some peer entry would be left without options; otherwise it keeps every entry's cell, a peer loses only the written digit and gets its count recomputed, and a non-peer entry is kept as it was, count included |
| Domains.EmptyCellsFromOrdered | solver.py:91-93 | the row-major scan from a cell yields only empty cells at or after it, in strictly increasing scan position |
| Domains.EmptyCellsFromCovers | solver.py:91-93 | the row-major scan from a cell yields every empty cell at or after it |
| Domains.PushScanned | solver.py:91-93 | an empty cell at the current scan position, put in front of the scan of the later positions, keeps the scan ordered |
| Domains.FreshEntry | solver.py:94-95 | the pushed entry is about the given cell, its options are that cell's `valid_values` (so exactly the legal digits, ascending), and its count is their number |
| Domains.ScanCells | solver.py:89-96 | one entry per scanned cell, in scan order, covers exactly the empty cells and no cell twice |
| Domains.ComputeEmptyCells | solver.py:89-96 | `compute_empty_cells` gives exactly one entry per empty cell, no cell twice; each entry's options are the cell's `valid_values` and its count is their number |
| Domains.InvIsPending | solver.py:93 | under the search invariant every entry sits on an empty cell |
| Domains.PopKeepsPending | solver.py:34 | after a pop, the popped cell is empty and no remaining entry is about it |
| Domains.PopKeepsInv | solver.py:34 | after a pop under the invariant, the popped entry is live, and the rest are live and cover exactly the other empty cells |
| Domains.UpdateKeepsPending | solver.py:38-39 | after a write and propagation, every returned entry is on a still-empty cell and no cell has two entries |
| Domains.UpdateKeepsInv | solver.py:36-57 | writing a legal digit and propagating it keeps the invariant: every returned entry's options are exactly the digits now legal for its cell, and the entries cover exactly the remaining empty cells |
| Domains.UpdateKeepsSolution | solver.py:53-56 | forward checking never fails for the digit a solution puts into the popped cell |
| Solver.Search | solver.py:30-48 | `csp_solve`: an answer is the caller's board afterwards; on failure the board is exactly as on entry |
| Solver.TryOptions | solver.py:36-48 | the option loop: an answer is the caller's board afterwards; on failure every trial write has been undone and the board is as on entry |
| Correctness.PoppedOptions | solver.py:36 | every option of the popped entry is a legal digit, and the digit any solution puts there is among them |
| Correctness.FullIsSolved | solver.py:31-32 | a consistent board of digits with no empty cell left is a solution |
| Correctness.LegalStep | solver.py:38 | writing a legal digit into an empty cell keeps the board consistent and made of digits; a board extending the result extends the original |
| Correctness.SearchSound | solver.py:30-44 | from a consistent board and a live frontier, any answer `csp_solve` returns is a solution that keeps every filled cell |
| Correctness.TryOptionsSound | solver.py:36-48 | when every option to try is legal, any answer of the option loop is a solution extending the board |
| Correctness.SearchComplete | solver.py:30-48 | `csp_solve` on a live frontier returns an answer whenever some solution extends the board |
| Correctness.TryOptionsComplete | solver.py:36-48 | the option loop returns an answer whenever the digit some solution puts in the popped cell is still to be tried |
| Correctness.SearchFindsSolution | solver.py:30-48 | from a consistent board of digits and a live frontier, `csp_solve` answers exactly when the board has a solution, and its answer is one |
| Correctness.NoCellsNoEntries | solver.py:31 | a frontier covers no cell exactly when it is empty |
| Correctness.SolvedNeedsNoSearch | solver.py:31-32 | for a solved board the live frontier is empty and `csp_solve` returns the board itself |
| Sudoku.SudokuSolver | solver.py:4-26 | `sudoku_solver` returns a 9×9 board: the all -1 board when the input repeats a digit among peers; for a board of digits 0..9, a solution keeping every given digit exactly when the puzzle has one and the all -1 board otherwise; a solved board unchanged |
| Properties.NineDistinctDigits | solver.py:87 | nine pairwise distinct digits 1..9 are the digits 1..9, each exactly once |
| Properties.SolvedLinesHaveEachDigitOnce | solver.py:74-76 | in a solution, every row and every column holds each digit 1..9 exactly once |
| Properties.SolvedBoxesHaveEachDigitOnce | solver.py:78-82 | in a solution, every 3×3 box holds each digit 1..9 exactly once |
| Properties.PopIgnoresLayout | solver.py:34 | two frontiers holding the same entries, one per cell, pop the same entry, whatever order they keep them in |

## Left out

- numpy: `np.full`, slicing, `np.concatenate` and `.flatten()` are modelled
  by `Sentinel`, `Row`, `Column` and `Box` over a `seq<seq<int>>` grid.
- heapq internals: the frontier is a sequence in push order, and a pop
  takes the entry with the least `(count, row, col)` key wherever it sits.
  `Properties.PopIgnoresLayout` proves that the popped entry depends only
  on the entries, not on their order. `update_cells` treats each entry on
  its own. Together these suggest the heap's layout cannot change the
  search, but that whole-search claim is argued here, not proved. The
  fourth tuple component, the options list, never takes part in a
  comparison, because no two entries share a cell.
- Domains.UpdateCells: the entries come back in input order, where
  `heappush` would arrange them as a heap. `Domains.UpdateCells` states
  its result entry by entry, so the order is the only difference.
- Domains.ComputeEmptyCells: the entries come back in row-major order, where
  `heappush` would arrange them as a heap. As above, the popped entry is
  proved independent of that order.
- Aliasing: `heappop` shrinks the caller's list in place, and `csp_solve`
  returns the very array it was given. The model is functional.
  `Outcome.board` stands for the array after the call.
- Uniqueness of the solution: the docstring says the solution is unique,
  but the code returns the first one the search finds and never checks for
  a second.
- Input shape and range: the code assumes a 9×9 array and never checks it,
  so `Shaped` is a precondition of every operation. Soundness and
  completeness also assume every entry is in 0..9 (`Puzzle`). Without that,
  a value such as 10 passes `valid_sudoku` and is returned as part of a
  "solution".
- Sudoku.SudokuSolver: soundness and completeness are stated only for
  boards of digits 0..9 (`Puzzle`). The rejection of a board that repeats a
  digit is stated for every 9×9 board.
- Performance and the worst-case amount of backtracking.

