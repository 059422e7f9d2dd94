/**
  The entry point `sudoku_solver`: validate, build the frontier, search, and
  turn a failed search into the all -1 board.
*/
module Sudoku {
  import opened Wrappers
  import opened Board
  import opened Validator
  import opened Domains
  import opened Solver
  import opened Correctness

  /** `sudoku_solver`. For a board of digits 0..9 the answer is a solution
      keeping every given digit when the puzzle has one, and the all -1 board
      when it has none; a board that is already solved comes back as it is. */
  function SudokuSolver(g: Grid): (r: Grid)
    requires Shaped(g)
    ensures Shaped(r)
    ensures !Consistent(g) ==> r == Sentinel()
    ensures Puzzle(g) ==> r == Sentinel() || (Solved(r) && Extends(r, g))
    ensures Puzzle(g) ==> (r != Sentinel() <==> Solvable(g))
    ensures Solved(g) ==> r == g
  {
    if !ValidSudoku(g) then
      assert !Solvable(g) by {
        forall s | Solved(s) && Extends(s, g) ensures false {
          ExtendedIsConsistent(s, g);
        }
      }
      Sentinel()
    else
      var f := ComputeEmptyCells(g);
      var o := Search(g, f);
      assert Puzzle(g) ==>
        && (o.answer.Some? <==> Solvable(g))
        && (o.answer.Some? ==> Solved(o.answer.value) && Extends(o.answer.value, g))
      by {
        if Puzzle(g) {
          SearchFindsSolution(g, f);
        }
      }
      assert Solved(g) ==> o == Outcome(Some(g), g) by {
        if Solved(g) {
          SolvedNeedsNoSearch(g, f);
        }
      }
      assert o.answer.Some? && Puzzle(g) ==> o.answer.value != Sentinel() by {
        if o.answer.Some? && Puzzle(g) {
          SolvedIsNotSentinel(o.answer.value);
        }
      }
      if o.answer.Some? then o.answer.value else Sentinel()
  }
}
