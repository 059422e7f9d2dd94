/**
  What the search finds, and that it finds one whenever there is one.

  Soundness: from a consistent board and a frontier of live entries, an
  answer of `csp_solve` is a solution that keeps every given digit.
  Completeness: if some solution extends the board, `csp_solve` does not
  return None, because forward checking only removes digits that clash.
*/
module Correctness {
  import opened Wrappers
  import opened Board
  import opened Domains
  import opened Solver

  /** Under the invariant, the options of the popped entry are legal digits
      and the solution's digit for that cell is among them. */
  lemma PoppedOptions(g: Grid, e: Entry, rest: Frontier)
    requires Popped(g, e, rest)
    ensures forall v :: v in e.options ==> Legal(g, e.row, e.col, v)
    ensures forall s :: Solved(s) && Extends(s, g) ==> s[e.row][e.col] in e.options
  {
    forall s | Solved(s) && Extends(s, g) ensures s[e.row][e.col] in e.options {
      SolutionDigitIsLegal(s, g, e.row, e.col);
    }
  }

  /** A board with no empty cell left that is consistent and holds digits
      0..9 is solved. */
  lemma FullIsSolved(g: Grid)
    requires Puzzle(g) && Consistent(g) && ZeroCells(g) == {}
    ensures Solved(g)
  {
    forall r, c | InRange(r, c) ensures 1 <= g[r][c] <= 9 {
      assert (r, c) !in ZeroCells(g);
    }
  }

  /** Writing a legal digit into an empty cell gives a board that extends
      the old one, is consistent if it was, and still holds digits only. */
  lemma LegalStep(g: Grid, r: Index, c: Index, v: int)
    requires Puzzle(g) && Consistent(g) && g[r][c] == 0 && Legal(g, r, c, v)
    ensures Puzzle(Assign(g, r, c, v)) && Consistent(Assign(g, r, c, v))
    ensures forall a :: Extends(a, Assign(g, r, c, v)) ==> Extends(a, g)
  {
    AssignKeepsConsistent(g, r, c, v);
  }

  /** Every answer `csp_solve` returns from a live frontier is a solution
      extending its board. */
  lemma {:induction false} SearchSound(g: Grid, f: Frontier)
    requires Inv(g, f) && Puzzle(g) && Consistent(g)
    ensures Search(g, f).answer.Some? ==>
      Solved(Search(g, f).answer.value) && Extends(Search(g, f).answer.value, g)
    decreases |f|, 1, 0
  {
    if f == [] {
      FullIsSolved(g);
    } else {
      var p := Pop(f);
      PopKeepsInv(g, f);
      PoppedOptions(g, p.0, p.1);
      TryOptionsSound(g, p.0, p.0.options, p.1);
    }
  }

  lemma {:induction false} TryOptionsSound(g: Grid, e: Entry, opts: seq<int>, rest: Frontier)
    requires Popped(g, e, rest) && Puzzle(g) && Consistent(g)
    requires forall v :: v in opts ==> Legal(g, e.row, e.col, v)
    ensures TryOptions(g, e, opts, rest).answer.Some? ==>
      Solved(TryOptions(g, e, opts, rest).answer.value) &&
      Extends(TryOptions(g, e, opts, rest).answer.value, g)
    decreases |rest| + 1, 0, |opts|
  {
    if opts != [] {
      var v := opts[0];
      var h := Assign(g, e.row, e.col, v);
      var next := UpdateCells(rest, e.row, e.col, v);
      AssignRestores(g, e.row, e.col, v);
      LegalStep(g, e.row, e.col, v);
      assert forall w :: w in opts[1..] ==> w in opts;
      if next.Some? {
        UpdateKeepsInv(g, e, rest, v);
        InvIsPending(h, next.value);
        SearchSound(h, next.value);
        var o := Search(h, next.value);
        if o.answer.None? {
          TryOptionsSound(g, e, opts[1..], rest);
        }
      } else {
        TryOptionsSound(g, e, opts[1..], rest);
      }
    }
  }

  /** `csp_solve` on a live frontier finds an answer whenever some solution
      extends its board. */
  lemma {:induction false} SearchComplete(g: Grid, f: Frontier, s: Grid)
    requires Inv(g, f) && Solved(s) && Extends(s, g)
    ensures Search(g, f).answer.Some?
    decreases |f|, 1, 0
  {
    if f != [] {
      var p := Pop(f);
      PopKeepsInv(g, f);
      PoppedOptions(g, p.0, p.1);
      TryOptionsComplete(g, p.0, p.0.options, p.1, s);
    }
  }

  lemma {:induction false} TryOptionsComplete(g: Grid, e: Entry, opts: seq<int>, rest: Frontier, s: Grid)
    requires Popped(g, e, rest) && Solved(s) && Extends(s, g)
    requires s[e.row][e.col] in opts
    ensures TryOptions(g, e, opts, rest).answer.Some?
    decreases |rest| + 1, 0, |opts|
  {
    var v := opts[0];
    var h := Assign(g, e.row, e.col, v);
    var next := UpdateCells(rest, e.row, e.col, v);
    AssignRestores(g, e.row, e.col, v);
    if v == s[e.row][e.col] {
      SolutionDigitIsLegal(s, g, e.row, e.col);
      UpdateKeepsSolution(g, e, rest, s);
      UpdateKeepsInv(g, e, rest, v);
      SearchComplete(h, next.value, s);
    } else {
      assert s[e.row][e.col] in opts[1..];
      if next.Some? {
        UpdateKeepsPending(g, e, rest, v);
        if Search(h, next.value).answer.None? {
          TryOptionsComplete(g, e, opts[1..], rest, s);
        }
      } else {
        TryOptionsComplete(g, e, opts[1..], rest, s);
      }
    }
  }

  /** From a consistent board of digits and a live frontier, `csp_solve`
      answers exactly when the board has a solution, and then with one. */
  lemma SearchFindsSolution(g: Grid, f: Frontier)
    requires Inv(g, f) && Puzzle(g) && Consistent(g)
    ensures Search(g, f).answer.Some? <==> Solvable(g)
    ensures Search(g, f).answer.Some? ==>
      Solved(Search(g, f).answer.value) && Extends(Search(g, f).answer.value, g)
  {
    SearchSound(g, f);
    if Solvable(g) {
      var s :| Solved(s) && Extends(s, g);
      SearchComplete(g, f, s);
    }
  }

  /** A frontier covers some cell exactly when it has an entry. */
  lemma NoCellsNoEntries(f: Frontier)
    ensures Cells(f) == {} <==> f == []
  {
    if f != [] {
      assert (f[0].row as int, f[0].col as int) in Cells(f);
    }
  }

  /** A solved board has no empty cell, so a live frontier for it is empty
      and `csp_solve` returns it as it is. */
  lemma SolvedNeedsNoSearch(g: Grid, f: Frontier)
    requires Inv(g, f) && Solved(g)
    ensures f == [] && Search(g, f) == Outcome(Some(g), g)
  {
    forall r, c | InRange(r, c) ensures g[r][c] != 0 {
    }
    assert ZeroCells(g) == {};
    NoCellsNoEntries(f);
  }
}
