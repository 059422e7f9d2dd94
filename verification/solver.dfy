/**
  The backtracking search (`csp_solve`).

  `csp_solve` writes into the caller's board and returns that same board on
  success. The model threads the board through the calls: an `Outcome` holds
  the answer together with the board as the caller sees it afterwards, and
  the answer, when there is one, is that board.
*/
module Solver {
  import opened Wrappers
  import opened Board
  import opened Domains

  datatype Outcome = Outcome(answer: Option<Grid>, board: Grid)

  /** `csp_solve`: nothing left to fill means the board is the answer;
      otherwise pop the entry with the least key and try its options. */
  function Search(g: Grid, f: Frontier): (o: Outcome)
    requires Shaped(g)
    ensures Shaped(o.board)
    ensures o.answer.Some? ==> o.answer.value == o.board
    ensures Pending(g, f) && o.answer.None? ==> o.board == g
    decreases |f|, 1, 0
  {
    if f == [] then Outcome(Some(g), g)
    else
      var p := Pop(f);
      assert Pending(g, f) ==> PendingPop(g, p.0, p.1) by {
        if Pending(g, f) {
          PopKeepsPending(g, f);
        }
      }
      TryOptions(g, p.0, p.0.options, p.1)
  }

  /** The loop of `csp_solve` over the options of the popped entry
      e, from the option opts[0] on: write it, propagate, recurse, and on
      failure write 0 back before the next option. */
  function TryOptions(g: Grid, e: Entry, opts: seq<int>, rest: Frontier): (o: Outcome)
    requires Shaped(g)
    ensures Shaped(o.board)
    ensures o.answer.Some? ==> o.answer.value == o.board
    ensures PendingPop(g, e, rest) && o.answer.None? ==> o.board == g
    decreases |rest| + 1, 0, |opts|
  {
    if opts == [] then Outcome(None, g)
    else
      var v := opts[0];
      var h := Assign(g, e.row, e.col, v);
      var next := UpdateCells(rest, e.row, e.col, v);
      AssignRestores(g, e.row, e.col, v);
      if next.Some? then
        var o := Search(h, next.value);
        if o.answer.Some? then o
        else
          assert PendingPop(g, e, rest) ==> o.board == h by {
            if PendingPop(g, e, rest) {
              UpdateKeepsPending(g, e, rest, v);
            }
          }
          TryOptions(Assign(o.board, e.row, e.col, 0), e, opts[1..], rest)
      else
        TryOptions(Assign(h, e.row, e.col, 0), e, opts[1..], rest)
  }
}
