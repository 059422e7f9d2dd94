/**
  The domain frontier: one entry `(count, row, col, options)` per empty cell.
  `compute_empty_cells` builds it, `heappop` takes the entry with the least
  `(count, row, col)` key, and `update_cells` removes a just-written digit
  from the options of the written cell's peers.

  The heap's internal layout is not modelled: a frontier is a sequence in
  push order, and popping takes the least key wherever it sits.
*/
module Domains {
  import opened Wrappers
  import opened Board
  import opened Candidates

  /** A heap item; `count` is the cached length of `options` that the heap
      orders by. */
  datatype Entry = Entry(count: int, row: Index, col: Index, options: seq<int>)

  type Frontier = seq<Entry>

  /** Python's tuple order on `(count, row, col, ...)`, as far as the first
      three components decide it. */
  predicate KeyLe(a: Entry, b: Entry) {
    a.count < b.count ||
    (a.count == b.count && (a.row < b.row || (a.row == b.row && a.col <= b.col)))
  }

  predicate SameCell(a: Entry, b: Entry) {
    a.row == b.row && a.col == b.col
  }

  /** No two entries are about the same cell. */
  predicate DistinctCells(f: Frontier) {
    forall i, j :: 0 <= i < j < |f| ==> !SameCell(f[i], f[j])
  }

  /** The cells the frontier has entries for. */
  function Cells(f: Frontier): set<(int, int)> {
    set i | 0 <= i < |f| :: (f[i].row as int, f[i].col as int)
  }

  /** Every entry sits on an empty cell, and no cell has two entries. */
  ghost predicate Pending(g: Grid, f: Frontier) {
    Shaped(g) && DistinctCells(f) &&
    forall i :: 0 <= i < |f| ==> g[f[i].row][f[i].col] == 0
  }

  /** The entry's options are exactly the digits legal for its cell on g, in
      increasing order, and its count is their number. */
  ghost predicate Live(g: Grid, e: Entry)
    requires Shaped(g)
  {
    e.count == |e.options| && Ascending(e.options) &&
    forall d :: d in e.options <==> Legal(g, e.row, e.col, d)
  }

  /** The search invariant: one live entry for each empty cell of g. */
  ghost predicate Inv(g: Grid, f: Frontier) {
    Shaped(g) && DistinctCells(f) && Cells(f) == ZeroCells(g) &&
    forall i :: 0 <= i < |f| ==> Live(g, f[i])
  }

  /** Where `heappop` finds its item: an entry whose key is no larger than
      any other. */
  function MinIndex(f: Frontier): (i: nat)
    requires |f| > 0
    ensures i < |f|
    ensures forall j :: 0 <= j < |f| ==> KeyLe(f[i], f[j])
  {
    if |f| == 1 then 0
    else
      var j := MinIndex(f[1..]) + 1;
      if KeyLe(f[0], f[j]) then 0 else j
  }

  /** The frontier left after taking out entry i. */
  function Without(f: Frontier, i: nat): (rest: Frontier)
    requires i < |f|
    ensures |rest| == |f| - 1
    ensures forall k :: 0 <= k < i ==> rest[k] == f[k]
    ensures forall k :: i <= k < |rest| ==> rest[k] == f[k + 1]
  {
    f[..i] + f[i + 1..]
  }

  /** `heappop`: the popped entry and what remains. */
  function Pop(f: Frontier): (p: (Entry, Frontier))
    requires |f| > 0
    ensures multiset(p.1) + multiset{p.0} == multiset(f)
    ensures forall k :: 0 <= k < |p.1| ==> KeyLe(p.0, p.1[k])
    ensures DistinctCells(f) ==>
      forall k :: 0 <= k < |p.1| ==> !KeyLe(p.1[k], p.0)
  {
    var i := MinIndex(f);
    assert f == f[..i] + [f[i]] + f[i + 1..];
    (f[i], Without(f, i))
  }

  /** The options without the digit v, in their order; `update_cells`
      applies it to each peer entry. */
  function Remove(opts: seq<int>, v: int): (r: seq<int>)
    ensures forall x :: x in r <==> x in opts && x != v
    ensures forall i :: 0 <= i < |r| ==> r[i] in opts
    ensures Ascending(opts) ==> Ascending(r)
  {
    if opts == [] then []
    else if opts[0] == v then Remove(opts[1..], v)
    else
      var t := Remove(opts[1..], v);
      assert Ascending(opts) ==> forall i :: 0 <= i < |t| ==> opts[0] < t[i] by {
        if Ascending(opts) {
          forall i | 0 <= i < |t| ensures opts[0] < t[i] {
            var k :| 0 <= k < |opts[1..]| && opts[1..][k] == t[i];
            assert opts[k + 1] == t[i];
          }
        }
      }
      [opts[0]] + t
  }

  /** What `update_cells` does to one entry after v was written at (r, c):
      a peer loses v and has its count recomputed; any other entry is kept
      as it was, count included. */
  predicate Updated(e: Entry, e': Entry, r: int, c: int, v: int) {
    SameCell(e, e') &&
    if Peers(r, c, e.row, e.col) then
      e'.options == Remove(e.options, v) && e'.count == |e'.options|
    else
      e' == e
  }

  /** `update_cells`: None when some peer would be left without options,
      otherwise the updated frontier. */
  function UpdateCells(f: Frontier, r: Index, c: Index, v: int): (res: Option<Frontier>)
    ensures res.None? <==>
      exists i :: 0 <= i < |f| && Peers(r, c, f[i].row, f[i].col) && Remove(f[i].options, v) == []
    ensures res.Some? ==>
      |res.value| == |f| &&
      forall i :: 0 <= i < |f| ==> Updated(f[i], res.value[i], r, c, v)
  {
    if f == [] then Some([])
    else
      var e := f[0];
      var tail := UpdateCells(f[1..], r, c, v);
      if Peers(r, c, e.row, e.col) then
        var opts := Remove(e.options, v);
        if opts == [] then None
        else if tail.None? then None
        else Some([Entry(|opts|, e.row, e.col, opts)] + tail.value)
      else if tail.None? then None
      else Some([e] + tail.value)
  }

  /** Position of cell p in the row-major scan. */
  function Rank(p: (Index, Index)): int {
    9 * p.0 + p.1
  }

  /** The empty cells from (row, col) to the end of the row-major scan of
      `compute_empty_cells`, in scan order; (9, 0) is past the end. */
  function EmptyCellsFrom(g: Grid, row: int, col: int): seq<(Index, Index)>
    requires Shaped(g)
    requires (0 <= row < 9 && 0 <= col < 9) || (row == 9 && col == 0)
    decreases 81 - (9 * row + col)
  {
    if row == 9 then []
    else
      var rest := if col == 8 then EmptyCellsFrom(g, row + 1, 0) else EmptyCellsFrom(g, row, col + 1);
      if g[row][col] == 0 then [(row, col)] + rest else rest
  }

  /** cs lists empty cells at scan position k or later, in strictly
      increasing scan position. */
  ghost predicate ScannedFrom(g: Grid, cs: seq<(Index, Index)>, k: int)
    requires Shaped(g)
  {
    (forall i :: 0 <= i < |cs| ==> k <= Rank(cs[i]) && g[cs[i].0][cs[i].1] == 0) &&
    (forall i, j :: 0 <= i < j < |cs| ==> Rank(cs[i]) < Rank(cs[j]))
  }

  /** cs lists every empty cell at scan position k or later. */
  ghost predicate CoversFrom(g: Grid, cs: seq<(Index, Index)>, k: int)
    requires Shaped(g)
  {
    forall a: Index, b: Index :: k <= 9 * a + b && g[a][b] == 0 ==> (a, b) in cs
  }

  /** The scan from (row, col) yields only empty cells at or after (row, col),
      in increasing scan position. */
  lemma {:induction false} EmptyCellsFromOrdered(g: Grid, row: int, col: int)
    requires Shaped(g)
    requires (0 <= row < 9 && 0 <= col < 9) || (row == 9 && col == 0)
    ensures ScannedFrom(g, EmptyCellsFrom(g, row, col), 9 * row + col)
    decreases 81 - (9 * row + col)
  {
    if row < 9 {
      var nr, nc := if col == 8 then row + 1 else row, if col == 8 then 0 else col + 1;
      EmptyCellsFromOrdered(g, nr, nc);
      var rest := EmptyCellsFrom(g, nr, nc);
      var cs := EmptyCellsFrom(g, row, col);
      assert 9 * nr + nc == 9 * row + col + 1;
      if g[row][col] == 0 {
        assert cs == [(row, col)] + rest;
        PushScanned(g, (row, col), rest, 9 * row + col);
      } else {
        assert cs == rest;
      }
    }
  }

  /** Putting an empty cell at scan position k in front of a scan from
      k + 1. */
  lemma {:induction false} PushScanned(g: Grid, p: (Index, Index), rest: seq<(Index, Index)>, k: int)
    requires Shaped(g) && g[p.0][p.1] == 0 && Rank(p) == k && ScannedFrom(g, rest, k + 1)
    ensures ScannedFrom(g, [p] + rest, k)
  {
    var cs := [p] + rest;
    forall i | 0 <= i < |cs| ensures k <= Rank(cs[i]) && g[cs[i].0][cs[i].1] == 0 {
      if i > 0 {
        assert cs[i] == rest[i - 1];
      }
    }
    forall i, j | 0 <= i < j < |cs| ensures Rank(cs[i]) < Rank(cs[j]) {
      assert cs[j] == rest[j - 1];
      if i > 0 {
        assert cs[i] == rest[i - 1];
      }
    }
  }

  /** The scan from (row, col) yields every empty cell at or after
      (row, col). */
  lemma {:induction false} EmptyCellsFromCovers(g: Grid, row: int, col: int)
    requires Shaped(g)
    requires (0 <= row < 9 && 0 <= col < 9) || (row == 9 && col == 0)
    ensures CoversFrom(g, EmptyCellsFrom(g, row, col), 9 * row + col)
    decreases 81 - (9 * row + col)
  {
    if row < 9 {
      var nr, nc := if col == 8 then row + 1 else row, if col == 8 then 0 else col + 1;
      EmptyCellsFromCovers(g, nr, nc);
      var rest := EmptyCellsFrom(g, nr, nc);
      var cs := EmptyCellsFrom(g, row, col);
      assert cs == (if g[row][col] == 0 then [(row, col)] + rest else rest);
      forall a: Index, b: Index | 9 * row + col <= 9 * a + b && g[a][b] == 0
        ensures (a, b) in cs
      {
        if 9 * a + b == 9 * row + col {
          assert a == row && b == col;
        } else {
          assert 9 * nr + nc <= 9 * a + b;
          assert (a, b) in rest;
        }
      }
    }
  }

  /** The entry `compute_empty_cells` pushes for an empty cell. */
  function FreshEntry(g: Grid, p: (Index, Index)): (e: Entry)
    requires Shaped(g)
    ensures e.row == p.0 && e.col == p.1 && Live(g, e)
    ensures e.options == ValidValues(g, p.0, p.1)
  {
    var opts := ValidValues(g, p.0, p.1);
    Entry(|opts|, p.0, p.1, opts)
  }

  /** `compute_empty_cells`: a live entry for every empty cell, and only
      those, pushed in row-major order. */
  function ComputeEmptyCells(g: Grid): (f: Frontier)
    requires Shaped(g)
    ensures Inv(g, f)
    ensures forall i :: 0 <= i < |f| ==> f[i].options == ValidValues(g, f[i].row, f[i].col)
  {
    var cs := EmptyCellsFrom(g, 0, 0);
    EmptyCellsFromOrdered(g, 0, 0);
    EmptyCellsFromCovers(g, 0, 0);
    var f := seq(|cs|, i requires 0 <= i < |cs| => FreshEntry(g, cs[i]));
    ScanCells(g, cs, f);
    f
  }

  /** Entries for the cells of a complete scan, one each in scan order, have
      exactly the empty cells as their cells, none twice. */
  lemma ScanCells(g: Grid, cs: seq<(Index, Index)>, f: Frontier)
    requires Shaped(g) && ScannedFrom(g, cs, 0) && CoversFrom(g, cs, 0)
    requires |f| == |cs| && forall i :: 0 <= i < |f| ==> f[i].row == cs[i].0 && f[i].col == cs[i].1
    ensures Cells(f) == ZeroCells(g) && DistinctCells(f)
  {
    forall x | x in ZeroCells(g) ensures x in Cells(f) {
      var (a, b) := x;
      assert (a, b) in cs;
      var i :| 0 <= i < |cs| && cs[i] == (a, b);
      assert x == (f[i].row as int, f[i].col as int);
    }
    forall x | x in Cells(f) ensures x in ZeroCells(g) {
      var i :| 0 <= i < |f| && x == (f[i].row as int, f[i].col as int);
      assert g[cs[i].0][cs[i].1] == 0;
    }
    forall i, j | 0 <= i < j < |f| ensures !SameCell(f[i], f[j]) {
      assert Rank(cs[i]) < Rank(cs[j]);
    }
  }

  /** The state right after `heappop` on a pending frontier: the popped
      entry's cell is empty and no entry left is about it. */
  ghost predicate PendingPop(g: Grid, e: Entry, rest: Frontier) {
    Pending(g, rest) && g[e.row][e.col] == 0 &&
    forall k :: 0 <= k < |rest| ==> !SameCell(rest[k], e)
  }

  /** The state right after `heappop` under the search invariant: the popped
      entry is live, the rest are live and cover the other empty cells. */
  ghost predicate Popped(g: Grid, e: Entry, rest: Frontier) {
    PendingPop(g, e, rest) && Live(g, e) &&
    Cells(rest) == ZeroCells(g) - {(e.row as int, e.col as int)} &&
    forall k :: 0 <= k < |rest| ==> Live(g, rest[k])
  }

  /** Under the invariant every entry sits on an empty cell. */
  lemma InvIsPending(g: Grid, f: Frontier)
    requires Inv(g, f)
    ensures Pending(g, f)
  {
    forall i | 0 <= i < |f| ensures g[f[i].row][f[i].col] == 0 {
      assert (f[i].row as int, f[i].col as int) in Cells(f);
    }
  }

  lemma PopKeepsPending(g: Grid, f: Frontier)
    requires |f| > 0 && Pending(g, f)
    ensures PendingPop(g, Pop(f).0, Pop(f).1)
  {
    var i := MinIndex(f);
    var rest := Without(f, i);
    assert Pop(f) == (f[i], rest);
    forall k | 0 <= k < |rest| ensures rest[k] == f[if k < i then k else k + 1] {
    }
    forall a, b | 0 <= a < b < |rest| ensures !SameCell(rest[a], rest[b]) {
      assert rest[a] == f[if a < i then a else a + 1];
      assert rest[b] == f[if b < i then b else b + 1];
    }
  }

  lemma PopKeepsInv(g: Grid, f: Frontier)
    requires |f| > 0 && Inv(g, f)
    ensures Popped(g, Pop(f).0, Pop(f).1)
  {
    var i := MinIndex(f);
    var e, rest := f[i], Without(f, i);
    assert Pop(f) == (e, rest);
    assert (e.row as int, e.col as int) in Cells(f);
    InvIsPending(g, f);
    PopKeepsPending(g, f);
    forall k | 0 <= k < |rest| ensures rest[k] == f[if k < i then k else k + 1] {
    }
    assert Cells(rest) == Cells(f) - {(e.row as int, e.col as int)} by {
      forall x | x in Cells(f) - {(e.row as int, e.col as int)} ensures x in Cells(rest) {
        var k :| 0 <= k < |f| && x == (f[k].row as int, f[k].col as int);
        assert k != i;
        var k' := if k < i then k else k - 1;
        assert rest[k'] == f[k];
      }
    }
  }

  /** Writing v into the popped cell and dropping v from its peers leaves a
      pending frontier pending. */
  lemma UpdateKeepsPending(g: Grid, e: Entry, rest: Frontier, v: int)
    requires PendingPop(g, e, rest)
    requires UpdateCells(rest, e.row, e.col, v).Some?
    ensures Pending(Assign(g, e.row, e.col, v), UpdateCells(rest, e.row, e.col, v).value)
  {
    var h := Assign(g, e.row, e.col, v);
    var u := UpdateCells(rest, e.row, e.col, v).value;
    forall k | 0 <= k < |u| ensures h[u[k].row][u[k].col] == 0 {
      assert Updated(rest[k], u[k], e.row, e.col, v);
      assert !SameCell(rest[k], e);
    }
    forall a, b | 0 <= a < b < |u| ensures !SameCell(u[a], u[b]) {
      assert Updated(rest[a], u[a], e.row, e.col, v) && Updated(rest[b], u[b], e.row, e.col, v);
    }
  }

  /** One assign-and-propagate step keeps the search invariant: after a legal
      digit is written into the popped cell, every entry `update_cells`
      returns is live on the new board, and together they cover its empty
      cells. */
  lemma UpdateKeepsInv(g: Grid, e: Entry, rest: Frontier, v: int)
    requires Popped(g, e, rest) && Legal(g, e.row, e.col, v)
    requires UpdateCells(rest, e.row, e.col, v).Some?
    ensures Inv(Assign(g, e.row, e.col, v), UpdateCells(rest, e.row, e.col, v).value)
  {
    var r, c := e.row, e.col;
    var h := Assign(g, r, c, v);
    var u := UpdateCells(rest, r, c, v).value;
    UpdateKeepsPending(g, e, rest, v);
    forall k | 0 <= k < |u| ensures Live(h, u[k]) {
      assert Updated(rest[k], u[k], r, c, v);
      assert Live(g, rest[k]);
      forall d ensures d in u[k].options <==> Legal(h, u[k].row, u[k].col, d) {
        LegalAfterAssign(g, r, c, v, u[k].row, u[k].col, d);
      }
    }
    assert Cells(u) == Cells(rest) by {
      forall x | x in Cells(rest) ensures x in Cells(u) {
        var k :| 0 <= k < |rest| && x == (rest[k].row as int, rest[k].col as int);
        assert Updated(rest[k], u[k], r, c, v);
      }
    }
    assert ZeroCells(h) == ZeroCells(g) - {(r as int, c as int)};
  }

  /** Forward checking never rejects the digit a solution puts in the popped
      cell: every peer keeps the digit the solution puts there. */
  lemma UpdateKeepsSolution(g: Grid, e: Entry, rest: Frontier, s: Grid)
    requires Popped(g, e, rest) && Solved(s) && Extends(s, g)
    ensures UpdateCells(rest, e.row, e.col, s[e.row][e.col]).Some?
  {
    var r, c := e.row, e.col;
    var v := s[r][c];
    forall k | 0 <= k < |rest| && Peers(r, c, rest[k].row, rest[k].col)
      ensures Remove(rest[k].options, v) != []
    {
      var a, b := rest[k].row, rest[k].col;
      assert Live(g, rest[k]) && g[a][b] == 0;
      SolutionDigitIsLegal(s, g, a, b);
      assert s[a][b] in rest[k].options;
      assert !SameCell(rest[k], e);
      assert s[a][b] != v;
      assert s[a][b] in Remove(rest[k].options, v);
    }
  }
}
