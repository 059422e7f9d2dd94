/**
  The 9×9 board: its shape, the row/column/box projections the solver slices
  out of it, the peer relation between cells, and the reference predicates
  (consistency, legality of a digit, being a solution) that the rest of the
  model is proved against.
*/
module Board {

  /** A board is a sequence of rows; 0 marks an empty cell. */
  type Grid = seq<seq<int>>

  /** A row or column number. */
  type Index = i: int | 0 <= i < 9

  predicate Shaped(g: Grid) {
    |g| == 9 && forall r :: 0 <= r < 9 ==> |g[r]| == 9
  }

  /** The inputs the solver is meant for: a 9×9 board of digits 0..9. */
  predicate Puzzle(g: Grid) {
    Shaped(g) && forall r, c :: 0 <= r < 9 && 0 <= c < 9 ==> 0 <= g[r][c] <= 9
  }

  function Row(g: Grid, r: Index): seq<int>
    requires Shaped(g)
  {
    g[r]
  }

  function Column(g: Grid, c: Index): seq<int>
    requires Shaped(g)
  {
    seq(9, i requires 0 <= i < 9 => g[i][c])
  }

  /** The 3×3 box whose top-left cell is (br, bc), flattened row by row. */
  function Box(g: Grid, br: int, bc: int): seq<int>
    requires Shaped(g)
    requires 0 <= br <= 6 && 0 <= bc <= 6
  {
    seq(9, k requires 0 <= k < 9 => g[br + k / 3][bc + k % 3])
  }

  /** Two cells constrain each other: same row, same column or same box.
      Every cell is its own peer. */
  predicate Peers(r1: int, c1: int, r2: int, c2: int) {
    r1 == r2 || c1 == c2 || (r1 / 3 == r2 / 3 && c1 / 3 == c2 / 3)
  }

  predicate InRange(r: int, c: int) {
    0 <= r < 9 && 0 <= c < 9
  }

  /** No two different peer cells hold the same non-zero digit. */
  ghost predicate Consistent(g: Grid)
    requires Shaped(g)
  {
    forall r1, c1, r2, c2 ::
      && InRange(r1, c1) && InRange(r2, c2) && (r1 != r2 || c1 != c2)
      && Peers(r1, c1, r2, c2) && g[r1][c1] != 0
      ==> g[r1][c1] != g[r2][c2]
  }

  /** Digit d may be written at (r, c): it is 1..9 and no peer of (r, c),
      the cell itself included, already holds it. */
  ghost predicate Legal(g: Grid, r: int, c: int, d: int)
    requires Shaped(g)
  {
    1 <= d <= 9 &&
    forall i, j :: InRange(i, j) && Peers(r, c, i, j) ==> g[i][j] != d
  }

  /** A completed board: every cell holds a digit 1..9 and no peers clash. */
  ghost predicate Solved(s: Grid) {
    Shaped(s) &&
    (forall r, c :: InRange(r, c) ==> 1 <= s[r][c] <= 9) &&
    Consistent(s)
  }

  /** s keeps every filled cell of g. */
  ghost predicate Extends(s: Grid, g: Grid) {
    Shaped(s) && Shaped(g) &&
    forall r, c :: InRange(r, c) && g[r][c] != 0 ==> s[r][c] == g[r][c]
  }

  /** Some solution keeps every filled cell of g. */
  ghost predicate Solvable(g: Grid) {
    exists s :: Solved(s) && Extends(s, g)
  }

  /** The cells of g that are still empty. */
  function ZeroCells(g: Grid): set<(int, int)>
    requires Shaped(g)
  {
    set r, c | 0 <= r < 9 && 0 <= c < 9 && g[r][c] == 0 :: (r, c)
  }

  /** The board with the digit v written into cell (r, c), as `csp_solve`
      does before propagating. */
  function Assign(g: Grid, r: Index, c: Index, v: int): (h: Grid)
    requires Shaped(g)
    ensures Shaped(h)
    ensures h[r][c] == v
    ensures forall i, j :: InRange(i, j) && (i != r || j != c) ==> h[i][j] == g[i][j]
  {
    g[r := g[r][c := v]]
  }

  /** The "no solution" answer: every entry is -1. */
  function Sentinel(): (s: Grid)
    ensures Shaped(s)
    ensures forall r, c :: InRange(r, c) ==> s[r][c] == -1
  {
    seq(9, _ => seq(9, _ => -1))
  }

  lemma AssignRestores(g: Grid, r: Index, c: Index, v: int)
    requires Shaped(g)
    ensures Assign(Assign(g, r, c, v), r, c, g[r][c]) == g
  {
    var h := Assign(Assign(g, r, c, v), r, c, g[r][c]);
    assert h[r] == g[r];
  }

  /** Writing a digit into an empty cell makes it illegal for the peers of
      that cell and changes nothing for the other cells. */
  lemma LegalAfterAssign(g: Grid, r: Index, c: Index, v: int, i: int, j: int, d: int)
    requires Shaped(g) && g[r][c] == 0
    ensures Legal(Assign(g, r, c, v), i, j, d) <==>
            Legal(g, i, j, d) && (Peers(r, c, i, j) ==> d != v)
  {
    var h := Assign(g, r, c, v);
    if Legal(h, i, j, d) {
      forall a, b | InRange(a, b) && Peers(i, j, a, b)
        ensures g[a][b] != d
      {
        if a == r && b == c {
        } else {
          assert h[a][b] == g[a][b];
        }
      }
      if Peers(r, c, i, j) {
        assert Peers(i, j, r, c);
        assert h[r][c] != d;
      }
    }
    if Legal(g, i, j, d) && (Peers(r, c, i, j) ==> d != v) {
      forall a, b | InRange(a, b) && Peers(i, j, a, b)
        ensures h[a][b] != d
      {
        if a == r && b == c {
          assert Peers(r, c, i, j);
        } else {
          assert h[a][b] == g[a][b];
        }
      }
    }
  }

  /** Writing a legal digit into an empty cell keeps the board consistent. */
  lemma AssignKeepsConsistent(g: Grid, r: Index, c: Index, v: int)
    requires Shaped(g) && Consistent(g) && g[r][c] == 0 && Legal(g, r, c, v)
    ensures Consistent(Assign(g, r, c, v))
  {
    var h := Assign(g, r, c, v);
    forall r1, c1, r2, c2 |
      InRange(r1, c1) && InRange(r2, c2) && (r1 != r2 || c1 != c2) &&
      Peers(r1, c1, r2, c2) && h[r1][c1] != 0
      ensures h[r1][c1] != h[r2][c2]
    {
      if r1 == r && c1 == c {
        assert h[r2][c2] == g[r2][c2];
        assert Peers(r, c, r2, c2);
      } else if r2 == r && c2 == c {
        assert h[r1][c1] == g[r1][c1];
        assert Peers(r, c, r1, c1);
      } else {
        assert h[r1][c1] == g[r1][c1] && h[r2][c2] == g[r2][c2];
      }
    }
  }

  /** A board that some solution extends is itself consistent. */
  lemma ExtendedIsConsistent(s: Grid, g: Grid)
    requires Solved(s) && Extends(s, g)
    ensures Consistent(g)
  {
  }

  /** The digit a solution puts in an empty cell is legal there. */
  lemma SolutionDigitIsLegal(s: Grid, g: Grid, r: Index, c: Index)
    requires Solved(s) && Extends(s, g) && g[r][c] == 0
    ensures Legal(g, r, c, s[r][c])
  {
    forall i, j | InRange(i, j) && Peers(r, c, i, j)
      ensures g[i][j] != s[r][c]
    {
      if g[i][j] != 0 && (i != r || j != c) {
        assert s[i][j] == g[i][j];
      }
    }
  }

  /** No solution is the "no solution" answer. */
  lemma SolvedIsNotSentinel(s: Grid)
    requires Solved(s)
    ensures s != Sentinel()
  {
    assert s[0][0] != Sentinel()[0][0];
  }
}
