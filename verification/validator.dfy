/**
  The static check run before any search (`is_unique`, `valid_sudoku`):
  no row, column or 3×3 box may repeat a non-zero digit.
*/
module Validator {
  import opened Board

  /** The list with its zeros dropped and every other value kept, repeats
      included (the filtering step of `is_unique`). */
  function NonZero(s: seq<int>): (t: seq<int>)
    ensures forall x :: x in t <==> x in s && x != 0
    ensures |t| <= |s|
    ensures multiset(t) == multiset(s)[0 := 0]
  {
    if s == [] then []
    else
      assert s == [s[0]] + s[1..];
      if s[0] == 0 then NonZero(s[1..])
      else [s[0]] + NonZero(s[1..])
  }

  /** Python's `set(...)` of a list. */
  function ToSet(s: seq<int>): set<int> {
    set x | x in s
  }

  predicate Distinct(s: seq<int>) {
    forall i, j :: 0 <= i < j < |s| ==> s[i] != s[j]
  }

  /** No non-zero value occurs twice; zeros may repeat. */
  ghost predicate NoRepeat(s: seq<int>) {
    forall i, j :: 0 <= i < j < |s| && s[i] != 0 ==> s[i] != s[j]
  }

  /** A list is as long as its set of values exactly when its values are
      pairwise distinct, and never shorter. */
  lemma {:induction false} SetSizeIffDistinct(s: seq<int>)
    ensures |ToSet(s)| <= |s|
    ensures |ToSet(s)| == |s| <==> Distinct(s)
  {
    if s != [] {
      var t := s[1..];
      SetSizeIffDistinct(t);
      assert ToSet(s) == {s[0]} + ToSet(t) by {
        assert s == [s[0]] + t;
      }
      if s[0] in t {
        assert ToSet(s) == ToSet(t);
        var k :| 0 <= k < |t| && t[k] == s[0];
        assert s[0] == s[k + 1];
      } else {
        assert s[0] !in ToSet(t);
        DistinctCons(s);
      }
    }
  }

  /** A list whose head does not recur is distinct exactly when its tail
      is. */
  lemma DistinctCons(s: seq<int>)
    requires s != [] && s[0] !in s[1..]
    ensures Distinct(s) <==> Distinct(s[1..])
  {
    var t := s[1..];
    if Distinct(t) {
      forall i, j | 0 <= i < j < |s| ensures s[i] != s[j] {
        assert s[j] == t[j - 1];
        if i > 0 {
          assert s[i] == t[i - 1];
        }
      }
    }
    if Distinct(s) {
      forall i, j | 0 <= i < j < |t| ensures t[i] != t[j] {
        assert t[i] == s[i + 1] && t[j] == s[j + 1];
      }
    }
  }

  /** Dropping zeros from a list with no repeated non-zero value leaves a
      pairwise distinct list. */
  lemma {:induction false} NoRepeatGivesDistinct(s: seq<int>)
    requires NoRepeat(s)
    ensures Distinct(NonZero(s))
  {
    if s != [] {
      var t := s[1..];
      assert s == [s[0]] + t;
      forall i, j | 0 <= i < j < |t| && t[i] != 0 ensures t[i] != t[j] {
        assert t[i] == s[i + 1] && t[j] == s[j + 1];
      }
      NoRepeatGivesDistinct(t);
      var n := NonZero(t);
      if s[0] != 0 {
        assert s[0] !in t;
        assert NonZero(s) == [s[0]] + n;
        forall i, j | 0 <= i < j < |NonZero(s)| ensures NonZero(s)[i] != NonZero(s)[j] {
          if i == 0 {
            assert NonZero(s)[j] == n[j - 1] && n[j - 1] in n;
          } else {
            assert NonZero(s)[i] == n[i - 1] && NonZero(s)[j] == n[j - 1];
          }
        }
      }
    }
  }

  /** A list whose zero-free part is pairwise distinct repeats no non-zero
      value. */
  lemma {:induction false} DistinctGivesNoRepeat(s: seq<int>)
    requires Distinct(NonZero(s))
    ensures NoRepeat(s)
  {
    if s != [] {
      var t := s[1..];
      assert s == [s[0]] + t;
      var n := NonZero(t);
      if s[0] != 0 {
        assert NonZero(s) == [s[0]] + n;
        assert Distinct(n) by {
          forall i, j | 0 <= i < j < |n| ensures n[i] != n[j] {
            assert n[i] == NonZero(s)[i + 1] && n[j] == NonZero(s)[j + 1];
          }
        }
        DistinctGivesNoRepeat(t);
        forall k | 0 <= k < |n| ensures n[k] != s[0] {
          assert NonZero(s)[0] == s[0] && NonZero(s)[k + 1] == n[k];
        }
        forall i, j | 0 <= i < j < |s| && s[i] != 0 ensures s[i] != s[j] {
          if i == 0 {
            assert s[j] == t[j - 1] && t[j - 1] in t;
          } else {
            assert s[i] == t[i - 1] && s[j] == t[j - 1];
          }
        }
      } else {
        assert NonZero(s) == n;
        DistinctGivesNoRepeat(t);
        forall i, j | 0 <= i < j < |s| && s[i] != 0 ensures s[i] != s[j] {
          assert s[i] == t[i - 1] && s[j] == t[j - 1];
        }
      }
    }
  }

  lemma NonZeroDistinctIffNoRepeat(s: seq<int>)
    ensures Distinct(NonZero(s)) <==> NoRepeat(s)
  {
    if NoRepeat(s) {
      NoRepeatGivesDistinct(s);
    }
    if Distinct(NonZero(s)) {
      DistinctGivesNoRepeat(s);
    }
  }

  /** `is_unique`: the non-zero entries are as many as their distinct values. */
  function IsUnique(s: seq<int>): (b: bool)
    ensures b <==> NoRepeat(s)
  {
    var t := NonZero(s);
    SetSizeIffDistinct(t);
    NonZeroDistinctIffNoRepeat(s);
    |t| == |ToSet(t)|
  }

  /** `valid_sudoku`: every row and column, then the boxes at rows and
      columns 0, 3, 6, pass `is_unique`. */
  function ValidSudoku(g: Grid): (b: bool)
    requires Shaped(g)
    ensures b <==> Consistent(g)
  {
    var lines := forall i | 0 <= i < 9 :: IsUnique(Row(g, i)) && IsUnique(Column(g, i));
    var boxes := forall br, bc | br in [0, 3, 6] && bc in [0, 3, 6] :: IsUnique(Box(g, br, bc));
    ConsistentIffProjections(g);
    lines && boxes
  }

  /** Each row, column and box has no repeated non-zero digit. */
  ghost predicate ProjectionsUnique(g: Grid)
    requires Shaped(g)
  {
    (forall i | 0 <= i < 9 :: NoRepeat(Row(g, i)) && NoRepeat(Column(g, i))) &&
    (forall br, bc | br in [0, 3, 6] && bc in [0, 3, 6] :: NoRepeat(Box(g, br, bc)))
  }

  lemma RowNoRepeat(g: Grid, r: Index)
    requires Shaped(g)
    ensures NoRepeat(Row(g, r)) <==>
      forall c1, c2 :: 0 <= c1 < 9 && 0 <= c2 < 9 && c1 != c2 && g[r][c1] != 0 ==> g[r][c1] != g[r][c2]
  {
    if NoRepeat(Row(g, r)) {
      forall c1, c2 | 0 <= c1 < 9 && 0 <= c2 < 9 && c1 != c2 && g[r][c1] != 0
        ensures g[r][c1] != g[r][c2]
      {
        assert Row(g, r)[c1] == g[r][c1] && Row(g, r)[c2] == g[r][c2];
      }
    }
  }

  lemma ColumnNoRepeat(g: Grid, c: Index)
    requires Shaped(g)
    ensures NoRepeat(Column(g, c)) <==>
      forall r1, r2 :: 0 <= r1 < 9 && 0 <= r2 < 9 && r1 != r2 && g[r1][c] != 0 ==> g[r1][c] != g[r2][c]
  {
    var col := Column(g, c);
    if NoRepeat(col) {
      forall r1, r2 | 0 <= r1 < 9 && 0 <= r2 < 9 && r1 != r2 && g[r1][c] != 0
        ensures g[r1][c] != g[r2][c]
      {
        assert col[r1] == g[r1][c] && col[r2] == g[r2][c];
      }
    }
    if forall r1, r2 :: 0 <= r1 < 9 && 0 <= r2 < 9 && r1 != r2 && g[r1][c] != 0 ==> g[r1][c] != g[r2][c] {
      forall i, j | 0 <= i < j < 9 && col[i] != 0 ensures col[i] != col[j] {
        assert col[i] == g[i][c] && col[j] == g[j][c];
      }
    }
  }

  /** Two different cells of the box with top-left corner (br, bc). */
  ghost predicate BoxOk(g: Grid, br: int, bc: int)
    requires Shaped(g) && 0 <= br <= 6 && 0 <= bc <= 6
  {
    forall r1, c1, r2, c2 ::
      && br <= r1 < br + 3 && bc <= c1 < bc + 3
      && br <= r2 < br + 3 && bc <= c2 < bc + 3
      && (r1 != r2 || c1 != c2) && g[r1][c1] != 0
      ==> g[r1][c1] != g[r2][c2]
  }

  lemma BoxNoRepeat(g: Grid, br: int, bc: int)
    requires Shaped(g) && 0 <= br <= 6 && 0 <= bc <= 6
    ensures NoRepeat(Box(g, br, bc)) <==> BoxOk(g, br, bc)
  {
    var b := Box(g, br, bc);
    if NoRepeat(b) {
      forall r1, c1, r2, c2 |
        && br <= r1 < br + 3 && bc <= c1 < bc + 3
        && br <= r2 < br + 3 && bc <= c2 < bc + 3
        && (r1 != r2 || c1 != c2) && g[r1][c1] != 0
        ensures g[r1][c1] != g[r2][c2]
      {
        var k1 := (r1 - br) * 3 + (c1 - bc);
        var k2 := (r2 - br) * 3 + (c2 - bc);
        assert k1 / 3 == r1 - br && k1 % 3 == c1 - bc;
        assert k2 / 3 == r2 - br && k2 % 3 == c2 - bc;
        assert b[k1] == g[r1][c1] && b[k2] == g[r2][c2];
        assert k1 != k2;
      }
    }
    if BoxOk(g, br, bc) {
      forall i, j | 0 <= i < j < 9 && b[i] != 0 ensures b[i] != b[j] {
        assert b[i] == g[br + i / 3][bc + i % 3];
        assert b[j] == g[br + j / 3][bc + j % 3];
        assert i / 3 != j / 3 || i % 3 != j % 3;
      }
    }
  }

  /** The projections the validator checks cover exactly the peer pairs. */
  lemma ConsistentIffProjections(g: Grid)
    requires Shaped(g)
    ensures ProjectionsUnique(g) <==> Consistent(g)
  {
    if ProjectionsUnique(g) {
      ProjectionsGiveConsistent(g);
    }
    if Consistent(g) {
      ConsistentGivesProjections(g);
    }
  }

  lemma ProjectionsGiveConsistent(g: Grid)
    requires Shaped(g) && ProjectionsUnique(g)
    ensures Consistent(g)
  {
    forall r1, c1, r2, c2 |
      && InRange(r1, c1) && InRange(r2, c2) && (r1 != r2 || c1 != c2)
      && Peers(r1, c1, r2, c2) && g[r1][c1] != 0
      ensures g[r1][c1] != g[r2][c2]
    {
      if r1 == r2 {
        RowNoRepeat(g, r1);
      } else if c1 == c2 {
        ColumnNoRepeat(g, c1);
      } else {
        var br, bc := (r1 / 3) * 3, (c1 / 3) * 3;
        assert br in [0, 3, 6] && bc in [0, 3, 6];
        BoxNoRepeat(g, br, bc);
      }
    }
  }

  lemma ConsistentGivesProjections(g: Grid)
    requires Shaped(g) && Consistent(g)
    ensures ProjectionsUnique(g)
  {
    assert forall i | 0 <= i < 9 :: NoRepeat(Row(g, i)) && NoRepeat(Column(g, i)) by {
      forall i | 0 <= i < 9 ensures NoRepeat(Row(g, i)) && NoRepeat(Column(g, i)) {
        ConsistentLines(g, i);
      }
    }
    assert forall br, bc | br in [0, 3, 6] && bc in [0, 3, 6] :: NoRepeat(Box(g, br, bc)) by {
      forall br, bc | br in [0, 3, 6] && bc in [0, 3, 6] ensures NoRepeat(Box(g, br, bc)) {
        ConsistentBox(g, br, bc);
      }
    }
  }

  lemma ConsistentLines(g: Grid, i: Index)
    requires Shaped(g) && Consistent(g)
    ensures NoRepeat(Row(g, i)) && NoRepeat(Column(g, i))
  {
    RowNoRepeat(g, i);
    ColumnNoRepeat(g, i);
  }

  lemma ConsistentBox(g: Grid, br: int, bc: int)
    requires Shaped(g) && Consistent(g) && br in [0, 3, 6] && bc in [0, 3, 6]
    ensures NoRepeat(Box(g, br, bc))
  {
    BoxNoRepeat(g, br, bc);
    forall r1, c1, r2, c2 |
      && br <= r1 < br + 3 && bc <= c1 < bc + 3
      && br <= r2 < br + 3 && bc <= c2 < bc + 3
      && (r1 != r2 || c1 != c2) && g[r1][c1] != 0
      ensures g[r1][c1] != g[r2][c2]
    {
      assert Peers(r1, c1, r2, c2);
    }
  }
}
