/**
  The candidate calculator (`valid_values`): the digits 1..9 that do not
  occur in a cell's row, column or box, in increasing order.
*/
module Candidates {
  import opened Board
  import opened Validator

  predicate Ascending(s: seq<int>) {
    forall i, j :: 0 <= i < j < |s| ==> s[i] < s[j]
  }

  /** The elements of s outside `used`, in their order in s; `valid_values`
      applies it to the digits 1..9. */
  function Missing(s: seq<int>, used: set<int>): (r: seq<int>)
    ensures forall x :: x in r <==> x in s && x !in used
    ensures Ascending(s) ==> Ascending(r)
  {
    if s == [] then []
    else
      var t := Missing(s[1..], used);
      assert Ascending(s) ==> forall i :: 0 <= i < |t| ==> s[0] < t[i] by {
        if Ascending(s) {
          forall i | 0 <= i < |t| ensures s[0] < t[i] {
            assert t[i] in t;
            var k :| 0 <= k < |s[1..]| && s[1..][k] == t[i];
            assert s[k + 1] == t[i];
          }
        }
      }
      if s[0] in used then t else [s[0]] + t
  }

  /** The digits 1..9 in increasing order. */
  function DigitRange(): (r: seq<int>)
    ensures Ascending(r)
    ensures forall x :: x in r <==> 1 <= x <= 9
  {
    var r := seq(9, i requires 0 <= i < 9 => i + 1);
    forall x | 1 <= x <= 9 ensures x in r {
      assert r[x - 1] == x;
    }
    r
  }

  /** The values of the row, the column and the box of (r, c), as a set. */
  function Used(g: Grid, r: Index, c: Index): set<int>
    requires Shaped(g)
  {
    ToSet(Row(g, r) + Column(g, c) + Box(g, (r / 3) * 3, (c / 3) * 3))
  }

  /** A digit 1..9 outside the used set is held by no peer. */
  lemma UnusedIsLegal(g: Grid, r: Index, c: Index, d: int)
    requires Shaped(g) && 1 <= d <= 9 && d !in Used(g, r, c)
    ensures Legal(g, r, c, d)
  {
    var br, bc := (r / 3) * 3, (c / 3) * 3;
    var row, col, box := Row(g, r), Column(g, c), Box(g, br, bc);
    assert Used(g, r, c) == ToSet(row + col + box);
    forall i, j | InRange(i, j) && Peers(r, c, i, j)
      ensures g[i][j] != d
    {
      if i == r {
        assert g[i][j] == row[j] && row[j] in row + col + box;
      } else if j == c {
        assert g[i][j] == col[i] && col[i] in row + col + box;
      } else {
        var k := (i - br) * 3 + (j - bc);
        assert k / 3 == i - br && k % 3 == j - bc;
        assert g[i][j] == box[k] && box[k] in row + col + box;
      }
    }
  }

  /** A digit no peer holds is outside the used set. */
  lemma LegalIsUnused(g: Grid, r: Index, c: Index, d: int)
    requires Shaped(g) && Legal(g, r, c, d)
    ensures d !in Used(g, r, c)
  {
    var br, bc := (r / 3) * 3, (c / 3) * 3;
    var row, col, box := Row(g, r), Column(g, c), Box(g, br, bc);
    assert Used(g, r, c) == ToSet(row + col + box);
    forall x | x in row + col + box
      ensures x != d
    {
      if x in row {
        var j :| 0 <= j < 9 && row[j] == x;
        assert Peers(r, c, r, j);
      } else if x in col {
        var i :| 0 <= i < 9 && col[i] == x;
        assert Peers(r, c, i, c);
      } else {
        var k :| 0 <= k < 9 && box[k] == x;
        assert Peers(r, c, br + k / 3, bc + k % 3);
      }
    }
  }

  /** A digit is missing from the used set exactly when no peer holds it. */
  lemma UsedIsPeerValues(g: Grid, r: Index, c: Index)
    requires Shaped(g)
    ensures forall d :: 1 <= d <= 9 ==> (d !in Used(g, r, c) <==> Legal(g, r, c, d))
  {
    forall d | 1 <= d <= 9
      ensures d !in Used(g, r, c) <==> Legal(g, r, c, d)
    {
      if d !in Used(g, r, c) {
        UnusedIsLegal(g, r, c, d);
      }
      if Legal(g, r, c, d) {
        LegalIsUnused(g, r, c, d);
      }
    }
  }

  /** `valid_values`: the ascending list of the digits legal at (r, c). */
  function ValidValues(g: Grid, r: Index, c: Index): (vs: seq<int>)
    requires Shaped(g)
    ensures Ascending(vs)
    ensures forall d :: d in vs <==> Legal(g, r, c, d)
  {
    UsedIsPeerValues(g, r, c);
    Missing(DigitRange(), Used(g, r, c))
  }

  /** The tail of an ascending list is the list without its head. */
  lemma AscendingTail(a: seq<int>)
    requires Ascending(a) && a != []
    ensures Ascending(a[1..])
    ensures forall x :: x in a[1..] <==> x in a && x != a[0]
  {
    forall x | x in a && x != a[0] ensures x in a[1..] {
      var k :| 0 <= k < |a| && a[k] == x;
      assert a[1..][k - 1] == x;
    }
    forall x | x in a[1..] ensures x != a[0] {
      var k :| 0 <= k < |a[1..]| && a[1..][k] == x;
      assert a[k + 1] == x;
    }
  }

  /** An ascending list is determined by its elements. */
  lemma {:induction false} AscendingUnique(a: seq<int>, b: seq<int>)
    requires Ascending(a) && Ascending(b)
    requires forall x :: x in a <==> x in b
    ensures a == b
  {
    SetSizeIffDistinct(a);
    SetSizeIffDistinct(b);
    assert ToSet(a) == ToSet(b);
    if a != [] {
      assert a[0] in b && b[0] in a;
      var i :| 0 <= i < |b| && b[i] == a[0];
      var j :| 0 <= j < |a| && a[j] == b[0];
      assert a[0] <= a[j] && b[0] <= b[i];
      AscendingTail(a);
      AscendingTail(b);
      AscendingUnique(a[1..], b[1..]);
      assert a == [a[0]] + a[1..] && b == [b[0]] + b[1..];
    }
  }

  /** The candidate list of a cell is fixed by which digits are legal there. */
  lemma LegalListIsValidValues(g: Grid, r: Index, c: Index, vs: seq<int>)
    requires Shaped(g)
    requires Ascending(vs) && forall d :: d in vs <==> Legal(g, r, c, d)
    ensures vs == ValidValues(g, r, c)
  {
    AscendingUnique(vs, ValidValues(g, r, c));
  }
}
