/**
  Properties of the answers and of the search order: a solution holds each
  digit once per row, column and box, and on a frontier with one entry per
  cell the popped entry is fixed by the frontier's contents, so the heap's
  layout does not matter.
*/
module Properties {
  import opened Board
  import opened Validator
  import opened Domains

  /** The digits 1..9. */
  function DigitSet(): set<int> {
    {1, 2, 3, 4, 5, 6, 7, 8, 9}
  }

  /** Each digit 1..9 occurs in t, and none twice. */
  ghost predicate EachDigitOnce(t: seq<int>) {
    (forall d :: 1 <= d <= 9 ==> d in t) && NoRepeat(t)
  }

  /** Nine entries from 1..9 with no repeat are the digits 1..9, each once. */
  lemma NineDistinctDigits(t: seq<int>)
    requires |t| == 9 && (forall i :: 0 <= i < 9 ==> 1 <= t[i] <= 9) && NoRepeat(t)
    ensures ToSet(t) == DigitSet() && EachDigitOnce(t)
  {
    var a, d := ToSet(t), DigitSet();
    assert Distinct(t);
    SetSizeIffDistinct(t);
    assert a <= d;
    assert a * d == a;
    assert |d| == 9;
    assert |d - a| == 0;
    assert d - a == {};
  }

  /** In a solved board every row and column holds each digit 1..9 exactly
      once. */
  lemma SolvedLinesHaveEachDigitOnce(s: Grid)
    requires Solved(s)
    ensures forall i :: 0 <= i < 9 ==> EachDigitOnce(Row(s, i)) && EachDigitOnce(Column(s, i))
  {
    ConsistentIffProjections(s);
    forall i | 0 <= i < 9
      ensures EachDigitOnce(Row(s, i)) && EachDigitOnce(Column(s, i))
    {
      var row, col := Row(s, i), Column(s, i);
      assert forall k :: 0 <= k < 9 ==> row[k] == s[i][k] && col[k] == s[k][i];
      NineDistinctDigits(row);
      NineDistinctDigits(col);
    }
  }

  /** In a solved board every box holds each digit 1..9 exactly once. */
  lemma SolvedBoxesHaveEachDigitOnce(s: Grid)
    requires Solved(s)
    ensures forall br, bc :: br in [0, 3, 6] && bc in [0, 3, 6] ==> EachDigitOnce(Box(s, br, bc))
  {
    ConsistentIffProjections(s);
    forall br, bc | br in [0, 3, 6] && bc in [0, 3, 6]
      ensures EachDigitOnce(Box(s, br, bc))
    {
      var box := Box(s, br, bc);
      assert forall k :: 0 <= k < 9 ==> box[k] == s[br + k / 3][bc + k % 3];
      NineDistinctDigits(box);
    }
  }

  /** Which entry `heappop` returns does not depend on the order the heap
      keeps its items in: two frontiers with the same entries, one per cell,
      pop the same entry. */
  lemma PopIgnoresLayout(f: Frontier, f': Frontier)
    requires |f| > 0 && DistinctCells(f) && multiset(f) == multiset(f')
    ensures |f'| > 0 && Pop(f).0 == Pop(f').0
  {
    assert |f'| == |multiset(f')| == |f|;
    var i, j := MinIndex(f), MinIndex(f');
    assert f[i] in multiset(f');
    assert f'[j] in multiset(f);
    var a :| 0 <= a < |f| && f[a] == f'[j];
    var b :| 0 <= b < |f'| && f'[b] == f[i];
    assert KeyLe(f[i], f[a]) && KeyLe(f'[j], f'[b]);
    assert SameCell(f[i], f[a]);
    assert i == a;
  }
}
