/** Grid positions: the `std::pair<int, int>` (row, column) used throughout the planner. */
module Positions {

  datatype Pos = Pos(row: int, col: int)

  /** The position reached from `p` by the offset `o` (both given as (row, column) pairs). */
  function Shift(p: Pos, o: Pos): Pos {
    Pos(p.row + o.row, p.col + o.col)
  }

  function Abs(x: int): nat {
    if x < 0 then -x else x
  }

  /** The Manhattan distance that `Map::ComputeCost` tests. */
  function Manhattan(a: Pos, b: Pos): nat {
    Abs(a.row - b.row) + Abs(a.col - b.col)
  }

  /** `b` is one of the eight squares around `a` (the Moore neighbourhood, without `a` itself). */
  predicate Adjacent(a: Pos, b: Pos) {
    a != b && Abs(a.row - b.row) <= 1 && Abs(a.col - b.col) <= 1
  }

  /** Row-major order, the order in which `Map::FindNeighbors` visits its offsets. */
  predicate RowMajorLess(a: Pos, b: Pos) {
    a.row < b.row || (a.row == b.row && a.col < b.col)
  }

  /** Strictly increasing in row-major order (and therefore without repetitions). */
  ghost predicate RowMajorSorted(s: seq<Pos>) {
    forall i, j :: 0 <= i < j < |s| ==> RowMajorLess(s[i], s[j])
  }

  /** In a strictly sorted sequence, row-major order of the elements is the order of their indices. */
  lemma SortedIndexOrder(s: seq<Pos>, i: int, j: int)
    requires RowMajorSorted(s) && 0 <= i < |s| && 0 <= j < |s| && RowMajorLess(s[i], s[j])
    ensures i < j
  {
  }

  /** Dropping the first element keeps a sequence sorted. */
  lemma SortedTail(s: seq<Pos>)
    requires RowMajorSorted(s) && s != []
    ensures RowMajorSorted(s[1..])
  {
    forall i, j | 0 <= i < j < |s| - 1 ensures RowMajorLess(s[1..][i], s[1..][j]) {
      assert s[1..][i] == s[i + 1] && s[1..][j] == s[j + 1];
    }
  }

  /** An element below every element of a sorted sequence can be put in front of it. */
  lemma SortedCons(x: Pos, s: seq<Pos>)
    requires RowMajorSorted(s) && forall y :: y in s ==> RowMajorLess(x, y)
    ensures RowMajorSorted([x] + s)
  {
    var t := [x] + s;
    forall i, j | 0 <= i < j < |t| ensures RowMajorLess(t[i], t[j]) {
      assert t[j] == s[j - 1];
      if i > 0 {
        assert t[i] == s[i - 1];
      }
    }
  }

  /** Two strictly sorted sequences with the same elements are equal. */
  lemma {:induction false} SortedByMembers(a: seq<Pos>, b: seq<Pos>)
    requires RowMajorSorted(a) && RowMajorSorted(b)
    requires forall x :: x in a <==> x in b
    ensures a == b
  {
    if b != [] {
      assert b[0] in a;
    }
    if a != [] {
      assert a[0] in b;
    }
    if a != [] && b != [] {
      assert a[0] == b[0] by {
        assert a[0] in b && b[0] in a;
      }
      forall x ensures x in a[1..] <==> x in b[1..] {
        if x in a[1..] {
          var i :| 1 <= i < |a| && a[i] == x;
          assert RowMajorLess(a[0], a[i]);
          assert x in a && x in b;
          var j :| 0 <= j < |b| && b[j] == x;
          assert j != 0;
          assert b[1..][j - 1] == x;
        }
        if x in b[1..] {
          var i :| 1 <= i < |b| && b[i] == x;
          assert RowMajorLess(b[0], b[i]);
          assert x in b && x in a;
          var j :| 0 <= j < |a| && a[j] == x;
          assert j != 0;
          assert a[1..][j - 1] == x;
        }
      }
      SortedByMembers(a[1..], b[1..]);
      assert a == [a[0]] + a[1..] && b == [b[0]] + b[1..];
    }
  }
}
