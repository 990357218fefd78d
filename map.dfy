/**
 * The cost grid (`Map`): a height x width array of cells plus the goal position.
 *
 * The const member functions of `Map` read nothing but the grid and its size, so they are
 * functions on the value `Grid`. The members that write into the grid in place are methods
 * of the class `Map`, which holds its grid in the field `grid`.
 */
module Maps {
  import opened Positions
  import opened Cells

  /** The edge costs (`include/Map.h:50-52`); 100 is the "infinite" sentinel. */
  const InfinityCost: real := 100.0
  const DiagonalCost: real := 2.5
  const TransitionalCost: real := 1.0

  /** The nine (row, column) offsets scanned by `FindNeighbors`, in the order of its two loops. */
  const Offsets: seq<Pos> := [Pos(-1, -1), Pos(-1, 0), Pos(-1, 1),
                              Pos(0, -1), Pos(0, 0), Pos(0, 1),
                              Pos(1, -1), Pos(1, 0), Pos(1, 1)]

  /** The offset visited at row step `i` and column step `j` of `FindNeighbors`'s loops. */
  lemma OffsetAt(i: int, j: int)
    requires 0 <= i < 3 && 0 <= j < 3
    ensures Offsets[3 * i + j] == Pos(i - 1, j - 1)
  {
  }

  datatype Grid = Grid(height: int, width: int, cells: seq<seq<Cell>>) {

    /** `map_size` agrees with the nested vectors. */
    ghost predicate Valid() {
      0 <= height && 0 <= width && |cells| == height &&
      forall r :: 0 <= r < height ==> |cells[r]| == width
    }

    /** The range `.at` accepts. */
    predicate InBounds(p: Pos) {
      0 <= p.row < height && 0 <= p.col < width
    }

    function At(p: Pos): Cell
      requires Valid() && InBounds(p)
    {
      cells[p.row][p.col]
    }

    /** `Map::CurrentCellG`: the `g` of the cell stored at row `p.row`, column `p.col`; the
      * source's `.at` throws outside the grid, which the model rules out by `InBounds`. How a read
      * relates to earlier writes is `ReadAfterSet`. */
    function G(p: Pos): (r: real)
      requires Valid() && InBounds(p)
      ensures r == cells[p.row][p.col].g
    {
      At(p).g
    }

    /** `Map::CurrentCellRhs`: the `rhs` of the cell stored at row `p.row`, column `p.col`; the
      * source's `.at` throws outside the grid, which the model rules out by `InBounds`. How a read
      * relates to earlier writes is `ReadAfterSet`. */
    function Rhs(p: Pos): (r: real)
      requires Valid() && InBounds(p)
      ensures r == cells[p.row][p.col].rhs
    {
      At(p).rhs
    }

    /** `Map::CurrentCellStatus`: the `status` of the cell stored at row `p.row`, column `p.col`; the
      * source's `.at` throws outside the grid, which the model rules out by `InBounds`. How a read
      * relates to earlier writes is `ReadAfterSet`. */
    function Status(p: Pos): (r: string)
      requires Valid() && InBounds(p)
      ensures r == cells[p.row][p.col].status
    {
      At(p).status
    }

    /** `Map::CalculateCellKey`: the priority of a square is the smaller of its two estimates. */
    function Key(p: Pos): (k: real)
      requires Valid() && InBounds(p)
      ensures k <= G(p) && k <= Rhs(p)
      ensures k == G(p) || k == Rhs(p)
    {
      if G(p) <= Rhs(p) then G(p) else Rhs(p)
    }

    /** The grid with the cell at `p` replaced: what every in-place setter of `Map` amounts to. */
    function Set(p: Pos, c: Cell): (r: Grid)
      requires Valid() && InBounds(p)
      ensures r.Valid() && r.height == height && r.width == width
      ensures r.At(p) == c
      ensures forall q :: InBounds(q) && q != p ==> r.At(q) == At(q)
    {
      Grid(height, width, cells[p.row := cells[p.row][p.col := c]])
    }

    /** The getters read back what the last write put there: a write at `p` is seen at `p`, and
      * every other square reads as before. */
    lemma ReadAfterSet(p: Pos, q: Pos, c: Cell)
      requires Valid() && InBounds(p) && InBounds(q)
      ensures Set(p, c).G(q) == (if q == p then c.g else G(q))
      ensures Set(p, c).Rhs(q) == (if q == p then c.rhs else Rhs(q))
      ensures Set(p, c).Status(q) == (if q == p then c.status else Status(q))
    {
    }

    /** Every estimate in the grid is non-negative. */
    ghost predicate NonNegative()
      requires Valid()
    {
      forall p :: InBounds(p) ==> 0.0 <= G(p) && 0.0 <= Rhs(p)
    }

    /** `Map::Availability`: inside the grid and not a known obstacle; a hidden obstacle counts as free. */
    function Availability(p: Pos): (b: bool)
      requires Valid()
      ensures b <==> InBounds(p) && Status(p) != ObstacleMark
    {
      if p.row < 0 || p.row >= height then false
      else if p.col < 0 || p.col >= width then false
      else Status(p) != ObstacleMark
    }

    /** `Map::ComputeCost`: the cost of moving from `a` to `b`. Only `b` is checked for
      * traversability, and the distance test is on the Manhattan distance. */
    function ComputeCost(a: Pos, b: Pos): (cost: real)
      requires Valid()
      ensures cost == TransitionalCost || cost == DiagonalCost || cost == InfinityCost
      ensures cost == TransitionalCost <==> Availability(b) && Manhattan(a, b) == 1
      ensures cost == DiagonalCost <==> Availability(b) && Manhattan(a, b) == 2
    {
      if !Availability(b) then InfinityCost
      else if Manhattan(a, b) == 1 then TransitionalCost
      else if Manhattan(a, b) == 2 then DiagonalCost
      else InfinityCost
    }

    /** `FindNeighbors` keeps a candidate exactly when its cost is one of the two finite step costs. */
    predicate Steppable(p: Pos, q: Pos)
      requires Valid()
    {
      var cost := ComputeCost(p, q);
      cost == TransitionalCost || cost == DiagonalCost
    }

    /** The candidates `Shift(p, o)` for the offsets `o` in order, keeping the steppable ones. */
    function NeighborsAmong(p: Pos, offsets: seq<Pos>): seq<Pos>
      requires Valid()
    {
      if offsets == [] then []
      else
        var q := Shift(p, offsets[0]);
        (if Steppable(p, q) then [q] else []) + NeighborsAmong(p, offsets[1..])
    }

    /** What `Map::FindNeighbors` collects: the available squares among the eight around `p`,
      * in row-major order. */
    function Neighbors(p: Pos): (ns: seq<Pos>)
      requires Valid()
      ensures forall q :: q in ns <==> Adjacent(p, q) && Availability(q)
      ensures RowMajorSorted(ns)
      ensures |ns| <= 8
    {
      NeighborsMembership(p, Offsets);
      OffsetsAdjacent(p);
      NeighborsSorted(p, Offsets);
      NeighborsCount(p, Offsets);
      NeighborsAmong(p, Offsets)
    }

    /** Extending the scanned offsets by the `k`-th one appends at most that candidate. */
    lemma {:induction false} NeighborsAmongSnoc(p: Pos, offsets: seq<Pos>, k: nat)
      requires Valid() && k < |offsets|
      ensures NeighborsAmong(p, offsets[..k + 1]) ==
              NeighborsAmong(p, offsets[..k]) +
              (if Steppable(p, Shift(p, offsets[k])) then [Shift(p, offsets[k])] else [])
    {
      if k > 0 {
        NeighborsAmongSnoc(p, offsets[1..], k - 1);
        assert offsets[1..][..k] == offsets[..k + 1][1..];
        assert offsets[1..][..k - 1] == offsets[..k][1..];
      }
    }

    /** `q` is `p` shifted by one of the offsets. */
    ghost predicate ShiftedBy(p: Pos, q: Pos, offsets: seq<Pos>) {
      exists k :: 0 <= k < |offsets| && q == Shift(p, offsets[k])
    }

    lemma {:induction false} NeighborsMembership(p: Pos, offsets: seq<Pos>)
      requires Valid()
      ensures forall q :: q in NeighborsAmong(p, offsets) <==> ShiftedBy(p, q, offsets) && Steppable(p, q)
    {
      if offsets != [] {
        NeighborsMembership(p, offsets[1..]);
        forall q
          ensures ShiftedBy(p, q, offsets) <==> q == Shift(p, offsets[0]) || ShiftedBy(p, q, offsets[1..])
        {
          if ShiftedBy(p, q, offsets) {
            var k :| 0 <= k < |offsets| && q == Shift(p, offsets[k]);
            if k > 0 {
              assert q == Shift(p, offsets[1..][k - 1]);
            }
          }
          if ShiftedBy(p, q, offsets[1..]) {
            var k :| 0 <= k < |offsets[1..]| && q == Shift(p, offsets[1..][k]);
            assert q == Shift(p, offsets[k + 1]);
          }
        }
      }
    }

    /** The shifts of `p` by `Offsets` that `ComputeCost` allows are exactly the adjacent, available squares. */
    lemma OffsetsAdjacent(p: Pos)
      requires Valid()
      ensures forall q :: ShiftedBy(p, q, Offsets) && Steppable(p, q) <==> Adjacent(p, q) && Availability(q)
    {
      forall q
        ensures ShiftedBy(p, q, Offsets) && Steppable(p, q) <==> Adjacent(p, q) && Availability(q)
      {
        var o := Pos(q.row - p.row, q.col - p.col);
        assert q == Shift(p, o);
        if Abs(o.row) <= 1 && Abs(o.col) <= 1 {
          assert o in Offsets;
          var k :| 0 <= k < |Offsets| && Offsets[k] == o;
          assert q == Shift(p, Offsets[k]);
        }
      }
    }

    lemma {:induction false} NeighborsSorted(p: Pos, offsets: seq<Pos>)
      requires Valid() && RowMajorSorted(offsets)
      ensures RowMajorSorted(NeighborsAmong(p, offsets))
    {
      if offsets != [] {
        var rest := offsets[1..];
        SortedTail(offsets);
        NeighborsSorted(p, rest);
        NeighborsMembership(p, rest);
        var q := Shift(p, offsets[0]);
        var tail := NeighborsAmong(p, rest);
        forall x | x in tail ensures RowMajorLess(q, x) {
          var k :| 0 <= k < |rest| && x == Shift(p, rest[k]);
          assert RowMajorLess(offsets[0], offsets[k + 1]);
        }
        if Steppable(p, q) {
          SortedCons(q, tail);
        }
      }
    }

    lemma {:induction false} NeighborsCount(p: Pos, offsets: seq<Pos>)
      requires Valid()
      ensures |NeighborsAmong(p, offsets)| + (if Pos(0, 0) in offsets then 1 else 0) <= |offsets|
    {
      if offsets != [] {
        NeighborsCount(p, offsets[1..]);
        assert Pos(0, 0) in offsets <==> offsets[0] == Pos(0, 0) || Pos(0, 0) in offsets[1..];
        if offsets[0] == Pos(0, 0) {
          assert Shift(p, offsets[0]) == p;
          assert !Steppable(p, p);
        }
      }
    }
  }

  /** The map: its grid (with `map_size`) and the goal. */
  class Map {
    var grid: Grid
    var goal: Pos

    ghost predicate Valid()
      reads this
    {
      grid.Valid()
    }

    /** `Map::Map`: every cell starts with `g = rhs = 100` and a free status; the goal is the
      * value-initialised pair (0, 0) until `SetGoal`. */
    constructor (height: int, width: int)
      requires 0 <= height && 0 <= width
      ensures Valid() && grid.height == height && grid.width == width
      ensures forall p :: grid.InBounds(p) ==> grid.At(p) == Cell.Create(InfinityCost)
      ensures goal == Pos(0, 0)
    {
      grid := Grid(height, width, seq(height, r => seq(width, c => Cell.Create(InfinityCost))));
      goal := Pos(0, 0);
    }

    /** `Map::AddObstacle`: marks the obstacles, then the hidden obstacles, so a position given
      * in both lists ends hidden. No other cell and no estimate changes. */
    method AddObstacle(obstacles: seq<Pos>, hidden: seq<Pos>)
      requires Valid()
      requires forall p :: p in obstacles ==> grid.InBounds(p)
      requires forall p :: p in hidden ==> grid.InBounds(p)
      modifies this
      ensures Valid() && grid.height == old(grid.height) && grid.width == old(grid.width) && goal == old(goal)
      ensures forall p :: grid.InBounds(p) ==>
                grid.At(p) == old(grid.At(p)).UpdateStatus(
                  if p in hidden then HiddenMark
                  else if p in obstacles then ObstacleMark
                  else old(grid.Status(p)))
    {
      ghost var start := grid;
      for i := 0 to |obstacles|
        invariant Valid() && grid.height == start.height && grid.width == start.width && goal == old(goal)
        invariant forall p :: p in obstacles ==> grid.InBounds(p)
        invariant forall p :: grid.InBounds(p) ==>
                    grid.At(p) == start.At(p).UpdateStatus(
                      if p in obstacles[..i] then ObstacleMark else start.Status(p))
      {
        UpdateCellStatus(obstacles[i], ObstacleMark);
        assert obstacles[..i + 1] == obstacles[..i] + [obstacles[i]];
      }
      ghost var marked := grid;
      for i := 0 to |hidden|
        invariant Valid() && grid.height == start.height && grid.width == start.width && goal == old(goal)
        invariant forall p :: p in hidden ==> grid.InBounds(p)
        invariant forall p :: grid.InBounds(p) ==>
                    grid.At(p) == marked.At(p).UpdateStatus(
                      if p in hidden[..i] then HiddenMark else marked.Status(p))
      {
        UpdateCellStatus(hidden[i], HiddenMark);
        assert hidden[..i + 1] == hidden[..i] + [hidden[i]];
      }
      assert obstacles[..|obstacles|] == obstacles;
      assert hidden[..|hidden|] == hidden;
    }

    /** `Map::SetGoal`: records the goal and marks its square. */
    method SetGoal(p: Pos)
      requires Valid() && grid.InBounds(p)
      modifies this
      ensures Valid() && GetGoal() == p
      ensures grid == old(grid).Set(p, old(grid.At(p)).UpdateStatus(GoalMark))
    {
      goal := p;
      UpdateCellStatus(p, GoalMark);
    }

    /** `Map::GetGoal`: the position last given to `SetGoal`. That rests on `SetGoal`'s
      * `GetGoal() == p` and on every other writer keeping `goal`. */
    function GetGoal(): (r: Pos)
      reads this
      ensures r == goal
    {
      goal
    }

    /** `Map::UpdateCellG`: only the `g` of the cell at `p` changes. */
    method UpdateCellG(p: Pos, newG: real)
      requires Valid() && grid.InBounds(p)
      modifies this
      ensures Valid() && goal == old(goal)
      ensures grid == old(grid).Set(p, old(grid.At(p)).UpdateG(newG))
    {
      grid := grid.Set(p, grid.At(p).UpdateG(newG));
    }

    /** `Map::UpdateCellRhs`: only the `rhs` of the cell at `p` changes. */
    method UpdateCellRhs(p: Pos, newRhs: real)
      requires Valid() && grid.InBounds(p)
      modifies this
      ensures Valid() && goal == old(goal)
      ensures grid == old(grid).Set(p, old(grid.At(p)).UpdateRhs(newRhs))
    {
      grid := grid.Set(p, grid.At(p).UpdateRhs(newRhs));
    }

    /** `Map::UpdateCellStatus`: only the status of the cell at `p` changes. */
    method UpdateCellStatus(p: Pos, newStatus: string)
      requires Valid() && grid.InBounds(p)
      modifies this
      ensures Valid() && goal == old(goal)
      ensures grid == old(grid).Set(p, old(grid.At(p)).UpdateStatus(newStatus))
    {
      grid := grid.Set(p, grid.At(p).UpdateStatus(newStatus));
    }

    /** `Map::FindNeighbors`: the two nested loops over the row and column offsets -1, 0, 1
      * push each candidate whose cost is one of the two finite step costs. */
    method FindNeighbors(p: Pos) returns (ns: seq<Pos>)
      requires Valid()
      ensures ns == grid.Neighbors(p)
    {
      var search := [-1, 0, 1];
      ns := [];
      for i := 0 to 3
        invariant ns == grid.NeighborsAmong(p, Offsets[..3 * i])
      {
        for j := 0 to 3
          invariant ns == grid.NeighborsAmong(p, Offsets[..3 * i + j])
        {
          var neighbor := Pos(p.row + search[i], p.col + search[j]);
          var cost := grid.ComputeCost(p, neighbor);
          OffsetAt(i, j);
          assert neighbor == Shift(p, Offsets[3 * i + j]);
          grid.NeighborsAmongSnoc(p, Offsets, 3 * i + j);
          if cost == TransitionalCost || cost == DiagonalCost {
            ns := ns + [neighbor];
          }
        }
      }
      assert Offsets[..9] == Offsets;
    }

    /** `Map::SetInfiityCellG`: `g` at `p` becomes the infinite sentinel. */
    method SetInfinityCellG(p: Pos)
      requires Valid() && grid.InBounds(p)
      modifies this
      ensures Valid() && goal == old(goal)
      ensures grid == old(grid).Set(p, old(grid.At(p)).UpdateG(InfinityCost))
    {
      UpdateCellG(p, InfinityCost);
    }
  }

  /** `test/MapTest.cpp:18-41`: a fresh 5 x 5 map with one obstacle, one hidden obstacle and a goal. */
  method MapGetTest() returns (goal: Pos, g: real, rhs: real, key: real, status: string)
    ensures goal == Pos(4, 2)
    ensures g == InfinityCost && rhs == InfinityCost && key == InfinityCost
    ensures status == FreeMark
  {
    var m := new Map(5, 5);
    m.AddObstacle([Pos(1, 3)], [Pos(3, 2)]);
    m.SetGoal(Pos(4, 2));
    var p := Pos(1, 1);
    goal := m.GetGoal();
    g, rhs, key, status := m.grid.G(p), m.grid.Rhs(p), m.grid.Key(p), m.grid.Status(p);
  }

  /** `test/MapTest.cpp:44-73`: the setters on an 8 x 9 map. */
  method MapSetTest() returns (g: real, g2: real, rhs: real, status: string)
    ensures g == 5566.0 && g2 == InfinityCost && rhs == 7878.0
    ensures status == "This is unit Testing"
  {
    var m := new Map(8, 9);
    m.AddObstacle([Pos(3, 3)], [Pos(3, 2)]);
    m.SetGoal(Pos(4, 2));
    var p, q := Pos(5, 5), Pos(3, 5);
    m.UpdateCellG(p, 5566.0);
    m.SetInfinityCellG(q);
    m.UpdateCellRhs(p, 7878.0);
    m.UpdateCellStatus(p, "This is unit Testing");
    g, g2, rhs, status := m.grid.G(p), m.grid.G(q), m.grid.Rhs(p), m.grid.Status(p);
  }

  /** The neighbours of (99, 2) on the last row of a 100 x 70 grid whose only obstacle nearby is (99, 3). */
  lemma NeighborsNextToObstacle(grid: Grid)
    requires grid.Valid() && grid.height == 100 && grid.width == 70
    requires grid.Status(Pos(99, 3)) == ObstacleMark
    requires forall q :: q in [Pos(98, 1), Pos(98, 2), Pos(98, 3), Pos(99, 1)] ==> grid.Status(q) != ObstacleMark
    ensures grid.Neighbors(Pos(99, 2)) == [Pos(98, 1), Pos(98, 2), Pos(98, 3), Pos(99, 1)]
  {
    var ns := grid.Neighbors(Pos(99, 2));
    var expected := [Pos(98, 1), Pos(98, 2), Pos(98, 3), Pos(99, 1)];
    assert RowMajorSorted(expected);
    forall q ensures q in ns <==> q in expected {
    }
    SortedByMembers(ns, expected);
  }

  /** `test/MapTest.cpp:76-94`: on the last row of a 100 x 70 map, next to an obstacle, four
    * neighbours remain; the obstacle is unavailable and costs the sentinel. */
  method MapOtherTest() returns (count: nat, available: bool, cost: real)
    ensures count == 4 && !available && cost == InfinityCost
  {
    var m := new Map(100, 70);
    m.AddObstacle([Pos(99, 3)], [Pos(3, 22)]);
    forall q | q in [Pos(98, 1), Pos(98, 2), Pos(98, 3), Pos(99, 1)] ensures m.grid.Status(q) != ObstacleMark {
      assert m.grid.InBounds(q);
    }
    NeighborsNextToObstacle(m.grid);
    var p := Pos(99, 2);
    var ns := m.FindNeighbors(p);
    count := |ns|;
    available := m.grid.Availability(Pos(99, 3));
    cost := m.grid.ComputeCost(p, Pos(99, 3));
  }
}
