/**
 * The incremental search (`PathPlanner`): a D*-Lite-style propagation of cost estimates from the
 * goal over the 5 x 5 map, driven by the open list.
 *
 * `g` is the current cost-to-goal estimate of a square and `rhs` its one-step lookahead, the
 * cheapest step cost plus `g` over its neighbours. The planner keeps two facts about them,
 * stated here as `Invariant` and preserved by every operation:
 *   - every traversable square other than the goal has `rhs` equal to its lookahead, and
 *   - every square whose `g` and `rhs` differ is queued in the open list, at most once.
 */
module PathPlanners {
  import opened Positions
  import opened Cells
  import opened Maps
  import opened OpenLists

  /** The planner's map is 5 x 5 (`include/PathPlanner.h:54`). */
  const Size: int := 5

  /** The cost of reaching the goal from `v` through its neighbour `u`. */
  function StepCost(grid: Grid, v: Pos, u: Pos): real
    requires grid.Valid() && grid.InBounds(u)
  {
    grid.ComputeCost(v, u) + grid.G(u)
  }

  /** The loop shared by `getMinRhs` and `getNextPotision`: scanning `ns` from index `i` on, a
    * candidate whose step cost is strictly below the cheapest so far replaces it. */
  function Cheapest(grid: Grid, v: Pos, ns: seq<Pos>, i: nat, cheapest: real, next: Pos): (r: (real, Pos))
    requires grid.Valid() && i <= |ns| && forall u :: u in ns ==> grid.InBounds(u)
    ensures r.0 <= cheapest
    ensures forall k :: i <= k < |ns| ==> r.0 <= StepCost(grid, v, ns[k])
    ensures r.0 == cheapest ==> r.1 == next
    decreases |ns| - i
  {
    if i == |ns| then (cheapest, next)
    else
      var c := StepCost(grid, v, ns[i]);
      if c < cheapest then Cheapest(grid, v, ns, i + 1, c, ns[i])
      else Cheapest(grid, v, ns, i + 1, cheapest, next)
  }

  /** When the scan improves on its starting value, the result is the step cost of the first
    * candidate that reaches it. */
  lemma {:induction false} CheapestWitness(grid: Grid, v: Pos, ns: seq<Pos>, i: nat, cheapest: real, next: Pos)
    requires grid.Valid() && i <= |ns| && forall u :: u in ns ==> grid.InBounds(u)
    ensures var r := Cheapest(grid, v, ns, i, cheapest, next);
            r.0 < cheapest ==>
              exists k :: i <= k < |ns| && ns[k] == r.1 && r.0 == StepCost(grid, v, ns[k]) &&
                          forall j :: i <= j < k ==> r.0 < StepCost(grid, v, ns[j])
    decreases |ns| - i
  {
    if i < |ns| {
      var c := StepCost(grid, v, ns[i]);
      var lower := if c < cheapest then c else cheapest;
      var nextLower := if c < cheapest then ns[i] else next;
      var r := Cheapest(grid, v, ns, i + 1, lower, nextLower);
      CheapestWitness(grid, v, ns, i + 1, lower, nextLower);
      if r.0 < lower {
        var k :| i + 1 <= k < |ns| && ns[k] == r.1 && r.0 == StepCost(grid, v, ns[k]) &&
                 forall j :: i + 1 <= j < k ==> r.0 < StepCost(grid, v, ns[j]);
        assert forall j :: i <= j < k ==> r.0 < StepCost(grid, v, ns[j]);
      } else if r.0 < cheapest {
        assert ns[i] == r.1;
      }
    }
  }

  /** The lookahead of `v` that `PathPlanner::getMinRhs` computes: the least step cost over its
    * neighbours, capped at the infinite sentinel. */
  function MinRhs(grid: Grid, v: Pos): (r: real)
    requires grid.Valid()
    ensures r <= InfinityCost
    ensures forall u :: u in grid.Neighbors(v) ==> r <= StepCost(grid, v, u)
    ensures r < InfinityCost ==> exists u :: u in grid.Neighbors(v) && r == StepCost(grid, v, u)
    ensures grid.NonNegative() ==> TransitionalCost <= r
  {
    var ns := grid.Neighbors(v);
    var r := Cheapest(grid, v, ns, 0, InfinityCost, v);
    CheapestWitness(grid, v, ns, 0, InfinityCost, v);
    assert forall u :: u in ns ==> r.0 <= StepCost(grid, v, u) by {
      forall u | u in ns ensures r.0 <= StepCost(grid, v, u) {
        var k :| 0 <= k < |ns| && ns[k] == u;
      }
    }
    r.0
  }

  /** The move `PathPlanner::getNextPotision` chooses: stay at `c` unless some neighbour's step
    * cost is below the sentinel; then move to the first neighbour, in row-major order, whose step
    * cost is the lookahead of `c`. */
  function NextPosition(grid: Grid, c: Pos): (r: Pos)
    requires grid.Valid()
    ensures (forall u :: u in grid.Neighbors(c) ==> InfinityCost <= StepCost(grid, c, u)) ==> r == c
    ensures (exists u :: u in grid.Neighbors(c) && StepCost(grid, c, u) < InfinityCost) ==>
              r in grid.Neighbors(c) && StepCost(grid, c, r) == MinRhs(grid, c) &&
              forall u :: u in grid.Neighbors(c) && RowMajorLess(u, r) ==> StepCost(grid, c, r) < StepCost(grid, c, u)
  {
    var ns := grid.Neighbors(c);
    var r := Cheapest(grid, c, ns, 0, InfinityCost, c);
    CheapestIsFirstMinimiser(grid, c, ns, r);
    assert MinRhs(grid, c) == r.0;
    r.1
  }

  /** On a row-major sorted scan, the candidate that `Cheapest` settles on is strictly cheaper than
    * every candidate before it in row-major order. */
  lemma CheapestIsFirstMinimiser(grid: Grid, c: Pos, ns: seq<Pos>, r: (real, Pos))
    requires grid.Valid() && (forall u :: u in ns ==> grid.InBounds(u)) && RowMajorSorted(ns)
    requires r == Cheapest(grid, c, ns, 0, InfinityCost, c)
    ensures (forall u :: u in ns ==> InfinityCost <= StepCost(grid, c, u)) ==> r.1 == c
    ensures (exists u :: u in ns && StepCost(grid, c, u) < InfinityCost) ==>
              r.1 in ns && r.0 == StepCost(grid, c, r.1) &&
              forall w :: w in ns && RowMajorLess(w, r.1) ==> r.0 < StepCost(grid, c, w)
  {
    CheapestWitness(grid, c, ns, 0, InfinityCost, c);
    if r.0 < InfinityCost {
      var k :| 0 <= k < |ns| && ns[k] == r.1 && r.0 == StepCost(grid, c, ns[k]) &&
               forall j :: 0 <= j < k ==> r.0 < StepCost(grid, c, ns[j]);
      assert r.1 in ns;
      forall w | w in ns && RowMajorLess(w, r.1) ensures r.0 < StepCost(grid, c, w) {
        var j :| 0 <= j < |ns| && ns[j] == w;
        SortedIndexOrder(ns, j, k);
      }
    } else {
      assert r.1 == c;
      forall u | u in ns ensures InfinityCost <= StepCost(grid, c, u) {
        var j :| 0 <= j < |ns| && ns[j] == u;
      }
    }
  }

  /** Two scans over candidates with the same step costs agree. */
  lemma {:induction false} CheapestSame(g1: Grid, g2: Grid, v: Pos, ns: seq<Pos>, i: nat, cheapest: real, next: Pos)
    requires g1.Valid() && g2.Valid() && i <= |ns|
    requires forall u :: u in ns ==> g1.InBounds(u) && g2.InBounds(u) && StepCost(g1, v, u) == StepCost(g2, v, u)
    ensures Cheapest(g1, v, ns, i, cheapest, next) == Cheapest(g2, v, ns, i, cheapest, next)
    decreases |ns| - i
  {
    if i < |ns| {
      assert ns[i] in ns;
      var c := StepCost(g1, v, ns[i]);
      if c < cheapest {
        CheapestSame(g1, g2, v, ns, i + 1, c, ns[i]);
      } else {
        CheapestSame(g1, g2, v, ns, i + 1, cheapest, next);
      }
    }
  }

  /** The neighbours of `p` and its lookahead depend only on the squares around `p`: on their
    * statuses, and on the `g` of those that are not obstacles. */
  lemma LookaheadIsLocal(g1: Grid, g2: Grid, p: Pos)
    requires g1.Valid() && g2.Valid() && g1.height == g2.height && g1.width == g2.width
    requires forall q :: Adjacent(p, q) && g1.InBounds(q) ==>
               g1.Status(q) == g2.Status(q) && (g1.Status(q) != ObstacleMark ==> g1.G(q) == g2.G(q))
    ensures g1.Neighbors(p) == g2.Neighbors(p)
    ensures MinRhs(g1, p) == MinRhs(g2, p)
  {
    var ns1, ns2 := g1.Neighbors(p), g2.Neighbors(p);
    forall q ensures q in ns1 <==> q in ns2 {
      if Adjacent(p, q) && g1.InBounds(q) {
        assert g1.Availability(q) == g2.Availability(q);
      }
    }
    SortedByMembers(ns1, ns2);
    forall u | u in ns1 ensures g1.InBounds(u) && g2.InBounds(u) && StepCost(g1, p, u) == StepCost(g2, p, u) {
      assert g1.ComputeCost(p, u) == g2.ComputeCost(p, u);
    }
    CheapestSame(g1, g2, p, ns1, 0, InfinityCost, p);
  }

  /** Every traversable square other than the goal has `rhs` equal to its lookahead. */
  ghost predicate LookaheadHolds(grid: Grid, goal: Pos, p: Pos)
    requires grid.Valid()
  {
    grid.InBounds(p) && p != goal && grid.Availability(p) ==> grid.Rhs(p) == MinRhs(grid, p)
  }

  /** A square whose `g` and `rhs` differ is in the open list. */
  ghost predicate Queued(grid: Grid, entries: seq<Entry>, p: Pos)
    requires grid.Valid()
  {
    grid.InBounds(p) && grid.G(p) != grid.Rhs(p) ==> Contains(entries, p)
  }

  /** The bookkeeping every operation keeps: a 5 x 5 grid with non-negative estimates, the goal
    * in it with `rhs = 0` and never hidden, and an open list of in-bounds entries with
    * non-negative keys, at most one per square. */
  ghost predicate WellFormed(grid: Grid, goal: Pos, entries: seq<Entry>) {
    grid.Valid() && grid.height == Size && grid.width == Size && grid.NonNegative() &&
    grid.InBounds(goal) && grid.Rhs(goal) == 0.0 && grid.Status(goal) != HiddenMark &&
    (forall e :: e in entries ==> grid.InBounds(e.pos) && 0.0 <= e.key) &&
    (forall p :: grid.InBounds(p) ==> CountAt(entries, p) <= 1)
  }

  /** The planner's invariant, except that the lookahead may be stale at the squares in `stale`
    * and the squares in `unqueued` may be inconsistent without being queued. */
  ghost predicate InvariantExcept(grid: Grid, goal: Pos, entries: seq<Entry>, stale: set<Pos>, unqueued: set<Pos>) {
    WellFormed(grid, goal, entries) &&
    (forall p :: p !in stale ==> LookaheadHolds(grid, goal, p)) &&
    (forall p :: p !in unqueued ==> Queued(grid, entries, p))
  }

  ghost predicate Invariant(grid: Grid, goal: Pos, entries: seq<Entry>) {
    InvariantExcept(grid, goal, entries, {}, {})
  }

  /** Estimates with the same statuses and `g` everywhere have the same neighbours and lookaheads. */
  lemma LookaheadUnchanged(g1: Grid, g2: Grid)
    requires g1.Valid() && g2.Valid() && g1.height == g2.height && g1.width == g2.width
    requires forall q :: g1.InBounds(q) ==> g1.Status(q) == g2.Status(q) && g1.G(q) == g2.G(q)
    ensures forall p :: g1.Neighbors(p) == g2.Neighbors(p) && MinRhs(g1, p) == MinRhs(g2, p)
  {
    forall p ensures g1.Neighbors(p) == g2.Neighbors(p) && MinRhs(g1, p) == MinRhs(g2, p) {
      LookaheadIsLocal(g1, g2, p);
    }
  }

  /** Taking out the entry at `v` (if any) and appending `tail`, all at `v`, changes the counts at
    * `v` only. */
  lemma RequeueCounts(entries: seq<Entry>, v: Pos, tail: seq<Entry>, result: seq<Entry>)
    requires CountAt(entries, v) <= 1 && |tail| <= 1 && forall e :: e in tail ==> e.pos == v
    requires result == (if Contains(entries, v) then RemoveAt(entries, FirstAt(entries, v)) else entries) + tail
    ensures forall p :: p != v ==> CountAt(result, p) == CountAt(entries, p)
    ensures forall p :: p != v ==> (Contains(result, p) <==> Contains(entries, p))
    ensures CountAt(result, v) == |tail| && (Contains(result, v) <==> tail != [])
    ensures forall e :: e in result ==> e in entries || e in tail
  {
    var base := if Contains(entries, v) then RemoveAt(entries, FirstAt(entries, v)) else entries;
    CountAtContains(entries, v);
    forall p ensures CountAt(base, p) == CountAt(entries, p) - (if p == v then CountAt(entries, v) else 0) {
      if Contains(entries, v) {
        CountAtRemoveAt(entries, FirstAt(entries, v), p);
      }
    }
    forall p ensures CountAt(result, p) == CountAt(base, p) + (if p == v then |tail| else 0) {
      if tail != [] {
        CountAtAppend(base, tail[0], p);
        assert tail == [tail[0]];
      } else {
        assert result == base;
      }
    }
    forall p ensures Contains(result, p) <==> CountAt(result, p) > 0 {
      CountAtContains(result, p);
    }
    forall p ensures Contains(entries, p) <==> CountAt(entries, p) > 0 {
      CountAtContains(entries, p);
    }
    forall e | e in result ensures e in entries || e in tail {
      if e in base && Contains(entries, v) {
        var i :| 0 <= i < |base| && base[i] == e;
        var k := FirstAt(entries, v);
        if i < k {
          assert entries[i] == e;
        } else {
          assert entries[i + 1] == e;
        }
      }
    }
  }

  /** After the same requeueing, the entries at `v` are those of `tail`, and the entries
    * elsewhere are the old ones. */
  lemma RequeueMembers(entries: seq<Entry>, v: Pos, tail: seq<Entry>, result: seq<Entry>)
    requires CountAt(entries, v) <= 1 && forall e :: e in tail ==> e.pos == v
    requires result == (if Contains(entries, v) then RemoveAt(entries, FirstAt(entries, v)) else entries) + tail
    ensures forall e: Entry :: e in result && e.pos == v ==> e in tail
    ensures forall e: Entry :: e.pos != v ==> (e in result <==> e in entries)
  {
    var base := if Contains(entries, v) then RemoveAt(entries, FirstAt(entries, v)) else entries;
    CountAtContains(entries, v);
    if Contains(entries, v) {
      CountAtRemoveAt(entries, FirstAt(entries, v), v);
      RemoveAtMembers(entries, FirstAt(entries, v));
    }
    CountAtContains(base, v);
    assert forall e: Entry :: e in base ==> e.pos != v;
  }

  /** `u` is queued exactly when its `g` and `rhs` differ, and every entry at `u` carries its key. */
  ghost predicate QueuedExactly(grid: Grid, entries: seq<Entry>, u: Pos)
    requires grid.Valid()
  {
    grid.InBounds(u) ==>
      (Contains(entries, u) <==> grid.G(u) != grid.Rhs(u)) &&
      (forall e :: e in entries && e.pos == u ==> e.key == grid.Key(u))
  }

  /** `QueuedExactly` at `u` survives any change that keeps the estimates of `u` and the entries at `u`. */
  lemma QueuedExactlyFrame(g0: Grid, g1: Grid, e0: seq<Entry>, e1: seq<Entry>, u: Pos)
    requires g0.Valid() && g1.Valid() && QueuedExactly(g0, e0, u) && g0.InBounds(u) && g1.InBounds(u)
    requires g0.G(u) == g1.G(u) && g0.Rhs(u) == g1.Rhs(u)
    requires forall e: Entry :: e.pos == u ==> (e in e1 <==> e in e0)
    ensures QueuedExactly(g1, e1, u)
  {
    if Contains(e0, u) {
      var i :| 0 <= i < |e0| && e0[i].pos == u;
      assert e0[i] in e1;
    }
    if Contains(e1, u) {
      var i :| 0 <= i < |e1| && e1[i].pos == u;
      assert e1[i] in e0;
    }
  }

  /** One more square `vertices[j]` updated after those before it: the facts `UpdateVertices`
    * keeps for the squares updated so far extend to `vertices[..j + 1]`. */
  lemma UpdatedOneMore(g0: Grid, g1: Grid, g2: Grid, e0: seq<Entry>, e1: seq<Entry>, e2: seq<Entry>,
                       vertices: seq<Pos>, j: nat)
    requires j < |vertices|
    requires g0.Valid() && g1.Valid() && g2.Valid() && g0.height == g1.height == g2.height && g0.width == g1.width == g2.width
    requires forall p :: g1.InBounds(p) && p != vertices[j] ==> g2.At(p) == g1.At(p)
    requires forall p :: g1.InBounds(p) && p !in vertices[..j] ==> g1.Rhs(p) == g0.Rhs(p)
    requires forall u :: u in vertices[..j] ==> QueuedExactly(g1, e1, u)
    requires forall e: Entry :: e.pos !in vertices[..j] ==> (e in e1 <==> e in e0)
    requires QueuedExactly(g2, e2, vertices[j])
    requires forall e: Entry :: e.pos != vertices[j] ==> (e in e2 <==> e in e1)
    ensures forall p :: g2.InBounds(p) && p !in vertices[..j + 1] ==> g2.Rhs(p) == g0.Rhs(p)
    ensures forall u :: u in vertices[..j + 1] ==> QueuedExactly(g2, e2, u)
    ensures forall e: Entry :: e.pos !in vertices[..j + 1] ==> (e in e2 <==> e in e0)
  {
    var v, done := vertices[j], vertices[..j];
    assert vertices[..j + 1] == done + [v];
    forall u | u in done + [v] ensures QueuedExactly(g2, e2, u) {
      if u != v && g1.InBounds(u) {
        assert u in done;
        QueuedExactlyFrame(g1, g2, e1, e2, u);
      }
    }
  }

  /** `updateVertex`'s effect on the invariant: `v` gets its lookahead and is queued exactly when
    * inconsistent, so neither exception applies to it any more; nothing else changes. */
  lemma UpdateVertexKeeps(g0: Grid, g1: Grid, goal: Pos, entries: seq<Entry>, result: seq<Entry>, v: Pos,
                          stale: set<Pos>, unqueued: set<Pos>)
    requires InvariantExcept(g0, goal, entries, stale, unqueued) && g0.InBounds(v)
    requires g1 == if v != goal then g0.Set(v, g0.At(v).UpdateRhs(MinRhs(g0, v))) else g0
    requires result == (if Contains(entries, v) then RemoveAt(entries, FirstAt(entries, v)) else entries) +
                       (if g1.G(v) != g1.Rhs(v) then [Entry(g1.Key(v), v)] else [])
    ensures Contains(result, v) <==> g1.G(v) != g1.Rhs(v)
    ensures QueuedExactly(g1, result, v)
    ensures forall p :: p != v ==> CountAt(result, p) == CountAt(entries, p)
    ensures forall e: Entry :: e.pos != v ==> (e in result <==> e in entries)
    ensures InvariantExcept(g1, goal, result, stale - {v}, unqueued - {v})
    ensures SameCosts(g0, g1)
  {
    var tail := if g1.G(v) != g1.Rhs(v) then [Entry(g1.Key(v), v)] else [];
    RequeueCounts(entries, v, tail, result);
    RequeueMembers(entries, v, tail, result);
    UpdateVertexWellFormed(g0, g1, goal, entries, result, v, tail);
    UpdateVertexLookahead(g0, g1, goal, v, stale);
    forall p | p !in unqueued - {v} ensures Queued(g1, result, p) {
      if p != v {
        assert Queued(g0, entries, p);
        if g1.InBounds(p) {
          assert g1.At(p) == g0.At(p);
        }
      }
    }
  }

  lemma UpdateVertexWellFormed(g0: Grid, g1: Grid, goal: Pos, entries: seq<Entry>, result: seq<Entry>, v: Pos,
                               tail: seq<Entry>)
    requires WellFormed(g0, goal, entries) && g0.InBounds(v)
    requires g1 == if v != goal then g0.Set(v, g0.At(v).UpdateRhs(MinRhs(g0, v))) else g0
    requires tail == if g1.G(v) != g1.Rhs(v) then [Entry(g1.Key(v), v)] else []
    requires forall p :: p != v ==> CountAt(result, p) == CountAt(entries, p)
    requires CountAt(result, v) == |tail|
    requires forall e :: e in result ==> e in entries || e in tail
    ensures WellFormed(g1, goal, result)
  {
    assert g1.NonNegative() by {
      forall p | g1.InBounds(p) ensures 0.0 <= g1.G(p) && 0.0 <= g1.Rhs(p) {
        assert g0.InBounds(p);
      }
    }
  }

  lemma UpdateVertexLookahead(g0: Grid, g1: Grid, goal: Pos, v: Pos, stale: set<Pos>)
    requires g0.Valid() && g0.InBounds(v) && forall p :: p !in stale ==> LookaheadHolds(g0, goal, p)
    requires g1 == if v != goal then g0.Set(v, g0.At(v).UpdateRhs(MinRhs(g0, v))) else g0
    ensures forall p :: p !in stale - {v} ==> LookaheadHolds(g1, goal, p)
  {
    LookaheadUnchanged(g0, g1);
    forall p | p !in stale - {v} ensures LookaheadHolds(g1, goal, p) {
      if p != v {
        assert LookaheadHolds(g0, goal, p);
        if g1.InBounds(p) {
          assert g1.At(p) == g0.At(p);
          assert g1.Availability(p) == g0.Availability(p);
        }
      }
    }
  }

  /** Changing the `g` of `node` leaves every lookahead correct except at the traversable squares
    * around `node`. */
  lemma SetGLookahead(g0: Grid, g1: Grid, goal: Pos, node: Pos, x: real)
    requires g0.Valid() && g0.InBounds(node) && forall p :: LookaheadHolds(g0, goal, p)
    requires g1 == g0.Set(node, g0.At(node).UpdateG(x))
    ensures forall p :: p !in (set u | u in g1.Neighbors(node)) ==> LookaheadHolds(g1, goal, p)
  {
    var around := g1.Neighbors(node);
    forall p | p !in (set u | u in around) ensures LookaheadHolds(g1, goal, p) {
      assert LookaheadHolds(g0, goal, p);
      if g1.InBounds(p) && p != goal && g1.Availability(p) {
        assert g1.At(p).status == g0.At(p).status && g1.At(p).rhs == g0.At(p).rhs;
        assert Adjacent(node, p) ==> p in around;
        assert !Adjacent(p, node);
        LookaheadIsLocal(g0, g1, p);
      }
    }
  }

  /** `detectHidden` turns a hidden square into an obstacle: the lookahead goes stale exactly at
    * the traversable squares around it. */
  lemma RevealKeeps(g0: Grid, g1: Grid, goal: Pos, entries: seq<Entry>, cand: Pos)
    requires Invariant(g0, goal, entries) && g0.InBounds(cand) && g0.Status(cand) == HiddenMark
    requires g1 == g0.Set(cand, g0.At(cand).UpdateStatus(ObstacleMark))
    ensures InvariantExcept(g1, goal, entries, set u | u in g1.Neighbors(cand), {})
  {
    assert g1.NonNegative() by {
      forall p | g1.InBounds(p) ensures 0.0 <= g1.G(p) && 0.0 <= g1.Rhs(p) {
        assert g0.InBounds(p);
      }
    }
    var around := g1.Neighbors(cand);
    forall p | p !in (set u | u in around) ensures LookaheadHolds(g1, goal, p) {
      assert LookaheadHolds(g0, goal, p);
      if g1.InBounds(p) && p != goal && g1.Availability(p) {
        assert p != cand;
        assert g1.At(p) == g0.At(p);
        assert Adjacent(cand, p) ==> p in around;
        assert !Adjacent(p, cand);
        LookaheadIsLocal(g0, g1, p);
      }
    }
    forall p ensures Queued(g1, entries, p) {
      assert Queued(g0, entries, p);
      if g1.InBounds(p) {
        assert g1.At(p).g == g0.At(p).g && g1.At(p).rhs == g0.At(p).rhs;
      }
    }
  }

  /** The revealed obstacle then gets `rhs = g = 100`: being an obstacle, it is no square's
    * neighbour, so no lookahead changes, and it is consistent. */
  lemma ResetObstacleKeeps(g0: Grid, g1: Grid, g2: Grid, goal: Pos, entries: seq<Entry>, cand: Pos)
    requires Invariant(g0, goal, entries) && g0.InBounds(cand) && g0.Status(cand) == ObstacleMark && cand != goal
    requires g1 == g0.Set(cand, g0.At(cand).UpdateRhs(InfinityCost))
    requires g2 == g1.Set(cand, g1.At(cand).UpdateG(InfinityCost))
    ensures Invariant(g2, goal, entries)
  {
    forall p | g0.InBounds(p) ensures g2.At(p) == if p == cand then g0.At(cand).UpdateRhs(InfinityCost).UpdateG(InfinityCost) else g0.At(p) {
    }
    assert g2.NonNegative() by {
      forall p | g2.InBounds(p) ensures 0.0 <= g2.G(p) && 0.0 <= g2.Rhs(p) {
        assert g0.InBounds(p);
      }
    }
    forall p ensures LookaheadHolds(g2, goal, p) {
      assert LookaheadHolds(g0, goal, p);
      if g2.InBounds(p) && p != goal && g2.Availability(p) {
        LookaheadIsLocal(g0, g2, p);
      }
    }
    forall p ensures Queued(g2, entries, p) {
      assert Queued(g0, entries, p);
    }
  }

  /** `g` is `g0` after marking the hidden `cand` as an obstacle and updating the squares around
    * it: only the status of `cand` differs among statuses and `g`, every obstacle of `g0` keeps
    * its `rhs`, and so does every square other than `cand` and the traversable squares around it. */
  ghost predicate MarkedOne(g0: Grid, g: Grid, cand: Pos) {
    g0.Valid() && g0.InBounds(cand) && g0.Status(cand) == HiddenMark &&
    SameCosts(g0.Set(cand, g0.At(cand).UpdateStatus(ObstacleMark)), g) &&
    (forall p :: g0.InBounds(p) && g0.Status(p) == ObstacleMark ==> g.Rhs(p) == g0.Rhs(p)) &&
    (forall p :: g0.InBounds(p) && p != cand && !(Adjacent(cand, p) && g0.Availability(p)) ==> g.Rhs(p) == g0.Rhs(p))
  }

  /** What the marking steps of `Reveal` leave, from the grids in between. */
  lemma MarkFrame(g0: Grid, g1: Grid, g2: Grid, g3: Grid, cand: Pos, around: seq<Pos>)
    requires g0.Valid() && g0.InBounds(cand) && g0.Status(cand) == HiddenMark
    requires g1 == g0.Set(cand, g0.At(cand).UpdateStatus(ObstacleMark))
    requires SameCosts(g1, g2) && forall p :: g2.InBounds(p) && p != cand ==> g2.Rhs(p) == g1.Rhs(p)
    requires around == g2.Neighbors(cand)
    requires SameCosts(g2, g3) && forall p :: g3.InBounds(p) && p !in around ==> g3.Rhs(p) == g2.Rhs(p)
    ensures MarkedOne(g0, g3, cand)
  {
    forall p | g1.InBounds(p) ensures g1.G(p) == g3.G(p) && g1.Status(p) == g3.Status(p) {
      assert g1.G(p) == g2.G(p);
    }
    assert g1.Status(cand) == ObstacleMark;
    forall p | g0.InBounds(p) && p != cand && !(Adjacent(cand, p) && g0.Availability(p)) ensures g3.Rhs(p) == g0.Rhs(p) {
      assert g1.At(p) == g0.At(p);
      assert g2.Availability(p) == g0.Availability(p);
      assert p !in around;
    }
  }

  /** The marking steps of `Reveal`, from the grids and open lists in between: `g1` has the new
    * obstacle, `g2`/`e2` its update, `g3`/`e3` the updates of the squares around it. */
  lemma MarkSettles(g0: Grid, g1: Grid, g2: Grid, g3: Grid, e0: seq<Entry>, e2: seq<Entry>, e3: seq<Entry>,
                    cand: Pos, around: seq<Pos>)
    requires g0.Valid() && g0.InBounds(cand) && g0.Status(cand) == HiddenMark
    requires g1 == g0.Set(cand, g0.At(cand).UpdateStatus(ObstacleMark))
    requires g2 == g1.Set(cand, g1.At(cand).UpdateRhs(MinRhs(g1, cand)))
    requires QueuedExactly(g2, e2, cand) && forall e: Entry :: e.pos != cand ==> (e in e2 <==> e in e0)
    requires around == g2.Neighbors(cand)
    requires SameCosts(g2, g3) && forall p :: g3.InBounds(p) && p !in around ==> g3.Rhs(p) == g2.Rhs(p)
    requires forall u :: u in around ==> QueuedExactly(g3, e3, u)
    requires forall e: Entry :: e.pos !in around ==> (e in e3 <==> e in e2)
    ensures MarkedOne(g0, g3, cand) && g3.Rhs(cand) == MinRhs(g0, cand)
    ensures SettledAround(g0, e0, g3, e3, cand)
  {
    MarkUpdateFrame(g0, g1, g2, cand);
    MarkFrame(g0, g1, g2, g3, cand, around);
    SettleFrame(g0, g2, g3, e0, e2, e3, cand, around);
  }

  /** Marking `cand` as an obstacle and updating it changes that square only; its new `rhs` is its
    * lookahead in the grid before the marking. */
  lemma MarkUpdateFrame(g0: Grid, g1: Grid, g2: Grid, cand: Pos)
    requires g0.Valid() && g0.InBounds(cand)
    requires g1 == g0.Set(cand, g0.At(cand).UpdateStatus(ObstacleMark))
    requires g2 == g1.Set(cand, g1.At(cand).UpdateRhs(MinRhs(g1, cand)))
    ensures SameCosts(g1, g2) && g2.Rhs(cand) == MinRhs(g0, cand)
    ensures forall p :: g0.InBounds(p) && p != cand ==> g2.At(p) == g0.At(p)
  {
    forall p | g0.InBounds(p) && p != cand ensures g2.At(p) == g0.At(p) {
      assert g1.At(p) == g0.At(p);
    }
    LookaheadIsLocal(g0, g1, cand);
  }

  /** Resetting `rhs` and `g` of the marked square completes the reveal. */
  lemma ResetFrame(g0: Grid, g3: Grid, g4: Grid, g5: Grid, cand: Pos)
    requires MarkedOne(g0, g3, cand)
    requires g4 == g3.Set(cand, g3.At(cand).UpdateRhs(InfinityCost))
    requires g5 == g4.Set(cand, g4.At(cand).UpdateG(InfinityCost))
    ensures RevealedOne(g0, g5, cand)
  {
    var g1 := g0.Set(cand, g0.At(cand).UpdateStatus(ObstacleMark));
    forall p | g0.InBounds(p)
      ensures g5.Status(p) == (if p == cand then ObstacleMark else g0.Status(p))
      ensures g5.G(p) == (if p == cand then InfinityCost else g0.G(p))
    {
      assert g1.G(p) == g3.G(p) && g1.Status(p) == g3.Status(p);
    }
    forall p | g0.InBounds(p) && g0.Status(p) == ObstacleMark ensures g5.Rhs(p) == g0.Rhs(p) {
      assert p != cand;
    }
    forall p | g0.InBounds(p) && p != cand && !(Adjacent(cand, p) && g0.Availability(p)) ensures g5.Rhs(p) == g0.Rhs(p) {
      assert g5.At(p) == g3.At(p);
    }
  }

  /** `g` is `g0` after revealing `cand`: it alone turns into an obstacle with `rhs = g = 100`, no
    * other status or `g` differs, and the `rhs` of every obstacle of `g0` is kept, as is that of
    * every square other than `cand` and the traversable squares around it. */
  ghost predicate RevealedOne(g0: Grid, g: Grid, cand: Pos) {
    g0.Valid() && g.Valid() && g.height == g0.height && g.width == g0.width && g0.InBounds(cand) &&
    (forall p :: g0.InBounds(p) ==>
       g.Status(p) == (if p == cand then ObstacleMark else g0.Status(p)) &&
       g.G(p) == (if p == cand then InfinityCost else g0.G(p))) &&
    g.Rhs(cand) == InfinityCost &&
    (forall p :: g0.InBounds(p) && g0.Status(p) == ObstacleMark ==> g.Rhs(p) == g0.Rhs(p)) &&
    (forall p :: g0.InBounds(p) && p != cand && !(Adjacent(cand, p) && g0.Availability(p)) ==> g.Rhs(p) == g0.Rhs(p))
  }

  /** The open list after revealing `cand` (from `g0` with open list `e0`): the traversable squares
    * around `cand` are queued exactly when inconsistent, every square other than those and `cand`
    * keeps its entries, and `cand` is queued as `updateVertex` left it before the reset: when its
    * old `g` differs from its lookahead, with the lesser of the two as key. */
  ghost predicate RevealQueued(g0: Grid, e0: seq<Entry>, g: Grid, entries: seq<Entry>, cand: Pos)
    requires g0.Valid() && g.Valid() && g0.InBounds(cand)
  {
    (forall p :: Adjacent(cand, p) && g.Availability(p) ==> QueuedExactly(g, entries, p)) &&
    (forall e: Entry :: e.pos != cand && !(Adjacent(cand, e.pos) && g0.Availability(e.pos)) ==> (e in entries <==> e in e0)) &&
    var old_g, r := g0.G(cand), MinRhs(g0, cand);
    (Contains(entries, cand) <==> old_g != r) &&
    (forall e: Entry :: e in entries && e.pos == cand ==> e.key == (if old_g <= r then old_g else r))
  }

  /** Resetting `rhs` and `g` of the marked square leaves the open list as the marking steps left it. */
  lemma ResetQueue(g0: Grid, e0: seq<Entry>, g3: Grid, g5: Grid, entries: seq<Entry>, cand: Pos)
    requires MarkedOne(g0, g3, cand) && g3.Rhs(cand) == MinRhs(g0, cand)
    requires SettledAround(g0, e0, g3, entries, cand)
    requires g5 == g3.Set(cand, g3.At(cand).UpdateRhs(InfinityCost)).Set(cand, g3.At(cand).UpdateRhs(InfinityCost).UpdateG(InfinityCost))
    ensures RevealQueued(g0, e0, g5, entries, cand)
  {
    var g1 := g0.Set(cand, g0.At(cand).UpdateStatus(ObstacleMark));
    assert g3.G(cand) == g1.G(cand) == g0.G(cand);
    forall p | Adjacent(cand, p) && g5.Availability(p) ensures QueuedExactly(g5, entries, p) {
      assert g5.At(p) == g3.At(p);
      assert g3.Availability(p);
      QueuedExactlyFrame(g3, g5, entries, entries, p);
    }
  }

  /** A hidden square `p` among the neighbours of `c` that `detectHidden` reveals. */
  ghost predicate Revealed(grid: Grid, c: Pos, p: Pos)
    requires grid.Valid()
  {
    p in grid.Neighbors(c) && grid.Status(p) == HiddenMark
  }

  /** `u` is a square of `done` that was hidden in `g0`: one that the scan has revealed. */
  ghost predicate RevealedIn(g0: Grid, done: seq<Pos>, u: Pos)
    requires g0.Valid()
  {
    u in done && g0.InBounds(u) && g0.Status(u) == HiddenMark
  }

  /** `p` is a square the scan has revealed, or one next to it. */
  ghost predicate NearRevealed(g0: Grid, done: seq<Pos>, p: Pos)
    requires g0.Valid()
  {
    exists u :: RevealedIn(g0, done, u) && (u == p || Adjacent(u, p))
  }

  /** One more scanned candidate adds itself and the squares next to it, if it was hidden. */
  lemma NearRevealedSnoc(g0: Grid, done: seq<Pos>, cand: Pos)
    requires g0.Valid()
    ensures forall p :: RevealedIn(g0, done + [cand], p) <==>
              RevealedIn(g0, done, p) || (p == cand && g0.InBounds(cand) && g0.Status(cand) == HiddenMark)
    ensures forall p :: NearRevealed(g0, done + [cand], p) <==>
              NearRevealed(g0, done, p) ||
              (g0.InBounds(cand) && g0.Status(cand) == HiddenMark && (cand == p || Adjacent(cand, p)))
  {
    forall p ensures NearRevealed(g0, done + [cand], p) <==>
                       NearRevealed(g0, done, p) ||
                       (g0.InBounds(cand) && g0.Status(cand) == HiddenMark && (cand == p || Adjacent(cand, p)))
    {
      if NearRevealed(g0, done + [cand], p) {
        var u :| RevealedIn(g0, done + [cand], u) && (u == p || Adjacent(u, p));
        if u != cand {
          assert RevealedIn(g0, done, u);
        }
      }
      if NearRevealed(g0, done, p) {
        var u :| RevealedIn(g0, done, u) && (u == p || Adjacent(u, p));
        assert RevealedIn(g0, done + [cand], u);
      }
      if g0.InBounds(cand) && g0.Status(cand) == HiddenMark && (cand == p || Adjacent(cand, p)) {
        assert RevealedIn(g0, done + [cand], cand);
      }
    }
  }

  /** The squares of `done` that were hidden in `g0` are obstacles with `rhs = g = 100` in `grid`;
    * every other status and `g` is as in `g0`. Every obstacle of `g0` keeps its `rhs`, and so
    * does every square that is neither revealed nor next to a revealed square. */
  ghost predicate Progress(g0: Grid, grid: Grid, done: seq<Pos>) {
    g0.Valid() && grid.Valid() && grid.height == g0.height && grid.width == g0.width &&
    (forall p :: g0.InBounds(p) ==>
       grid.Status(p) == (if p in done && g0.Status(p) == HiddenMark then ObstacleMark else g0.Status(p)) &&
       grid.G(p) == (if p in done && g0.Status(p) == HiddenMark then InfinityCost else g0.G(p))) &&
    (forall p :: g0.InBounds(p) && p in done && g0.Status(p) == HiddenMark ==> grid.Rhs(p) == InfinityCost) &&
    (forall p :: g0.InBounds(p) && g0.Status(p) == ObstacleMark ==> grid.Rhs(p) == g0.Rhs(p)) &&
    (forall p :: g0.InBounds(p) && !NearRevealed(g0, done, p) ==> grid.Rhs(p) == g0.Rhs(p))
  }

  /** The open list during the scan (from `e0` at its start): an unrevealed square keeps its
    * entries unless it is traversable and next to a revealed square, and such a square is queued
    * exactly when inconsistent. */
  ghost predicate QueueProgress(g0: Grid, e0: seq<Entry>, grid: Grid, entries: seq<Entry>, done: seq<Pos>)
    requires g0.Valid() && grid.Valid()
  {
    (forall e: Entry :: !RevealedIn(g0, done, e.pos) && !(NearRevealed(g0, done, e.pos) && g0.Availability(e.pos)) ==>
       (e in entries <==> e in e0)) &&
    (forall p :: grid.Availability(p) && !RevealedIn(g0, done, p) && NearRevealed(g0, done, p) ==>
       QueuedExactly(grid, entries, p))
  }

  /** One revealed candidate extends `QueueProgress` by one square. */
  lemma QueueRevealStep(g0: Grid, e0: seq<Entry>, before: Grid, eb: seq<Entry>, after: Grid, ea: seq<Entry>,
                        cand: Pos, done: seq<Pos>)
    requires Progress(g0, before, done) && QueueProgress(g0, e0, before, eb, done)
    requires g0.InBounds(cand) && cand !in done && before.Status(cand) == HiddenMark
    requires RevealedOne(before, after, cand) && RevealQueued(before, eb, after, ea, cand)
    ensures QueueProgress(g0, e0, after, ea, done + [cand])
  {
    NearRevealedSnoc(g0, done, cand);
    assert g0.Status(cand) == HiddenMark;
    forall p | after.Availability(p) && !RevealedIn(g0, done + [cand], p) && NearRevealed(g0, done + [cand], p)
      ensures QueuedExactly(after, ea, p)
    {
      if !Adjacent(cand, p) {
        assert p != cand && NearRevealed(g0, done, p);
        assert before.At(p) == after.At(p) by {
          assert before.Availability(p) == after.Availability(p);
        }
        QueuedExactlyFrame(before, after, eb, ea, p);
      }
    }
  }

  /** One revealed candidate extends `Progress` by one square. */
  lemma RevealStep(g0: Grid, before: Grid, after: Grid, cand: Pos, done: seq<Pos>)
    requires Progress(g0, before, done)
    requires g0.InBounds(cand) && cand !in done && before.Status(cand) == HiddenMark
    requires RevealedOne(before, after, cand)
    ensures g0.Status(cand) == HiddenMark && Progress(g0, after, done + [cand])
  {
    forall p | g0.InBounds(p)
      ensures after.Status(p) == (if p in done + [cand] && g0.Status(p) == HiddenMark then ObstacleMark else g0.Status(p))
      ensures after.G(p) == (if p in done + [cand] && g0.Status(p) == HiddenMark then InfinityCost else g0.G(p))
    {
    }
    forall p | g0.InBounds(p) && p in done + [cand] && g0.Status(p) == HiddenMark ensures after.Rhs(p) == InfinityCost {
      if p != cand {
        assert before.Status(p) == ObstacleMark;
      }
    }
    NearRevealedSnoc(g0, done, cand);
    forall p | g0.InBounds(p) && !NearRevealed(g0, done + [cand], p) ensures after.Rhs(p) == g0.Rhs(p) {
      assert p != cand && !Adjacent(cand, p);
    }
  }

  /** A candidate that is not hidden leaves everything as it is. */
  lemma SkipStep(g0: Grid, e0: seq<Entry>, grid: Grid, entries: seq<Entry>, cand: Pos, done: seq<Pos>)
    requires Progress(g0, grid, done) && QueueProgress(g0, e0, grid, entries, done)
    requires g0.InBounds(cand) && cand !in done && grid.Status(cand) != HiddenMark
    ensures g0.Status(cand) != HiddenMark && Progress(g0, grid, done + [cand])
    ensures QueueProgress(g0, e0, grid, entries, done + [cand])
  {
    NearRevealedSnoc(g0, done, cand);
  }

  /** Some square of `done` is hidden in `g0`: the flag `detectHidden` raises, read from left to right. */
  ghost predicate HiddenAmong(g0: Grid, done: seq<Pos>)
    requires g0.Valid()
    decreases |done|
  {
    done != [] &&
    (HiddenAmong(g0, done[..|done| - 1]) ||
     (g0.InBounds(done[|done| - 1]) && g0.Status(done[|done| - 1]) == HiddenMark))
  }

  /** The flag is raised exactly when some square of `done` is hidden. */
  lemma {:induction false} HiddenAmongMembers(g0: Grid, done: seq<Pos>)
    requires g0.Valid()
    ensures HiddenAmong(g0, done) <==> exists u :: u in done && g0.InBounds(u) && g0.Status(u) == HiddenMark
    decreases |done|
  {
    if done != [] {
      var front := done[..|done| - 1];
      HiddenAmongMembers(g0, front);
      assert done == front + [done[|done| - 1]];
      if exists u :: u in done && g0.InBounds(u) && g0.Status(u) == HiddenMark {
        var u :| u in done && g0.InBounds(u) && g0.Status(u) == HiddenMark;
        if u != done[|done| - 1] {
          assert u in front;
        }
      }
    }
  }

  /** Before the scan over the neighbours of `c`, nothing has been revealed. */
  lemma ProgressStart(g0: Grid, e0: seq<Entry>, c: Pos, ns: seq<Pos>)
    requires g0.Valid() && ns == g0.Neighbors(c)
    ensures Progress(g0, g0, ns[..0]) && QueueProgress(g0, e0, g0, e0, ns[..0]) && !HiddenAmong(g0, ns[..0])
  {
    assert ns[..0] == [];
    assert forall p :: !NearRevealed(g0, [], p);
  }

  /** The next neighbour in the scan is in bounds, new, and extends `HiddenAmong` by itself. */
  lemma NextCandidate(g0: Grid, c: Pos, ns: seq<Pos>, i: nat)
    requires g0.Valid() && ns == g0.Neighbors(c) && i < |ns|
    ensures g0.InBounds(ns[i]) && ns[i] !in ns[..i] && ns[..i + 1] == ns[..i] + [ns[i]]
    ensures HiddenAmong(g0, ns[..i + 1]) <==> HiddenAmong(g0, ns[..i]) || g0.Status(ns[i]) == HiddenMark
  {
    assert ns[i] in ns;
    forall k | 0 <= k < i ensures ns[k] != ns[i] {
      assert RowMajorLess(ns[k], ns[i]);
    }
    assert ns[..i + 1] == ns[..i] + [ns[i]];
    assert ns[..i + 1][..i] == ns[..i];
  }

  /** At the end of the scan over all neighbours of `c`, `Progress` is what `detectHidden` promises. */
  lemma ProgressDone(g0: Grid, e0: seq<Entry>, grid: Grid, entries: seq<Entry>, c: Pos, ns: seq<Pos>)
    requires Progress(g0, grid, ns) && QueueProgress(g0, e0, grid, entries, ns) && ns == g0.Neighbors(c)
    ensures HiddenAmong(g0, ns) <==> exists u :: Revealed(g0, c, u)
    ensures forall p :: g0.InBounds(p) ==>
              grid.Status(p) == (if Revealed(g0, c, p) then ObstacleMark else g0.Status(p)) &&
              grid.G(p) == (if Revealed(g0, c, p) then InfinityCost else g0.G(p))
    ensures forall p :: Revealed(g0, c, p) ==> grid.Rhs(p) == InfinityCost
    ensures forall p :: grid.Availability(p) && !Revealed(g0, c, p) && NearRevealed(g0, ns, p) ==>
              QueuedExactly(grid, entries, p)
  {
    forall p | grid.Availability(p) && !Revealed(g0, c, p) && NearRevealed(g0, ns, p)
      ensures QueuedExactly(grid, entries, p)
    {
      assert !RevealedIn(g0, ns, p);
    }
    HiddenAmongMembers(g0, ns);
    if HiddenAmong(g0, ns) {
      var u :| u in ns && g0.InBounds(u) && g0.Status(u) == HiddenMark;
      assert Revealed(g0, c, u);
    }
  }

  /** Two grids with the same size, the same `g` and the same statuses: only `rhs` may differ. */
  ghost predicate SameCosts(a: Grid, b: Grid) {
    a.Valid() && b.Valid() && a.height == b.height && a.width == b.width &&
    forall p :: a.InBounds(p) ==> a.G(p) == b.G(p) && a.Status(p) == b.Status(p)
  }

  /** Two grids with the same size and the same statuses. */
  ghost predicate SameStatuses(a: Grid, b: Grid) {
    a.Valid() && b.Valid() && a.height == b.height && a.width == b.width &&
    forall p :: a.InBounds(p) ==> a.Status(p) == b.Status(p)
  }

  lemma SameStatusesTransitive(a: Grid, b: Grid, c: Grid)
    requires SameStatuses(a, b) && SameStatuses(b, c)
    ensures SameStatuses(a, c)
  {
  }

  lemma SetGKeepsStatuses(g0: Grid, node: Pos, g: real, result: Grid)
    requires g0.Valid() && g0.InBounds(node) && SameCosts(g0.Set(node, g0.At(node).UpdateG(g)), result)
    ensures SameStatuses(g0, result)
  {
    var g1 := g0.Set(node, g0.At(node).UpdateG(g));
    forall p | g0.InBounds(p) ensures g0.Status(p) == result.Status(p) {
      assert g1.Status(p) == g0.Status(p);
    }
  }

  lemma SameCostsTransitive(a: Grid, b: Grid, c: Grid)
    requires SameCosts(a, b) && SameCosts(b, c)
    ensures SameCosts(a, c)
  {
  }

  /** Fewer exceptions imply more. */
  lemma ExceptWeaken(grid: Grid, goal: Pos, entries: seq<Entry>, stale: set<Pos>, stale': set<Pos>,
                     unqueued: set<Pos>, unqueued': set<Pos>)
    requires InvariantExcept(grid, goal, entries, stale, unqueued) && stale <= stale' && unqueued <= unqueued'
    ensures InvariantExcept(grid, goal, entries, stale', unqueued')
  {
  }

  /** The stale case of `computeShortestPath`: popping the top and pushing it back with the
    * node's current key keeps the invariant. */
  lemma ReinsertKeeps(grid: Grid, goal: Pos, entries: seq<Entry>, result: seq<Entry>)
    requires Invariant(grid, goal, entries) && entries != []
    requires var node := entries[LeastIndex(entries)].pos;
             result == RemoveAt(entries, LeastIndex(entries)) + [Entry(grid.Key(node), node)]
    ensures Invariant(grid, goal, result)
  {
    var i := LeastIndex(entries);
    var node := entries[i].pos;
    var base := RemoveAt(entries, i);
    forall p ensures CountAt(result, p) == CountAt(entries, p) {
      CountAtRemoveAt(entries, i, p);
      CountAtAppend(base, Entry(grid.Key(node), node), p);
    }
    forall p ensures Contains(result, p) <==> Contains(entries, p) {
      CountAtContains(result, p);
      CountAtContains(entries, p);
    }
    forall e | e in result ensures e in entries || e == Entry(grid.Key(node), node) {
      if e in base {
        var j :| 0 <= j < |base| && base[j] == e;
        assert e == entries[if j < i then j else j + 1];
      }
    }
  }

  /** The other two cases of `computeShortestPath` pop the top and then set its `g` to `x`
    * (its `rhs`, or the sentinel). Afterwards the node is no longer queued; the lookahead is stale
    * only at the traversable squares around the node, and only the node may be inconsistent
    * without being queued (not even the node when `x` is its `rhs`). */
  lemma SetGKeeps(g0: Grid, g1: Grid, goal: Pos, entries: seq<Entry>, result: seq<Entry>, x: real)
    requires Invariant(g0, goal, entries) && entries != [] && 0.0 <= x
    requires var node := entries[LeastIndex(entries)].pos;
             g1 == g0.Set(node, g0.At(node).UpdateG(x)) && result == RemoveAt(entries, LeastIndex(entries))
    ensures var node := entries[LeastIndex(entries)].pos;
            !Contains(result, node) &&
            InvariantExcept(g1, goal, result, set u | u in g1.Neighbors(node),
                            if x == g0.Rhs(node) then {} else {node})
  {
    var i := LeastIndex(entries);
    var node := entries[i].pos;
    assert entries[i] in entries;
    forall p ensures CountAt(result, p) == CountAt(entries, p) - (if p == node then 1 else 0) {
      CountAtRemoveAt(entries, i, p);
    }
    forall p ensures Contains(result, p) <==> CountAt(result, p) > 0 {
      CountAtContains(result, p);
    }
    forall p ensures Contains(entries, p) <==> CountAt(entries, p) > 0 {
      CountAtContains(entries, p);
    }
    forall e | e in result ensures e in entries {
      var j :| 0 <= j < |result| && result[j] == e;
      assert e == entries[if j < i then j else j + 1];
    }
    assert g1.NonNegative() by {
      forall p | g1.InBounds(p) ensures 0.0 <= g1.G(p) && 0.0 <= g1.Rhs(p) {
        assert g0.InBounds(p);
      }
    }
    assert WellFormed(g1, goal, result);
    SetGLookahead(g0, g1, goal, node, x);
    forall p | p !in (if x == g0.Rhs(node) then {} else {node}) ensures Queued(g1, result, p) {
      assert Queued(g0, entries, p);
      if g1.InBounds(p) && p != node {
        assert g1.At(p) == g0.At(p);
      }
    }
  }

  /** After a non-stale step on `node` (from `g0` with open list `e0`): `node` and the traversable
    * squares around it are queued exactly when inconsistent; every other square keeps its
    * entries, and every square other than those keeps its `rhs`. */
  ghost predicate SettledAround(g0: Grid, e0: seq<Entry>, grid: Grid, entries: seq<Entry>, node: Pos)
    requires g0.Valid() && grid.Valid()
  {
    grid.height == g0.height && grid.width == g0.width &&
    QueuedExactly(grid, entries, node) &&
    (forall p :: Adjacent(node, p) && grid.Availability(p) ==> QueuedExactly(grid, entries, p)) &&
    (forall e: Entry :: e.pos != node && !(Adjacent(node, e.pos) && g0.Availability(e.pos)) ==> (e in entries <==> e in e0)) &&
    (forall p :: g0.InBounds(p) && p != node && !(Adjacent(node, p) && g0.Availability(p)) ==>
       grid.Rhs(p) == g0.Rhs(p))
  }

  /** The end of a non-stale step of `computeShortestPath`: `node` has its new `g` and (for an
    * underconsistent node) its new `rhs` and queue entry in `g2`/`e2`, and the traversable squares
    * around it have then been updated. Only `node` and those squares differ in `rhs` or in the
    * open list, and all of them are queued exactly when inconsistent. */
  lemma SettleFrame(g0: Grid, g2: Grid, g3: Grid, e0: seq<Entry>, e2: seq<Entry>, e3: seq<Entry>,
                    node: Pos, around: seq<Pos>)
    requires g0.Valid() && g2.Valid() && g2.height == g0.height && g2.width == g0.width && g0.InBounds(node)
    requires forall p :: g0.InBounds(p) && p != node ==> g2.At(p) == g0.At(p)
    requires QueuedExactly(g2, e2, node)
    requires forall e: Entry :: e.pos != node ==> (e in e2 <==> e in e0)
    requires around == g2.Neighbors(node)
    requires SameCosts(g2, g3) && forall p :: g3.InBounds(p) && p !in around ==> g3.Rhs(p) == g2.Rhs(p)
    requires forall u :: u in around ==> QueuedExactly(g3, e3, u)
    requires forall e: Entry :: e.pos !in around ==> (e in e3 <==> e in e2)
    ensures g3.Rhs(node) == g2.Rhs(node)
    ensures SettledAround(g0, e0, g3, e3, node)
  {
    assert node !in around;
    QueuedExactlyFrame(g2, g3, e2, e3, node);
    forall p | Adjacent(node, p) && g3.Availability(p) ensures QueuedExactly(g3, e3, p) {
      assert g2.Availability(p);
    }
    forall p | g0.InBounds(p) && p != node && !(Adjacent(node, p) && g0.Availability(p))
      ensures g3.Rhs(p) == g0.Rhs(p)
    {
      assert g2.Availability(p) == g0.Availability(p);
    }
  }

  /** The underconsistent case of `computeShortestPath`, from the grids and open lists in between:
    * `g1` has `g = 100` at `node`, `g2`/`e2` the update of `node`, `g3`/`e3` the updates of the
    * squares around it. */
  lemma RaiseSettles(g0: Grid, g1: Grid, g2: Grid, g3: Grid, e0: seq<Entry>, e2: seq<Entry>, e3: seq<Entry>,
                     node: Pos, around: seq<Pos>, goal: Pos)
    requires g0.Valid() && g0.InBounds(node)
    requires g1 == g0.Set(node, g0.At(node).UpdateG(InfinityCost))
    requires g2 == if node != goal then g1.Set(node, g1.At(node).UpdateRhs(MinRhs(g1, node))) else g1
    requires QueuedExactly(g2, e2, node) && forall e: Entry :: e.pos != node ==> (e in e2 <==> e in e0)
    requires around == g2.Neighbors(node)
    requires SameCosts(g2, g3) && forall p :: g3.InBounds(p) && p !in around ==> g3.Rhs(p) == g2.Rhs(p)
    requires forall u :: u in around ==> QueuedExactly(g3, e3, u)
    requires forall e: Entry :: e.pos !in around ==> (e in e3 <==> e in e2)
    ensures SameCosts(g1, g3)
    ensures g3.Rhs(node) == if node == goal then g0.Rhs(node) else MinRhs(g0, node)
    ensures SettledAround(g0, e0, g3, e3, node)
  {
    RaiseFrame(g0, g1, g2, node, goal);
    SettleFrame(g0, g2, g3, e0, e2, e3, node, around);
  }

  /** Raising `g` of `node` to the sentinel and updating `node` changes that square only; its new
    * `rhs` is its lookahead in the grid before the raise. */
  lemma RaiseFrame(g0: Grid, g1: Grid, g2: Grid, node: Pos, goal: Pos)
    requires g0.Valid() && g0.InBounds(node)
    requires g1 == g0.Set(node, g0.At(node).UpdateG(InfinityCost))
    requires g2 == if node != goal then g1.Set(node, g1.At(node).UpdateRhs(MinRhs(g1, node))) else g1
    ensures g2.Valid() && g2.height == g0.height && g2.width == g0.width && SameCosts(g1, g2)
    ensures forall p :: g0.InBounds(p) && p != node ==> g2.At(p) == g0.At(p)
    ensures g2.Rhs(node) == if node == goal then g0.Rhs(node) else MinRhs(g0, node)
  {
    forall p | g0.InBounds(p) && p != node ensures g2.At(p) == g0.At(p) {
      assert g1.At(p) == g0.At(p);
    }
    LookaheadIsLocal(g0, g1, node);
  }

  /** The loop condition of `computeShortestPath`, with the open list read only when it is not
    * empty: a queued key lies below the robot's key, or the robot's square is inconsistent. */
  predicate Guard(grid: Grid, entries: seq<Entry>, robot: Pos)
    requires grid.Valid() && grid.InBounds(robot)
  {
    (entries != [] && entries[LeastIndex(entries)].key < grid.Key(robot)) || grid.G(robot) != grid.Rhs(robot)
  }

  /** When the loop condition of `computeShortestPath` fails, the robot's square is consistent,
    * no queued key lies below its key, and (unless it is the goal or an obstacle) its `g` is its
    * lookahead. */
  lemma ConvergedExit(grid: Grid, goal: Pos, entries: seq<Entry>, robot: Pos)
    requires Invariant(grid, goal, entries) && grid.InBounds(robot) && !Guard(grid, entries, robot)
    ensures grid.G(robot) == grid.Rhs(robot)
    ensures forall e :: e in entries ==> grid.Key(robot) <= e.key
    ensures robot != goal && grid.Availability(robot) ==> grid.G(robot) == MinRhs(grid, robot)
  {
    assert LookaheadHolds(grid, goal, robot);
    forall e | e in entries ensures grid.Key(robot) <= e.key {
      var j :| 0 <= j < |entries| && entries[j] == e;
      assert LexLe(entries[LeastIndex(entries)], entries[j]);
    }
  }

  /** Inside the planner's 5 x 5 map. */
  predicate InSquare(p: Pos) {
    0 <= p.row < Size && 0 <= p.col < Size
  }

  /** With every `g` at the sentinel, every lookahead is the sentinel too, so the freshly seeded
    * planner satisfies the invariant. */
  lemma InitialInvariant(grid: Grid, goal: Pos, entries: seq<Entry>)
    requires grid.Valid() && grid.height == Size && grid.width == Size && grid.InBounds(goal)
    requires forall p :: grid.InBounds(p) ==>
               grid.G(p) == InfinityCost && grid.Rhs(p) == (if p == goal then 0.0 else InfinityCost)
    requires grid.Status(goal) != HiddenMark && entries == [Entry(0.0, goal)]
    ensures Invariant(grid, goal, entries)
  {
    forall p ensures LookaheadHolds(grid, goal, p) {
      var r := MinRhs(grid, p);
      if r < InfinityCost {
        var u :| u in grid.Neighbors(p) && r == StepCost(grid, p, u);
      }
    }
    forall p ensures CountAt(entries, p) <= 1 && (p == goal ==> Contains(entries, p)) {
      assert entries[..0] == [];
      assert entries[0].pos == goal;
    }
  }

  /** The grid after `setGoal`, `setStart` and `setRhs(goal, 0)`, starting from estimates all at
    * the sentinel. */
  lemma SeededGrid(marked: Grid, robot: Pos, goal: Pos, seeded: Grid)
    requires marked.Valid() && marked.InBounds(robot) && marked.InBounds(goal)
    requires forall p :: marked.InBounds(p) ==> marked.G(p) == InfinityCost && marked.Rhs(p) == InfinityCost
    requires var withGoal := marked.Set(goal, marked.At(goal).UpdateStatus(GoalMark));
             var withStart := withGoal.Set(robot, withGoal.At(robot).UpdateStatus(StartMark));
             seeded == withStart.Set(goal, withStart.At(goal).UpdateRhs(0.0))
    ensures seeded.Valid() && seeded.height == marked.height && seeded.width == marked.width
    ensures forall p :: seeded.InBounds(p) ==>
              seeded.G(p) == InfinityCost && seeded.Rhs(p) == (if p == goal then 0.0 else InfinityCost) &&
              seeded.Status(p) == (if p == robot then StartMark else if p == goal then GoalMark else marked.Status(p))
  {
    var withGoal := marked.Set(goal, marked.At(goal).UpdateStatus(GoalMark));
    var withStart := withGoal.Set(robot, withGoal.At(robot).UpdateStatus(StartMark));
    forall p | seeded.InBounds(p)
      ensures seeded.G(p) == InfinityCost && seeded.Rhs(p) == (if p == goal then 0.0 else InfinityCost)
      ensures seeded.Status(p) == (if p == robot then StartMark else if p == goal then GoalMark else marked.Status(p))
    {
      assert marked.G(p) == InfinityCost && marked.Rhs(p) == InfinityCost;
      assert marked.G(goal) == InfinityCost && marked.Rhs(goal) == InfinityCost;
      assert marked.G(robot) == InfinityCost && marked.Rhs(robot) == InfinityCost;
      assert withGoal.At(p) == if p == goal then marked.At(goal).UpdateStatus(GoalMark) else marked.At(p);
      assert withStart.At(p) == if p == robot then withGoal.At(robot).UpdateStatus(StartMark) else withGoal.At(p);
      assert seeded.At(p) == if p == goal then withStart.At(goal).UpdateRhs(0.0) else withStart.At(p);
    }
  }

  /** The planner: the 5 x 5 map and the open list it owns. */
  class PathPlanner {
    const costMap: Map
    const openlist: OpenList

    ghost predicate Valid()
      reads this, costMap, openlist
    {
      Invariant(costMap.grid, costMap.goal, openlist.entries)
    }

    /** `PathPlanner::PathPlanner`: a fresh 5 x 5 map with the obstacles, the goal and the start
      * marked; the goal gets `rhs = 0` and is the only entry of the open list. */
    constructor (robot: Pos, goal: Pos, obstacles: seq<Pos>, hidden: seq<Pos>)
      requires InSquare(robot) && InSquare(goal)
      requires forall p :: p in obstacles ==> InSquare(p)
      requires forall p :: p in hidden ==> InSquare(p)
      ensures Valid() && fresh(costMap) && fresh(openlist)
      ensures costMap.goal == goal && openlist.entries == [Entry(0.0, goal)]
      ensures forall p :: InSquare(p) ==>
                costMap.grid.G(p) == InfinityCost &&
                costMap.grid.Rhs(p) == (if p == goal then 0.0 else InfinityCost) &&
                costMap.grid.Status(p) == (if p == robot then StartMark
                                           else if p == goal then GoalMark
                                           else if p in hidden then HiddenMark
                                           else if p in obstacles then ObstacleMark
                                           else FreeMark)
    {
      var m := new Map(Size, Size);
      m.AddObstacle(obstacles, hidden);
      ghost var marked := m.grid;
      m.SetGoal(goal);
      m.UpdateCellStatus(robot, StartMark);
      m.UpdateCellRhs(m.GetGoal(), 0.0);
      SeededGrid(marked, robot, goal, m.grid);
      var list := new OpenList();
      list.Insert(m.grid.Key(m.GetGoal()), m.GetGoal());
      costMap, openlist := m, list;
      new;
      InitialInvariant(costMap.grid, goal, openlist.entries);
    }

    /** `PathPlanner::getMinRhs`: the scan over the neighbours of `v` computes its lookahead. */
    method GetMinRhs(v: Pos) returns (minRhs: real)
      requires costMap.Valid()
      ensures minRhs == MinRhs(costMap.grid, v)
    {
      minRhs := InfinityCost;
      ghost var next := v;
      var neighbors := costMap.FindNeighbors(v);
      for i := 0 to |neighbors|
        invariant Cheapest(costMap.grid, v, neighbors, i, minRhs, next) ==
                  Cheapest(costMap.grid, v, neighbors, 0, InfinityCost, v)
      {
        var tempRhs := costMap.grid.ComputeCost(v, neighbors[i]) + costMap.grid.G(neighbors[i]);
        if tempRhs < minRhs {
          minRhs := tempRhs;
          next := neighbors[i];
        }
      }
    }

    /** `PathPlanner::getNextPotision`: the scan over the neighbours of `c` finds the move that
      * `NextPosition` describes. */
    method GetNextPosition(c: Pos) returns (nextPosition: Pos)
      requires costMap.Valid()
      ensures nextPosition == NextPosition(costMap.grid, c)
    {
      nextPosition := c;
      var cheapestCost := InfinityCost;
      var candidates := costMap.FindNeighbors(c);
      for i := 0 to |candidates|
        invariant Cheapest(costMap.grid, c, candidates, i, cheapestCost, nextPosition) ==
                  Cheapest(costMap.grid, c, candidates, 0, InfinityCost, c)
      {
        var cost := costMap.grid.ComputeCost(c, candidates[i]) + costMap.grid.G(candidates[i]);
        if cost < cheapestCost {
          cheapestCost := cost;
          nextPosition := candidates[i];
        }
      }
    }

    /** `PathPlanner::updateVertex`: recomputes the lookahead of `v` (unless it is the goal), takes
      * `v` out of the open list if it is there, and queues it again with its key when `g` and
      * `rhs` differ. No `g`, no status and no other square changes. */
    method UpdateVertex(v: Pos, ghost stale: set<Pos>, ghost unqueued: set<Pos>)
      requires InvariantExcept(costMap.grid, costMap.goal, openlist.entries, stale, unqueued) && costMap.grid.InBounds(v)
      modifies costMap, openlist
      ensures costMap.goal == old(costMap.goal)
      ensures costMap.grid == if v != old(costMap.goal) then old(costMap.grid).Set(v, old(costMap.grid.At(v)).UpdateRhs(MinRhs(old(costMap.grid), v)))
                          else old(costMap.grid)
      ensures openlist.entries ==
                (if Contains(old(openlist.entries), v) then RemoveAt(old(openlist.entries), FirstAt(old(openlist.entries), v))
                 else old(openlist.entries)) +
                (if costMap.grid.G(v) != costMap.grid.Rhs(v) then [Entry(costMap.grid.Key(v), v)] else [])
      ensures Contains(openlist.entries, v) <==> costMap.grid.G(v) != costMap.grid.Rhs(v)
      ensures QueuedExactly(costMap.grid, openlist.entries, v)
      ensures forall e: Entry :: e.pos != v ==> (e in openlist.entries <==> e in old(openlist.entries))
      ensures InvariantExcept(costMap.grid, costMap.goal, openlist.entries, stale - {v}, unqueued - {v})
      ensures SameCosts(old(costMap.grid), costMap.grid)
    {
      ghost var g0, e0 := costMap.grid, openlist.entries;
      if v != costMap.goal {
        var r := GetMinRhs(v);
        costMap.UpdateCellRhs(v, r);
      }
      var found := openlist.Find(v);
      if found {
        assert KeysAboveRemoval(openlist.entries) by {
          forall i | 0 <= i < |openlist.entries| ensures RemovalKey < openlist.entries[i].key {
            assert openlist.entries[i] in e0;
          }
        }
        RemovedPresent(openlist.entries, v);
        openlist.Remove(v);
      }
      if costMap.grid.G(v) != costMap.grid.Rhs(v) {
        openlist.Insert(costMap.grid.Key(v), v);
      }
      UpdateVertexKeeps(g0, costMap.grid, costMap.goal, e0, openlist.entries, v, stale, unqueued);
    }
  
    /** The loops `for (vertex : ...) updateVertex(vertex)` of `computeShortestPath` and
      * `detectHidden`: once every square whose lookahead was stale has been updated, the
      * invariant holds again, each updated square is queued exactly when inconsistent, and the
      * other squares keep their entries and their `rhs`. */
    method UpdateVertices(vertices: seq<Pos>)
      requires InvariantExcept(costMap.grid, costMap.goal, openlist.entries, set u | u in vertices, {})
      requires forall u :: u in vertices ==> costMap.grid.InBounds(u)
      modifies costMap, openlist
      ensures Valid() && costMap.goal == old(costMap.goal)
      ensures SameCosts(old(costMap.grid), costMap.grid)
      ensures forall p :: costMap.grid.InBounds(p) && p !in vertices ==> costMap.grid.Rhs(p) == old(costMap.grid).Rhs(p)
      ensures forall u :: u in vertices ==> QueuedExactly(costMap.grid, openlist.entries, u)
      ensures forall e: Entry :: e.pos !in vertices ==> (e in openlist.entries <==> e in old(openlist.entries))
    {
      for j := 0 to |vertices|
        invariant InvariantExcept(costMap.grid, costMap.goal, openlist.entries, set u | u in vertices[j..], {})
        invariant costMap.goal == old(costMap.goal) && SameCosts(old(costMap.grid), costMap.grid)
        invariant forall p :: costMap.grid.InBounds(p) && p !in vertices[..j] ==> costMap.grid.Rhs(p) == old(costMap.grid).Rhs(p)
        invariant forall u :: u in vertices[..j] ==> QueuedExactly(costMap.grid, openlist.entries, u)
        invariant forall e: Entry :: e.pos !in vertices[..j] ==> (e in openlist.entries <==> e in old(openlist.entries))
      {
        var v := vertices[j];
        assert v in vertices;
        ghost var rest := vertices[j + 1..];
        ghost var g1, e1 := costMap.grid, openlist.entries;
        UpdateVertex(v, set u | u in vertices[j..], {});
        ExceptWeaken(costMap.grid, costMap.goal, openlist.entries, (set u | u in vertices[j..]) - {v},
                     set u | u in rest, {}, {});
        UpdatedOneMore(old(costMap.grid), g1, costMap.grid, old(openlist.entries), e1, openlist.entries, vertices, j);
      }
      assert vertices[..|vertices|] == vertices;
      assert (set u | u in vertices[|vertices|..]) == {};
    }
  
    /** One iteration of the loop of `computeShortestPath`: pops the least entry; if its key is
      * out of date, pushes the node back with its current key and changes nothing else;
      * otherwise an overconsistent node (`g > rhs`) takes `g := rhs` and an underconsistent one
      * `g := 100`, and the squares whose lookahead that changes are updated. Only the node and
      * the traversable squares around it change in `rhs` or in the open list. */
    method ProcessTop()
      requires Valid() && openlist.entries != []
      modifies costMap, openlist
      ensures Valid() && costMap.goal == old(costMap.goal)
      ensures var top := old(openlist.Top());
              var g0 := old(costMap.grid);
              if top.key < g0.Key(top.pos) then
                costMap.grid == g0 &&
                openlist.entries == RemoveAt(old(openlist.entries), LeastIndex(old(openlist.entries))) +
                                    [Entry(g0.Key(top.pos), top.pos)]
              else
                var g := if g0.G(top.pos) > g0.Rhs(top.pos) then g0.Rhs(top.pos) else InfinityCost;
                SameCosts(g0.Set(top.pos, g0.At(top.pos).UpdateG(g)), costMap.grid)
      ensures var top, g0 := old(openlist.Top()), old(costMap.grid);
              var node := top.pos;
              g0.Key(node) <= top.key ==>
                costMap.grid.Rhs(node) == (if g0.G(node) > g0.Rhs(node) || node == costMap.goal then g0.Rhs(node)
                                           else MinRhs(g0, node)) &&
                SettledAround(g0, old(openlist.entries), costMap.grid, openlist.entries, node)
    {
      ghost var g0, e0 := costMap.grid, openlist.entries;
      var top := openlist.Pop();
      assert top in e0;
      var node := top.pos;
      var oldKey := top.key;
      var newKey := costMap.grid.Key(node);
      if oldKey < newKey {
        openlist.Insert(newKey, node);
        ReinsertKeeps(g0, costMap.goal, e0, openlist.entries);
      } else if costMap.grid.G(node) > costMap.grid.Rhs(node) {
        LowerToRhs(node, g0, e0);
      } else {
        RaiseToInfinity(node, g0, e0);
      }
    }

    /** The overconsistent case of `computeShortestPath`, after the pop: `g := rhs` at `node`, and
      * the traversable squares around it are updated. */
    method LowerToRhs(node: Pos, ghost g0: Grid, ghost e0: seq<Entry>)
      requires Invariant(g0, costMap.goal, e0) && e0 != [] && node == e0[LeastIndex(e0)].pos
      requires costMap.grid == g0 && openlist.entries == RemoveAt(e0, LeastIndex(e0))
      requires g0.G(node) > g0.Rhs(node)
      modifies costMap, openlist
      ensures Valid() && costMap.goal == old(costMap.goal)
      ensures SameCosts(g0.Set(node, g0.At(node).UpdateG(g0.Rhs(node))), costMap.grid)
      ensures costMap.grid.Rhs(node) == g0.Rhs(node)
      ensures SettledAround(g0, e0, costMap.grid, openlist.entries, node)
    {
      assert e0[LeastIndex(e0)] in e0;
      costMap.UpdateCellG(node, costMap.grid.Rhs(node));
      SetGKeeps(g0, costMap.grid, costMap.goal, e0, openlist.entries, g0.Rhs(node));
      ghost var g1, e1 := costMap.grid, openlist.entries;
      RemoveAtMembers(e0, LeastIndex(e0));
      SetGKeepsStatuses(g0, node, g0.Rhs(node), g1);
      var successors := costMap.FindNeighbors(node);
      UpdateVertices(successors);
      SettleFrame(g0, g1, costMap.grid, e0, e1, openlist.entries, node, successors);
    }

    /** The underconsistent case of `computeShortestPath`, after the pop: `g := 100` at `node`,
      * then `node` and the traversable squares around it are updated. */
    method RaiseToInfinity(node: Pos, ghost g0: Grid, ghost e0: seq<Entry>)
      requires Invariant(g0, costMap.goal, e0) && e0 != [] && node == e0[LeastIndex(e0)].pos
      requires costMap.grid == g0 && openlist.entries == RemoveAt(e0, LeastIndex(e0))
      modifies costMap, openlist
      ensures Valid() && costMap.goal == old(costMap.goal)
      ensures SameCosts(g0.Set(node, g0.At(node).UpdateG(InfinityCost)), costMap.grid)
      ensures costMap.grid.Rhs(node) == if node == costMap.goal then g0.Rhs(node) else MinRhs(g0, node)
      ensures SettledAround(g0, e0, costMap.grid, openlist.entries, node)
    {
      assert e0[LeastIndex(e0)] in e0;
      costMap.SetInfinityCellG(node);
      SetGKeeps(g0, costMap.grid, costMap.goal, e0, openlist.entries, InfinityCost);
      ghost var g1 := costMap.grid;
      RemoveAtMembers(e0, LeastIndex(e0));
      ghost var stale := set u | u in g1.Neighbors(node);
      UpdateVertex(node, stale, if InfinityCost == g0.Rhs(node) then {} else {node});
      ExceptWeaken(costMap.grid, costMap.goal, openlist.entries, stale - {node}, stale, {}, {});
      ghost var g2, e2 := costMap.grid, openlist.entries;
      var neighbors := costMap.FindNeighbors(node);
      LookaheadUnchanged(g1, g2);
      UpdateVertices(neighbors);
      RaiseSettles(g0, g1, g2, costMap.grid, e0, e2, openlist.entries, node, neighbors, costMap.goal);
    }

    /** `PathPlanner::computeShortestPath`, with the loop condition evaluated so that the open list
      * is only read when it is not empty, and with at most `fuel` iterations. When it stops
      * because the condition fails (`converged`), the robot's square is consistent, its `g` is
      * its lookahead, and no queued key lies below the robot's key. Statuses never change. */
    method ComputeShortestPath(robot: Pos, fuel: nat) returns (converged: bool)
      requires Valid() && costMap.grid.InBounds(robot)
      modifies costMap, openlist
      ensures Valid() && costMap.goal == old(costMap.goal)
      ensures SameStatuses(old(costMap.grid), costMap.grid)
      ensures converged <==> !Guard(costMap.grid, openlist.entries, robot)
      ensures converged ==> costMap.grid.G(robot) == costMap.grid.Rhs(robot)
      ensures converged ==> forall e :: e in openlist.entries ==> costMap.grid.Key(robot) <= e.key
      ensures converged && robot != costMap.goal && costMap.grid.Availability(robot) ==>
                costMap.grid.G(robot) == MinRhs(costMap.grid, robot)
      ensures !old(Guard(costMap.grid, openlist.entries, robot)) ==>
                costMap.grid == old(costMap.grid) && openlist.entries == old(openlist.entries) && converged
    {
      ghost var wasRunning := Guard(costMap.grid, openlist.entries, robot);
      var inconsistent := costMap.grid.Rhs(robot) != costMap.grid.G(robot);
      var steps := fuel;
      while steps > 0 && ((openlist.entries != [] && openlist.Top().key < costMap.grid.Key(robot)) || inconsistent)
        invariant Valid() && costMap.goal == old(costMap.goal) && costMap.grid.InBounds(robot)
        invariant SameStatuses(old(costMap.grid), costMap.grid)
        invariant inconsistent == (costMap.grid.G(robot) != costMap.grid.Rhs(robot))
        invariant wasRunning || (costMap.grid == old(costMap.grid) && openlist.entries == old(openlist.entries))
        decreases steps
      {
        assert inconsistent ==> Queued(costMap.grid, openlist.entries, robot);
        ghost var before, top := costMap.grid, openlist.Top();
        ProcessTop();
        if top.key >= before.Key(top.pos) {
          var g := if before.G(top.pos) > before.Rhs(top.pos) then before.Rhs(top.pos) else InfinityCost;
          SetGKeepsStatuses(before, top.pos, g, costMap.grid);
        }
        SameStatusesTransitive(old(costMap.grid), before, costMap.grid);
        inconsistent := costMap.grid.Rhs(robot) != costMap.grid.G(robot);
        steps := steps - 1;
      }
      converged := !((openlist.entries != [] && openlist.Top().key < costMap.grid.Key(robot)) || inconsistent);
      if converged {
        ConvergedExit(costMap.grid, costMap.goal, openlist.entries, robot);
      }
    }
  
    /** The body of `detectHidden`'s test for one hidden neighbour: the square becomes an
      * obstacle, it and the traversable squares around it are updated, and it ends with
      * `rhs = g = 100`. No other status and no other `g` changes, and no other obstacle's `rhs`;
      * the square keeps the entry that its update gave it. */
    method Reveal(cand: Pos)
      requires Valid() && costMap.grid.InBounds(cand) && costMap.grid.Status(cand) == HiddenMark
      modifies costMap, openlist
      ensures Valid() && costMap.goal == old(costMap.goal)
      ensures RevealedOne(old(costMap.grid), costMap.grid, cand)
      ensures RevealQueued(old(costMap.grid), old(openlist.entries), costMap.grid, openlist.entries, cand)
    {
      ghost var g0, e0 := costMap.grid, openlist.entries;
      MarkObstacle(cand);
      ghost var g3, entries := costMap.grid, openlist.entries;
      costMap.UpdateCellRhs(cand, InfinityCost);
      ghost var g4 := costMap.grid;
      costMap.UpdateCellG(cand, InfinityCost);
      ResetFrame(g0, g3, g4, costMap.grid, cand);
      ResetObstacleKeeps(g3, g4, costMap.grid, costMap.goal, entries, cand);
      ResetQueue(g0, e0, g3, costMap.grid, entries, cand);
    }

    /** The first steps of the reveal: the square becomes an obstacle, and it and the traversable
      * squares around it are updated; the invariant holds again afterwards. */
    method MarkObstacle(cand: Pos)
      requires Valid() && costMap.grid.InBounds(cand) && costMap.grid.Status(cand) == HiddenMark
      modifies costMap, openlist
      ensures Valid() && costMap.goal == old(costMap.goal) && cand != costMap.goal
      ensures MarkedOne(old(costMap.grid), costMap.grid, cand)
      ensures costMap.grid.Rhs(cand) == MinRhs(old(costMap.grid), cand)
      ensures SettledAround(old(costMap.grid), old(openlist.entries), costMap.grid, openlist.entries, cand)
    {
      ghost var g0, e0 := costMap.grid, openlist.entries;
      costMap.UpdateCellStatus(cand, ObstacleMark);
      ghost var g1 := costMap.grid;
      RevealKeeps(g0, g1, costMap.goal, openlist.entries, cand);
      ghost var stale := set u | u in g1.Neighbors(cand);
      UpdateVertex(cand, stale, {});
      ExceptWeaken(costMap.grid, costMap.goal, openlist.entries, stale - {cand}, stale, {}, {});
      ghost var g2, e2 := costMap.grid, openlist.entries;
      var around := costMap.FindNeighbors(cand);
      LookaheadUnchanged(g1, g2);
      UpdateVertices(around);
      MarkSettles(g0, g1, g2, costMap.grid, e0, e2, openlist.entries, cand, around);
    }

    /** One pass of the loop in `PathPlanner::detectHidden`: a candidate that is still hidden is
      * revealed, any other candidate is left alone. */
    method ScanCandidate(candidate: Pos, ghost g0: Grid, ghost e0: seq<Entry>, ghost done: seq<Pos>) returns (revealed: bool)
      requires Valid() && Progress(g0, costMap.grid, done) && QueueProgress(g0, e0, costMap.grid, openlist.entries, done)
      requires g0.InBounds(candidate) && candidate !in done
      modifies costMap, openlist
      ensures Valid() && costMap.goal == old(costMap.goal)
      ensures Progress(g0, costMap.grid, done + [candidate])
      ensures QueueProgress(g0, e0, costMap.grid, openlist.entries, done + [candidate])
      ensures revealed <==> g0.Status(candidate) == HiddenMark
    {
      ghost var before, eb := costMap.grid, openlist.entries;
      revealed := costMap.grid.Status(candidate) == HiddenMark;
      if revealed {
        Reveal(candidate);
        RevealStep(g0, before, costMap.grid, candidate, done);
        QueueRevealStep(g0, e0, before, eb, costMap.grid, openlist.entries, candidate, done);
      } else {
        SkipStep(g0, e0, costMap.grid, openlist.entries, candidate, done);
      }
    }

    /** `PathPlanner::detectHidden`: every hidden square among the neighbours of `c` becomes an
      * obstacle with `rhs = g = 100`; the result says whether there was one. No other status and
      * no other `g` changes, and the invariant is restored. Away from the revealed squares and
      * their neighbours `rhs` is unchanged; the open list is unchanged at every unrevealed square
      * except the traversable ones next to a revealed square. */
    method DetectHidden(c: Pos) returns (changed: bool)
      requires Valid()
      modifies costMap, openlist
      ensures Valid() && costMap.goal == old(costMap.goal)
      ensures changed <==> exists u :: Revealed(old(costMap.grid), c, u)
      ensures forall p :: old(costMap.grid).InBounds(p) ==>
                costMap.grid.Status(p) == (if Revealed(old(costMap.grid), c, p) then ObstacleMark else old(costMap.grid).Status(p)) &&
                costMap.grid.G(p) == (if Revealed(old(costMap.grid), c, p) then InfinityCost else old(costMap.grid).G(p))
      ensures forall p :: Revealed(old(costMap.grid), c, p) ==> costMap.grid.Rhs(p) == InfinityCost
      ensures forall p :: old(costMap.grid).InBounds(p) && old(costMap.grid).Status(p) == ObstacleMark ==>
                costMap.grid.Rhs(p) == old(costMap.grid).Rhs(p)
      ensures forall p :: old(costMap.grid).InBounds(p) && !NearRevealed(old(costMap.grid), old(costMap.grid).Neighbors(c), p) ==>
                costMap.grid.Rhs(p) == old(costMap.grid).Rhs(p)
      ensures forall e: Entry :: !Revealed(old(costMap.grid), c, e.pos) &&
                                 !(NearRevealed(old(costMap.grid), old(costMap.grid).Neighbors(c), e.pos) &&
                                   old(costMap.grid).Availability(e.pos)) ==>
                (e in openlist.entries <==> e in old(openlist.entries))
      ensures forall p :: costMap.grid.Availability(p) && !Revealed(old(costMap.grid), c, p) &&
                          NearRevealed(old(costMap.grid), old(costMap.grid).Neighbors(c), p) ==>
                QueuedExactly(costMap.grid, openlist.entries, p)
    {
      ghost var g0, e0 := costMap.grid, openlist.entries;
      changed := false;
      var ns := costMap.FindNeighbors(c);
      ProgressStart(g0, e0, c, ns);
      for i := 0 to |ns|
        invariant Valid() && costMap.goal == old(costMap.goal)
        invariant Progress(g0, costMap.grid, ns[..i])
        invariant QueueProgress(g0, e0, costMap.grid, openlist.entries, ns[..i])
        invariant changed <==> HiddenAmong(g0, ns[..i])
      {
        var candidate := ns[i];
        NextCandidate(g0, c, ns, i);
        var revealed := ScanCandidate(candidate, g0, e0, ns[..i]);
        if revealed {
          changed := true;
        }
      }
      assert ns[..|ns|] == ns;
      ProgressDone(g0, e0, costMap.grid, openlist.entries, c, ns);
    }
  }
}
