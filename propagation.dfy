/** What Wfc.PropagateUpdate does with one removal event, as a function of the
    wave state: the four neighbours of the event's cell, in the order of the
    direction tables, each thinned by PropagateToCell unless it is outside
    the output or already down to one pattern. */
module Propagation {
  import opened Sequences
  import opened Wrappers
  import opened Adjacency
  import opened Wave

  /** ContradictionException(x, y): the cell at column x and row y was left
      without patterns. */
  datatype Contradiction = Contradiction(xIndex: int, yIndex: int)

  /** One call of UpdateEntropies: the cell, and its weight sum at the time. */
  datatype Refresh = Refresh(cell: int, weight: int)

  /** Where PropagateUpdate has got to: the wave state, the events gathered
      for the stack, the heap refreshes made, and the contradiction that
      stopped it, if any. */
  datatype Spread = Spread(s: Tables, pushed: seq<RemovalUpdate>, refreshed: seq<Refresh>, failed: Option<Contradiction>)

  /** The flat index of an in-bounds output position is a cell index. */
  lemma CellIndexInRange(x: int, y: int, xSize: int, ySize: int)
    requires 0 <= x < xSize && 0 <= y < ySize
    ensures 0 <= x + y * xSize < xSize * ySize
  {
    assert y * xSize <= (ySize - 1) * xSize;
  }

  /** The cell one step from the event's position in direction d, when that
      step stays inside the xSize by ySize output. */
  function NeighbourAt(u: RemovalUpdate, d: int, xSize: int, ySize: int): (r: Option<int>)
    requires 0 <= d < 4
    ensures r.Some? ==> 0 <= r.value < xSize * ySize
    ensures r.Some? <==> 0 <= DirectionX[d] + u.xIndex < xSize && 0 <= DirectionY[d] + u.yIndex < ySize
    ensures r.Some? ==> r.value == (DirectionX[d] + u.xIndex) + (DirectionY[d] + u.yIndex) * xSize
  {
    var x, y := DirectionX[d] + u.xIndex, DirectionY[d] + u.yIndex;
    if x < 0 || x >= xSize || y < 0 || y >= ySize then None
    else
      CellIndexInRange(x, y, xSize, ySize);
      Some(x + y * xSize)
  }

  /** Cell c is one of the in-bounds neighbours of the event's position. */
  ghost predicate Adjacent(c: int, u: RemovalUpdate, xSize: int, ySize: int) {
    exists d :: 0 <= d < 4 && NeighbourAt(u, d, xSize, ySize) == Some(c)
  }

  /** One turn of PropagateUpdate's loop, for direction d. */
  function SideOf(sp: Spread, weights: seq<int>, table: seq<seq<seq<int>>>, xSize: int, ySize: int,
                  u: RemovalUpdate, d: int): (r: Spread)
    requires Shape(sp.s, xSize * ySize, |weights|) && AdjacencyTable(table, |weights|)
    requires 0 <= u.pattern < |weights| && 0 <= d < 4
    ensures Shape(r.s, xSize * ySize, |weights|)
  {
    match NeighbourAt(u, d, xSize, ySize)
    case None => sp
    case Some(c) =>
      if sp.s.counts[c] <= 1 then sp
      else
        OppositeIsInvolution(d);
        Visit(sp, weights, c, DirectionX[d] + u.xIndex, DirectionY[d] + u.yIndex, Opposite[d], table[d][u.pattern])
  }

  /** The visit of cell c at column x and row y, thinned on side e by list:
      a contradiction when no pattern is left, otherwise the events and the
      heap refresh when some pattern was ruled out. */
  function Visit(sp: Spread, weights: seq<int>, c: int, x: int, y: int, e: int, list: seq<int>): (r: Spread)
    requires Shape(sp.s, |sp.s.cells|, |weights|) && 0 <= c < |sp.s.cells| && 0 <= e < 4 && InRange(list, |weights|)
    ensures Shape(r.s, |sp.s.cells|, |weights|)
  {
    var removed := RemovedAt(sp.s, weights, c, e, list);
    var s := ThinAt(sp.s, weights, c, e, list);
    if |removed| >= sp.s.counts[c] then Spread(s, sp.pushed, sp.refreshed, Some(Contradiction(x, y)))
    else if |removed| > 0 then Spread(s, sp.pushed + Events(c, x, y, removed), sp.refreshed + [Refresh(c, s.sums[c])], sp.failed)
    else Spread(s, sp.pushed, sp.refreshed, sp.failed)
  }

  /** The turn for direction d visits the neighbour when it has two or more
      patterns, thinned on the side facing the update's cell. */
  lemma SideVisits(sp: Spread, weights: seq<int>, table: seq<seq<seq<int>>>, xSize: int, ySize: int,
                   u: RemovalUpdate, d: int, c: int, x: int, y: int)
    requires Shape(sp.s, xSize * ySize, |weights|) && AdjacencyTable(table, |weights|)
    requires 0 <= u.pattern < |weights| && 0 <= d < 4
    requires x == DirectionX[d] + u.xIndex && y == DirectionY[d] + u.yIndex
    requires NeighbourAt(u, d, xSize, ySize) == Some(c) && sp.s.counts[c] > 1
    ensures 0 <= Opposite[d] < 4
    ensures SideOf(sp, weights, table, xSize, ySize, u, d) == Visit(sp, weights, c, x, y, Opposite[d], table[d][u.pattern])
  {
    OppositeIsInvolution(d);
  }

  /** The turn for direction d changes nothing when the step leaves the
      output or the neighbour has at most one pattern. */
  lemma SideSkips(sp: Spread, weights: seq<int>, table: seq<seq<seq<int>>>, xSize: int, ySize: int,
                  u: RemovalUpdate, d: int)
    requires Shape(sp.s, xSize * ySize, |weights|) && AdjacencyTable(table, |weights|)
    requires 0 <= u.pattern < |weights| && 0 <= d < 4
    requires NeighbourAt(u, d, xSize, ySize).Some? ==> sp.s.counts[NeighbourAt(u, d, xSize, ySize).value] <= 1
    ensures SideOf(sp, weights, table, xSize, ySize, u, d) == sp
  {
  }

  /** PropagateUpdate after the directions below d; it stops at a contradiction. */
  function SpreadFrom(s: Tables, weights: seq<int>, table: seq<seq<seq<int>>>, xSize: int, ySize: int,
                      u: RemovalUpdate, d: int): (r: Spread)
    requires Shape(s, xSize * ySize, |weights|) && AdjacencyTable(table, |weights|)
    requires 0 <= u.pattern < |weights| && 0 <= d <= 4
    ensures Shape(r.s, xSize * ySize, |weights|)
  {
    if d == 0 then Spread(s, [], [], None)
    else
      var prev := SpreadFrom(s, weights, table, xSize, ySize, u, d - 1);
      if prev.failed.Some? then prev else SideOf(prev, weights, table, xSize, ySize, u, d - 1)
  }

  /** Once a contradiction is raised, the remaining directions are skipped. */
  lemma {:induction false} SpreadStops(s: Tables, weights: seq<int>, table: seq<seq<seq<int>>>, xSize: int, ySize: int,
                                       u: RemovalUpdate, j: int, k: int)
    requires Shape(s, xSize * ySize, |weights|) && AdjacencyTable(table, |weights|)
    requires 0 <= u.pattern < |weights| && 0 <= j <= k <= 4
    requires SpreadFrom(s, weights, table, xSize, ySize, u, j).failed.Some?
    ensures SpreadFrom(s, weights, table, xSize, ySize, u, k) == SpreadFrom(s, weights, table, xSize, ySize, u, j)
    decreases k
  {
    if k > j {
      SpreadStops(s, weights, table, xSize, ySize, u, j, k - 1);
    }
  }

  /** Cell c holds the same entries in both states. */
  ghost predicate Same(a: Tables, b: Tables, c: int)
    requires 0 <= c < |a.cells| && c < |a.support| && c < |a.counts| && c < |a.sums|
    requires 0 <= c < |b.cells| && c < |b.support| && c < |b.counts| && c < |b.sums|
  {
    a.cells[c] == b.cells[c] && a.support[c] == b.support[c] && a.counts[c] == b.counts[c] && a.sums[c] == b.sums[c]
  }

  /** From a to b patterns are only ruled out, counts never rise, and a cell
      with at most one pattern is never touched. */
  ghost predicate Descends(a: Tables, b: Tables, size: int, n: int)
    requires Shape(a, size, n) && Shape(b, size, n)
  {
    && (forall c, t :: 0 <= c < size && 0 <= t < n && b.cells[c][t] ==> a.cells[c][t])
    && (forall c :: 0 <= c < size ==> b.counts[c] <= a.counts[c])
    && (forall c :: 0 <= c < size && a.counts[c] <= 1 ==> Same(a, b, c))
  }

  lemma DescendsTransitive(a: Tables, b: Tables, c: Tables, size: int, n: int)
    requires Shape(a, size, n) && Shape(b, size, n) && Shape(c, size, n)
    requires Descends(a, b, size, n) && Descends(b, c, size, n)
    ensures Descends(a, c, size, n)
  {
    forall k | 0 <= k < size && a.counts[k] <= 1 ensures Same(a, c, k) {
      assert Same(a, b, k);
    }
  }

  /** The event's position is inside the output and its cell index is that
      position's flat index. */
  ghost predicate Placed(e: RemovalUpdate, xSize: int, ySize: int) {
    0 <= e.xIndex < xSize && 0 <= e.yIndex < ySize && e.cellIndex == e.xIndex + e.yIndex * xSize
  }

  /** Event e records that pattern e.pattern, possible at its cell in a, is
      ruled out in b. */
  ghost predicate Removal(a: Tables, b: Tables, e: RemovalUpdate, size: int, n: int)
    requires Shape(a, size, n) && Shape(b, size, n)
  {
    && 0 <= e.cellIndex < size && 0 <= e.pattern < n
    && a.cells[e.cellIndex][e.pattern] && !b.cells[e.cellIndex][e.pattern]
  }

  /** Every event of es is a removal from a to b at its own position. */
  ghost predicate Removals(a: Tables, b: Tables, es: seq<RemovalUpdate>, size: int, n: int, xSize: int, ySize: int)
    requires Shape(a, size, n) && Shape(b, size, n)
  {
    forall k :: 0 <= k < |es| ==> Removal(a, b, es[k], size, n) && Placed(es[k], xSize, ySize)
  }

  /** Only neighbours of the event's position change from a to b. */
  ghost predicate Local(a: Tables, b: Tables, size: int, n: int, u: RemovalUpdate, xSize: int, ySize: int)
    requires Shape(a, size, n) && Shape(b, size, n)
  {
    forall c :: 0 <= c < size && !Adjacent(c, u, xSize, ySize) ==> Same(a, b, c)
  }

  /** The count total drops by at least the number of gathered events, by
      exactly that number unless a contradiction was raised; each refresh
      follows at least one removal and names a cell. */
  ghost predicate Accounted(a: Tables, r: Spread, size: int) {
    && Sum(r.s.counts) + |r.pushed| <= Sum(a.counts)
    && (r.failed.None? ==> Sum(r.s.counts) + |r.pushed| == Sum(a.counts))
    && |r.refreshed| <= |r.pushed|
    && (forall k :: 0 <= k < |r.refreshed| ==> 0 <= r.refreshed[k].cell < size)
  }

  /** A contradiction names an in-bounds cell left with no pattern; without
      one, no cell that had a pattern lost all of them. */
  ghost predicate Settled(a: Tables, r: Spread, size: int, n: int, xSize: int, ySize: int)
    requires Shape(a, size, n) && Shape(r.s, size, n)
  {
    && (r.failed.Some? ==>
          var x, y := r.failed.value.xIndex, r.failed.value.yIndex;
          0 <= x < xSize && 0 <= y < ySize && 0 <= x + y * xSize < size && r.s.counts[x + y * xSize] <= 0)
    && (r.failed.None? ==> forall c :: 0 <= c < size && a.counts[c] >= 1 ==> r.s.counts[c] >= 1)
  }

  /** What PropagateUpdate promises about its progress from state s to r: it
      only rules patterns out, never touching a cell with at most one pattern
      or a cell that is not a neighbour of the event; every gathered event is
      one of those removals; and the accounting and the contradiction are as
      above. */
  ghost predicate Progress(s: Tables, r: Spread, size: int, n: int, u: RemovalUpdate, xSize: int, ySize: int)
    requires Shape(s, size, n) && Shape(r.s, size, n)
  {
    && Descends(s, r.s, size, n)
    && Local(s, r.s, size, n, u, xSize, ySize)
    && Removals(s, r.s, r.pushed, size, n, xSize, ySize)
    && Accounted(s, r, size)
    && Settled(s, r, size, n, xSize, ySize)
  }

  lemma RemovalsJoin(a: Tables, b: Tables, c: Tables, es: seq<RemovalUpdate>, fs: seq<RemovalUpdate>,
                     size: int, n: int, xSize: int, ySize: int)
    requires Shape(a, size, n) && Shape(b, size, n) && Shape(c, size, n)
    requires Descends(a, b, size, n) && Descends(b, c, size, n)
    requires Removals(a, b, es, size, n, xSize, ySize) && Removals(b, c, fs, size, n, xSize, ySize)
    ensures Removals(a, c, es + fs, size, n, xSize, ySize)
  {
    forall k | 0 <= k < |es + fs| ensures Removal(a, c, (es + fs)[k], size, n) && Placed((es + fs)[k], xSize, ySize) {
      if k < |es| {
        assert Removal(a, b, es[k], size, n);
      } else {
        assert Removal(b, c, fs[k - |es|], size, n);
      }
    }
  }

  lemma LocalJoin(a: Tables, b: Tables, c: Tables, size: int, n: int, u: RemovalUpdate, xSize: int, ySize: int)
    requires Shape(a, size, n) && Shape(b, size, n) && Shape(c, size, n)
    requires Local(a, b, size, n, u, xSize, ySize) && Local(b, c, size, n, u, xSize, ySize)
    ensures Local(a, c, size, n, u, xSize, ySize)
  {
    forall k | 0 <= k < size && !Adjacent(k, u, xSize, ySize) ensures Same(a, c, k) {
      assert Same(a, b, k) && Same(b, c, k);
    }
  }

  /** Progress from s to sp, then from sp.s on to a further step, is progress
      from s to the two joined. */
  lemma ProgressJoin(s: Tables, sp: Spread, step: Spread, size: int, n: int, u: RemovalUpdate, xSize: int, ySize: int)
    requires Shape(s, size, n) && Shape(sp.s, size, n) && Shape(step.s, size, n)
    requires Progress(s, sp, size, n, u, xSize, ySize) && sp.failed.None?
    requires Progress(sp.s, step, size, n, u, xSize, ySize)
    ensures Progress(s, Spread(step.s, sp.pushed + step.pushed, sp.refreshed + step.refreshed, step.failed), size, n, u, xSize, ySize)
  {
    DescendsTransitive(s, sp.s, step.s, size, n);
    LocalJoin(s, sp.s, step.s, size, n, u, xSize, ySize);
    RemovalsJoin(s, sp.s, step.s, sp.pushed, step.pushed, size, n, xSize, ySize);
    var r := Spread(step.s, sp.pushed + step.pushed, sp.refreshed + step.refreshed, step.failed);
    assert Accounted(s, r, size) by {
      forall k | 0 <= k < |r.refreshed| ensures 0 <= r.refreshed[k].cell < size {
        if k >= |sp.refreshed| {
          assert r.refreshed[k] == step.refreshed[k - |sp.refreshed|];
        }
      }
    }
  }

  /** A turn of the loop started from sp is the same turn started afresh from
      sp's state, joined onto sp. */
  lemma SideJoins(sp: Spread, weights: seq<int>, table: seq<seq<seq<int>>>, xSize: int, ySize: int, u: RemovalUpdate, d: int)
    requires Shape(sp.s, xSize * ySize, |weights|) && AdjacencyTable(table, |weights|)
    requires 0 <= u.pattern < |weights| && 0 <= d < 4 && sp.failed.None?
    ensures var step := SideOf(Spread(sp.s, [], [], None), weights, table, xSize, ySize, u, d);
      SideOf(sp, weights, table, xSize, ySize, u, d) == Spread(step.s, sp.pushed + step.pushed, sp.refreshed + step.refreshed, step.failed)
  {
  }

  /** Thinning cell c, which has two or more patterns, only rules patterns
      out there and leaves every other cell alone. */
  lemma ThinDescends(t: Tables, weights: seq<int>, size: int, c: int, e: int, list: seq<int>)
    requires Shape(t, size, |weights|) && 0 <= c < size && 0 <= e < 4 && InRange(list, |weights|) && NoDuplicates(list)
    requires t.counts[c] > 1
    ensures var r := ThinAt(t, weights, c, e, list);
      && Descends(t, r, size, |weights|)
      && (forall c' :: 0 <= c' < size && c' != c ==> Same(t, r, c'))
  {
    var th := Thin(t.cells[c], t.support[c], weights, e, list);
    var r := ThinAt(t, weights, c, e, list);
    assert r == Tables(t.cells[c := th.row], t.support[c := th.support], t.counts[c := t.counts[c] - |th.removed|], t.sums[c := t.sums[c] - th.lost]);
    ThinRow(t.cells[c], t.support[c], weights, e, list);
  }

  /** The patterns thinning rules out were possible and are gone, and the
      count total drops by their number. */
  lemma ThinRemovals(t: Tables, weights: seq<int>, size: int, c: int, e: int, list: seq<int>)
    requires Shape(t, size, |weights|) && 0 <= c < size && 0 <= e < 4 && InRange(list, |weights|) && NoDuplicates(list)
    ensures var r := ThinAt(t, weights, c, e, list);
      var removed := RemovedAt(t, weights, c, e, list);
      && r.counts[c] == t.counts[c] - |removed|
      && Sum(r.counts) == Sum(t.counts) - |removed|
      && (forall k :: 0 <= k < |removed| ==> 0 <= removed[k] < |weights| && t.cells[c][removed[k]] && !r.cells[c][removed[k]])
  {
    var th := Thin(t.cells[c], t.support[c], weights, e, list);
    SumUpdate(t.counts, c, t.counts[c] - |th.removed|);
    ThinRemovesPossible(t.cells[c], t.support[c], weights, e, list);
  }

  /** One direction, started afresh from state t, keeps the state consistent. */
  lemma SideConsistent(t: Tables, weights: seq<int>, offset: int, table: seq<seq<seq<int>>>,
                       xSize: int, ySize: int, u: RemovalUpdate, d: int)
    requires Shape(t, xSize * ySize, |weights|) && AdjacencyTable(table, |weights|)
    requires 0 <= u.pattern < |weights| && 0 <= d < 4
    requires Consistent(t, weights, offset, table, |weights|)
    ensures Consistent(SideOf(Spread(t, [], [], None), weights, table, xSize, ySize, u, d).s, weights, offset, table, |weights|)
  {
    var nb := NeighbourAt(u, d, xSize, ySize);
    if nb.Some? && t.counts[nb.value] > 1 {
      var list := table[d][u.pattern];
      forall k | 0 <= k < |list| ensures |table[Opposite[d]][list[k]]| > 0 {
        SymmetricAt(table, |weights|, d, u.pattern, list[k]);
      }
      ThinKeepsConsistent(t, weights, offset, table, nb.value, Opposite[d], list);
    }
  }

  /** One direction, started afresh from state t, only rules patterns out,
      and only at the neighbour it visits. */
  lemma SideDescends(t: Tables, weights: seq<int>, table: seq<seq<seq<int>>>,
                     size: int, xSize: int, ySize: int, u: RemovalUpdate, d: int)
    requires size == xSize * ySize && Shape(t, size, |weights|) && AdjacencyTable(table, |weights|)
    requires 0 <= u.pattern < |weights| && 0 <= d < 4
    ensures var r := SideOf(Spread(t, [], [], None), weights, table, xSize, ySize, u, d);
      Descends(t, r.s, size, |weights|) && Local(t, r.s, size, |weights|, u, xSize, ySize)
  {
    var nb := NeighbourAt(u, d, xSize, ySize);
    if nb.Some? && t.counts[nb.value] > 1 {
      var c := nb.value;
      ThinDescends(t, weights, size, c, Opposite[d], table[d][u.pattern]);
      assert Adjacent(c, u, xSize, ySize);
    }
  }

  /** The events one direction gathers are removals at the visited neighbour. */
  lemma SideRemovals(t: Tables, weights: seq<int>, table: seq<seq<seq<int>>>,
                     size: int, xSize: int, ySize: int, u: RemovalUpdate, d: int)
    requires size == xSize * ySize && Shape(t, size, |weights|) && AdjacencyTable(table, |weights|)
    requires 0 <= u.pattern < |weights| && 0 <= d < 4
    ensures var r := SideOf(Spread(t, [], [], None), weights, table, xSize, ySize, u, d);
      Removals(t, r.s, r.pushed, size, |weights|, xSize, ySize)
  {
    var r := SideOf(Spread(t, [], [], None), weights, table, xSize, ySize, u, d);
    var nb := NeighbourAt(u, d, xSize, ySize);
    if nb.Some? && t.counts[nb.value] > 1 {
      var c := nb.value;
      var x, y := DirectionX[d] + u.xIndex, DirectionY[d] + u.yIndex;
      var list := table[d][u.pattern];
      var removed := RemovedAt(t, weights, c, Opposite[d], list);
      ThinRemovals(t, weights, size, c, Opposite[d], list);
      forall k | 0 <= k < |r.pushed| ensures Removal(t, r.s, r.pushed[k], size, |weights|) && Placed(r.pushed[k], xSize, ySize) {
        assert r.pushed[k] == RemovalUpdate(c, removed[k], x, y);
      }
    }
  }

  /** One direction accounts for its removals and raises a contradiction
      exactly when the visited neighbour is left with no pattern. */
  lemma SideSettles(t: Tables, weights: seq<int>, table: seq<seq<seq<int>>>,
                    size: int, xSize: int, ySize: int, u: RemovalUpdate, d: int)
    requires size == xSize * ySize && Shape(t, size, |weights|) && AdjacencyTable(table, |weights|)
    requires 0 <= u.pattern < |weights| && 0 <= d < 4
    ensures var r := SideOf(Spread(t, [], [], None), weights, table, xSize, ySize, u, d);
      Accounted(t, r, size) && Settled(t, r, size, |weights|, xSize, ySize)
  {
    var nb := NeighbourAt(u, d, xSize, ySize);
    if nb.Some? && t.counts[nb.value] > 1 {
      var c := nb.value;
      ThinRemovals(t, weights, size, c, Opposite[d], table[d][u.pattern]);
      ThinDescends(t, weights, size, c, Opposite[d], table[d][u.pattern]);
    }
  }

  /** One direction, started afresh from state t, makes progress. */
  lemma SideProgress(t: Tables, weights: seq<int>, table: seq<seq<seq<int>>>,
                     size: int, xSize: int, ySize: int, u: RemovalUpdate, d: int)
    requires size == xSize * ySize && Shape(t, size, |weights|) && AdjacencyTable(table, |weights|)
    requires 0 <= u.pattern < |weights| && 0 <= d < 4
    ensures var r := SideOf(Spread(t, [], [], None), weights, table, xSize, ySize, u, d);
      Progress(t, r, size, |weights|, u, xSize, ySize)
  {
    SideDescends(t, weights, table, size, xSize, ySize, u, d);
    SideRemovals(t, weights, table, size, xSize, ySize, u, d);
    SideSettles(t, weights, table, size, xSize, ySize, u, d);
  }

  /** Before any direction is visited nothing has happened. */
  lemma ProgressStart(s: Tables, size: int, n: int, u: RemovalUpdate, xSize: int, ySize: int)
    requires Shape(s, size, n)
    ensures Progress(s, Spread(s, [], [], None), size, n, u, xSize, ySize)
  {
  }

  /** PropagateUpdate keeps the state consistent and makes the progress above. */
  lemma {:induction false} SpreadProgress(s: Tables, weights: seq<int>, offset: int, table: seq<seq<seq<int>>>,
                                          xSize: int, ySize: int, u: RemovalUpdate, d: int)
    requires Shape(s, xSize * ySize, |weights|) && AdjacencyTable(table, |weights|)
    requires 0 <= u.pattern < |weights| && 0 <= d <= 4
    requires Consistent(s, weights, offset, table, |weights|)
    ensures var r := SpreadFrom(s, weights, table, xSize, ySize, u, d);
      Consistent(r.s, weights, offset, table, |weights|) && Progress(s, r, xSize * ySize, |weights|, u, xSize, ySize)
    decreases d
  {
    if d == 0 {
      ProgressStart(s, xSize * ySize, |weights|, u, xSize, ySize);
    } else {
      SpreadProgress(s, weights, offset, table, xSize, ySize, u, d - 1);
      var prev := SpreadFrom(s, weights, table, xSize, ySize, u, d - 1);
      if prev.failed.None? {
        assert SpreadFrom(s, weights, table, xSize, ySize, u, d) == SideOf(prev, weights, table, xSize, ySize, u, d - 1);
        SideKeepsProgress(s, prev, weights, offset, table, xSize, ySize, u, d - 1);
      } else {
        assert SpreadFrom(s, weights, table, xSize, ySize, u, d) == prev;
      }
    }
  }

  /** The visit in direction d keeps the state consistent and extends the
      progress made in the directions before it. */
  lemma SideKeepsProgress(s: Tables, prev: Spread, weights: seq<int>, offset: int, table: seq<seq<seq<int>>>,
                          xSize: int, ySize: int, u: RemovalUpdate, d: int)
    requires Shape(s, xSize * ySize, |weights|) && Shape(prev.s, xSize * ySize, |weights|) && AdjacencyTable(table, |weights|)
    requires 0 <= u.pattern < |weights| && 0 <= d < 4 && prev.failed.None?
    requires Consistent(prev.s, weights, offset, table, |weights|) && Progress(s, prev, xSize * ySize, |weights|, u, xSize, ySize)
    ensures var r := SideOf(prev, weights, table, xSize, ySize, u, d);
      Consistent(r.s, weights, offset, table, |weights|) && Progress(s, r, xSize * ySize, |weights|, u, xSize, ySize)
  {
    SideConsistent(prev.s, weights, offset, table, xSize, ySize, u, d);
    SideProgress(prev.s, weights, table, xSize * ySize, xSize, ySize, u, d);
    SideJoins(prev, weights, table, xSize, ySize, u, d);
    var step := SideOf(Spread(prev.s, [], [], None), weights, table, xSize, ySize, u, d);
    ProgressJoin(s, prev, step, xSize * ySize, |weights|, u, xSize, ySize);
  }
}
