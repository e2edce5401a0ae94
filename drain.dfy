/** What Wfc.Propagate does with the whole removal stack, as a function of
    the wave state: it takes the newest event off the stack, propagates it,
    pushes the events that propagation gathered, and goes on until the stack
    is empty or a contradiction stops it. */
module Draining {
  import opened Sequences
  import opened Wrappers
  import opened Adjacency
  import opened Wave
  import opened Propagation

  /** Where Propagate ends: the wave state, every heap refresh in order, the
      stack left behind and the contradiction that stopped it, if any. */
  datatype Drained = Drained(s: Tables, refreshed: seq<Refresh>, left: seq<RemovalUpdate>, failed: Option<Contradiction>)

  /** Every event on the stack names one of n patterns. */
  ghost predicate Patterns(stack: seq<RemovalUpdate>, n: int) {
    forall k :: 0 <= k < |stack| ==> 0 <= stack[k].pattern < n
  }

  /** Counts are numbers of possible patterns, so their total is never negative. */
  lemma CountsNonNegative(s: Tables, weights: seq<int>, offset: int, table: seq<seq<seq<int>>>, n: int)
    requires Consistent(s, weights, offset, table, n)
    ensures Sum(s.counts) >= 0
  {
    forall c | 0 <= c < |s.counts| ensures s.counts[c] >= 0 {
      assert CellTallied(s.cells[c], s.counts[c], s.sums[c], weights, offset);
    }
    SumNonNegative(s.counts);
  }

  /** The events one propagation gathers name patterns. */
  lemma PushedPatterns(s: Tables, r: Spread, rest: seq<RemovalUpdate>, size: int, n: int, u: RemovalUpdate, xSize: int, ySize: int)
    requires Shape(s, size, n) && Shape(r.s, size, n) && Progress(s, r, size, n, u, xSize, ySize)
    requires Patterns(rest, n)
    ensures Patterns(rest + r.pushed, n)
  {
    forall k | 0 <= k < |rest + r.pushed| ensures 0 <= (rest + r.pushed)[k].pattern < n {
      if k >= |rest| {
        assert Removal(s, r.s, r.pushed[k - |rest|], size, n);
      }
    }
  }

  /** Propagate on state s with the given stack. Every event propagated
      takes one off the stack and lowers the count total by as many events
      as it pushes, so the run ends. */
  function Drain(s: Tables, weights: seq<int>, offset: int, table: seq<seq<seq<int>>>,
                 xSize: int, ySize: int, stack: seq<RemovalUpdate>): (r: Drained)
    requires Shape(s, xSize * ySize, |weights|) && AdjacencyTable(table, |weights|)
    requires Consistent(s, weights, offset, table, |weights|) && Patterns(stack, |weights|)
    ensures Shape(r.s, xSize * ySize, |weights|)
    decreases Sum(s.counts) + |stack|
  {
    CountsNonNegative(s, weights, offset, table, |weights|);
    if stack == [] then Drained(s, [], [], None)
    else
      var u := stack[|stack| - 1];
      var rest := stack[..|stack| - 1];
      SpreadProgress(s, weights, offset, table, xSize, ySize, u, 4);
      var sp := SpreadFrom(s, weights, table, xSize, ySize, u, 4);
      if sp.failed.Some? then Drained(sp.s, sp.refreshed, rest, sp.failed)
      else
        PushedPatterns(s, sp, rest, xSize * ySize, |weights|, u, xSize, ySize);
        var next := Drain(sp.s, weights, offset, table, xSize, ySize, rest + sp.pushed);
        Drained(next.s, sp.refreshed + next.refreshed, next.left, next.failed)
  }

  /** Propagating the top event of the stack first, then the rest. */
  lemma DrainStep(s: Tables, weights: seq<int>, offset: int, table: seq<seq<seq<int>>>,
                  xSize: int, ySize: int, rest: seq<RemovalUpdate>, u: RemovalUpdate)
    requires Shape(s, xSize * ySize, |weights|) && AdjacencyTable(table, |weights|)
    requires Consistent(s, weights, offset, table, |weights|) && Patterns(rest, |weights|) && 0 <= u.pattern < |weights|
    ensures var sp := SpreadFrom(s, weights, table, xSize, ySize, u, 4);
      && Consistent(sp.s, weights, offset, table, |weights|)
      && Patterns(rest + sp.pushed, |weights|)
      && (sp.failed.None? ==> Sum(sp.s.counts) + |sp.pushed| == Sum(s.counts))
      && Drain(s, weights, offset, table, xSize, ySize, rest + [u])
         == if sp.failed.Some? then Drained(sp.s, sp.refreshed, rest, sp.failed)
            else
              var next := Drain(sp.s, weights, offset, table, xSize, ySize, rest + sp.pushed);
              Drained(next.s, sp.refreshed + next.refreshed, next.left, next.failed)
  {
    var stack := rest + [u];
    assert stack[|stack| - 1] == u && stack[..|stack| - 1] == rest;
    assert Patterns(stack, |weights|) by {
      forall k | 0 <= k < |stack| ensures 0 <= stack[k].pattern < |weights| {
        if k < |rest| {
          assert stack[k] == rest[k];
        }
      }
    }
    SpreadProgress(s, weights, offset, table, xSize, ySize, u, 4);
    var sp := SpreadFrom(s, weights, table, xSize, ySize, u, 4);
    PushedPatterns(s, sp, rest, xSize * ySize, |weights|, u, xSize, ySize);
  }

  /** A run that has made the refreshes refs so far and is now at state s
      with the given stack will end at total. */
  ghost predicate Ahead(total: Drained, refs: seq<Refresh>, s: Tables, weights: seq<int>, offset: int,
                        table: seq<seq<seq<int>>>, xSize: int, ySize: int, stack: seq<RemovalUpdate>)
    requires Shape(s, xSize * ySize, |weights|) && AdjacencyTable(table, |weights|)
    requires Consistent(s, weights, offset, table, |weights|) && Patterns(stack, |weights|)
  {
    var rest := Drain(s, weights, offset, table, xSize, ySize, stack);
    total == Drained(rest.s, refs + rest.refreshed, rest.left, rest.failed)
  }

  /** Taking the top event off moves the run along: it either ends there,
      at a contradiction, or goes on from the state and stack it leaves. */
  lemma AheadStep(total: Drained, refs: seq<Refresh>, s: Tables, weights: seq<int>, offset: int,
                  table: seq<seq<seq<int>>>, xSize: int, ySize: int, rest: seq<RemovalUpdate>, u: RemovalUpdate)
    requires Shape(s, xSize * ySize, |weights|) && AdjacencyTable(table, |weights|)
    requires Consistent(s, weights, offset, table, |weights|) && Patterns(rest, |weights|) && 0 <= u.pattern < |weights|
    requires Patterns(rest + [u], |weights|) && Ahead(total, refs, s, weights, offset, table, xSize, ySize, rest + [u])
    ensures var sp := SpreadFrom(s, weights, table, xSize, ySize, u, 4);
      && Consistent(sp.s, weights, offset, table, |weights|) && Patterns(rest + sp.pushed, |weights|)
      && (sp.failed.Some? ==> total == Drained(sp.s, refs + sp.refreshed, rest, sp.failed))
      && (sp.failed.None? ==> Sum(sp.s.counts) + |rest + sp.pushed| < Sum(s.counts) + |rest + [u]|)
      && (sp.failed.None? ==> Ahead(total, refs + sp.refreshed, sp.s, weights, offset, table, xSize, ySize, rest + sp.pushed))
  {
    DrainStep(s, weights, offset, table, xSize, ySize, rest, u);
    var sp := SpreadFrom(s, weights, table, xSize, ySize, u, 4);
    if sp.failed.None? {
      var next := Drain(sp.s, weights, offset, table, xSize, ySize, rest + sp.pushed);
      assert refs + (sp.refreshed + next.refreshed) == (refs + sp.refreshed) + next.refreshed;
    }
  }

  /** An empty stack leaves everything as it is. */
  lemma DrainEmpty(s: Tables, weights: seq<int>, offset: int, table: seq<seq<seq<int>>>, xSize: int, ySize: int)
    requires Shape(s, xSize * ySize, |weights|) && AdjacencyTable(table, |weights|)
    requires Consistent(s, weights, offset, table, |weights|)
    ensures Drain(s, weights, offset, table, xSize, ySize, []) == Drained(s, [], [], None)
  {
  }

  /** What Propagate promises about where it ends, from state s: the state
      stays consistent and only descends; the count total drops by at least
      the number of heap refreshes, each of which names a cell; a
      contradiction names an in-bounds cell left with no pattern; without
      one, the stack is empty and no cell that had a pattern lost all of
      them. */
  ghost predicate Finished(s: Tables, r: Drained, weights: seq<int>, offset: int, table: seq<seq<seq<int>>>,
                           xSize: int, ySize: int)
    requires Shape(s, xSize * ySize, |weights|) && Shape(r.s, xSize * ySize, |weights|)
  {
    var size := xSize * ySize;
    && Consistent(r.s, weights, offset, table, |weights|)
    && Descends(s, r.s, size, |weights|)
    && Sum(r.s.counts) + |r.refreshed| <= Sum(s.counts)
    && (forall k :: 0 <= k < |r.refreshed| ==> 0 <= r.refreshed[k].cell < size)
    && (r.failed.Some? ==>
          var x, y := r.failed.value.xIndex, r.failed.value.yIndex;
          0 <= x < xSize && 0 <= y < ySize && 0 <= x + y * xSize < size && r.s.counts[x + y * xSize] <= 0)
    && (r.failed.None? ==> r.left == [] && forall c :: 0 <= c < size && s.counts[c] >= 1 ==> r.s.counts[c] >= 1)
  }

  /** Progress for one event, then a finished run from where it left off,
      is a finished run. */
  lemma FinishedJoin(s: Tables, sp: Spread, next: Drained, weights: seq<int>, offset: int, table: seq<seq<seq<int>>>,
                     xSize: int, ySize: int, u: RemovalUpdate)
    requires Shape(s, xSize * ySize, |weights|) && Shape(sp.s, xSize * ySize, |weights|) && Shape(next.s, xSize * ySize, |weights|)
    requires Progress(s, sp, xSize * ySize, |weights|, u, xSize, ySize) && sp.failed.None?
    requires Finished(sp.s, next, weights, offset, table, xSize, ySize)
    ensures Finished(s, Drained(next.s, sp.refreshed + next.refreshed, next.left, next.failed), weights, offset, table, xSize, ySize)
  {
    var size := xSize * ySize;
    DescendsTransitive(s, sp.s, next.s, size, |weights|);
    var r := Drained(next.s, sp.refreshed + next.refreshed, next.left, next.failed);
    forall k | 0 <= k < |r.refreshed| ensures 0 <= r.refreshed[k].cell < size {
      if k >= |sp.refreshed| {
        assert r.refreshed[k] == next.refreshed[k - |sp.refreshed|];
      }
    }
  }

  /** A propagation stopped by a contradiction finishes the run. */
  lemma FinishedByFailure(s: Tables, sp: Spread, rest: seq<RemovalUpdate>, weights: seq<int>, offset: int,
                          table: seq<seq<seq<int>>>, xSize: int, ySize: int, u: RemovalUpdate)
    requires Shape(s, xSize * ySize, |weights|) && Shape(sp.s, xSize * ySize, |weights|)
    requires Progress(s, sp, xSize * ySize, |weights|, u, xSize, ySize) && sp.failed.Some?
    requires Consistent(sp.s, weights, offset, table, |weights|)
    ensures Finished(s, Drained(sp.s, sp.refreshed, rest, sp.failed), weights, offset, table, xSize, ySize)
  {
  }

  /** An empty stack finishes at once. */
  lemma FinishedAtOnce(s: Tables, weights: seq<int>, offset: int, table: seq<seq<seq<int>>>, xSize: int, ySize: int)
    requires Shape(s, xSize * ySize, |weights|) && Consistent(s, weights, offset, table, |weights|)
    ensures Finished(s, Drained(s, [], [], None), weights, offset, table, xSize, ySize)
  {
    forall c | 0 <= c < xSize * ySize && s.counts[c] <= 1 ensures Same(s, s, c) { }
  }

  lemma {:induction false} DrainFinishes(s: Tables, weights: seq<int>, offset: int, table: seq<seq<seq<int>>>,
                                         xSize: int, ySize: int, stack: seq<RemovalUpdate>)
    requires Shape(s, xSize * ySize, |weights|) && AdjacencyTable(table, |weights|)
    requires Consistent(s, weights, offset, table, |weights|) && Patterns(stack, |weights|)
    ensures Finished(s, Drain(s, weights, offset, table, xSize, ySize, stack), weights, offset, table, xSize, ySize)
    decreases Sum(s.counts) + |stack|
  {
    CountsNonNegative(s, weights, offset, table, |weights|);
    var r := Drain(s, weights, offset, table, xSize, ySize, stack);
    if stack == [] {
      assert r == Drained(s, [], [], None);
      FinishedAtOnce(s, weights, offset, table, xSize, ySize);
    } else {
      var u := stack[|stack| - 1];
      var rest := stack[..|stack| - 1];
      SpreadProgress(s, weights, offset, table, xSize, ySize, u, 4);
      var sp := SpreadFrom(s, weights, table, xSize, ySize, u, 4);
      if sp.failed.Some? {
        assert r == Drained(sp.s, sp.refreshed, rest, sp.failed);
        FinishedByFailure(s, sp, rest, weights, offset, table, xSize, ySize, u);
      } else {
        PushedPatterns(s, sp, rest, xSize * ySize, |weights|, u, xSize, ySize);
        var next := Drain(sp.s, weights, offset, table, xSize, ySize, rest + sp.pushed);
        assert r == Drained(next.s, sp.refreshed + next.refreshed, next.left, next.failed);
        DrainFinishes(sp.s, weights, offset, table, xSize, ySize, rest + sp.pushed);
        FinishedJoin(s, sp, next, weights, offset, table, xSize, ySize, u);
      }
    }
  }
}
