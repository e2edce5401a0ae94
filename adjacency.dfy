/** The adjacency table of Wfc.InitializeAdjacencies: for every direction d
    and pattern t1, the patterns t2 that agree with t1 on the overlap when t2
    is shifted one cell along direction d. */
module Adjacency {
  import opened Sequences
  import opened WfcHelper

  /** opposite, directionX and directionY: left, down, right, up in the
      source's numbering, with d and opposite[d] pointing back at each other. */
  const Opposite: seq<int> := [2, 3, 0, 1]
  const DirectionX: seq<int> := [-1, 0, 1, 0]
  const DirectionY: seq<int> := [0, 1, 0, -1]

  /** The opposite of the opposite is the direction itself, and the opposite
      direction's offset is the negated offset. */
  lemma OppositeIsInvolution(d: int)
    requires 0 <= d < 4
    ensures 0 <= Opposite[d] < 4 && Opposite[Opposite[d]] == d && Opposite[d] != d
    ensures DirectionX[Opposite[d]] == -DirectionX[d] && DirectionY[Opposite[d]] == -DirectionY[d]
  {
  }

  lemma DirectionIsUnit(d: int)
    requires 0 <= d < 4
    ensures UnitOffset(DirectionX[d], DirectionY[d])
  {
  }

  /** The direction PropagateToCell recovers from the offset of the neighbour
      to the removal's cell. */
  function DirectionTo(dx: int, dy: int): (d: int)
    ensures 0 <= d < 4
  {
    if dx == -1 then 0
    else if dy == 1 then 1
    else if dx == 1 then 2
    else 3
  }

  /** Recovering the direction from its own offset gives it back. */
  lemma DirectionToInverts(d: int)
    requires 0 <= d < 4
    ensures DirectionTo(DirectionX[d], DirectionY[d]) == d
  {
  }

  /** The patterns t2 < n that overlap t1 in direction d, in ascending order:
      the list the t2 loop builds. */
  ghost function Matches(patterns: seq<Pattern>, t1: int, d: int, n: int): seq<int>
    requires 0 <= t1 < |patterns| && 0 <= d < 4 && 0 <= n <= |patterns|
    decreases n
  {
    DirectionIsUnit(d);
    if n == 0 then []
    else
      var prev := Matches(patterns, t1, d, n - 1);
      if Overlaps(patterns[t1], patterns[n - 1], DirectionX[d], DirectionY[d]) then prev + [n - 1]
      else prev
  }

  /** The list of the first n patterns overlapping t1 is ascending, holds
      only indices below n, and holds every such index that overlaps. */
  lemma {:induction false} MatchesLists(patterns: seq<Pattern>, t1: int, d: int, n: int)
    requires 0 <= t1 < |patterns| && 0 <= d < 4 && 0 <= n <= |patterns|
    ensures var r := Matches(patterns, t1, d, n);
      && Ascending(r)
      && (forall k :: 0 <= k < |r| ==> 0 <= r[k] < n)
      && (forall t2 :: 0 <= t2 < n ==> (t2 in r <==> Overlaps(patterns[t1], patterns[t2], DirectionX[d], DirectionY[d])))
    decreases n
  {
    if n > 0 {
      MatchesLists(patterns, t1, d, n - 1);
    }
  }

  /** The whole table, indexed [d][t1]. */
  ghost function Propagators(patterns: seq<Pattern>): (table: seq<seq<seq<int>>>)
    ensures |table| == 4 && forall d :: 0 <= d < 4 ==> |table[d]| == |patterns|
  {
    seq(4, d requires 0 <= d < 4 =>
      seq(|patterns|, t1 requires 0 <= t1 < |patterns| => Matches(patterns, t1, d, |patterns|)))
  }

  /** Entry [d][t1] of the table is the list the t2 loop builds over all
      the patterns. */
  lemma PropagatorsEntry(patterns: seq<Pattern>, d: int, t1: int)
    requires 0 <= d < 4 && 0 <= t1 < |patterns|
    ensures Propagators(patterns)[d][t1] == Matches(patterns, t1, d, |patterns|)
  {
  }

  /** Row t1 of direction d lists exactly the patterns overlapping t1 in
      direction d, ascending, hence without duplicates. */
  lemma PropagatorsListOverlaps(patterns: seq<Pattern>, d: int, t1: int)
    requires 0 <= d < 4 && 0 <= t1 < |patterns|
    ensures var list := Propagators(patterns)[d][t1];
      && Ascending(list) && NoDuplicates(list)
      && (forall k :: 0 <= k < |list| ==> 0 <= list[k] < |patterns|)
      && (forall t2 :: 0 <= t2 < |patterns| ==>
            (t2 in list <==> Overlaps(patterns[t1], patterns[t2], DirectionX[d], DirectionY[d])))
  {
    PropagatorsEntry(patterns, d, t1);
    MatchesLists(patterns, t1, d, |patterns|);
  }

  /** t2 may follow t1 in direction d exactly when t1 may follow t2 in the
      opposite direction. */
  lemma PropagatorsSymmetric(patterns: seq<Pattern>, d: int, t1: int, t2: int)
    requires 0 <= d < 4 && 0 <= t1 < |patterns| && 0 <= t2 < |patterns|
    ensures t2 in Propagators(patterns)[d][t1] <==> t1 in Propagators(patterns)[Opposite[d]][t2]
  {
    OppositeIsInvolution(d);
    var dx, dy := DirectionX[d], DirectionY[d];
    DirectionIsUnit(d);
    PropagatorsListOverlaps(patterns, d, t1);
    PropagatorsListOverlaps(patterns, Opposite[d], t2);
    OverlapsSymmetric(patterns[t1], patterns[t2], dx, dy);
  }

  /** Every pattern is compatible with itself when it is a single repeated
      byte, in every direction. */
  lemma UniformPatternSelfCompatible(patterns: seq<Pattern>, d: int, t: int, b: byte)
    requires 0 <= d < 4 && 0 <= t < |patterns| && patterns[t] == Uniform(b)
    ensures t in Propagators(patterns)[d][t]
  {
    DirectionIsUnit(d);
    PropagatorsListOverlaps(patterns, d, t);
    UniformOverlapsItself(b, DirectionX[d], DirectionY[d]);
  }

  /** Every entry of list names one of n patterns. */
  ghost predicate InRange(list: seq<int>, n: int) {
    forall k :: 0 <= k < |list| ==> 0 <= list[k] < n
  }

  /** t2 may follow t1 in a direction exactly when t1 may follow t2 in the
      opposite direction (directions 0 and 2, and 1 and 3, are opposite). */
  ghost predicate Symmetric(table: seq<seq<seq<int>>>, n: int)
    requires |table| == 4 && forall d :: 0 <= d < 4 ==> |table[d]| == n
  {
    forall t1, t2 {:trigger SymmetricPair(table, n, t1, t2)} :: 0 <= t1 < n && 0 <= t2 < n ==> SymmetricPair(table, n, t1, t2)
  }

  /** t2 may follow t1 to the left (upwards) exactly when t1 may follow t2
      to the right (downwards). */
  ghost predicate SymmetricPair(table: seq<seq<seq<int>>>, n: int, t1: int, t2: int)
    requires |table| == 4 && forall d :: 0 <= d < 4 ==> |table[d]| == n
    requires 0 <= t1 < n && 0 <= t2 < n
  {
    && (t2 in table[0][t1] <==> t1 in table[2][t2])
    && (t2 in table[1][t1] <==> t1 in table[3][t2])
  }

  /** What the solver relies on in an adjacency table over n patterns: four
      directions, one ascending list of pattern indices per pattern and
      direction, and symmetry. */
  ghost predicate AdjacencyTable(table: seq<seq<seq<int>>>, n: int) {
    && |table| == 4
    && (forall d :: 0 <= d < 4 ==> |table[d]| == n)
    && (forall d, t :: 0 <= d < 4 && 0 <= t < n ==> Ascending(table[d][t]) && InRange(table[d][t], n))
    && Symmetric(table, n)
  }

  lemma SymmetricAt(table: seq<seq<seq<int>>>, n: int, d: int, t1: int, t2: int)
    requires AdjacencyTable(table, n) && 0 <= d < 4 && 0 <= t1 < n && 0 <= t2 < n
    ensures t2 in table[d][t1] <==> t1 in table[Opposite[d]][t2]
  {
    if d < 2 {
      assert SymmetricPair(table, n, t1, t2);
    } else {
      assert SymmetricPair(table, n, t2, t1);
    }
  }

  /** The table InitializeAdjacencies builds has that shape. */
  lemma PropagatorsAreTable(patterns: seq<Pattern>)
    ensures AdjacencyTable(Propagators(patterns), |patterns|)
  {
    PropagatorsAscending(patterns);
    PropagatorsSymmetricTable(patterns);
  }

  /** Every list of the table is ascending and names patterns only. */
  lemma PropagatorsAscending(patterns: seq<Pattern>)
    ensures var table, n := Propagators(patterns), |patterns|;
      forall d, t :: 0 <= d < 4 && 0 <= t < n ==> Ascending(table[d][t]) && InRange(table[d][t], n)
  {
    var table := Propagators(patterns);
    var n := |patterns|;
    forall d, t | 0 <= d < 4 && 0 <= t < n ensures Ascending(table[d][t]) && InRange(table[d][t], n) {
      PropagatorsListOverlaps(patterns, d, t);
    }
  }

  /** The table is symmetric between opposite directions. */
  lemma PropagatorsSymmetricTable(patterns: seq<Pattern>)
    ensures Symmetric(Propagators(patterns), |patterns|)
  {
    forall t1, t2 | 0 <= t1 < |patterns| && 0 <= t2 < |patterns|
      ensures SymmetricPair(Propagators(patterns), |patterns|, t1, t2)
    {
      PropagatorsSymmetricPair(patterns, t1, t2);
    }
  }

  lemma PropagatorsSymmetricPair(patterns: seq<Pattern>, t1: int, t2: int)
    requires 0 <= t1 < |patterns| && 0 <= t2 < |patterns|
    ensures SymmetricPair(Propagators(patterns), |patterns|, t1, t2)
  {
    PropagatorsSymmetric(patterns, 0, t1, t2);
    PropagatorsSymmetric(patterns, 1, t1, t2);
  }
}
