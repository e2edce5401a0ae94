/** The per-cell state of the solver: a possibility row per cell (one flag
    per pattern), the removal events the C# code pushes (RemovalUpdate), and
    the integer weight bookkeeping over a row. */
module Wave {
  import opened Sequences
  import opened Wrappers

  /** RemovalUpdate: pattern Pattern was ruled out at cell CellIndex, which
      sits at column XIndex and row YIndex of the output. */
  datatype RemovalUpdate = RemovalUpdate(cellIndex: int, pattern: int, xIndex: int, yIndex: int)

  /** Number of patterns still possible in a row. */
  function CountTrue(row: seq<bool>): (n: nat)
    ensures n <= |row|
  {
    if row == [] then 0
    else CountTrue(row[..|row| - 1]) + (if row[|row| - 1] then 1 else 0)
  }

  /** The possible patterns of a row in ascending order (GetPropagateablePatternIndices). */
  function TrueIndices(row: seq<bool>): (r: seq<int>)
    ensures |r| == CountTrue(row)
    ensures Ascending(r)
    ensures forall k :: 0 <= k < |r| ==> 0 <= r[k] < |row| && row[r[k]]
    ensures forall t :: 0 <= t < |row| && row[t] ==> t in r
  {
    if row == [] then []
    else
      var init := row[..|row| - 1];
      var r := TrueIndices(init) + (if row[|row| - 1] then [|row| - 1] else []);
      assert forall t :: 0 <= t < |init| ==> init[t] == row[t];
      r
  }

  /** Total weight of the possible patterns of a row. */
  function WeightOf(row: seq<bool>, weights: seq<int>): int
    requires |row| <= |weights|
  {
    if row == [] then 0
    else
      var n := |row| - 1;
      WeightOf(row[..n], weights) + (if row[n] then weights[n] else 0)
  }

  ghost predicate IndicesOf(idx: seq<int>, weights: seq<int>) {
    forall k :: 0 <= k < |idx| ==> 0 <= idx[k] < |weights|
  }

  /** Total weight of the patterns listed in idx. */
  function SumAt(idx: seq<int>, weights: seq<int>): int
    requires IndicesOf(idx, weights)
  {
    if idx == [] then 0 else weights[idx[0]] + SumAt(idx[1..], weights)
  }

  /** The weight walk of GetPatternIndexRandomStripBased: step through idx,
      subtracting each weight from the draw while the draw is at least that
      weight, and stop at the first pattern whose weight exceeds what is left. */
  function Select(idx: seq<int>, weights: seq<int>, remaining: int): Option<int>
    requires IndicesOf(idx, weights)
  {
    if idx == [] then None
    else if remaining >= weights[idx[0]] then Select(idx[1..], weights, remaining - weights[idx[0]])
    else Some(idx[0])
  }

  ghost predicate NonNegative(weights: seq<int>) {
    forall t :: 0 <= t < |weights| ==> weights[t] >= 0
  }

  ghost predicate Positive(weights: seq<int>) {
    forall t :: 0 <= t < |weights| ==> weights[t] >= 1
  }

  lemma {:induction false} SumAtNonNegative(idx: seq<int>, weights: seq<int>)
    requires IndicesOf(idx, weights) && NonNegative(weights)
    ensures SumAt(idx, weights) >= 0
    decreases |idx|
  {
    if idx != [] {
      SumAtNonNegative(idx[1..], weights);
    }
  }

  /** With non-negative weights the walk finds a pattern exactly when the draw
      is below the listed patterns' total weight, and the pattern it finds is
      one of them. */
  lemma {:induction false} SelectSucceeds(idx: seq<int>, weights: seq<int>, remaining: int)
    requires IndicesOf(idx, weights) && NonNegative(weights) && remaining >= 0
    ensures Select(idx, weights, remaining).Some? <==> remaining < SumAt(idx, weights)
    ensures Select(idx, weights, remaining).Some? ==> Select(idx, weights, remaining).value in idx
    decreases |idx|
  {
    if idx != [] {
      SumAtNonNegative(idx[1..], weights);
      if remaining >= weights[idx[0]] {
        SelectSucceeds(idx[1..], weights, remaining - weights[idx[0]]);
        var p := Select(idx[1..], weights, remaining - weights[idx[0]]);
        if p.Some? {
          assert p.value in idx[1..];
        }
      }
    }
  }

  lemma {:induction false} SumAtAppend(idx: seq<int>, t: int, weights: seq<int>)
    requires IndicesOf(idx, weights) && 0 <= t < |weights|
    ensures SumAt(idx + [t], weights) == SumAt(idx, weights) + weights[t]
    decreases |idx|
  {
    if idx == [] {
      assert [] + [t] == [t];
    } else {
      assert (idx + [t])[1..] == idx[1..] + [t];
      SumAtAppend(idx[1..], t, weights);
    }
  }

  /** A row's weight is the weight of the patterns the walk steps through. */
  lemma {:induction false} WeightOfIsSumAt(row: seq<bool>, weights: seq<int>)
    requires |row| <= |weights|
    ensures WeightOf(row, weights) == SumAt(TrueIndices(row), weights)
    decreases |row|
  {
    if row != [] {
      WeightOfIsSumAt(row[..|row| - 1], weights);
      WeightStep(row, weights);
    }
  }

  lemma {:induction false} WeightStep(row: seq<bool>, weights: seq<int>)
    requires 0 < |row| <= |weights|
    requires WeightOf(row[..|row| - 1], weights) == SumAt(TrueIndices(row[..|row| - 1]), weights)
    ensures WeightOf(row, weights) == SumAt(TrueIndices(row), weights)
  {
    var n := |row| - 1;
    var before := TrueIndices(row[..n]);
    if row[n] {
      assert TrueIndices(row) == before + [n];
      SumAtAppend(before, n, weights);
    } else {
      assert TrueIndices(row) == before;
    }
  }

  /** With every weight at least one, a row weighs at least its count. */
  lemma {:induction false} WeightAtLeastCount(row: seq<bool>, weights: seq<int>)
    requires |row| <= |weights| && Positive(weights)
    ensures WeightOf(row, weights) >= CountTrue(row)
    decreases |row|
  {
    if row != [] {
      var n := |row| - 1;
      WeightAtLeastCount(row[..n], weights);
    }
  }

  /** Ruling out one possible pattern lowers the count by one and the weight
      by that pattern's weight. */
  lemma {:induction false} RemoveOne(row: seq<bool>, weights: seq<int>, t: int)
    requires |row| <= |weights| && 0 <= t < |row| && row[t]
    ensures CountTrue(row[t := false]) == CountTrue(row) - 1
    ensures WeightOf(row[t := false], weights) == WeightOf(row, weights) - weights[t]
    decreases |row|
  {
    var n := |row| - 1;
    var row' := row[t := false];
    if t == n {
      assert row'[..n] == row[..n];
    } else {
      assert row'[..n] == row[..n][t := false];
      RemoveOne(row[..n], weights, t);
    }
  }

  /** Total of the counts over all cells: the measure that every removal lowers. */
  function TotalTrue(wave: seq<seq<bool>>): nat {
    if wave == [] then 0 else TotalTrue(wave[..|wave| - 1]) + CountTrue(wave[|wave| - 1])
  }

  /** Replacing one cell's row changes the total by the change of its count. */
  lemma {:induction false} TotalTrueUpdate(wave: seq<seq<bool>>, c: int, row: seq<bool>)
    requires 0 <= c < |wave|
    ensures TotalTrue(wave[c := row]) == TotalTrue(wave) - CountTrue(wave[c]) + CountTrue(row)
    decreases |wave|
  {
    var n := |wave| - 1;
    var wave' := wave[c := row];
    if c == n {
      assert wave'[..n] == wave[..n];
    } else {
      assert wave'[..n] == wave[..n][c := row];
      TotalTrueUpdate(wave[..n], c, row);
    }
  }

  /** A row whose only possible pattern is p: what CollapseCellByPattern leaves. */
  function OnlyPattern(row: seq<bool>, p: int): (r: seq<bool>)
    ensures |r| == |row|
  {
    seq(|row|, t requires 0 <= t < |row| => row[t] && t == p)
  }

  /** The possible patterns of a row other than p: those CollapseCellByPattern rules out. */
  function AllBut(row: seq<bool>, p: int): (r: seq<bool>)
    ensures |r| == |row|
  {
    seq(|row|, t requires 0 <= t < |row| => row[t] && t != p)
  }

  /** One more entry of a row adds its index to the possible patterns when
      it is possible. */
  lemma TrueIndicesPrefix(row: seq<bool>, i: int)
    requires 0 <= i < |row|
    ensures TrueIndices(row[..i + 1]) == TrueIndices(row[..i]) + (if row[i] then [i] else [])
  {
    assert row[..i + 1][..i] == row[..i];
  }

  /** CollapseCellByPattern one entry further: the entry stays possible only
      if it is p, and it is ruled out when it was possible and is not p. */
  lemma CollapsePrefix(row: seq<bool>, p: int, i: int)
    requires 0 <= i < |row|
    ensures OnlyPattern(row[..i + 1], p) == OnlyPattern(row[..i], p) + [row[i] && i == p]
    ensures TrueIndices(AllBut(row[..i + 1], p)) == TrueIndices(AllBut(row[..i], p)) + (if row[i] && i != p then [i] else [])
  {
    var a := AllBut(row[..i + 1], p);
    assert a[..i] == AllBut(row[..i], p);
  }

  /** The row CollapseCellByPattern's loop has reached after i entries. */
  function CollapsedUpTo(row: seq<bool>, p: int, i: int): (r: seq<bool>)
    requires 0 <= i <= |row|
    ensures |r| == |row|
  {
    OnlyPattern(row[..i], p) + row[i..]
  }

  /** Entry i of that row is still the original one, and deciding it moves
      the loop one entry on; before the loop the row is untouched, after it
      only p is left. */
  lemma CollapsedStep(row: seq<bool>, p: int, i: int)
    requires 0 <= i < |row|
    ensures CollapsedUpTo(row, p, i)[i] == row[i]
    ensures CollapsedUpTo(row, p, i)[i := row[i] && i == p] == CollapsedUpTo(row, p, i + 1)
  {
    CollapsePrefix(row, p, i);
    assert row[i..] == [row[i]] + row[i + 1..];
  }

  /** One step of the loop of CollapseCellByPattern: entry i is ruled out
      when it is possible and is not p, and left as it is otherwise. */
  lemma CollapseOneMore(row: seq<bool>, p: int, i: int)
    requires 0 <= i < |row|
    ensures row[i] && i != p ==>
      && CollapsedUpTo(row, p, i)[i] && CollapsedUpTo(row, p, i)[i := false] == CollapsedUpTo(row, p, i + 1)
      && TrueIndices(AllBut(row[..i + 1], p)) == TrueIndices(AllBut(row[..i], p)) + [i]
    ensures !(row[i] && i != p) ==>
      && !(CollapsedUpTo(row, p, i)[i] && i != p) && CollapsedUpTo(row, p, i) == CollapsedUpTo(row, p, i + 1)
      && TrueIndices(AllBut(row[..i + 1], p)) == TrueIndices(AllBut(row[..i], p))
  {
    CollapsePrefix(row, p, i);
    CollapsedStep(row, p, i);
    if !(row[i] && i != p) {
      assert CollapsedUpTo(row, p, i)[i := row[i] && i == p] == CollapsedUpTo(row, p, i);
    }
  }

  lemma CollapsedEnds(row: seq<bool>, p: int)
    ensures CollapsedUpTo(row, p, 0) == row
    ensures CollapsedUpTo(row, p, |row|) == OnlyPattern(row, p)
  {
    assert row[..0] == [] && row[0..] == row;
    assert row[..|row|] == row && row[|row|..] == [];
  }

  /** The events of ruling out each pattern of ts at a cell. */
  function Events(cellIndex: int, xIndex: int, yIndex: int, ts: seq<int>): (es: seq<RemovalUpdate>)
    ensures |es| == |ts|
  {
    seq(|ts|, k requires 0 <= k < |ts| => RemovalUpdate(cellIndex, ts[k], xIndex, yIndex))
  }

  lemma EventsAppendOne(cellIndex: int, xIndex: int, yIndex: int, ts: seq<int>, t: int)
    ensures Events(cellIndex, xIndex, yIndex, ts + [t]) == Events(cellIndex, xIndex, yIndex, ts) + [RemovalUpdate(cellIndex, t, xIndex, yIndex)]
  {
  }

  lemma {:induction false} CountSplit(row: seq<bool>, p: int)
    ensures CountTrue(row) == CountTrue(OnlyPattern(row, p)) + CountTrue(AllBut(row, p))
    decreases |row|
  {
    if row != [] {
      var n := |row| - 1;
      assert OnlyPattern(row, p)[..n] == OnlyPattern(row[..n], p);
      assert AllBut(row, p)[..n] == AllBut(row[..n], p);
      CountSplit(row[..n], p);
    }
  }

  lemma {:induction false} OnlyPatternCount(row: seq<bool>, p: int)
    requires 0 <= p < |row| && row[p]
    ensures CountTrue(OnlyPattern(row, p)) == 1
    decreases |row|
  {
    var n := |row| - 1;
    assert OnlyPattern(row, p)[..n] == OnlyPattern(row[..n], p);
    if p < n {
      OnlyPatternCount(row[..n], p);
    } else {
      NoneLeft(OnlyPattern(row, p)[..n]);
    }
  }

  lemma {:induction false} NoneLeft(row: seq<bool>)
    requires forall t :: 0 <= t < |row| ==> !row[t]
    ensures CountTrue(row) == 0
    decreases |row|
  {
    if row != [] {
      NoneLeft(row[..|row| - 1]);
    }
  }

  /** Collapsing onto a possible pattern keeps one pattern and rules out the
      count minus one others. */
  lemma Collapse(row: seq<bool>, p: int)
    requires 0 <= p < |row| && row[p]
    ensures CountTrue(OnlyPattern(row, p)) == 1
    ensures |TrueIndices(AllBut(row, p))| == CountTrue(row) - 1
    ensures forall t :: 0 <= t < |row| ==> (t in TrueIndices(AllBut(row, p)) <==> row[t] && t != p)
  {
    OnlyPatternCount(row, p);
    CountSplit(row, p);
  }

  /** A cell already reduced to its one pattern p is left as it is and no
      event is emitted. */
  lemma CollapseDecided(row: seq<bool>, p: int)
    requires 0 <= p < |row| && row[p] && CountTrue(row) == 1
    ensures OnlyPattern(row, p) == row
    ensures TrueIndices(AllBut(row, p)) == []
  {
    Collapse(row, p);
    assert TrueIndices(AllBut(row, p)) == [];
  }

  /** The bookkeeping of one cell is right: its count is the number of
      possible patterns, and while the cell is undecided (two or more
      patterns) its weight sum is their total weight plus offset. */
  ghost predicate CellTallied(row: seq<bool>, count: int, sum: int, weights: seq<int>, offset: int) {
    && |row| == |weights|
    && count == CountTrue(row)
    && (count >= 2 ==> sum == WeightOf(row, weights) + offset)
  }

  ghost predicate Tallied(rows: seq<seq<bool>>, counts: seq<int>, sums: seq<int>, weights: seq<int>, offset: int) {
    && |counts| == |rows| && |sums| == |rows|
    && forall c :: 0 <= c < |rows| ==> CellTallied(rows[c], counts[c], sums[c], weights, offset)
  }

  /** The support counters of one cell, indexed [pattern][direction], are
      never negative, and a possible pattern that has any compatible pattern
      in a direction has a positive counter for it. */
  ghost predicate CellSupported(row: seq<bool>, cell: seq<seq<int>>, table: seq<seq<seq<int>>>, n: int)
    requires |table| == 4 && forall e :: 0 <= e < 4 ==> |table[e]| == n
  {
    && |row| == n && |cell| == n
    && (forall t :: 0 <= t < n ==> |cell[t]| == 4)
    && (forall t, e :: 0 <= t < n && 0 <= e < 4 ==> 0 <= cell[t][e])
    && (forall t, e :: 0 <= t < n && 0 <= e < 4 && row[t] && |table[e][t]| > 0 ==> cell[t][e] >= 1)
  }

  ghost predicate Supported(rows: seq<seq<bool>>, support: seq<seq<seq<int>>>, table: seq<seq<seq<int>>>, n: int) {
    && |table| == 4 && (forall e :: 0 <= e < 4 ==> |table[e]| == n)
    && |support| == |rows|
    && forall c :: 0 <= c < |rows| ==> CellSupported(rows[c], support[c], table, n)
  }

  /** Replacing one cell by a well-kept one keeps the bookkeeping right. */
  lemma TalliedUpdate(rows: seq<seq<bool>>, counts: seq<int>, sums: seq<int>, weights: seq<int>, offset: int,
                      c: int, row: seq<bool>, count: int, sum: int)
    requires Tallied(rows, counts, sums, weights, offset) && 0 <= c < |rows|
    requires CellTallied(row, count, sum, weights, offset)
    ensures Tallied(rows[c := row], counts[c := count], sums[c := sum], weights, offset)
  {
  }

  lemma SupportedUpdate(rows: seq<seq<bool>>, support: seq<seq<seq<int>>>, table: seq<seq<seq<int>>>, n: int,
                        c: int, row: seq<bool>, cell: seq<seq<int>>)
    requires Supported(rows, support, table, n) && 0 <= c < |rows|
    requires CellSupported(row, cell, table, n)
    ensures Supported(rows[c := row], support[c := cell], table, n)
  {
  }

  /** RemovePatternForCell keeps a cell's bookkeeping right. */
  lemma RemoveKeepsTallied(row: seq<bool>, count: int, sum: int, weights: seq<int>, offset: int, t: int)
    requires CellTallied(row, count, sum, weights, offset) && 0 <= t < |row| && row[t]
    ensures CellTallied(row[t := false], count - 1, sum - weights[t], weights, offset)
  {
    RemoveOne(row, weights, t);
  }

  /** Ruling patterns out never breaks support. */
  lemma FewerKeepsSupported(row: seq<bool>, fewer: seq<bool>, cell: seq<seq<int>>, table: seq<seq<seq<int>>>, n: int)
    requires |table| == 4 && forall e :: 0 <= e < 4 ==> |table[e]| == n
    requires CellSupported(row, cell, table, n) && |fewer| == |row|
    requires forall t :: 0 <= t < |row| && fewer[t] ==> row[t]
    ensures CellSupported(fewer, cell, table, n)
  {
    forall t, e | 0 <= t < n && 0 <= e < 4 && fewer[t] && |table[e][t]| > 0 ensures cell[t][e] >= 1 {
      assert row[t];
    }
  }

  /** Support counters shaped as the solver keeps them: one row of four per pattern. */
  ghost predicate Fours(support: seq<seq<int>>) {
    forall t :: 0 <= t < |support| ==> |support[t]| == 4
  }

  /** The state of one cell during PropagateToCell's loop: its row, its
      support counters, the patterns ruled out so far, in order, and their
      total weight. */
  datatype Thinning = Thinning(row: seq<bool>, support: seq<seq<int>>, removed: seq<int>, lost: int)

  /** PropagateToCell's loop over list, for the side e facing the update:
      each listed pattern still possible loses one support on that side,
      and is ruled out when no support is left. */
  function Thin(row: seq<bool>, support: seq<seq<int>>, weights: seq<int>, e: int, list: seq<int>): (r: Thinning)
    requires |support| == |row| && Fours(support) && |weights| == |row| && 0 <= e < 4
    requires forall k :: 0 <= k < |list| ==> 0 <= list[k] < |row|
    ensures |r.row| == |row| && |r.support| == |row| && Fours(r.support)
  {
    if list == [] then Thinning(row, support, [], 0)
    else Step(Thin(row, support, weights, e, list[..|list| - 1]), weights, list[|list| - 1], e)
  }

  /** One turn of that loop, for pattern t. */
  function Step(th: Thinning, weights: seq<int>, t: int, e: int): (r: Thinning)
    requires |th.support| == |th.row| && Fours(th.support) && |weights| == |th.row| && 0 <= t < |th.row| && 0 <= e < 4
    ensures |r.row| == |th.row| && |r.support| == |th.row| && Fours(r.support)
  {
    if !th.row[t] then th
    else
      var support := th.support[t := th.support[t][e := th.support[t][e] - 1]];
      if support[t][e] > 0 then Thinning(th.row, support, th.removed, th.lost)
      else Thinning(th.row[t := false], support, th.removed + [t], th.lost + weights[t])
  }

  lemma ThinPrefix(row: seq<bool>, support: seq<seq<int>>, weights: seq<int>, e: int, list: seq<int>, i: int)
    requires |support| == |row| && Fours(support) && |weights| == |row| && 0 <= e < 4
    requires forall k :: 0 <= k < |list| ==> 0 <= list[k] < |row|
    requires 0 <= i < |list|
    ensures Thin(row, support, weights, e, list[..i + 1]) == Step(Thin(row, support, weights, e, list[..i]), weights, list[i], e)
  {
    assert list[..i + 1][..i] == list[..i];
  }

  /** What the loop does to the row when no pattern is listed twice: a
      listed possible pattern is ruled out exactly when it had at most one
      support on side e, and the removals are those patterns. */
  lemma {:induction false} ThinRow(row: seq<bool>, support: seq<seq<int>>, weights: seq<int>, e: int, list: seq<int>)
    requires |support| == |row| && Fours(support) && |weights| == |row| && 0 <= e < 4
    requires forall k :: 0 <= k < |list| ==> 0 <= list[k] < |row|
    requires NoDuplicates(list)
    ensures var r := Thin(row, support, weights, e, list);
      && (forall t :: 0 <= t < |row| ==> r.row[t] == (row[t] && !(t in list && support[t][e] <= 1)))
      && (forall t :: t in r.removed <==> 0 <= t < |row| && row[t] && t in list && support[t][e] <= 1)
    decreases |list|
  {
    if list != [] {
      var init := list[..|list| - 1];
      var t := list[|list| - 1];
      assert list == init + [t];
      assert forall k :: 0 <= k < |init| ==> init[k] == list[k];
      ThinRow(row, support, weights, e, init);
      ThinSupport(row, support, weights, e, init);
      assert t !in init;
    }
  }

  /** th only rules patterns of row out, and each of its removals names a
      pattern that was possible in row and is possible no more. */
  ghost predicate RulesOut(row: seq<bool>, th: Thinning)
    requires |th.row| == |row|
  {
    && (forall t :: 0 <= t < |row| && th.row[t] ==> row[t])
    && (forall k :: 0 <= k < |th.removed| ==> 0 <= th.removed[k] < |row| && row[th.removed[k]] && !th.row[th.removed[k]])
  }

  lemma {:induction false} ThinRemovesPossible(row: seq<bool>, support: seq<seq<int>>, weights: seq<int>, e: int, list: seq<int>)
    requires |support| == |row| && Fours(support) && |weights| == |row| && 0 <= e < 4
    requires forall k :: 0 <= k < |list| ==> 0 <= list[k] < |row|
    ensures RulesOut(row, Thin(row, support, weights, e, list))
    decreases |list|
  {
    if list != [] {
      var init := list[..|list| - 1];
      assert forall k :: 0 <= k < |init| ==> init[k] == list[k];
      ThinRemovesPossible(row, support, weights, e, init);
    }
  }

  /** The count drops by the number of removals and the weight by their
      total weight. */
  lemma {:induction false} ThinTally(row: seq<bool>, support: seq<seq<int>>, weights: seq<int>, e: int, list: seq<int>)
    requires |support| == |row| && Fours(support) && |weights| == |row| && 0 <= e < 4
    requires forall k :: 0 <= k < |list| ==> 0 <= list[k] < |row|
    ensures var r := Thin(row, support, weights, e, list);
      && CountTrue(r.row) == CountTrue(row) - |r.removed|
      && WeightOf(r.row, weights) == WeightOf(row, weights) - r.lost
    decreases |list|
  {
    if list != [] {
      var init := list[..|list| - 1];
      var t := list[|list| - 1];
      assert forall k :: 0 <= k < |init| ==> init[k] == list[k];
      ThinTally(row, support, weights, e, init);
      var prev := Thin(row, support, weights, e, init);
      if prev.row[t] && prev.support[t][e] - 1 <= 0 {
        RemoveOne(prev.row, weights, t);
      }
    }
  }

  /** What the loop does to the counters: a listed possible pattern loses
      one support on side e and nothing else changes. */
  lemma {:induction false} ThinSupport(row: seq<bool>, support: seq<seq<int>>, weights: seq<int>, e: int, list: seq<int>)
    requires |support| == |row| && Fours(support) && |weights| == |row| && 0 <= e < 4
    requires forall k :: 0 <= k < |list| ==> 0 <= list[k] < |row|
    requires NoDuplicates(list)
    ensures var r := Thin(row, support, weights, e, list);
      forall t, e' :: 0 <= t < |row| && 0 <= e' < 4 ==>
        r.support[t][e'] == support[t][e'] - (if e' == e && row[t] && t in list then 1 else 0)
    decreases |list|
  {
    if list != [] {
      var init := list[..|list| - 1];
      var t := list[|list| - 1];
      assert list == init + [t];
      assert forall k :: 0 <= k < |init| ==> init[k] == list[k];
      ThinSupport(row, support, weights, e, init);
      ThinRow(row, support, weights, e, init);
      assert t !in init;
    }
  }

  /** The loop keeps support right when every listed pattern has some
      compatible pattern on side e: a pattern keeps a positive counter
      unless it is ruled out. */
  lemma ThinKeepsSupported(row: seq<bool>, cell: seq<seq<int>>, weights: seq<int>, table: seq<seq<seq<int>>>, n: int,
                           e: int, list: seq<int>)
    requires |table| == 4 && forall d :: 0 <= d < 4 ==> |table[d]| == n
    requires CellSupported(row, cell, table, n) && |weights| == n && 0 <= e < 4
    requires NoDuplicates(list) && forall k :: 0 <= k < |list| ==> 0 <= list[k] < n && |table[e][list[k]]| > 0
    ensures var th := Thin(row, cell, weights, e, list); CellSupported(th.row, th.support, table, n)
  {
    ThinRow(row, cell, weights, e, list);
    ThinSupport(row, cell, weights, e, list);
    forall t | 0 <= t < n && t in list ensures |table[e][t]| > 0 {
      var k :| 0 <= k < |list| && list[k] == t;
    }
  }

  /** The four tables of the wave state as one value: possibility rows,
      support counters, counts and weight sums, one entry per cell. */
  datatype Tables = Tables(cells: seq<seq<bool>>, support: seq<seq<seq<int>>>, counts: seq<int>, sums: seq<int>)

  /** Every table has an entry for each of size cells, over n patterns. */
  ghost predicate Shape(s: Tables, size: int, n: int) {
    && |s.cells| == size && |s.support| == size && |s.counts| == size && |s.sums| == size
    && forall c :: 0 <= c < size ==> |s.cells[c]| == n && |s.support[c]| == n && Fours(s.support[c])
  }

  /** Counts, weight sums and support counters agree with the rows. */
  ghost predicate Consistent(s: Tables, weights: seq<int>, offset: int, table: seq<seq<seq<int>>>, n: int) {
    && Tallied(s.cells, s.counts, s.sums, weights, offset)
    && Supported(s.cells, s.support, table, n)
  }

  /** The state with cell c replaced by what a Thinning of it reached. */
  function Apply(s: Tables, c: int, th: Thinning): Tables
    requires 0 <= c < |s.cells| && c < |s.support| && c < |s.counts| && c < |s.sums|
  {
    Tables(s.cells[c := th.row], s.support[c := th.support], s.counts[c := s.counts[c] - |th.removed|], s.sums[c := s.sums[c] - th.lost])
  }

  /** PropagateToCell's loop at cell c, on the whole state. */
  function ThinAt(s: Tables, weights: seq<int>, c: int, e: int, list: seq<int>): (r: Tables)
    requires Shape(s, |s.cells|, |weights|) && 0 <= c < |s.cells| && 0 <= e < 4
    requires forall k :: 0 <= k < |list| ==> 0 <= list[k] < |weights|
    ensures Shape(r, |s.cells|, |weights|)
  {
    Apply(s, c, Thin(s.cells[c], s.support[c], weights, e, list))
  }

  /** The patterns that loop rules out at cell c, in order. */
  function RemovedAt(s: Tables, weights: seq<int>, c: int, e: int, list: seq<int>): (r: seq<int>)
    requires Shape(s, |s.cells|, |weights|) && 0 <= c < |s.cells| && 0 <= e < 4
    requires forall k :: 0 <= k < |list| ==> 0 <= list[k] < |weights|
  {
    Thin(s.cells[c], s.support[c], weights, e, list).removed
  }

  /** PropagateToCell's effect keeps the whole state consistent, provided
      every listed pattern has some compatible pattern on side e. */
  lemma ThinKeepsConsistent(s: Tables, weights: seq<int>, offset: int, table: seq<seq<seq<int>>>, c: int, e: int, list: seq<int>)
    requires Shape(s, |s.cells|, |weights|) && Consistent(s, weights, offset, table, |weights|)
    requires 0 <= c < |s.cells| && 0 <= e < 4
    requires NoDuplicates(list) && forall k :: 0 <= k < |list| ==> 0 <= list[k] < |weights| && |table[e][list[k]]| > 0
    ensures Consistent(ThinAt(s, weights, c, e, list), weights, offset, table, |weights|)
  {
    var n := |weights|;
    var th := Thin(s.cells[c], s.support[c], weights, e, list);
    assert ThinAt(s, weights, c, e, list) == Tables(s.cells[c := th.row], s.support[c := th.support],
      s.counts[c := s.counts[c] - |th.removed|], s.sums[c := s.sums[c] - th.lost]);
    ThinTally(s.cells[c], s.support[c], weights, e, list);
    TalliedUpdate(s.cells, s.counts, s.sums, weights, offset, c, th.row, s.counts[c] - |th.removed|, s.sums[c] - th.lost);
    ThinKeepsSupported(s.cells[c], s.support[c], weights, table, n, e, list);
    SupportedUpdate(s.cells, s.support, table, n, c, th.row, th.support);
  }
}
