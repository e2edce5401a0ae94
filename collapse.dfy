/** Collapsing one cell, as values over the wave state: the weight walk of
    GetPatternIndexRandomStripBased that picks the pattern, the state that
    CollapseCellByPattern leaves, and the colour map that CreateColorMap
    reads off the state. */
module Collapsing {
  import opened Sequences
  import opened Wrappers
  import opened WfcHelper
  import opened ColorIndex
  import opened Randomness
  import opened Wave
  import opened Propagation

  /** GetPatternIndexRandomStripBased on a cell with the given row, count and
      weight sum, raw being the generator's next draw (used only when two or
      more patterns are possible). None where the C# code throws: no
      possible pattern, First() of an empty list, Next with a negative upper
      bound, or a draw that walks past the last pattern. */
  function StripBased(row: seq<bool>, count: int, sum: int, weights: seq<int>, raw: nat): Option<int>
    requires |row| <= |weights|
  {
    var idx := TrueIndices(row);
    if count <= 0 then None
    else if count == 1 then (if idx == [] then None else Some(idx[0]))
    else if sum < 1 then None
    else Select(idx, weights, Ranged(raw, 0, sum - 1))
  }

  /** The picked pattern is one of the cell's possible patterns, and the
      first one when it is the only one. */
  lemma StripBasedPicksPossible(row: seq<bool>, count: int, sum: int, weights: seq<int>, raw: nat)
    requires |row| <= |weights| && NonNegative(weights)
    ensures var r := StripBased(row, count, sum, weights, raw);
      r.Some? ==> 0 <= r.value < |row| && row[r.value]
  {
    var idx := TrueIndices(row);
    if count >= 2 && sum >= 1 {
      SelectSucceeds(idx, weights, Ranged(raw, 0, sum - 1));
      var p := Select(idx, weights, Ranged(raw, 0, sum - 1));
      if p.Some? {
        var k :| 0 <= k < |idx| && idx[k] == p.value;
      }
    }
  }

  /** On a run whose weight sums carry no offset, the walk always lands on a
      pattern of a cell that has one: the draw is at most the weight sum
      minus two, below the total weight of the cell's patterns. */
  lemma StripBasedSucceeds(row: seq<bool>, count: int, sum: int, weights: seq<int>, raw: nat)
    requires CellTallied(row, count, sum, weights, 0) && Positive(weights) && count >= 1
    ensures count >= 2 ==> sum >= 2
    ensures StripBased(row, count, sum, weights, raw).Some?
  {
    if count >= 2 {
      WeightAtLeastCount(row, weights);
      WeightOfIsSumAt(row, weights);
      TopNeverDrawn(raw, 0, sum);
      SelectSucceeds(TrueIndices(row), weights, Ranged(raw, 0, sum - 1));
    }
  }

  /** Walking through the possible patterns one at a time: what is left of
      the walk after i steps is the walk over the rest of the list. */
  lemma SelectStep(idx: seq<int>, weights: seq<int>, i: int, remaining: int)
    requires IndicesOf(idx, weights) && 0 <= i < |idx|
    ensures Select(idx[i..], weights, remaining)
         == if remaining >= weights[idx[i]] then Select(idx[i + 1..], weights, remaining - weights[idx[i]]) else Some(idx[i])
  {
    assert idx[i..][1..] == idx[i + 1..];
  }

  /** The state CollapseCellByPattern(c, p) leaves: only p, if it was
      possible, stays possible at c and the count of c is one; the support
      counters and the weight sums are not touched. */
  function CollapseAt(s: Tables, c: int, p: int): (r: Tables)
    requires 0 <= c < |s.cells| && c < |s.counts|
    ensures |r.cells| == |s.cells| && |r.counts| == |s.counts|
  {
    Tables(s.cells[c := OnlyPattern(s.cells[c], p)], s.support, s.counts[c := 1], s.sums)
  }

  /** Collapsing a cell onto one of its possible patterns keeps the state
      consistent and only rules patterns out; it lowers the count total by
      one less than the cell's count, which is the number of events it emits. */
  lemma CollapseKeepsConsistent(s: Tables, weights: seq<int>, offset: int, table: seq<seq<seq<int>>>,
                                size: int, c: int, p: int)
    requires Shape(s, size, |weights|) && Consistent(s, weights, offset, table, |weights|)
    requires 0 <= c < size && 0 <= p < |weights| && s.cells[c][p]
    ensures Shape(CollapseAt(s, c, p), size, |weights|)
    ensures Consistent(CollapseAt(s, c, p), weights, offset, table, |weights|)
    ensures Descends(s, CollapseAt(s, c, p), size, |weights|)
    ensures Sum(CollapseAt(s, c, p).counts) + |TrueIndices(AllBut(s.cells[c], p))| == Sum(s.counts)
  {
    var n := |weights|;
    var row := s.cells[c];
    var only := OnlyPattern(row, p);
    Collapse(row, p);
    TalliedUpdate(s.cells, s.counts, s.sums, weights, offset, c, only, 1, s.sums[c]);
    FewerKeepsSupported(row, only, s.support[c], table, n);
    SupportedUpdate(s.cells, s.support, table, n, c, only, s.support[c]);
    assert s.support[c := s.support[c]] == s.support;
    assert s.sums[c := s.sums[c]] == s.sums;
    SumUpdate(s.counts, c, 1);
    var r := CollapseAt(s, c, p);
    forall k | 0 <= k < size && s.counts[k] <= 1 ensures Same(s, r, k) {
      if k == c {
        CollapseDecided(row, p);
      }
    }
  }

  /** The colour map CreateColorMap builds, read off the state: the mask
      colour where a cell's count is zero, and GetCellColor's pixel
      elsewhere. */
  function ColorMap(s: Tables, patterns: seq<Pattern>, colorsOfHashes: map<byte, Color>): (m: seq<Pixel>)
    requires |s.counts| == |s.cells| && forall c :: 0 <= c < |s.cells| ==> |s.cells[c]| <= |patterns|
    requires forall t :: 0 <= t < |patterns| ==> patterns[t][0] in colorsOfHashes
    ensures |m| == |s.cells|
  {
    seq(|s.cells|, i requires 0 <= i < |s.cells| =>
      if s.counts[i] == 0 then Solid(MaskColor) else CellColor(PossibleColors(s.cells[i], patterns, colorsOfHashes)))
  }

  /** On a consistent state the colour map shows the mask colour at a cell
      without patterns, the colour of element 0 of the one pattern of a
      decided cell, and a blend of one colour per possible pattern
      elsewhere. */
  lemma ColorMapPixels(s: Tables, weights: seq<int>, offset: int, patterns: seq<Pattern>, colorsOfHashes: map<byte, Color>)
    requires Tallied(s.cells, s.counts, s.sums, weights, offset) && |weights| == |patterns|
    requires forall t :: 0 <= t < |patterns| ==> patterns[t][0] in colorsOfHashes
    ensures forall i :: 0 <= i < |s.cells| && s.counts[i] == 0 ==> ColorMap(s, patterns, colorsOfHashes)[i] == Solid(MaskColor)
    ensures forall i :: 0 <= i < |s.cells| && s.counts[i] == 1 ==>
      ColorMap(s, patterns, colorsOfHashes)[i] == Solid(colorsOfHashes[patterns[TrueIndices(s.cells[i])[0]][0]])
    ensures forall i :: 0 <= i < |s.cells| && s.counts[i] >= 2 ==>
      ColorMap(s, patterns, colorsOfHashes)[i].MeanOf? && |ColorMap(s, patterns, colorsOfHashes)[i].colors| == s.counts[i]
  {
    forall i | 0 <= i < |s.cells| {
      PixelCases(s.cells[i], patterns, colorsOfHashes);
    }
  }
}
