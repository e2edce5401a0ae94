/** What Wfc.Initialize builds, as values: the scan of the exemplar that
    PrepareColors makes, the steps of DistinctAndCountPatterns, and the wave
    state InitializeMap and InitializeWeights leave, with every pattern
    possible at every cell. */
module Setup {
  import opened Sequences
  import opened WfcHelper
  import opened Wave
  import opened ColorIndex
  import opened MinHeaps

  // ------------------------------------------------------ colour scan

  /** The reserved colours, then the exemplar's colours in PrepareColors'
      scan order (x outer, y inner) before position (x, y). */
  function Scanned(m: seq<seq<Color>>, x: int, y: int): seq<Color>
    requires 0 <= x <= |m| && (x < |m| ==> 0 <= y <= |m[x]|)
  {
    [MaskColor, UninitializedColor] + Flatten(m[..x]) + (if x < |m| then m[x][..y] else [])
  }

  /** The scan starts with the two reserved colours. */
  lemma ScannedStart(m: seq<seq<Color>>)
    ensures Firsts(Scanned(m, 0, 0)) == [MaskColor, UninitializedColor]
  {
    assert m[..0] == [];
    assert Flatten<Color>([]) == [];
    var tail: seq<Color> := if 0 < |m| then m[0][..0] else [];
    assert tail == [];
    assert Scanned(m, 0, 0) == [MaskColor, UninitializedColor] + [] + tail;
    var two := [MaskColor, UninitializedColor];
    assert two == [MaskColor] + [UninitializedColor] && [MaskColor] == [] + [MaskColor];
    FirstsAppendOne([], MaskColor);
    FirstsAppendOne([MaskColor], UninitializedColor);
    assert Firsts(two) == two;
    assert Scanned(m, 0, 0) == two;
  }

  /** One more entry of a column. */
  lemma ScannedStep(m: seq<seq<Color>>, x: int, y: int)
    requires 0 <= x < |m| && 0 <= y < |m[x]|
    ensures Scanned(m, x, y + 1) == Scanned(m, x, y) + [m[x][y]]
  {
    assert m[x][..y + 1] == m[x][..y] + [m[x][y]];
    AppendAssociates([MaskColor, UninitializedColor] + Flatten(m[..x]), m[x][..y], [m[x][y]]);
  }

  /** A finished column is the start of the next one. */
  lemma ScannedColumn(m: seq<seq<Color>>, x: int)
    requires 0 <= x < |m|
    ensures Scanned(m, x, |m[x]|) == Scanned(m, x + 1, 0)
  {
    assert m[..x + 1] == m[..x] + [m[x]];
    FlattenAppend(m[..x], m[x]);
    assert m[x][..|m[x]|] == m[x];
    if x + 1 < |m| {
      assert m[x + 1][..0] == [];
    }
  }

  /** Every stage of the scan is a beginning of the whole scan. */
  lemma {:induction false} ScannedPrefix(m: seq<seq<Color>>, x: int, y: int)
    requires 0 <= x <= |m| && (x < |m| ==> 0 <= y <= |m[x]|)
    ensures Scanned(m, x, y) <= Scanned(m, |m|, 0)
    decreases |m| - x, if x < |m| then |m[x]| - y else 0
  {
    if x == |m| {
      assert y == 0 || Scanned(m, x, y) == Scanned(m, x, 0);
    } else if y < |m[x]| {
      ScannedStep(m, x, y);
      ScannedPrefix(m, x, y + 1);
    } else {
      ScannedColumn(m, x);
      ScannedPrefix(m, x + 1, 0);
    }
  }

  /** The whole scan gives the palette. */
  lemma ScannedAll(m: seq<seq<Color>>)
    ensures Firsts(Scanned(m, |m|, 0)) == Palette(m)
  {
    assert m[..|m|] == m;
    var whole := [MaskColor, UninitializedColor] + Flatten(m);
    assert Scanned(m, |m|, 0) == whole + [];
    assert whole + [] == whole;
    assert Palette(m) == Firsts(whole);
  }

  /** Every colour first met during the scan is the palette entry at the
      position it is met. */
  lemma ScannedFirsts(m: seq<seq<Color>>, x: int, y: int)
    requires 0 <= x <= |m| && (x < |m| ==> 0 <= y <= |m[x]|)
    ensures Firsts(Scanned(m, x, y)) <= Palette(m)
  {
    var whole := Scanned(m, |m|, 0);
    var s := Scanned(m, x, y);
    ScannedPrefix(m, x, y);
    assert whole == s + whole[|s|..];
    FirstsPrefix(s, whole[|s|..]);
    ScannedAll(m);
  }

  /** PrepareColors at position (x, y) of its scan: the colours indexed so
      far, seen, are the distinct colours scanned so far, and the two
      dictionaries index exactly them. */
  ghost predicate Scanning(m: seq<seq<Color>>, x: int, y: int, seen: seq<Color>,
                           colorsOfHashes: map<byte, Color>, hashesOfColors: map<Color, byte>) {
    && 0 <= x <= |m| && (x < |m| ==> 0 <= y <= |m[x]|)
    && seen == Firsts(Scanned(m, x, y)) && IndexedBy(seen, colorsOfHashes, hashesOfColors)
  }

  /** The scan starts once the reserved colours have indices 0 and 1. */
  lemma ScanStart(m: seq<seq<Color>>, colorsOfHashes: map<byte, Color>, hashesOfColors: map<Color, byte>)
    requires colorsOfHashes == map[][0 := MaskColor][1 := UninitializedColor]
    requires hashesOfColors == map[][MaskColor := 0][UninitializedColor := 1]
    ensures Scanning(m, 0, 0, [MaskColor, UninitializedColor], colorsOfHashes, hashesOfColors)
  {
    ScannedStart(m);
    NothingIndexed();
    var none: seq<Color> := [];
    IndexOneMore(none, map[], map[], MaskColor);
    assert none + [MaskColor] == [MaskColor] && |none| as byte == 0;
    IndexOneMore([MaskColor], map[][0 := MaskColor], map[][MaskColor := 0], UninitializedColor);
    assert [MaskColor] + [UninitializedColor] == [MaskColor, UninitializedColor] && |[MaskColor]| as byte == 1;
  }

  /** A colour already indexed has its palette index, and the scan moves on
      with nothing new. */
  lemma ScanKnown(m: seq<seq<Color>>, x: int, y: int, seen: seq<Color>,
                  colorsOfHashes: map<byte, Color>, hashesOfColors: map<Color, byte>)
    requires Scanning(m, x, y, seen, colorsOfHashes, hashesOfColors) && x < |m| && y < |m[x]|
    requires m[x][y] in hashesOfColors
    ensures Scanning(m, x, y + 1, seen, colorsOfHashes, hashesOfColors)
    ensures hashesOfColors[m[x][y]] as int == IndexOf(Palette(m), m[x][y])
  {
    var c := m[x][y];
    ScannedStep(m, x, y);
    FirstsAppendOne(Scanned(m, x, y), c);
    ScannedFirsts(m, x, y);
    IndexOfPrefix(seen, Palette(m), c);
  }

  /** A colour not indexed yet is new to the scan, and it is the palette's
      entry 256 when 256 colours are indexed already. */
  lemma ScanNew(m: seq<seq<Color>>, x: int, y: int, seen: seq<Color>,
                colorsOfHashes: map<byte, Color>, hashesOfColors: map<Color, byte>)
    requires Scanning(m, x, y, seen, colorsOfHashes, hashesOfColors) && x < |m| && y < |m[x]|
    requires m[x][y] !in hashesOfColors
    ensures m[x][y] !in seen
    ensures |seen| == 256 ==> |Palette(m)| > 256 && Palette(m)[256] == m[x][y]
  {
    var c := m[x][y];
    ScannedStep(m, x, y);
    FirstsAppendOne(Scanned(m, x, y), c);
    ScannedFirsts(m, x, y + 1);
    assert (seen + [c])[|seen|] == c;
  }

  /** Once a new colour is indexed the scan moves on with it. */
  lemma ScanAdded(m: seq<seq<Color>>, x: int, y: int, seen: seq<Color>,
                  colorsOfHashes: map<byte, Color>, hashesOfColors: map<Color, byte>,
                  colorsOfHashes': map<byte, Color>, hashesOfColors': map<Color, byte>)
    requires Scanning(m, x, y, seen, colorsOfHashes, hashesOfColors) && x < |m| && y < |m[x]|
    requires m[x][y] !in seen && IndexedBy(seen + [m[x][y]], colorsOfHashes', hashesOfColors')
    ensures Scanning(m, x, y + 1, seen + [m[x][y]], colorsOfHashes', hashesOfColors')
    ensures hashesOfColors'[m[x][y]] as int == IndexOf(Palette(m), m[x][y])
  {
    var c := m[x][y];
    ScannedStep(m, x, y);
    FirstsAppendOne(Scanned(m, x, y), c);
    ScannedFirsts(m, x, y + 1);
    IndexOfPrefix(seen + [c], Palette(m), c);
  }

  /** The end of a column is the start of the next. */
  lemma ScanNextColumn(m: seq<seq<Color>>, x: int, seen: seq<Color>,
                       colorsOfHashes: map<byte, Color>, hashesOfColors: map<Color, byte>)
    requires 0 <= x < |m| && Scanning(m, x, |m[x]|, seen, colorsOfHashes, hashesOfColors)
    ensures Scanning(m, x + 1, 0, seen, colorsOfHashes, hashesOfColors)
  {
    ScannedColumn(m, x);
  }

  /** At the end of the scan the whole palette is indexed, by the
      dictionaries that index it in order. */
  lemma ScanDone(m: seq<seq<Color>>, seen: seq<Color>,
                 colorsOfHashes: map<byte, Color>, hashesOfColors: map<Color, byte>)
    requires Scanning(m, |m|, 0, seen, colorsOfHashes, hashesOfColors)
    ensures seen == Palette(m) && |Palette(m)| <= 256
    ensures colorsOfHashes == ColorsOf(Palette(m)) && hashesOfColors == HashesOf(Palette(m))
  {
    ScannedAll(m);
    IndexedByIsMaps(seen, colorsOfHashes, hashesOfColors);
  }

  /** Every column of a matrix is as long as the matrix is high. */
  lemma ColumnHeight(m: seq<seq<Color>>, x: int)
    requires IsMatrix(m) && 0 <= x < |m|
    ensures |m[x]| == Height(m)
  {
  }

  /** The first y entries of column hold the palette indices of m[x]'s. */
  ghost predicate IndexedColumn(m: seq<seq<Color>>, column: seq<byte>, x: int, y: int) {
    && 0 <= x < |m| && 0 <= y <= |m[x]| && |column| == y
    && forall j :: 0 <= j < y ==> column[j] as int == IndexOf(Palette(m), m[x][j])
  }

  /** The first x columns of g hold the palette indices of m's. */
  ghost predicate IndexedColumns(m: seq<seq<Color>>, g: Grid, x: int) {
    && 0 <= x <= |m| && |g| == x
    && forall i :: 0 <= i < x ==> IndexedColumn(m, g[i], i, |m[i]|)
  }

  lemma IndexedColumnStep(m: seq<seq<Color>>, column: seq<byte>, x: int, y: int, b: byte)
    requires IndexedColumn(m, column, x, y) && y < |m[x]| && b as int == IndexOf(Palette(m), m[x][y])
    ensures IndexedColumn(m, column + [b], x, y + 1)
  {
  }

  lemma IndexedColumnsStep(m: seq<seq<Color>>, g: Grid, x: int, column: seq<byte>)
    requires IndexedColumns(m, g, x) && x < |m| && IndexedColumn(m, column, x, |m[x]|)
    ensures IndexedColumns(m, g + [column], x + 1)
  {
  }

  /** A grid holding every entry's palette index is the index grid. */
  lemma IsIndexGrid(m: seq<seq<Color>>, g: Grid)
    requires |Palette(m)| <= 256 && IndexedColumns(m, g, |m|)
    ensures g == IndexGrid(m, Palette(m))
  {
    var h := IndexGrid(m, Palette(m));
    forall x | 0 <= x < |m| ensures g[x] == h[x] {
      assert IndexedColumn(m, g[x], x, |m[x]|);
      assert forall y :: 0 <= y < |m[x]| ==> g[x][y] == h[x][y];
    }
  }

  // ---------------------------------------------------------- dedup

  /** DistinctAndCountPatterns part way through the raw samples raw, its
      list being done + rest: done holds the first distinct samples, each
      weighted by its number of copies in raw, and rest every copy of the
      samples not yet seen, so the distinct samples of rest are the remaining
      ones. */
  ghost predicate Deduped(raw: seq<Pattern>, done: seq<Pattern>, rest: seq<Pattern>, weights: seq<int>) {
    && |weights| == |done|
    && done + Firsts(rest) == Firsts(raw)
    && (forall k :: 0 <= k < |done| ==> weights[k] == Count(raw, done[k]))
    && (forall y :: y !in done ==> Count(rest, y) == Count(raw, y))
    && (forall k :: 0 <= k < |rest| ==> rest[k] !in done)
  }

  lemma DedupStart(raw: seq<Pattern>)
    ensures Deduped(raw, [], raw, [])
  {
  }

  /** One round: the first pattern of rest joins done, its other copies go,
      and its weight is one more than the number of those copies. */
  lemma DedupStep(raw: seq<Pattern>, done: seq<Pattern>, x: Pattern, tail: seq<Pattern>, weights: seq<int>)
    requires Deduped(raw, done, [x] + tail, weights)
    ensures Deduped(raw, done + [x], RemoveAll(tail, x), weights + [Count(tail, x) + 1])
  {
    DedupFirsts(raw, done, x, tail);
    DedupCounts(raw, done, x, tail);
    DedupWeights(raw, done, weights, x, Count(tail, x) + 1);
    DedupUnseen(done, x, tail);
  }

  lemma DedupFirsts(raw: seq<Pattern>, p: seq<Pattern>, x: Pattern, tail: seq<Pattern>)
    requires p + Firsts([x] + tail) == Firsts(raw)
    ensures (p + [x]) + Firsts(RemoveAll(tail, x)) == Firsts(raw)
  {
    FirstsCons(x, tail);
  }

  lemma CountSingle(x: Pattern, y: Pattern)
    ensures Count([x], y) == if x == y then 1 else 0
  {
    assert [x] == [] + [x];
  }

  lemma DedupCounts(raw: seq<Pattern>, p: seq<Pattern>, x: Pattern, tail: seq<Pattern>)
    requires forall k :: 0 <= k < |[x] + tail| ==> ([x] + tail)[k] !in p
    requires forall y :: y !in p ==> Count([x] + tail, y) == Count(raw, y)
    ensures Count(tail, x) + 1 == Count(raw, x)
    ensures forall y :: y !in p + [x] ==> Count(RemoveAll(tail, x), y) == Count(raw, y)
  {
    assert ([x] + tail)[0] == x;
    CountAppend([x], tail, x);
    CountSingle(x, x);
    forall y | y !in p + [x] ensures Count(RemoveAll(tail, x), y) == Count(raw, y) {
      CountAppend([x], tail, y);
      CountSingle(x, y);
    }
  }

  lemma DedupWeights(raw: seq<Pattern>, p: seq<Pattern>, weights: seq<int>, x: Pattern, w: int)
    requires |weights| == |p| && w == Count(raw, x)
    requires forall k :: 0 <= k < |p| ==> weights[k] == Count(raw, p[k])
    ensures forall k :: 0 <= k < |p + [x]| ==> (weights + [w])[k] == Count(raw, (p + [x])[k])
  {
  }

  lemma DedupUnseen(p: seq<Pattern>, x: Pattern, tail: seq<Pattern>)
    requires forall k :: 0 <= k < |[x] + tail| ==> ([x] + tail)[k] !in p
    ensures forall k :: 0 <= k < |RemoveAll(tail, x)| ==> RemoveAll(tail, x)[k] !in p + [x]
  {
    var r := RemoveAll(tail, x);
    forall k | 0 <= k < |r| ensures r[k] !in p + [x] {
      var z := r[k];
      assert Count(r, z) > 0;
      var j :| 0 <= j < |tail| && tail[j] == z;
      assert ([x] + tail)[j + 1] == z;
    }
  }

    /** The state of the loop of RemoveCopies after j elements of list: every
      element up to and including list[i] kept, and after list[i] the copies of
      it counted and left out. */
  ghost predicate Removing(list: seq<Pattern>, i: int, j: int, kept: seq<Pattern>, copies: int)
    requires 0 <= i < |list|
  {
    && 0 <= j <= |list|
    && (j <= i + 1 ==> kept == list[..j] && copies == 0)
    && (j > i + 1 ==> kept == list[..i + 1] + RemoveAll(list[i + 1..j], list[i]) && copies == Count(list[i + 1..j], list[i]))
  }

  /** One element further: a copy of list[i] after it is counted, anything
      else is kept. */
  lemma RemovingStep(list: seq<Pattern>, i: int, j: int, kept: seq<Pattern>, copies: int)
    requires 0 <= i < |list| && 0 <= j < |list| && list[i] !in list[..i]
    requires Removing(list, i, j, kept, copies)
    ensures j != i && list[j] == list[i] ==> Removing(list, i, j + 1, kept, copies + 1)
    ensures !(j != i && list[j] == list[i]) ==> Removing(list, i, j + 1, kept + [list[j]], copies)
  {
    if j < i {
      assert list[j] == list[..i][j];
      assert list[..j + 1] == list[..j] + [list[j]];
    } else if j == i {
      assert list[..j + 1] == list[..j] + [list[j]];
    } else {
      RemovingAfter(list, i, j, kept, copies);
    }
  }

  /** The step past list[i]: list[j] joins the counted or the kept part. */
  lemma RemovingAfter(list: seq<Pattern>, i: int, j: int, kept: seq<Pattern>, copies: int)
    requires 0 <= i < j < |list| && Removing(list, i, j, kept, copies)
    ensures list[j] == list[i] ==> Removing(list, i, j + 1, kept, copies + 1)
    ensures list[j] != list[i] ==> Removing(list, i, j + 1, kept + [list[j]], copies)
  {
    var x, head, mid, c := list[i], list[..i + 1], list[i + 1..j], list[j];
    assert list[i + 1..j + 1] == mid + [c];
    if j == i + 1 {
      assert mid == [];
      assert kept == head && copies == 0;
    }
    assert kept == head + RemoveAll(mid, x) && copies == Count(mid, x);
    RemoveAllAppendOne(mid, c, x);
    CountAppendOne(mid, c, x);
    if c != x {
      AppendAssociates(head, RemoveAll(mid, x), [c]);
    }
  }

  /** At the end of the loop the kept list is the whole list without the
      copies of list[i] after it. */
  lemma RemovingDone(list: seq<Pattern>, i: int, kept: seq<Pattern>, copies: int)
    requires 0 <= i < |list| && Removing(list, i, |list|, kept, copies)
    ensures kept == list[..i + 1] + RemoveAll(list[i + 1..], list[i])
    ensures copies == Count(list[i + 1..], list[i])
  {
    if |list| == i + 1 {
      assert list[i + 1..] == [];
      assert list[..|list|] == list[..i + 1];
    } else {
      assert list[i + 1..|list|] == list[i + 1..];
    }
  }

  /** The pattern at the front of what is left has no copy among the kept
      ones. */
  lemma DedupFresh(raw: seq<Pattern>, list: seq<Pattern>, i: int, weights: seq<int>)
    requires 0 <= i < |list| && Deduped(raw, list[..i], list[i..], weights)
    ensures list[i] !in list[..i]
  {
    assert list[i..][0] == list[i];
  }

  /** A round of the dedup loop on the list as a whole: once the copies of
      list[i] after it are gone, the kept part grows by list[i]. */
  lemma DedupRound(raw: seq<Pattern>, list: seq<Pattern>, i: int, weights: seq<int>, next: seq<Pattern>, copies: int)
    requires 0 <= i < |list| && Deduped(raw, list[..i], list[i..], weights)
    requires next == list[..i + 1] + RemoveAll(list[i + 1..], list[i])
    requires copies == Count(list[i + 1..], list[i])
    ensures i + 1 <= |next|
    ensures Deduped(raw, next[..i + 1], next[i + 1..], weights + [copies + 1])
  {
    var done, x, tail := list[..i], list[i], list[i + 1..];
    SplitAt(list, i);
    assert list[i..] == [x] + tail;
    DedupStep(raw, done, x, tail, weights);
    var head, rest := done + [x], RemoveAll(tail, x);
    assert list[..i + 1] == head;
    CutAtSeam(head, rest);
    assert next[..i + 1] == head && next[i + 1..] == rest;
  }

/** When nothing is left the list holds the distinct samples with their
      multiplicities. */
  lemma DedupDone(raw: seq<Pattern>, done: seq<Pattern>, weights: seq<int>)
    requires Deduped(raw, done, [], weights)
    ensures done == Firsts(raw) && weights == Counts(raw, done)
  {
    assert done + [] == done;
  }

  // --------------------------------------------------- the initial state

  /** A row with all n patterns possible. */
  function FullRow(n: nat): (row: seq<bool>)
    ensures |row| == n && forall t :: 0 <= t < n ==> row[t]
  {
    seq(n, _ => true)
  }

  /** Support counters of a fresh cell: pattern t has, from direction d,
      as many supports as the adjacency table lists for it. */
  function FullSupport(table: seq<seq<seq<int>>>, n: nat): (cell: seq<seq<int>>)
    requires |table| == 4 && forall d :: 0 <= d < 4 ==> |table[d]| == n
    ensures |cell| == n && Fours(cell)
  {
    seq(n, t requires 0 <= t < n => seq(4, d requires 0 <= d < 4 => |table[d][t]|))
  }

  /** The wave state right after initialization, over size cells and n
      patterns, each cell's weight sum being sum. */
  function InitialState(size: nat, n: nat, table: seq<seq<seq<int>>>, sum: int): (s: Tables)
    requires |table| == 4 && forall d :: 0 <= d < 4 ==> |table[d]| == n
    ensures Shape(s, size, n)
  {
    Tables(seq(size, _ => FullRow(n)), seq(size, _ => FullSupport(table, n)), seq(size, _ => n), seq(size, _ => sum))
  }

  /** All patterns together weigh the sum of the weights. */
  lemma {:induction false} FullRowWeighs(k: nat, weights: seq<int>)
    requires k <= |weights|
    ensures WeightOf(FullRow(k), weights) == Sum(weights[..k])
    ensures CountTrue(FullRow(k)) == k
    decreases k
  {
    if k > 0 {
      assert FullRow(k)[..k - 1] == FullRow(k - 1);
      assert weights[..k][..k - 1] == weights[..k - 1];
      FullRowWeighs(k - 1, weights);
    }
  }

  /** The initial state is consistent once every weight sum is the total
      weight plus the offset. */
  lemma InitialConsistent(size: nat, weights: seq<int>, offset: int, table: seq<seq<seq<int>>>)
    requires |table| == 4 && forall d :: 0 <= d < 4 ==> |table[d]| == |weights|
    ensures Consistent(InitialState(size, |weights|, table, offset + Sum(weights)), weights, offset, table, |weights|)
  {
    var n := |weights|;
    var s := InitialState(size, n, table, offset + Sum(weights));
    FullRowWeighs(n, weights);
    assert weights[..n] == weights;
    FullCellSupported(table, n);
    forall c | 0 <= c < size
      ensures CellTallied(s.cells[c], s.counts[c], s.sums[c], weights, offset)
      ensures CellSupported(s.cells[c], s.support[c], table, n)
    {
      assert s.cells[c] == FullRow(n) && s.support[c] == FullSupport(table, n);
      assert s.counts[c] == n && s.sums[c] == offset + Sum(weights);
    }
  }

  lemma FullCellSupported(table: seq<seq<seq<int>>>, n: nat)
    requires |table| == 4 && forall d :: 0 <= d < 4 ==> |table[d]| == n
    ensures CellSupported(FullRow(n), FullSupport(table, n), table, n)
  {
  }

  /** The heap InitializeWeights fills: one entry per cell, all with the
      same key. */
  function StartEntries(key: real, size: nat): (h: seq<Entry<int>>)
    ensures |h| == size
  {
    seq(size, i => Entry(key, i))
  }

  lemma StartEntriesAppend(key: real, size: nat)
    ensures StartEntries(key, size + 1) == StartEntries(key, size) + [Entry(key, size)]
  {
  }
}
