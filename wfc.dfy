/** The solver engine of Assets/Scripts/Wfc.cs: a Wfc object holds the
    pattern catalogue, the adjacency table and the wave state in its fields,
    and its methods update them in place as the C# methods do. */
module WaveFunctionCollapse {
  import opened Wrappers
  import opened Sequences
  import opened WfcHelper
  import opened ColorIndex
  import opened Sampling
  import opened Adjacency
  import opened Wave
  import opened Propagation
  import opened Draining
  import opened Collapsing
  import opened MinHeaps
  import opened Randomness
  import opened Setup

  /** Why a run stops without a colour map: the two ArgumentExceptions of
      Initialize, the one of TryAddNewColorToDicts, the
      IndexOutOfRangeException of a sampling window that reaches more than
      one exemplar width past the edge, and the ContradictionException of
      GetPatternIndexRandomStripBased, which Execute does not catch. */
  datatype Error =
    | InputTextureTooSmall
    | OutputSizeTooSmall
    | ColorAlreadyPresent(color: Color)
    | IndexOutOfRange
    | NoPropagateablePatterns(cellIndex: int)

  /** The arguments Run reads: the exemplar's colours (indexed [x][y], as
      the texture handler returns them), the output size, the sampling
      limits, whether turned and flipped variants are added, and in place
      of the seed the two streams the generator yields. */
  datatype WfcArgs = WfcArgs(
    inputColors: seq<seq<Color>>,
    xSize: int, ySize: int,
    limitInputX: int, limitInputY: int,
    reflections: bool,
    draws: nat -> nat, fractions: nat -> real)

  /** Every window the sampling loops take, centred at x = 1 .. xCount and
      y = 1 .. yCount, wraps at most once past the exemplar's high edge. */
  ghost predicate WindowsFit(width: int, height: int, xCount: int, yCount: int) {
    xCount >= 1 && yCount >= 1 ==> xCount + 1 < 2 * width && yCount + 1 < 2 * height
  }

  /** The two dictionaries PrepareColors builds from the palette of m. */
  ghost predicate Dictionaries(m: seq<seq<Color>>, colorsOfHashes: map<byte, Color>, hashesOfColors: map<Color, byte>) {
    |Palette(m)| <= 256 && colorsOfHashes == ColorsOf(Palette(m)) && hashesOfColors == HashesOf(Palette(m))
  }

  /** The exception InitializePatterns ends with on the exemplar m with
      window centres x = 1 .. xCount and y = 1 .. yCount, if any: the 257th
      colour, then a window out of range. */
  ghost function SamplingError(m: seq<seq<Color>>, xCount: int, yCount: int): Option<Error> {
    if |Palette(m)| > 256 then Some(ColorAlreadyPresent(Palette(m)[256]))
    else if !WindowsFit(Width(m), Height(m), xCount, yCount) then Some(IndexOutOfRange)
    else None
  }

  /** The exception Initialize ends with on args, if any, in the order the
      C# code meets them: the exemplar's size, the output size, then those
      of InitializePatterns. */
  ghost function InitializeError(args: WfcArgs): Option<Error>
    requires IsMatrix(args.inputColors)
  {
    var m := args.inputColors;
    if Width(m) < WaveLength || Height(m) < WaveLength then Some(InputTextureTooSmall)
    else if args.xSize <= 0 || args.ySize <= 0 then Some(OutputSizeTooSmall)
    else SamplingError(m, Width(m) - args.limitInputX, Height(m) - args.limitInputY)
  }

  /** The raw sample list InitializePatterns builds from an exemplar of at
      most 256 colours, with centres x = 1 .. xCount and y = 1 .. yCount. */
  ghost function RawSamplesOf(m: seq<seq<Color>>, xCount: int, yCount: int, reflections: bool): seq<Pattern>
    requires IsMatrix(m) && |Palette(m)| <= 256 && WindowsFit(Width(m), Height(m), xCount, yCount)
  {
    IndexGridShape(m, Palette(m));
    Samples(IndexGrid(m, Palette(m)), xCount, yCount, reflections)
  }

  lemma RawSamplesOfGrid(m: seq<seq<Color>>, xCount: int, yCount: int, reflections: bool)
    requires IsMatrix(m) && |Palette(m)| <= 256 && WindowsFit(Width(m), Height(m), xCount, yCount)
    ensures IsMatrix(IndexGrid(m, Palette(m)))
    ensures RawSamplesOf(m, xCount, yCount, reflections) == Samples(IndexGrid(m, Palette(m)), xCount, yCount, reflections)
  {
    IndexGridShape(m, Palette(m));
  }

  /** The raw sample list InitializePatterns builds from an accepted exemplar. */
  ghost function RawSamples(args: WfcArgs): seq<Pattern>
    requires IsMatrix(args.inputColors) && InitializeError(args) == None
  {
    var m := args.inputColors;
    RawSamplesOf(m, Width(m) - args.limitInputX, Height(m) - args.limitInputY, args.reflections)
  }

  /** The raw sample count is (W - limitInputX) * (H - limitInputY), times
      six with reflections, and the deduplicated weights add up to it. */
  lemma RawSampleCount(args: WfcArgs)
    requires IsMatrix(args.inputColors) && InitializeError(args) == None
    ensures |RawSamples(args)| ==
      Sampling.Positive(Width(args.inputColors) - args.limitInputX) * Sampling.Positive(Height(args.inputColors) - args.limitInputY) * Multiplicity(args.reflections)
    ensures Sum(Counts(RawSamples(args), Firsts(RawSamples(args)))) == |RawSamples(args)|
  {
    var xCount, yCount := Width(args.inputColors) - args.limitInputX, Height(args.inputColors) - args.limitInputY;
    RawSamplesAt(args, xCount, yCount);
    RawSamplesLength(args.inputColors, xCount, yCount, args.reflections);
    CountsOfFirstsSum(RawSamples(args));
  }

  /** The raw samples of accepted arguments, over their sample counts. */
  lemma RawSamplesAt(args: WfcArgs, xCount: int, yCount: int)
    requires IsMatrix(args.inputColors) && InitializeError(args) == None
    requires xCount == Width(args.inputColors) - args.limitInputX && yCount == Height(args.inputColors) - args.limitInputY
    ensures |Palette(args.inputColors)| <= 256 && WindowsFit(Width(args.inputColors), Height(args.inputColors), xCount, yCount)
    ensures RawSamples(args) == RawSamplesOf(args.inputColors, xCount, yCount, args.reflections)
  {
  }

  lemma RawSamplesLength(m: seq<seq<Color>>, xCount: int, yCount: int, reflections: bool)
    requires IsMatrix(m) && |Palette(m)| <= 256 && WindowsFit(Width(m), Height(m), xCount, yCount)
    ensures |RawSamplesOf(m, xCount, yCount, reflections)| == Sampling.Positive(xCount) * Sampling.Positive(yCount) * Multiplicity(reflections)
  {
    IndexGridShape(m, Palette(m));
    SamplesLength(IndexGrid(m, Palette(m)), xCount, yCount, reflections);
    RawSamplesOfGrid(m, xCount, yCount, reflections);
  }

  /** Every distinct sample occurs at least once, so every weight is positive. */
  lemma CountsOfFirstsPositive(raw: seq<Pattern>)
    ensures Wave.Positive(Counts(raw, Firsts(raw)))
  {
  }

  /** The first byte of every pattern names a colour. */
  ghost predicate Named(patterns: seq<Pattern>, colorsOfHashes: map<byte, Color>) {
    forall t :: 0 <= t < |patterns| ==> patterns[t][0] in colorsOfHashes
  }

  /** Every byte of every sample names an indexed colour. */
  lemma SamplesIndexed(g: Grid, xCount: int, yCount: int, reflections: bool, n: int, colorsOfHashes: map<byte, Color>)
    requires SamplesFit(g, xCount, yCount) && GridBelow(g, n)
    requires forall b: byte :: b as int < n ==> b in colorsOfHashes
    ensures Named(Firsts(Samples(g, xCount, yCount, reflections)), colorsOfHashes)
  {
    SamplesBelow(g, xCount, yCount, reflections, n);
    IndicesNamed(Samples(g, xCount, yCount, reflections), n, colorsOfHashes);
  }

  /** InitializePatterns' outcome on the fields Initialize set from args. */
  lemma SampledAreRaw(args: WfcArgs, r: Result<(), Error>, p: seq<Pattern>, xCount: int, yCount: int, refl: bool,
                      colorsOfHashes: map<byte, Color>, hashesOfColors: map<Color, byte>)
    requires IsMatrix(args.inputColors)
    requires Width(args.inputColors) >= WaveLength && Height(args.inputColors) >= WaveLength
    requires args.xSize > 0 && args.ySize > 0
    requires xCount == Width(args.inputColors) - args.limitInputX && yCount == Height(args.inputColors) - args.limitInputY
    requires refl == args.reflections
    requires SamplingError(args.inputColors, xCount, yCount).Some? ==> r == Err(SamplingError(args.inputColors, xCount, yCount).value)
    requires SamplingError(args.inputColors, xCount, yCount).None? ==> r == Ok(()) && p == RawSamplesOf(args.inputColors, xCount, yCount, refl)
    requires |Palette(args.inputColors)| <= 256 ==> Dictionaries(args.inputColors, colorsOfHashes, hashesOfColors)
    ensures r.Ok? <==> InitializeError(args) == None
    ensures InitializeError(args).Some? ==> r == Err(InitializeError(args).value)
    ensures r.Ok? ==> p == RawSamples(args) && Dictionaries(args.inputColors, colorsOfHashes, hashesOfColors)
  {
  }

  /** What Initialize relies on about an accepted exemplar once the
      dictionaries hold its palette: they index it, every distinct sample
      occurs, and every first byte names a colour. */
  lemma AcceptedSamples(args: WfcArgs, colorsOfHashes: map<byte, Color>, hashesOfColors: map<Color, byte>)
    requires IsMatrix(args.inputColors) && InitializeError(args) == None
    requires Dictionaries(args.inputColors, colorsOfHashes, hashesOfColors)
    ensures var raw := RawSamples(args);
      Wave.Positive(Counts(raw, Firsts(raw))) && Named(Firsts(raw), colorsOfHashes)
  {
    ColorsOfKeys(Palette(args.inputColors));
    CountsOfFirstsPositive(RawSamples(args));
    AcceptedNamed(args, colorsOfHashes);
  }

  /** The first bytes of the samples of accepted arguments name colours
      when every index of the palette does. */
  lemma AcceptedNamed(args: WfcArgs, colorsOfHashes: map<byte, Color>)
    requires IsMatrix(args.inputColors) && InitializeError(args) == None
    requires forall k: byte :: k as int < |Palette(args.inputColors)| ==> k in colorsOfHashes
    ensures Named(Firsts(RawSamples(args)), colorsOfHashes)
  {
    var m := args.inputColors;
    var xCount, yCount := Width(m) - args.limitInputX, Height(m) - args.limitInputY;
    assert SamplingError(m, xCount, yCount) == None;
    SamplesNamed(m, xCount, yCount, args.reflections, colorsOfHashes);
    assert RawSamples(args) == RawSamplesOf(m, xCount, yCount, args.reflections);
  }

  /** The first bytes of the samples of an exemplar name colours when every
      index of its palette does. */
  lemma SamplesNamed(m: seq<seq<Color>>, xCount: int, yCount: int, reflections: bool, colorsOfHashes: map<byte, Color>)
    requires IsMatrix(m) && |Palette(m)| <= 256 && WindowsFit(Width(m), Height(m), xCount, yCount)
    requires forall k: byte :: k as int < |Palette(m)| ==> k in colorsOfHashes
    ensures Named(Firsts(RawSamplesOf(m, xCount, yCount, reflections)), colorsOfHashes)
  {
    IndexGridShape(m, Palette(m));
    IndexGridBelowPalette(m, Palette(m));
    SamplesIndexed(IndexGrid(m, Palette(m)), xCount, yCount, reflections, |Palette(m)|, colorsOfHashes);
    RawSamplesOfGrid(m, xCount, yCount, reflections);
  }

  /** First bytes below n name colours when every byte below n is a key. */
  lemma IndicesNamed(raw: seq<Pattern>, n: int, colorsOfHashes: map<byte, Color>)
    requires forall k :: 0 <= k < |raw| ==> BytesBelow(raw[k], n)
    requires forall b: byte :: b as int < n ==> b in colorsOfHashes
    ensures Named(Firsts(raw), colorsOfHashes)
  {
    forall t | 0 <= t < |Firsts(raw)| ensures Firsts(raw)[t][0] in colorsOfHashes {
      var k := IndexOf(raw, Firsts(raw)[t]);
      assert BytesBelow(raw[k], n);
    }
  }

  /** The heap InitializeWeights fills has an entry for every cell and
      names no other. */
  lemma StartHeap(h: seq<Entry<int>>, key: real, counts: seq<int>)
    requires multiset(h) == multiset(StartEntries(key, |counts|))
    ensures InCells(h, |counts|) && TrackedIn(counts, h, -1)
  {
    var start := StartEntries(key, |counts|);
    forall i | 0 <= i < |h| ensures 0 <= h[i].value < |counts| {
      assert h[i] in multiset(start);
      var j :| 0 <= j < |start| && start[j] == h[i];
    }
    forall c | 0 <= c < |counts| && counts[c] >= 2 ensures c in HeapCells(h) {
      assert start[c] in multiset(h);
      var i :| 0 <= i < |h| && h[i] == start[c];
    }
  }

  /** The colour map of a run, and the contradiction that ended it early, if any. */
  datatype RunResult = RunResult(colorMap: seq<Pixel>, contradiction: Option<Contradiction>)

  /** ENTROPY_NOISE_MAX_RANGE. */
  const EntropyNoiseMaxRange: real := 0.0000001

  /** The cells that have an entry in the heap. */
  ghost function HeapCells(h: seq<Entry<int>>): set<int> {
    set i | 0 <= i < |h| :: h[i].value
  }

  lemma HeapCellsGrow(a: seq<Entry<int>>, b: seq<Entry<int>>)
    requires multiset(a) <= multiset(b)
    ensures HeapCells(a) <= HeapCells(b)
  {
    forall c | c in HeapCells(a) ensures c in HeapCells(b) {
      var i :| 0 <= i < |a| && a[i].value == c;
      assert a[i] in multiset(b);
      var j :| 0 <= j < |b| && b[j] == a[i];
    }
  }

  /** Polling the top entry loses at most the top's cell. */
  lemma HeapCellsAfterPoll(a: seq<Entry<int>>, b: seq<Entry<int>>)
    requires |a| > 0 && multiset(b) == multiset(a) - multiset{a[0]}
    ensures forall c :: c in HeapCells(a) ==> c == a[0].value || c in HeapCells(b)
  {
    forall c | c in HeapCells(a) && c != a[0].value ensures c in HeapCells(b) {
      var i :| 0 <= i < |a| && a[i].value == c;
      assert a[i] != a[0];
      assert a[i] in multiset(b);
      var j :| 0 <= j < |b| && b[j] == a[i];
    }
  }

  /** The row and the column of a cell, as CollapseCellByPattern computes them. */
  function RowOf(c: int, xSize: int): int
    requires xSize > 0
  {
    c / xSize
  }

  function ColumnOf(c: int, xSize: int): int
    requires xSize > 0
  {
    c - RowOf(c, xSize) * xSize
  }

  /** A cell index splits into its column and row. */
  lemma CellCoordinates(c: int, xSize: int, ySize: int)
    requires xSize > 0 && 0 <= c < xSize * ySize
    ensures 0 <= RowOf(c, xSize) < ySize && 0 <= ColumnOf(c, xSize) < xSize
    ensures c == ColumnOf(c, xSize) + RowOf(c, xSize) * xSize
  {
  }

  /** The heap key UpdateEntropies files a cell under: the entropy of its
      weight sum plus fraction times ENTROPY_NOISE_MAX_RANGE of noise. */
  function NoisedKey(entropy: int -> real, weight: int, fraction: real): real {
    entropy(weight) + fraction * EntropyNoiseMaxRange
  }

  /** The heap entries a sequence of UpdateEntropies calls adds, the first
      of them drawing the generator's fraction at position start. */
  ghost function Entries(entropy: int -> real, fractions: nat -> real, rs: seq<Refresh>, start: nat): multiset<Entry<int>> {
    if rs == [] then multiset{}
    else
      var last := rs[|rs| - 1];
      Entries(entropy, fractions, rs[..|rs| - 1], start) + multiset{Entry(NoisedKey(entropy, last.weight, Fraction(fractions, start + |rs| - 1)), last.cell)}
  }

  lemma EntriesAppendOne(entropy: int -> real, fractions: nat -> real, rs: seq<Refresh>, r: Refresh, start: nat, k: nat)
    requires k == start + |rs|
    ensures Entries(entropy, fractions, rs + [r], start)
         == Entries(entropy, fractions, rs, start) + multiset{Entry(NoisedKey(entropy, r.weight, Fraction(fractions, k)), r.cell)}
  {
    assert (rs + [r])[..|rs + [r]| - 1] == rs;
  }

  /** One heap entry per refresh. */
  lemma {:induction false} EntriesSize(entropy: int -> real, fractions: nat -> real, rs: seq<Refresh>, start: nat)
    ensures |Entries(entropy, fractions, rs, start)| == |rs|
    decreases |rs|
  {
    if rs != [] {
      EntriesSize(entropy, fractions, rs[..|rs| - 1], start);
    }
  }

  lemma {:induction false} EntriesConcat(entropy: int -> real, fractions: nat -> real, a: seq<Refresh>, b: seq<Refresh>,
                                         start: nat, sa: nat)
    requires sa == start + |a|
    ensures Entries(entropy, fractions, a + b, start)
         == Entries(entropy, fractions, a, start) + Entries(entropy, fractions, b, sa)
    decreases |b|
  {
    if b == [] {
      assert a + b == a;
    } else {
      var init, last := b[..|b| - 1], b[|b| - 1];
      var k := sa + |init|;
      assert a + b == (a + init) + [last] && b == init + [last];
      EntriesConcat(entropy, fractions, a, init, start, sa);
      EntriesAppendOne(entropy, fractions, a + init, last, start, k);
      EntriesAppendOne(entropy, fractions, init, last, sa, k);
      var e := multiset{Entry(NoisedKey(entropy, last.weight, Fraction(fractions, k)), last.cell)};
      var ea, ei := Entries(entropy, fractions, a, start), Entries(entropy, fractions, init, sa);
      UnionRegroups(ea, ei, e);
      assert Entries(entropy, fractions, a + b, start) == (ea + ei) + e;
      assert Entries(entropy, fractions, b, sa) == ei + e;
    }
  }

  /** Heap contents after two runs of refreshes, one after the other. */
  lemma EntriesJoin(entropy: int -> real, fractions: nat -> real, h0: multiset<Entry<int>>, hb: multiset<Entry<int>>,
                    h1: multiset<Entry<int>>, refs: seq<Refresh>, more: seq<Refresh>, k0: nat, kb: nat)
    requires hb == h0 + Entries(entropy, fractions, refs, k0)
    requires kb == k0 + |refs| && h1 == hb + Entries(entropy, fractions, more, kb)
    ensures h1 == h0 + Entries(entropy, fractions, refs + more, k0)
  {
    EntriesConcat(entropy, fractions, refs, more, k0, kb);
    UnionRegroups(h0, Entries(entropy, fractions, refs, k0), Entries(entropy, fractions, more, kb));
  }

  /** Every entry of h names one of size cells. */
  ghost predicate InCells(h: seq<Entry<int>>, size: int) {
    forall i :: 0 <= i < |h| ==> 0 <= h[i].value < size
  }

  /** Adding an entry for a cell keeps every entry naming a cell. */
  lemma InCellsAdd(a: seq<Entry<int>>, b: seq<Entry<int>>, e: Entry<int>, size: int)
    requires InCells(a, size) && 0 <= e.value < size && multiset(b) == multiset(a) + multiset{e}
    ensures InCells(b, size)
  {
    forall i | 0 <= i < |b| ensures 0 <= b[i].value < size {
      assert b[i] in multiset(b);
      if b[i] != e {
        assert b[i] in multiset(a);
        var j :| 0 <= j < |a| && a[j] == b[i];
      }
    }
  }

  lemma UnionRegroups<T>(a: multiset<T>, b: multiset<T>, c: multiset<T>)
    ensures (a + b) + c == a + (b + c)
  {
  }

  /** What PickNextCell did to the heap contents h0, leaving h1: it only
      took entries out, and every entry it threw away names a cell without
      patterns. Either it returned the cell of the last entry it took, a cell
      with a pattern left whose key is the least among the entries of such
      cells, or it emptied the heap and returned 0. */
  ghost predicate Picked(h0: multiset<Entry<int>>, h1: multiset<Entry<int>>, counts: seq<int>, cell: int, key: real) {
    var pick := Entry(key, cell);
    && h1 <= h0
    && if pick in h0 - h1 && 0 <= cell < |counts| && counts[cell] >= 1 then
         && (forall e :: e in (h0 - h1) - multiset{pick} ==> 0 <= e.value < |counts| && counts[e.value] <= 0)
         && (forall e :: e in h0 && 0 <= e.value < |counts| && counts[e.value] >= 1 ==> key <= e.key)
       else
         && cell == 0 && h1 == multiset{}
         && (forall e :: e in h0 ==> 0 <= e.value < |counts| && counts[e.value] <= 0)
  }

  /** Taking entries out of the heap keeps every entry naming a cell. */
  lemma InCellsShrink(a: seq<Entry<int>>, b: seq<Entry<int>>, size: int)
    requires InCells(a, size) && multiset(b) <= multiset(a)
    ensures InCells(b, size)
  {
    forall i | 0 <= i < |b| ensures 0 <= b[i].value < size {
      assert b[i] in multiset(a);
      var j :| 0 <= j < |a| && a[j] == b[i];
    }
  }

  /** PickNextCell returning the top entry next of heap hb, with gone the
      entries it threw away before. */
  lemma PickLive(h0: multiset<Entry<int>>, hb: seq<Entry<int>>, h1: multiset<Entry<int>>, gone: multiset<Entry<int>>,
                 counts: seq<int>, next: Entry<int>)
    requires multiset(hb) + gone == h0
    requires |hb| > 0 && next == hb[0] && multiset(hb) == h1 + multiset{next}
    requires forall i :: 0 <= i < |hb| ==> next.key <= hb[i].key
    requires forall e :: e in gone ==> 0 <= e.value < |counts| && counts[e.value] <= 0
    requires 0 <= next.value < |counts| && counts[next.value] >= 1
    ensures Picked(h0, h1, counts, next.value, next.key)
  {
    assert h0 - h1 == gone + multiset{next};
    assert (h0 - h1) - multiset{next} == gone;
    forall e | e in h0 && 0 <= e.value < |counts| && counts[e.value] >= 1 ensures next.key <= e.key {
      assert e in multiset(hb);
      var i :| 0 <= i < |hb| && hb[i] == e;
    }
  }

  /** PickNextCell emptying the heap, every entry it threw away naming a
      cell without patterns. */
  lemma PickEmpty(h0: multiset<Entry<int>>, gone: multiset<Entry<int>>, counts: seq<int>, key: real)
    requires h0 == gone && forall e :: e in gone ==> 0 <= e.value < |counts| && counts[e.value] <= 0
    ensures Picked(h0, multiset{}, counts, 0, key)
  {
  }

  /** A cell that still has a pattern keeps an entry in the heap across
      PickNextCell, unless it is the cell returned. */
  lemma PickedKeepsLive(a: seq<Entry<int>>, b: seq<Entry<int>>, counts: seq<int>, cell: int, key: real)
    requires Picked(multiset(a), multiset(b), counts, cell, key)
    ensures forall c :: c in HeapCells(a) && 0 <= c < |counts| && counts[c] >= 1 ==> c == cell || c in HeapCells(b)
  {
    var pick := Entry(key, cell);
    forall c | c in HeapCells(a) && 0 <= c < |counts| && counts[c] >= 1 && c != cell ensures c in HeapCells(b) {
      var i :| 0 <= i < |a| && a[i].value == c;
      var e := a[i];
      assert e in multiset(a);
      if e in multiset(b) {
        var j :| 0 <= j < |b| && b[j] == e;
      }
    }
  }

  /** Every cell with two or more possible patterns has an entry in heap h,
      or is cell next. */
  ghost predicate TrackedIn(counts: seq<int>, h: seq<Entry<int>>, next: int) {
    forall c :: 0 <= c < |counts| && counts[c] >= 2 ==> c == next || c in HeapCells(h)
  }

  /** Every cell has a pattern left. */
  ghost predicate Live(counts: seq<int>) {
    forall c :: 0 <= c < |counts| ==> counts[c] >= 1
  }

  /** The contradiction names a cell, and that cell has no pattern left. */
  ghost predicate Contradicted(counts: seq<int>, xSize: int, ySize: int, x: Contradiction) {
    && 0 <= x.xIndex < xSize && 0 <= x.yIndex < ySize
    && 0 <= x.xIndex + x.yIndex * xSize < |counts|
    && counts[x.xIndex + x.yIndex * xSize] == 0
  }

  /** One round of Execute on the wave state: sA before the collapse of
      cell c, which lowers the count total by m and leaves sB, and r the
      finished drain of its events. The round only rules patterns out, a
      contradiction names a cell left without patterns, the count total
      drops by at least the number of heap refreshes, a round without
      contradiction keeps every live cell live, and a cell still open after
      the round was open before it and is not c. */
  lemma RoundFacts(s0: Tables, sA: Tables, sB: Tables, r: Drained, weights: seq<int>, offset: int,
                   table: seq<seq<seq<int>>>, xSize: int, ySize: int, c: int, m: int,
                   hA: seq<Entry<int>>, hC: seq<Entry<int>>)
    requires Shape(s0, xSize * ySize, |weights|) && Shape(sA, xSize * ySize, |weights|)
    requires Shape(sB, xSize * ySize, |weights|) && Shape(r.s, xSize * ySize, |weights|)
    requires Descends(s0, sA, xSize * ySize, |weights|) && Descends(sA, sB, xSize * ySize, |weights|)
    requires 0 <= c < xSize * ySize && sB.counts == sA.counts[c := 1]
    requires Sum(sB.counts) + m == Sum(sA.counts) && m >= 0
    requires Finished(sB, r, weights, offset, table, xSize, ySize)
    requires TrackedIn(sA.counts, hA, c) && multiset(hA) <= multiset(hC) && |hC| == |hA| + |r.refreshed|
    ensures Descends(s0, r.s, xSize * ySize, |weights|)
    ensures r.failed.Some? ==> Contradicted(r.s.counts, xSize, ySize, r.failed.value)
    ensures Sum(r.s.counts) + |hC| <= Sum(sA.counts) + |hA|
    ensures r.failed.None? && Live(sA.counts) ==> Live(r.s.counts)
    ensures TrackedIn(r.s.counts, hC, -1)
  {
    var size := xSize * ySize;
    DescendsTransitive(s0, sA, sB, size, |weights|);
    DescendsTransitive(s0, sB, r.s, size, |weights|);
    if r.failed.Some? {
      CountsNonNegative(r.s, weights, offset, table, |weights|);
    }
    HeapCellsGrow(hA, hC);
  }

  class Wfc {
    /** WfcHelper.Entropy of a cell's weight sum; its floating-point
        logarithms are left abstract. */
    const entropy: int -> real

    var xSize: int
    var ySize: int
    var limitInputX: int
    var limitInputY: int
    var inputTextureXSize: int
    var inputTextureYSize: int
    var reflections: bool

    var colorsOfHashes: map<byte, Color>
    var hashesOfColors: map<Color, byte>

    var prng: Prng
    var removalUpdates: seq<RemovalUpdate>

    var patterns: seq<Pattern>
    var patternWeights: seq<int>
    var propagators: seq<seq<seq<int>>>

    var sumOfPossibleWeightsAtStart: int

    /** waveCells[c][t]: pattern t is still possible at cell c. */
    var waveCells: seq<seq<bool>>
    /** compatibles[c][t][d]: how many patterns still support pattern t at
        cell c from direction d. */
    var compatibles: seq<seq<seq<int>>>
    var sumOfPossiblePatterns: seq<int>
    var uncollapsedEntropies: MinHeap<int>
    var sumOfWeights: seq<int>

    /** What sumOfPossibleWeightsAtStart held before the current run added
        the pattern weights to it: zero on a fresh object. */
    ghost var weightOffset: int

    constructor(entropy: int -> real)
      ensures this.entropy == entropy && sumOfPossibleWeightsAtStart == 0
      ensures fresh(prng) && fresh(uncollapsedEntropies)
    {
      this.entropy := entropy;
      xSize, ySize := 0, 0;
      limitInputX, limitInputY := 0, 0;
      inputTextureXSize, inputTextureYSize := 0, 0;
      reflections := false;
      colorsOfHashes, hashesOfColors := map[], map[];
      prng := new Prng(_ => 0, _ => 0.0);
      removalUpdates := [];
      patterns, patternWeights, propagators := [], [], [];
      sumOfPossibleWeightsAtStart := 0;
      waveCells := [];
      compatibles := [];
      sumOfPossiblePatterns := [];
      uncollapsedEntropies := new MinHeap<int>();
      sumOfWeights := [];
      weightOffset := 0;
    }

    // ------------------------------------------------------ invariants

    /** The sizes of every table agree, the adjacency table has the shape the
        solver relies on, and every pattern's first byte names a colour. */
    ghost predicate Shaped()
      reads this
    {
      && xSize > 0 && ySize > 0
      && |waveCells| == xSize * ySize && Shape(State(), |waveCells|, |patterns|)
      && |patternWeights| == |patterns| && Wave.Positive(patternWeights) && weightOffset >= 0
      && AdjacencyTable(propagators, |patterns|)
      && (forall t :: 0 <= t < |patterns| ==> patterns[t][0] in colorsOfHashes)
    }

    /** The wave state as one value. */
    ghost function State(): Tables
      reads this
    {
      Tables(waveCells, compatibles, sumOfPossiblePatterns, sumOfWeights)
    }

    /** Every heap entry names a cell. */
    ghost predicate Queued()
      reads this, uncollapsedEntropies
    {
      && uncollapsedEntropies.Valid()
      && InCells(uncollapsedEntropies.heap, |waveCells|)
    }

    /** A removal event names a cell, its coordinates and a pattern. */
    ghost predicate ValidEvent(e: RemovalUpdate)
      reads this
    {
      && 0 <= e.xIndex < xSize && 0 <= e.yIndex < ySize
      && e.cellIndex == e.xIndex + e.yIndex * xSize
      && 0 <= e.pattern < |patterns|
    }

    ghost predicate Pending()
      reads this
    {
      forall k :: 0 <= k < |removalUpdates| ==> ValidEvent(removalUpdates[k])
    }

    /** The solver's invariant: counts and weight sums agree with the wave
        (Tallied), support counters with the adjacency table (Supported). */
    ghost predicate Valid()
      reads this, uncollapsedEntropies
    {
      && Shaped()
      && Consistent(State(), patternWeights, weightOffset, propagators, |patterns|)
      && Queued() && Pending()
    }

    /** The number of possible (cell, pattern) pairs: every removal lowers it. */
    ghost function Remaining(): int
      reads this
    {
      Sum(sumOfPossiblePatterns)
    }

    // ------------------------------------------------------ initialization

    /** TryAddNewColorToDicts: the colour's index is the number of colours
        indexed so far, cut to a byte; it fails, changing nothing, when that
        byte or the colour is already in the dictionaries. */
    method TryAddNewColorToDicts(color: Color) returns (r: Result<(), Error>)
      modifies this`colorsOfHashes, this`hashesOfColors
      ensures var colorHash := (|old(hashesOfColors)| % 256) as byte;
        if colorHash in old(colorsOfHashes) || color in old(hashesOfColors) then
          && r == Err(ColorAlreadyPresent(color))
          && colorsOfHashes == old(colorsOfHashes) && hashesOfColors == old(hashesOfColors)
        else
          && r == Ok(())
          && colorsOfHashes == old(colorsOfHashes)[colorHash := color]
          && hashesOfColors == old(hashesOfColors)[color := colorHash]
    {
      var colorHash := (|hashesOfColors| % 256) as byte;
      if colorHash in colorsOfHashes {
        return Err(ColorAlreadyPresent(color));
      }
      if color in hashesOfColors {
        return Err(ColorAlreadyPresent(color));
      }
      colorsOfHashes := colorsOfHashes[colorHash := color];
      hashesOfColors := hashesOfColors[color := colorHash];
      return Ok(());
    }

    /** Indexing a colour not seen yet: it fails exactly when 256 colours
        are indexed already, and otherwise gives the colour the next index. */
    method IndexNewColor(color: Color, ghost seen: seq<Color>) returns (r: Result<(), Error>)
      requires IndexedBy(seen, colorsOfHashes, hashesOfColors) && color !in seen
      modifies this`colorsOfHashes, this`hashesOfColors
      ensures r.Err? <==> |seen| == 256
      ensures r.Err? ==> r.error == ColorAlreadyPresent(color)
      ensures r.Ok? ==> IndexedBy(seen + [color], colorsOfHashes, hashesOfColors)
    {
      NextIndexClashes(seen, colorsOfHashes, hashesOfColors, color);
      if |seen| < 256 {
        IndexOneMore(seen, colorsOfHashes, hashesOfColors, color);
      }
      r := TryAddNewColorToDicts(color);
    }

    /** PrepareColors: indexes the two reserved colours, then every new
        colour of the exemplar in scan order, and returns the exemplar as
        colour indices. It fails on the 257th distinct colour, whose index
        wraps round to one already in use. */
    method PrepareColors(textureColorMatrix: seq<seq<Color>>) returns (r: Result<Grid, Error>)
      requires IsMatrix(textureColorMatrix)
      requires inputTextureXSize == Width(textureColorMatrix) && inputTextureYSize == Height(textureColorMatrix)
      modifies this`colorsOfHashes, this`hashesOfColors
      ensures |Palette(textureColorMatrix)| <= 256 ==>
        && r == Ok(IndexGrid(textureColorMatrix, Palette(textureColorMatrix)))
        && colorsOfHashes == ColorsOf(Palette(textureColorMatrix))
        && hashesOfColors == HashesOf(Palette(textureColorMatrix))
      ensures |Palette(textureColorMatrix)| > 256 ==> r == Err(ColorAlreadyPresent(Palette(textureColorMatrix)[256]))
    {
      IndexReservedColors(textureColorMatrix);
      r := IndexColumns(textureColorMatrix);
    }

    /** The loop of PrepareColors over the columns, once the two reserved
        colours are indexed. */
    method IndexColumns(textureColorMatrix: seq<seq<Color>>) returns (r: Result<Grid, Error>)
      requires IsMatrix(textureColorMatrix)
      requires inputTextureXSize == Width(textureColorMatrix) && inputTextureYSize == Height(textureColorMatrix)
      requires Scanning(textureColorMatrix, 0, 0, [MaskColor, UninitializedColor], colorsOfHashes, hashesOfColors)
      modifies this`colorsOfHashes, this`hashesOfColors
      ensures |Palette(textureColorMatrix)| <= 256 ==>
        && r == Ok(IndexGrid(textureColorMatrix, Palette(textureColorMatrix)))
        && colorsOfHashes == ColorsOf(Palette(textureColorMatrix))
        && hashesOfColors == HashesOf(Palette(textureColorMatrix))
      ensures |Palette(textureColorMatrix)| > 256 ==> r == Err(ColorAlreadyPresent(Palette(textureColorMatrix)[256]))
    {
      ghost var seen := [MaskColor, UninitializedColor];
      var hashedColors: Grid := [];
      var x := 0;
      while x < inputTextureXSize
        invariant 0 <= x <= inputTextureXSize
        invariant Scanning(textureColorMatrix, x, 0, seen, colorsOfHashes, hashesOfColors)
        invariant IndexedColumns(textureColorMatrix, hashedColors, x)
      {
        var column;
        column, seen := IndexColumn(textureColorMatrix, x, seen);
        if column.Err? {
          return Err(column.error);
        }
        IndexedColumnsStep(textureColorMatrix, hashedColors, x, column.value);
        hashedColors := hashedColors + [column.value];
        x := x + 1;
      }
      assert x == |textureColorMatrix|;
      ScanDone(textureColorMatrix, seen, colorsOfHashes, hashesOfColors);
      IsIndexGrid(textureColorMatrix, hashedColors);
      return Ok(hashedColors);
    }

    /** The start of PrepareColors: fresh dictionaries holding the two
        reserved colours at indices 0 and 1. */
    method IndexReservedColors(ghost m: seq<seq<Color>>)
      modifies this`colorsOfHashes, this`hashesOfColors
      ensures Scanning(m, 0, 0, [MaskColor, UninitializedColor], colorsOfHashes, hashesOfColors)
    {
      colorsOfHashes, hashesOfColors := map[], map[];
      var added := TryAddNewColorToDicts(MaskColor);
      added := TryAddNewColorToDicts(UninitializedColor);
      ScanStart(m, colorsOfHashes, hashesOfColors);
    }

    /** The inner loop of PrepareColors, over column x: indexes each colour
        not indexed yet and returns the column's indices. */
    method IndexColumn(textureColorMatrix: seq<seq<Color>>, x: int, ghost seen: seq<Color>)
      returns (r: Result<seq<byte>, Error>, ghost seen': seq<Color>)
      requires IsMatrix(textureColorMatrix) && inputTextureYSize == Height(textureColorMatrix)
      requires 0 <= x < |textureColorMatrix| && Scanning(textureColorMatrix, x, 0, seen, colorsOfHashes, hashesOfColors)
      modifies this`colorsOfHashes, this`hashesOfColors
      ensures r.Ok? ==>
        && Scanning(textureColorMatrix, x + 1, 0, seen', colorsOfHashes, hashesOfColors)
        && IndexedColumn(textureColorMatrix, r.value, x, |textureColorMatrix[x]|)
      ensures r.Err? ==>
        && |Palette(textureColorMatrix)| > 256
        && r.error == ColorAlreadyPresent(Palette(textureColorMatrix)[256])
    {
      ColumnHeight(textureColorMatrix, x);
      seen' := seen;
      var column: seq<byte> := [];
      var y := 0;
      while y < inputTextureYSize
        invariant 0 <= y <= inputTextureYSize
        invariant Scanning(textureColorMatrix, x, y, seen', colorsOfHashes, hashesOfColors)
        invariant IndexedColumn(textureColorMatrix, column, x, y)
      {
        var color := textureColorMatrix[x][y];
        if color in hashesOfColors {
          ScanKnown(textureColorMatrix, x, y, seen', colorsOfHashes, hashesOfColors);
        } else {
          ScanNew(textureColorMatrix, x, y, seen', colorsOfHashes, hashesOfColors);
          ghost var cs, hs := colorsOfHashes, hashesOfColors;
          var added := IndexNewColor(color, seen');
          if added.Err? {
            return Err(added.error), seen';
          }
          ScanAdded(textureColorMatrix, x, y, seen', cs, hs, colorsOfHashes, hashesOfColors);
          seen' := seen' + [color];
        }
        IndexedColumnStep(textureColorMatrix, column, x, y, hashesOfColors[color]);
        column := column + [hashesOfColors[color]];
        y := y + 1;
      }
      ScanNextColumn(textureColorMatrix, x, seen', colorsOfHashes, hashesOfColors);
      return Ok(column), seen';
    }

    /** InitializePatterns: the window centred on every (x, y) with x = 1 ..
        W - limitInputX and y = 1 .. H - limitInputY, rows outermost, each
        followed by its five turned and flipped variants when reflections
        are on. */
    method InitializePatterns(textureColorMatrix: seq<seq<Color>>) returns (r: Result<(), Error>)
      requires IsMatrix(textureColorMatrix)
      requires inputTextureXSize == Width(textureColorMatrix) && inputTextureYSize == Height(textureColorMatrix)
      modifies this`patterns, this`colorsOfHashes, this`hashesOfColors
      ensures SamplingError(textureColorMatrix, inputTextureXSize - limitInputX, inputTextureYSize - limitInputY).Some? ==>
        r == Err(SamplingError(textureColorMatrix, inputTextureXSize - limitInputX, inputTextureYSize - limitInputY).value)
      ensures SamplingError(textureColorMatrix, inputTextureXSize - limitInputX, inputTextureYSize - limitInputY).None? ==>
        && r == Ok(())
        && patterns == RawSamplesOf(textureColorMatrix, inputTextureXSize - limitInputX, inputTextureYSize - limitInputY, reflections)
      ensures |Palette(textureColorMatrix)| <= 256 ==> Dictionaries(textureColorMatrix, colorsOfHashes, hashesOfColors)
    {
      patterns := [];
      var prepared := PrepareColors(textureColorMatrix);
      if prepared.Err? {
        assert |Palette(textureColorMatrix)| > 256;
        return Err(prepared.error);
      }
      r := SamplePatterns(prepared.value, textureColorMatrix);
    }

    /** The sampling part of InitializePatterns, over the index grid g of
        the exemplar. The C# code meets a window out of range only inside
        the loops, after the windows before it are added; here that case is
        told apart first. */
    method SamplePatterns(g: Grid, ghost m: seq<seq<Color>>) returns (r: Result<(), Error>)
      requires IsMatrix(m) && |Palette(m)| <= 256 && g == IndexGrid(m, Palette(m))
      requires Width(m) == inputTextureXSize && Height(m) == inputTextureYSize && patterns == []
      modifies this`patterns
      ensures !WindowsFit(inputTextureXSize, inputTextureYSize, inputTextureXSize - limitInputX, inputTextureYSize - limitInputY) ==>
        r == Err(IndexOutOfRange)
      ensures WindowsFit(inputTextureXSize, inputTextureYSize, inputTextureXSize - limitInputX, inputTextureYSize - limitInputY) ==>
        r == Ok(()) && patterns == RawSamplesOf(m, inputTextureXSize - limitInputX, inputTextureYSize - limitInputY, reflections)
    {
      var xCount, yCount := inputTextureXSize - limitInputX, inputTextureYSize - limitInputY;
      if xCount >= 1 && yCount >= 1 && (xCount + 1 >= 2 * inputTextureXSize || yCount + 1 >= 2 * inputTextureYSize) {
        return Err(IndexOutOfRange);
      }
      IndexGridShape(m, Palette(m));
      AddSamples(g, xCount, yCount);
      EmptyPrefix(Samples(g, xCount, yCount, reflections));
      RawSamplesOfGrid(m, xCount, yCount, reflections);
      return Ok(());
    }

    /** The two sampling loops of InitializePatterns over the index grid g:
        rows y = 1 .. yCount outermost. */
    method AddSamples(g: Grid, xCount: int, yCount: int)
      requires SamplesFit(g, xCount, yCount)
      modifies this`patterns
      ensures patterns == old(patterns) + Samples(g, xCount, yCount, reflections)
    {
      var y := 1;
      while y <= yCount
        invariant 1 <= y && (yCount >= 1 ==> y <= yCount + 1) && (yCount < 1 ==> y == 1)
        invariant SamplesFit(g, xCount, y - 1)
        invariant patterns == old(patterns) + Samples(g, xCount, y - 1, reflections)
      {
        assert SamplesFit(g, xCount, y);
        AddRow(g, y, xCount);
        AppendAssociates(old(patterns), Samples(g, xCount, y - 1, reflections),
                         if xCount >= 1 then SampleRow(g, y, xCount, reflections) else []);
        assert Samples(g, xCount, y, reflections)
            == Samples(g, xCount, y - 1, reflections) + (if xCount >= 1 then SampleRow(g, y, xCount, reflections) else []);
        y := y + 1;
      }
      if yCount < 1 {
        assert Samples(g, xCount, yCount, reflections) == [] == Samples(g, xCount, y - 1, reflections);
      }
    }

    /** The inner sampling loop: centres x = 1 .. xCount of row y. */
    method AddRow(g: Grid, y: int, xCount: int)
      requires 1 <= y && SamplesFit(g, xCount, y)
      modifies this`patterns
      ensures patterns == old(patterns) + (if xCount >= 1 then SampleRow(g, y, xCount, reflections) else [])
    {
      var x := 1;
      while x <= xCount
        invariant 1 <= x && (xCount >= 1 ==> x <= xCount + 1)
        invariant xCount >= 1 ==> patterns == old(patterns) + SampleRow(g, y, x - 1, reflections)
        invariant xCount < 1 ==> patterns == old(patterns)
      {
        AddWindow(g, x, y);
        AppendAssociates(old(patterns), SampleRow(g, y, x - 1, reflections), Variants(OriginalPattern(g, x, y), reflections));
        assert SampleRow(g, y, x, reflections) == SampleRow(g, y, x - 1, reflections) + Variants(OriginalPattern(g, x, y), reflections);
        x := x + 1;
      }
    }

    /** One pass of the inner loop: the window centred on (x, y), then its
        five variants when reflections are on. */
    method AddWindow(g: Grid, x: int, y: int)
      requires CanSample(g, x, y)
      modifies this`patterns
      ensures patterns == old(patterns) + Variants(OriginalPattern(g, x, y), reflections)
    {
      var originalPattern := GetOriginalPattern(g, x, y);
      var added: seq<Pattern> := [originalPattern];
      if reflections {
        var turned90 := CreatePatternTurn90Degree(originalPattern);
        var turned180 := CreatePatternTurn180Degree(originalPattern);
        var turned270 := CreatePatternTurn270Degree(originalPattern);
        var flippedH := CreatePatternHorizontalFlip(originalPattern);
        var flippedV := CreatePatternVerticalFlip(originalPattern);
        added := [originalPattern, turned90, turned180, turned270, flippedH, flippedV];
      }
      assert added == Variants(originalPattern, reflections);
      ghost var before := patterns;
      patterns := patterns + added;
      assert patterns == before + added;
      assert before == old(patterns);
    }

    /** DistinctAndCountPatterns: keeps the first copy of every pattern, in
        the order of first appearance, weighted by its number of copies. */
    method DistinctAndCountPatterns()
      modifies this`patterns, this`patternWeights
      ensures patterns == Firsts(old(patterns))
      ensures patternWeights == Counts(old(patterns), patterns)
    {
      ghost var raw := patterns;
      patternWeights := [];
      DedupStart(raw);
      var i := 0;
      while i < |patterns|
        invariant 0 <= i <= |patterns|
        invariant Deduped(raw, patterns[..i], patterns[i..], patternWeights)
        decreases |patterns| - i
      {
        DedupFresh(raw, patterns, i, patternWeights);
        ghost var before := patterns;
        var copies := RemoveCopies(i);
        DedupRound(raw, before, i, patternWeights, patterns, copies);
        patternWeights := patternWeights + [copies + 1];
        i := i + 1;
      }
      assert patterns[..i] == patterns && patterns[i..] == [];
      DedupDone(raw, patterns, patternWeights);
    }

    /** One round of DistinctAndCountPatterns past its first step: every other
        copy of pattern i, all of them after it, is found and removed. */
    method RemoveCopies(i: int) returns (copies: int)
      requires 0 <= i < |patterns| && patterns[i] !in patterns[..i]
      modifies this`patterns
      ensures patterns == old(patterns[..i + 1]) + RemoveAll(old(patterns[i + 1..]), old(patterns[i]))
      ensures copies == Count(old(patterns[i + 1..]), old(patterns[i]))
    {
      var list := patterns;
      var x := list[i];
      var kept: seq<Pattern> := [];
      copies := 0;
      var j := 0;
      while j < |list|
        invariant Removing(list, i, j, kept, copies)
      {
        RemovingStep(list, i, j, kept, copies);
        if j != i && list[j] == x {
          copies := copies + 1;
        } else {
          kept := kept + [list[j]];
        }
        j := j + 1;
      }
      RemovingDone(list, i, kept, copies);
      patterns := kept;
    }

    /** InitializeAdjacencies: propagators[d][t1] lists, ascending, every t2
        that overlaps t1 when shifted one cell in direction d. */
    method InitializeAdjacencies()
      modifies this`propagators
      ensures propagators == Propagators(patterns)
    {
      var table: seq<seq<seq<int>>> := [];
      var d := 0;
      while d < 4
        invariant 0 <= d <= 4 && |table| == d
        invariant forall e :: 0 <= e < d ==> table[e] == Propagators(patterns)[e]
      {
        var row := AdjacencyRow(d);
        table := table + [row];
        d := d + 1;
      }
      propagators := table;
    }

    /** The loop over t1 of InitializeAdjacencies for direction d. */
    method AdjacencyRow(d: int) returns (row: seq<seq<int>>)
      requires 0 <= d < 4
      ensures row == Propagators(patterns)[d]
    {
      var n := |patterns|;
      row := [];
      var t1 := 0;
      while t1 < n
        invariant 0 <= t1 <= n && |row| == t1
        invariant forall u :: 0 <= u < t1 ==> row[u] == Propagators(patterns)[d][u]
      {
        var propagateablePatterns := AdjacencyList(d, t1);
        PropagatorsEntry(patterns, d, t1);
        row := row + [propagateablePatterns];
        t1 := t1 + 1;
      }
    }

    /** The loop over t2 of InitializeAdjacencies for direction d and
        pattern t1. */
    method AdjacencyList(d: int, t1: int) returns (propagateablePatterns: seq<int>)
      requires 0 <= d < 4 && 0 <= t1 < |patterns|
      ensures propagateablePatterns == Matches(patterns, t1, d, |patterns|)
    {
      DirectionIsUnit(d);
      var n := |patterns|;
      propagateablePatterns := [];
      var t2 := 0;
      while t2 < n
        invariant 0 <= t2 <= n
        invariant propagateablePatterns == Matches(patterns, t1, d, t2)
      {
        var overlaps := OverlapsInDirection(patterns[t1], patterns[t2], DirectionX[d], DirectionY[d]);
        if overlaps {
          propagateablePatterns := propagateablePatterns + [t2];
        }
        t2 := t2 + 1;
      }
    }

    /** InitializeMap: every cell starts with every pattern possible, its
        count at the number of patterns (left at the array's 0 when there are
        none, which is the same number), and pattern t supported from
        direction d by as many patterns as propagators[d][t] lists. */
    method InitializeMap()
      requires xSize > 0 && ySize > 0
      requires |propagators| == 4 && forall d :: 0 <= d < 4 ==> |propagators[d]| == |patterns|
      modifies this`waveCells, this`compatibles, this`sumOfPossiblePatterns
      ensures var n, table := |patterns|, propagators;
        && waveCells == seq(xSize * ySize, _ => FullRow(n))
        && compatibles == seq(xSize * ySize, _ => FullSupport(table, n))
        && sumOfPossiblePatterns == seq(xSize * ySize, _ => n)
    {
      var size, n := xSize * ySize, |patterns|;
      var cells: seq<seq<bool>> := [];
      var support: seq<seq<seq<int>>> := [];
      var counts: seq<int> := seq(size, _ => 0);
      var i := 0;
      while i < size
        invariant 0 <= i <= size && |cells| == i && |support| == i && |counts| == size
        invariant forall c :: 0 <= c < i ==> cells[c] == FullRow(n) && support[c] == FullSupport(propagators, n) && counts[c] == n
        invariant forall c :: i <= c < size ==> counts[c] == 0
      {
        var row, cell;
        row, cell, counts := FreshCell(counts, i);
        cells := cells + [row];
        support := support + [cell];
        i := i + 1;
      }
      waveCells, compatibles, sumOfPossiblePatterns := cells, support, counts;
    }

    /** The loop over t of InitializeMap for cell i: the cell's row and support
        counters, and its count set once per pattern. */
    method FreshCell(counts: seq<int>, i: int) returns (row: seq<bool>, cell: seq<seq<int>>, counts': seq<int>)
      requires 0 <= i < |counts|
      requires |propagators| == 4 && forall d :: 0 <= d < 4 ==> |propagators[d]| == |patterns|
      ensures row == FullRow(|patterns|) && cell == FullSupport(propagators, |patterns|)
      ensures counts' == counts[i := if |patterns| == 0 then counts[i] else |patterns|]
    {
      var n := |patterns|;
      row, cell, counts' := [], [], counts;
      var t := 0;
      while t < n
        invariant 0 <= t <= n && |row| == t && |cell| == t
        invariant forall u :: 0 <= u < t ==> row[u] && cell[u] == FullSupport(propagators, n)[u]
        invariant counts' == counts[i := if t == 0 then counts[i] else n]
      {
        var four: seq<int> := [];
        counts' := counts'[i := n];
        var d := 0;
        while d < 4
          invariant 0 <= d <= 4 && |four| == d
          invariant forall e :: 0 <= e < d ==> four[e] == |propagators[e][t]|
        {
          four := four + [|propagators[d][t]|];
          d := d + 1;
        }
        row := row + [true];
        cell := cell + [four];
        t := t + 1;
      }
      assert row == FullRow(n) && cell == FullSupport(propagators, n);
    }

    /** InitializeWeights: adds the pattern weights to
        sumOfPossibleWeightsAtStart, which nothing resets, gives every cell
        that weight sum, and queues every cell under the starting entropy. */
    method InitializeWeights()
      modifies this`sumOfPossibleWeightsAtStart, this`sumOfWeights, this`uncollapsedEntropies, this`weightOffset
      ensures weightOffset == old(sumOfPossibleWeightsAtStart)
      ensures sumOfPossibleWeightsAtStart == old(sumOfPossibleWeightsAtStart) + Sum(patternWeights)
      ensures var sum := sumOfPossibleWeightsAtStart; sumOfWeights == seq(|waveCells|, _ => sum)
      ensures fresh(uncollapsedEntropies) && uncollapsedEntropies.Valid()
      ensures multiset(uncollapsedEntropies.heap) == multiset(StartEntries(entropy(sumOfPossibleWeightsAtStart), |waveCells|))
    {
      weightOffset := sumOfPossibleWeightsAtStart;
      AddUpWeights();
      var entropyAtStart := entropy(sumOfPossibleWeightsAtStart);
      var sums, heap := QueueCells(|waveCells|, sumOfPossibleWeightsAtStart, entropyAtStart);
      sumOfWeights, uncollapsedEntropies := sums, heap;
    }

    /** The first loop of InitializeWeights: the weights of all patterns are
        added to sumOfPossibleWeightsAtStart. */
    method AddUpWeights()
      modifies this`sumOfPossibleWeightsAtStart
      ensures sumOfPossibleWeightsAtStart == old(sumOfPossibleWeightsAtStart) + Sum(patternWeights)
    {
      var i := 0;
      while i < |patternWeights|
        invariant 0 <= i <= |patternWeights|
        invariant sumOfPossibleWeightsAtStart == old(sumOfPossibleWeightsAtStart) + Sum(patternWeights[..i])
      {
        assert patternWeights[..i + 1] == patternWeights[..i] + [patternWeights[i]];
        SumAppendOne(patternWeights[..i], patternWeights[i]);
        sumOfPossibleWeightsAtStart := sumOfPossibleWeightsAtStart + patternWeights[i];
        i := i + 1;
      }
      assert patternWeights[..i] == patternWeights;
    }

    /** The second loop of InitializeWeights over size cells: each cell gets
        the weight sum sum and is queued under key. */
    method QueueCells(size: nat, sum: int, key: real) returns (sums: seq<int>, heap: MinHeap<int>)
      ensures sums == seq(size, _ => sum)
      ensures fresh(heap) && heap.Valid()
      ensures multiset(heap.heap) == multiset(StartEntries(key, size))
    {
      sums := seq(size, _ => 0);
      heap := new MinHeap<int>();
      var i := 0;
      while i < size
        invariant 0 <= i <= size && |sums| == size
        invariant fresh(heap) && heap.Valid()
        invariant forall c :: 0 <= c < i ==> sums[c] == sum
        invariant multiset(heap.heap) == multiset(StartEntries(key, i))
      {
        sums := sums[i := sum];
        heap.Add(key, i);
        StartEntriesAppend(key, i);
        i := i + 1;
      }
    }

    /** The steps of Initialize after DistinctAndCountPatterns:
        InitializeAdjacencies, InitializeMap and InitializeWeights. */
    method BuildTables()
      requires xSize > 0 && ySize > 0
      modifies this`propagators, this`waveCells, this`compatibles, this`sumOfPossiblePatterns
      modifies this`sumOfPossibleWeightsAtStart, this`sumOfWeights, this`uncollapsedEntropies
      modifies this`weightOffset, this`removalUpdates
      ensures propagators == Propagators(patterns) && AdjacencyTable(propagators, |patterns|)
      ensures weightOffset == old(sumOfPossibleWeightsAtStart)
      ensures sumOfPossibleWeightsAtStart == old(sumOfPossibleWeightsAtStart) + Sum(patternWeights)
      ensures |waveCells| == xSize * ySize
      ensures State() == InitialState(|waveCells|, |patterns|, propagators, sumOfPossibleWeightsAtStart)
      ensures fresh(uncollapsedEntropies) && uncollapsedEntropies.Valid()
      ensures multiset(uncollapsedEntropies.heap) == multiset(StartEntries(entropy(sumOfPossibleWeightsAtStart), |waveCells|))
      ensures removalUpdates == []
    {
      InitializeAdjacencies();
      PropagatorsAreTable(patterns);
      InitializeMap();
      InitializeWeights();
      removalUpdates := [];
    }

    /** The state BuildTables leaves satisfies the solver's invariant, with
        every cell queued. */
    lemma StartValid()
      requires xSize > 0 && ySize > 0 && |waveCells| == xSize * ySize && weightOffset >= 0
      requires |patternWeights| == |patterns| && Wave.Positive(patternWeights)
      requires AdjacencyTable(propagators, |patterns|) && Named(patterns, colorsOfHashes)
      requires sumOfPossibleWeightsAtStart == weightOffset + Sum(patternWeights)
      requires State() == InitialState(|waveCells|, |patterns|, propagators, sumOfPossibleWeightsAtStart)
      requires uncollapsedEntropies.Valid() && removalUpdates == []
      requires multiset(uncollapsedEntropies.heap) == multiset(StartEntries(entropy(sumOfPossibleWeightsAtStart), |waveCells|))
      ensures Valid() && Tracked(-1)
    {
      InitialConsistent(|waveCells|, patternWeights, weightOffset, propagators);
      StartHeap(uncollapsedEntropies.heap, entropy(sumOfPossibleWeightsAtStart), sumOfPossiblePatterns);
    }

    /** What a successful Initialize on args leaves, the weight sum having
        held offset before: the solver's invariant with no removal pending
        and every cell queued, the output size, the palette's dictionaries,
        the distinct samples with their occurrence counts, their adjacency
        table, the starting wave and a generator at its first draw. */
    ghost predicate Initialized(args: WfcArgs, offset: int)
      reads this, uncollapsedEntropies, prng
      requires IsMatrix(args.inputColors) && InitializeError(args) == None
    {
      && Valid() && removalUpdates == [] && Tracked(-1)
      && xSize == args.xSize && ySize == args.ySize
      && Dictionaries(args.inputColors, colorsOfHashes, hashesOfColors)
      && patterns == Firsts(RawSamples(args)) && patternWeights == Counts(RawSamples(args), patterns)
      && propagators == Propagators(patterns)
      && weightOffset == offset && sumOfPossibleWeightsAtStart == offset + |RawSamples(args)|
      && State() == InitialState(|waveCells|, |patterns|, propagators, sumOfPossibleWeightsAtStart)
      && multiset(uncollapsedEntropies.heap) == multiset(StartEntries(entropy(sumOfPossibleWeightsAtStart), |waveCells|))
      && prng.draws == args.draws && prng.fractions == args.fractions && prng.cursor == 0
    }

    /** Initialize: checks the exemplar and output sizes, then builds the
        pattern catalogue, the adjacency table and the starting wave. */
    method Initialize(args: WfcArgs) returns (r: Result<(), Error>)
      requires IsMatrix(args.inputColors) && sumOfPossibleWeightsAtStart >= 0
      modifies this
      ensures r.Ok? <==> InitializeError(args) == None
      ensures InitializeError(args).Some? ==> r == Err(InitializeError(args).value)
      ensures r.Ok? ==> Initialized(args, old(sumOfPossibleWeightsAtStart)) && fresh(prng) && fresh(uncollapsedEntropies)
      ensures r.Err? ==> sumOfPossibleWeightsAtStart == old(sumOfPossibleWeightsAtStart)
    {
      var m := args.inputColors;
      if Width(m) < WaveLength || Height(m) < WaveLength {
        return Err(InputTextureTooSmall);
      }
      if args.xSize <= 0 || args.ySize <= 0 {
        return Err(OutputSizeTooSmall);
      }
      ApplySettings(args);
      r := SampleArguments(args);
      if r.Err? {
        return r;
      }
      BuildFromSamples(args, old(sumOfPossibleWeightsAtStart));
    }

    /** The settings Initialize copies from args, the generator created
        for the run, and the exemplar's size. */
    method ApplySettings(args: WfcArgs)
      modifies this`xSize, this`ySize, this`limitInputX, this`limitInputY, this`reflections, this`prng
      modifies this`inputTextureXSize, this`inputTextureYSize
      ensures xSize == args.xSize && ySize == args.ySize
      ensures limitInputX == args.limitInputX && limitInputY == args.limitInputY && reflections == args.reflections
      ensures fresh(prng) && prng.draws == args.draws && prng.fractions == args.fractions && prng.cursor == 0
      ensures inputTextureXSize == Width(args.inputColors) && inputTextureYSize == Height(args.inputColors)
    {
      xSize, ySize := args.xSize, args.ySize;
      limitInputX, limitInputY := args.limitInputX, args.limitInputY;
      reflections := args.reflections;
      prng := new Prng(args.draws, args.fractions);
      inputTextureXSize, inputTextureYSize := Width(args.inputColors), Height(args.inputColors);
    }

    /** InitializePatterns on the exemplar of args once its settings are
        applied: it fails exactly when Initialize does, and otherwise
        leaves the raw samples and the palette's dictionaries. */
    method SampleArguments(args: WfcArgs) returns (r: Result<(), Error>)
      requires IsMatrix(args.inputColors)
      requires Width(args.inputColors) >= WaveLength && Height(args.inputColors) >= WaveLength
      requires args.xSize > 0 && args.ySize > 0
      requires limitInputX == args.limitInputX && limitInputY == args.limitInputY && reflections == args.reflections
      requires inputTextureXSize == Width(args.inputColors) && inputTextureYSize == Height(args.inputColors)
      modifies this`patterns, this`colorsOfHashes, this`hashesOfColors
      ensures r.Ok? <==> InitializeError(args) == None
      ensures InitializeError(args).Some? ==> r == Err(InitializeError(args).value)
      ensures r.Ok? ==> patterns == RawSamples(args) && Dictionaries(args.inputColors, colorsOfHashes, hashesOfColors)
    {
      r := InitializePatterns(args.inputColors);
      SampledAreRaw(args, r, patterns, inputTextureXSize - limitInputX, inputTextureYSize - limitInputY, reflections,
                    colorsOfHashes, hashesOfColors);
    }

    /** The steps of Initialize after InitializePatterns, from the raw
        samples of args, the weight sum holding offset. */
    method BuildFromSamples(ghost args: WfcArgs, ghost offset: int)
      requires IsMatrix(args.inputColors) && InitializeError(args) == None
      requires xSize == args.xSize && ySize == args.ySize && sumOfPossibleWeightsAtStart == offset >= 0
      requires patterns == RawSamples(args) && Dictionaries(args.inputColors, colorsOfHashes, hashesOfColors)
      requires prng.draws == args.draws && prng.fractions == args.fractions && prng.cursor == 0
      modifies this`patterns, this`patternWeights, this`propagators, this`waveCells, this`compatibles
      modifies this`sumOfPossiblePatterns, this`sumOfPossibleWeightsAtStart, this`sumOfWeights
      modifies this`uncollapsedEntropies, this`weightOffset, this`removalUpdates
      ensures Initialized(args, offset) && fresh(uncollapsedEntropies)
    {
      AcceptedSamples(args, colorsOfHashes, hashesOfColors);
      BuildFromRaw(offset);
    }

    /** DistinctAndCountPatterns, InitializeAdjacencies, InitializeMap,
        InitializeWeights and the empty removal stack, on raw samples whose
        distinct values all occur and name colours. */
    method BuildFromRaw(ghost offset: int)
      requires xSize > 0 && ySize > 0 && sumOfPossibleWeightsAtStart == offset >= 0
      requires Wave.Positive(Counts(patterns, Firsts(patterns))) && Named(Firsts(patterns), colorsOfHashes)
      modifies this`patterns, this`patternWeights, this`propagators, this`waveCells, this`compatibles
      modifies this`sumOfPossiblePatterns, this`sumOfPossibleWeightsAtStart, this`sumOfWeights
      modifies this`uncollapsedEntropies, this`weightOffset, this`removalUpdates
      ensures Valid() && removalUpdates == [] && Tracked(-1)
      ensures patterns == Firsts(old(patterns)) && patternWeights == Counts(old(patterns), patterns)
      ensures propagators == Propagators(patterns)
      ensures weightOffset == offset && sumOfPossibleWeightsAtStart == offset + |old(patterns)|
      ensures State() == InitialState(|waveCells|, |patterns|, propagators, sumOfPossibleWeightsAtStart)
      ensures fresh(uncollapsedEntropies)
      ensures multiset(uncollapsedEntropies.heap) == multiset(StartEntries(entropy(sumOfPossibleWeightsAtStart), |waveCells|))
    {
      ghost var raw := patterns;
      DistinctAndCountPatterns();
      CountsOfFirstsSum(raw);
      BuildTables();
      StartValid();
    }

    /** Run: Initialize, then Execute. A failed initialization is returned as
        it is; otherwise the run's outcome is Execute's, and on a fresh
        object with at least one sample the run cannot fail. */
    method Run(args: WfcArgs) returns (r: Result<RunResult, Error>, ghost last: int)
      requires IsMatrix(args.inputColors) && sumOfPossibleWeightsAtStart >= 0
      modifies this
      ensures sumOfPossibleWeightsAtStart >= 0
      ensures InitializeError(args).Some? ==> r == Err(InitializeError(args).value)
      ensures InitializeError(args) == None ==>
        && patterns == Firsts(RawSamples(args)) && patternWeights == Counts(RawSamples(args), patterns)
        && (r.Err? ==> r.error.NoPropagateablePatterns?)
        && (old(sumOfPossibleWeightsAtStart) == 0 && |RawSamples(args)| > 0 ==> r.Ok?)
      ensures r.Ok? ==>
        && Valid()
        && r.value.colorMap == ColorMap(State(), patterns, colorsOfHashes)
        && (r.value.contradiction.Some? ==> Contradicted(sumOfPossiblePatterns, xSize, ySize, r.value.contradiction.value))
        && (r.value.contradiction.None? ==> Decided(last))
    {
      last := 0;
      var initialized := Initialize(args);
      if initialized.Err? {
        return Err(initialized.error), last;
      }
      ghost var raw := RawSamples(args);
      if |raw| > 0 {
        assert raw[0] in Firsts(raw);
      }
      r, last := Execute();
    }

    // -------------------------------------------------------- propagation

    /** RemovePatternForCell: rules out one possible pattern of a cell,
        lowering its count by one and its weight sum by the pattern's weight. */
    method RemovePatternForCell(cellIndex: int, pattern: int)
      requires Shaped() && 0 <= cellIndex < |waveCells| && 0 <= pattern < |patterns| && waveCells[cellIndex][pattern]
      modifies this`waveCells, this`sumOfPossiblePatterns, this`sumOfWeights
      ensures Shaped()
      ensures waveCells == old(waveCells)[cellIndex := old(waveCells[cellIndex])[pattern := false]]
      ensures sumOfPossiblePatterns == old(sumOfPossiblePatterns)[cellIndex := old(sumOfPossiblePatterns[cellIndex]) - 1]
      ensures sumOfWeights == old(sumOfWeights)[cellIndex := old(sumOfWeights[cellIndex]) - patternWeights[pattern]]
    {
      var removedPatternWeight := patternWeights[pattern];
      sumOfWeights := sumOfWeights[cellIndex := sumOfWeights[cellIndex] - removedPatternWeight];
      sumOfPossiblePatterns := sumOfPossiblePatterns[cellIndex := sumOfPossiblePatterns[cellIndex] - 1];
      waveCells := waveCells[cellIndex := waveCells[cellIndex][pattern := false]];
    }

    /** One turn of PropagateToCell's loop (Step): if pattern t is still
        possible at the cell, it loses one support on side e, and is ruled
        out when that was its last. The state before the loop is s0, and th
        is where the loop has taken the cell so far. */
    method WithdrawSupport(cellIndex: int, t: int, e: int, ghost s0: Tables, ghost th: Thinning) returns (exhausted: bool)
      requires Shaped() && 0 <= cellIndex < |waveCells| && 0 <= t < |patterns| && 0 <= e < 4
      requires Shape(s0, |waveCells|, |patterns|) && State() == Apply(s0, cellIndex, th)
      requires waveCells[cellIndex] == th.row && compatibles[cellIndex] == th.support
      modifies this`waveCells, this`compatibles, this`sumOfPossiblePatterns, this`sumOfWeights
      ensures Shaped()
      ensures State() == Apply(s0, cellIndex, Step(th, patternWeights, t, e))
      ensures Step(th, patternWeights, t, e).removed == th.removed + (if exhausted then [t] else [])
    {
      ghost var next := Step(th, patternWeights, t, e);
      exhausted := false;
      if waveCells[cellIndex][t] {
        compatibles := compatibles[cellIndex := compatibles[cellIndex][t := compatibles[cellIndex][t][e := compatibles[cellIndex][t][e] - 1]]];
        if compatibles[cellIndex][t][e] <= 0 {
          RemovePatternForCell(cellIndex, t);
          exhausted := true;
          UpdateTwice(s0.counts, cellIndex, s0.counts[cellIndex] - |th.removed|, s0.counts[cellIndex] - |next.removed|);
          UpdateTwice(s0.sums, cellIndex, s0.sums[cellIndex] - th.lost, s0.sums[cellIndex] - next.lost);
        }
        UpdateTwice(s0.cells, cellIndex, th.row, next.row);
        UpdateTwice(s0.support, cellIndex, th.support, next.support);
      }
    }

    /** The loop of PropagateToCell over list, for the side e facing the
        update: the cell ends as ThinAt says, and the events name the removed
        patterns in order. */
    method WithdrawAll(cellIndex: int, xIndex: int, yIndex: int, e: int, list: seq<int>)
      returns (newUpdates: seq<RemovalUpdate>)
      requires Shaped() && 0 <= cellIndex < |waveCells| && 0 <= e < 4 && InRange(list, |patterns|)
      modifies this`waveCells, this`compatibles, this`sumOfPossiblePatterns, this`sumOfWeights
      ensures Shaped()
      ensures State() == ThinAt(old(State()), patternWeights, cellIndex, e, list)
      ensures newUpdates == Events(cellIndex, xIndex, yIndex, RemovedAt(old(State()), patternWeights, cellIndex, e, list))
    {
      ghost var s0 := State();
      ghost var row0, support0 := waveCells[cellIndex], compatibles[cellIndex];
      newUpdates := [];
      ghost var th := Thinning(row0, support0, [], 0);
      assert State() == Apply(s0, cellIndex, th);
      var i := 0;
      while i < |list|
        invariant 0 <= i <= |list|
        invariant Shaped()
        invariant th == Thin(row0, support0, patternWeights, e, list[..i])
        invariant State() == Apply(s0, cellIndex, th)
        invariant newUpdates == Events(cellIndex, xIndex, yIndex, th.removed)
      {
        var t := list[i];
        ThinPrefix(row0, support0, patternWeights, e, list, i);
        var exhausted := WithdrawSupport(cellIndex, t, e, s0, th);
        if exhausted {
          newUpdates := newUpdates + [RemovalUpdate(cellIndex, t, xIndex, yIndex)];
          EventsAppendOne(cellIndex, xIndex, yIndex, th.removed, t);
        }
        th := Step(th, patternWeights, t, e);
        i := i + 1;
      }
      assert list[..i] == list;
    }

    /** PropagateToCell: the cell at (xIndex, yIndex) loses one support, on
        the side facing the update's cell, for every possible pattern that the
        adjacency table lists as compatible with update.pattern in the
        direction from that cell to this one; each pattern whose support runs
        out is ruled out and reported (Thin). Fails when the cell is then left
        with no pattern. */
    method PropagateToCell(cellIndex: int, xIndex: int, yIndex: int, update: RemovalUpdate)
      returns (r: Result<seq<RemovalUpdate>, Contradiction>)
      requires Valid() && 0 <= cellIndex < |waveCells| && 0 <= update.pattern < |patterns|
      modifies this`waveCells, this`compatibles, this`sumOfPossiblePatterns, this`sumOfWeights
      ensures Valid() && prng.cursor == old(prng.cursor) && uncollapsedEntropies.heap == old(uncollapsedEntropies.heap)
      ensures var d := DirectionTo(xIndex - update.xIndex, yIndex - update.yIndex);
        var list := propagators[d][update.pattern];
        var removed := RemovedAt(old(State()), patternWeights, cellIndex, Opposite[d], list);
        && State() == ThinAt(old(State()), patternWeights, cellIndex, Opposite[d], list)
        && (r.Ok? <==> |removed| < old(sumOfPossiblePatterns[cellIndex]))
        && (r.Ok? ==> r.value == Events(cellIndex, xIndex, yIndex, removed))
        && (r.Err? ==> r.error == Contradiction(xIndex, yIndex))
    {
      var d := DirectionTo(xIndex - update.xIndex, yIndex - update.yIndex);
      var od := Opposite[d];
      var list := propagators[d][update.pattern];
      forall k | 0 <= k < |list| ensures |propagators[od][list[k]]| > 0 {
        SymmetricAt(propagators, |patterns|, d, update.pattern, list[k]);
      }
      ThinKeepsConsistent(State(), patternWeights, weightOffset, propagators, cellIndex, od, list);
      var newUpdates := WithdrawAll(cellIndex, xIndex, yIndex, od, list);
      if sumOfPossiblePatterns[cellIndex] <= 0 {
        return Err(Contradiction(xIndex, yIndex));
      }
      return Ok(newUpdates);
    }

    /** UpdateEntropies: files the cell in the heap again, under the noised
        entropy of its current weight sum. The heap held h0 and the entries
        of the refreshes rs before, the first of them drawn at position k0. */
    method UpdateEntropies(neighbourIndex: int, ghost rs: seq<Refresh>, ghost h0: multiset<Entry<int>>, ghost k0: nat)
      requires Shaped() && Queued() && 0 <= neighbourIndex < |waveCells|
      requires prng.cursor == k0 + |rs| && multiset(uncollapsedEntropies.heap) == h0 + Entries(entropy, prng.fractions, rs, k0)
      modifies uncollapsedEntropies, prng
      ensures Queued()
      ensures prng.cursor == old(prng.cursor) + 1
      ensures multiset(uncollapsedEntropies.heap) == multiset(old(uncollapsedEntropies.heap))
        + multiset{Entry(NoisedKey(entropy, sumOfWeights[neighbourIndex], Fraction(prng.fractions, old(prng.cursor))), neighbourIndex)}
      ensures multiset(uncollapsedEntropies.heap) == h0 + Entries(entropy, prng.fractions, rs + [Refresh(neighbourIndex, sumOfWeights[neighbourIndex])], k0)
    {
      var noise := prng.NextDouble();
      var newEntropy := entropy(sumOfWeights[neighbourIndex]) + noise * EntropyNoiseMaxRange;
      ghost var entry := Entry(newEntropy, neighbourIndex);
      assert entry == Entry(NoisedKey(entropy, sumOfWeights[neighbourIndex], Fraction(prng.fractions, old(prng.cursor))), neighbourIndex);
      ghost var before := uncollapsedEntropies.heap;
      uncollapsedEntropies.Add(newEntropy, neighbourIndex);
      InCellsAdd(before, uncollapsedEntropies.heap, entry, |waveCells|);
      EntriesAppendOne(entropy, prng.fractions, rs, Refresh(neighbourIndex, sumOfWeights[neighbourIndex]), k0, old(prng.cursor));
      UnionRegroups(h0, Entries(entropy, prng.fractions, rs, k0), multiset{entry});
    }

    /** One turn of PropagateUpdate's loop, for direction d (SideOf): sp is
        where the loop has got to, h0 and k0 the heap and the generator
        position before the loop; events is what the turn adds to the
        neighbours' updates. */
    method PropagateSide(update: RemovalUpdate, d: int, ghost sp: Spread, ghost h0: multiset<Entry<int>>, ghost k0: nat)
      returns (events: seq<RemovalUpdate>, failed: Option<Contradiction>, ghost next: Spread)
      requires Valid() && 0 <= update.pattern < |patterns| && 0 <= d < 4
      requires Shape(sp.s, |waveCells|, |patterns|) && State() == sp.s && sp.failed.None?
      requires prng.cursor == k0 + |sp.refreshed| && multiset(uncollapsedEntropies.heap) == h0 + Entries(entropy, prng.fractions, sp.refreshed, k0)
      modifies this`waveCells, this`compatibles, this`sumOfPossiblePatterns, this`sumOfWeights
      modifies uncollapsedEntropies, prng
      ensures Valid()
      ensures next == SideOf(sp, patternWeights, propagators, xSize, ySize, update, d)
      ensures && State() == next.s && failed == next.failed
        && (failed.None? ==> next.pushed == sp.pushed + events)
        && prng.cursor == k0 + |next.refreshed|
        && multiset(uncollapsedEntropies.heap) == h0 + Entries(entropy, prng.fractions, next.refreshed, k0)
    {
      events, failed, next := [], None, sp;
      var xNeighbour := DirectionX[d] + update.xIndex;
      var yNeighbour := DirectionY[d] + update.yIndex;
      if xNeighbour < 0 || xNeighbour >= xSize || yNeighbour < 0 || yNeighbour >= ySize {
        assert NeighbourAt(update, d, xSize, ySize).None?;
        SideSkips(sp, patternWeights, propagators, xSize, ySize, update, d);
        assert next == SideOf(sp, patternWeights, propagators, xSize, ySize, update, d);
        return;
      }
      var neighbourIndex := xNeighbour + yNeighbour * xSize;
      CellIndexInRange(xNeighbour, yNeighbour, xSize, ySize);
      assert NeighbourAt(update, d, xSize, ySize) == Some(neighbourIndex);
      if sumOfPossiblePatterns[neighbourIndex] <= 1 {
        SideSkips(sp, patternWeights, propagators, xSize, ySize, update, d);
        assert next == SideOf(sp, patternWeights, propagators, xSize, ySize, update, d);
        return;
      }
      DirectionToInverts(d);
      assert DirectionTo(xNeighbour - update.xIndex, yNeighbour - update.yIndex) == d;
      assert sp.s.counts[neighbourIndex] > 1;
      events, failed, next := VisitCell(update, d, neighbourIndex, xNeighbour, yNeighbour, sp, h0, k0);
      SideVisits(sp, patternWeights, propagators, xSize, ySize, update, d, neighbourIndex, xNeighbour, yNeighbour);
    }

    /** The visit of the neighbour cellIndex, at column xIndex and row yIndex,
        in direction d of the update's cell: PropagateToCell, then the heap
        refresh when some pattern was ruled out. */
    method VisitCell(update: RemovalUpdate, d: int, cellIndex: int, xIndex: int, yIndex: int,
                     ghost sp: Spread, ghost h0: multiset<Entry<int>>, ghost k0: nat)
      returns (events: seq<RemovalUpdate>, failed: Option<Contradiction>, ghost next: Spread)
      requires Valid() && 0 <= update.pattern < |patterns| && 0 <= d < 4 && 0 <= cellIndex < |waveCells|
      requires DirectionTo(xIndex - update.xIndex, yIndex - update.yIndex) == d
      requires Shape(sp.s, |waveCells|, |patterns|) && State() == sp.s && sp.failed.None?
      requires prng.cursor == k0 + |sp.refreshed| && multiset(uncollapsedEntropies.heap) == h0 + Entries(entropy, prng.fractions, sp.refreshed, k0)
      modifies this`waveCells, this`compatibles, this`sumOfPossiblePatterns, this`sumOfWeights
      modifies uncollapsedEntropies, prng
      ensures Valid()
      ensures next == Visit(sp, patternWeights, cellIndex, xIndex, yIndex, Opposite[d], propagators[d][update.pattern])
      ensures && State() == next.s && failed == next.failed
        && (failed.None? ==> next.pushed == sp.pushed + events)
        && prng.cursor == k0 + |next.refreshed|
        && multiset(uncollapsedEntropies.heap) == h0 + Entries(entropy, prng.fractions, next.refreshed, k0)
    {
      events, failed := [], None;
      next := Visit(sp, patternWeights, cellIndex, xIndex, yIndex, Opposite[d], propagators[d][update.pattern]);
      ghost var removed := RemovedAt(sp.s, patternWeights, cellIndex, Opposite[d], propagators[d][update.pattern]);
      var r := PropagateToCell(cellIndex, xIndex, yIndex, update);
      if r.Err? {
        return [], Some(r.error), next;
      }
      assert r.value == Events(cellIndex, xIndex, yIndex, removed);
      assert |r.value| == |removed| && State() == next.s;
      if |r.value| > 0 {
        assert next.refreshed == sp.refreshed + [Refresh(cellIndex, sumOfWeights[cellIndex])];
        assert next.pushed == sp.pushed + r.value;
        UpdateEntropies(cellIndex, sp.refreshed, h0, k0);
        events := r.value;
      } else {
        assert next.refreshed == sp.refreshed && next.pushed == sp.pushed;
        assert r.value == [];
      }
    }

    /** PropagateUpdate: visits the four neighbours of the update's cell in
        direction order (SpreadFrom). A contradiction stops it with nothing
        pushed; otherwise the events of every neighbour are pushed in order. */
    method PropagateUpdate(update: RemovalUpdate) returns (failed: Option<Contradiction>)
      requires Valid() && 0 <= update.pattern < |patterns|
      modifies this`waveCells, this`compatibles, this`sumOfPossiblePatterns, this`sumOfWeights, this`removalUpdates
      modifies uncollapsedEntropies, prng
      ensures Valid()
      ensures var sp := SpreadFrom(old(State()), patternWeights, propagators, xSize, ySize, update, 4);
        && State() == sp.s && failed == sp.failed
        && removalUpdates == old(removalUpdates) + (if sp.failed.None? then sp.pushed else [])
        && prng.cursor == old(prng.cursor) + |sp.refreshed|
        && multiset(uncollapsedEntropies.heap) == multiset(old(uncollapsedEntropies.heap)) + Entries(entropy, prng.fractions, sp.refreshed, old(prng.cursor))
    {
      ghost var s0 := State();
      var updatesOfNeighbours;
      updatesOfNeighbours, failed := VisitNeighbours(update);
      if failed.Some? {
        return;
      }
      ghost var sp := SpreadFrom(s0, patternWeights, propagators, xSize, ySize, update, 4);
      SpreadProgress(s0, patternWeights, weightOffset, propagators, xSize, ySize, update, 4);
      forall k | 0 <= k < |updatesOfNeighbours| ensures ValidEvent(updatesOfNeighbours[k]) {
        assert Removal(s0, sp.s, sp.pushed[k], |waveCells|, |patterns|);
      }
      PushAll(updatesOfNeighbours);
    }

    /** The loop of PropagateUpdate over the four directions, collecting
        the neighbours' events; it stops at the first contradiction. */
    method VisitNeighbours(update: RemovalUpdate) returns (updatesOfNeighbours: seq<RemovalUpdate>, failed: Option<Contradiction>)
      requires Valid() && 0 <= update.pattern < |patterns|
      modifies this`waveCells, this`compatibles, this`sumOfPossiblePatterns, this`sumOfWeights
      modifies uncollapsedEntropies, prng
      ensures Valid()
      ensures var sp := SpreadFrom(old(State()), patternWeights, propagators, xSize, ySize, update, 4);
        && State() == sp.s && failed == sp.failed && (failed.None? ==> updatesOfNeighbours == sp.pushed)
        && prng.cursor == old(prng.cursor) + |sp.refreshed|
        && multiset(uncollapsedEntropies.heap) == multiset(old(uncollapsedEntropies.heap)) + Entries(entropy, prng.fractions, sp.refreshed, old(prng.cursor))
    {
      ghost var s0 := State();
      ghost var h0 := multiset(uncollapsedEntropies.heap);
      ghost var k0 := prng.cursor;
      ghost var sp := Spread(s0, [], [], None);
      updatesOfNeighbours := [];
      var d := 0;
      while d < 4
        invariant 0 <= d <= 4 && Valid()
        invariant sp == SpreadFrom(s0, patternWeights, propagators, xSize, ySize, update, d) && sp.failed.None?
        invariant State() == sp.s && updatesOfNeighbours == sp.pushed
        invariant prng.cursor == k0 + |sp.refreshed|
        invariant multiset(uncollapsedEntropies.heap) == h0 + Entries(entropy, prng.fractions, sp.refreshed, k0)
      {
        var nextUpdates, contradiction;
        nextUpdates, contradiction, sp := PropagateSide(update, d, sp, h0, k0);
        assert sp == SpreadFrom(s0, patternWeights, propagators, xSize, ySize, update, d + 1);
        if contradiction.Some? {
          SpreadStops(s0, patternWeights, propagators, xSize, ySize, update, d + 1, 4);
          return updatesOfNeighbours, contradiction;
        }
        updatesOfNeighbours := updatesOfNeighbours + nextUpdates;
        d := d + 1;
      }
      failed := None;
    }

    /** One turn of Propagate's loop: takes the newest event off the stack
        and propagates it. The run so far made the refreshes refs, drawing
        from position k0 onto heap h0, and total is where it will end. */
    method PropagateTop(ghost refs: seq<Refresh>, ghost total: Drained, ghost h0: multiset<Entry<int>>, ghost k0: nat)
      returns (failed: Option<Contradiction>, ghost refs': seq<Refresh>)
      requires Valid() && |removalUpdates| > 0
      requires prng.cursor == k0 + |refs| && multiset(uncollapsedEntropies.heap) == h0 + Entries(entropy, prng.fractions, refs, k0)
      requires Ahead(total, refs, State(), patternWeights, weightOffset, propagators, xSize, ySize, removalUpdates)
      modifies this`waveCells, this`compatibles, this`sumOfPossiblePatterns, this`sumOfWeights, this`removalUpdates
      modifies uncollapsedEntropies, prng
      ensures Valid()
      ensures prng.cursor == k0 + |refs'| && multiset(uncollapsedEntropies.heap) == h0 + Entries(entropy, prng.fractions, refs', k0)
      ensures failed.Some? ==> total == Drained(State(), refs', removalUpdates, failed)
      ensures failed.None? ==> Remaining() + |removalUpdates| < old(Remaining()) + old(|removalUpdates|)
      ensures failed.None? ==> Ahead(total, refs', State(), patternWeights, weightOffset, propagators, xSize, ySize, removalUpdates)
    {
      ghost var stack, hb, kb, fr := removalUpdates, multiset(uncollapsedEntropies.heap), prng.cursor, prng.fractions;
      var update := Pop();
      ghost var before, rest := State(), removalUpdates;
      assert stack == rest + [update];
      AheadStep(total, refs, before, patternWeights, weightOffset, propagators, xSize, ySize, rest, update);
      ghost var sp := SpreadFrom(before, patternWeights, propagators, xSize, ySize, update, 4);
      failed := PropagateUpdate(update);
      EntriesJoin(entropy, fr, h0, hb, multiset(uncollapsedEntropies.heap), refs, sp.refreshed, k0, kb);
      refs' := refs + sp.refreshed;
      if failed.None? {
        assert State() == sp.s && removalUpdates == rest + sp.pushed;
        assert Remaining() == Sum(sp.s.counts);
      }
    }

    /** Propagate: takes the newest event off the removal stack and
        propagates it, until the stack is empty or a contradiction stops the
        run (Drain). */
    method Propagate() returns (failed: Option<Contradiction>)
      requires Valid()
      modifies this`waveCells, this`compatibles, this`sumOfPossiblePatterns, this`sumOfWeights, this`removalUpdates
      modifies uncollapsedEntropies, prng
      ensures Valid()
      ensures var dr := Drain(old(State()), patternWeights, weightOffset, propagators, xSize, ySize, old(removalUpdates));
        && State() == dr.s && failed == dr.failed && removalUpdates == dr.left
        && prng.cursor == old(prng.cursor) + |dr.refreshed|
        && multiset(uncollapsedEntropies.heap) == multiset(old(uncollapsedEntropies.heap)) + Entries(entropy, prng.fractions, dr.refreshed, old(prng.cursor))
    {
      ghost var total := Drain(State(), patternWeights, weightOffset, propagators, xSize, ySize, removalUpdates);
      ghost var refs;
      assert [] + total.refreshed == total.refreshed;
      failed, refs := DrainStack(total, multiset(uncollapsedEntropies.heap), prng.cursor);
    }

    /** The loop of Propagate, from the run total it is to reach: at its
        end the state, the stack and the contradiction are those of total,
        the refreshes being refs. */
    method DrainStack(ghost total: Drained, ghost h0: multiset<Entry<int>>, ghost k0: nat)
      returns (failed: Option<Contradiction>, ghost refs: seq<Refresh>)
      requires Valid() && prng.cursor == k0 && multiset(uncollapsedEntropies.heap) == h0
      requires Ahead(total, [], State(), patternWeights, weightOffset, propagators, xSize, ySize, removalUpdates)
      modifies this`waveCells, this`compatibles, this`sumOfPossiblePatterns, this`sumOfWeights, this`removalUpdates
      modifies uncollapsedEntropies, prng
      ensures Valid()
      ensures prng.cursor == k0 + |refs| && multiset(uncollapsedEntropies.heap) == h0 + Entries(entropy, prng.fractions, refs, k0)
      ensures total == Drained(State(), refs, removalUpdates, failed)
    {
      refs := [];
      while |removalUpdates| > 0
        invariant Valid()
        invariant prng.cursor == k0 + |refs|
        invariant multiset(uncollapsedEntropies.heap) == h0 + Entries(entropy, prng.fractions, refs, k0)
        invariant Ahead(total, refs, State(), patternWeights, weightOffset, propagators, xSize, ySize, removalUpdates)
        decreases Remaining() + |removalUpdates|
      {
        CountsNonNegative(State(), patternWeights, weightOffset, propagators, |patterns|);
        failed, refs := PropagateTop(refs, total, h0, k0);
        if failed.Some? {
          return;
        }
      }
      DrainEmpty(State(), patternWeights, weightOffset, propagators, xSize, ySize);
      assert refs + [] == refs;
      failed := None;
    }

    /** Takes the newest event off the removal stack. */
    method Pop() returns (update: RemovalUpdate)
      requires Valid() && |removalUpdates| > 0
      modifies this`removalUpdates
      ensures Valid() && 0 <= update.pattern < |patterns|
      ensures old(removalUpdates) == removalUpdates + [update]
    {
      update := removalUpdates[|removalUpdates| - 1];
      removalUpdates := removalUpdates[..|removalUpdates| - 1];
    }

    // ------------------------------------------------------------ collapse

    /** GetRandomRange: prng.Next with the bounds as given, so the upper
        bound is exclusive despite its name. */
    method GetRandomRange(minInclusive: int, maxInclusive: int) returns (r: int)
      requires minInclusive <= maxInclusive
      modifies prng
      ensures prng.cursor == old(prng.cursor) + 1
      ensures r == Ranged(Draw(prng.draws, old(prng.cursor)), minInclusive, maxInclusive)
    {
      r := prng.Next(minInclusive, maxInclusive);
    }

    /** GetPropagateablePatternIndices: the cell's possible patterns, ascending. */
    method GetPropagateablePatternIndices(cellIndex: int) returns (propagateablePatterns: seq<int>)
      requires Shaped() && 0 <= cellIndex < |waveCells|
      ensures propagateablePatterns == TrueIndices(waveCells[cellIndex])
    {
      var row := waveCells[cellIndex];
      propagateablePatterns := [];
      var i := 0;
      while i < |row|
        invariant 0 <= i <= |row|
        invariant propagateablePatterns == TrueIndices(row[..i])
      {
        TrueIndicesPrefix(row, i);
        if row[i] {
          propagateablePatterns := propagateablePatterns + [i];
        }
        i := i + 1;
      }
      assert row[..i] == row;
    }

    /** GetPatternIndexRandomStripBased: the cell's only pattern, or the
        weight walk over its possible patterns with a draw of
        Next(0, sumOfWeights - 1) (StripBased); the ContradictionException
        becomes NoPropagateablePatterns. */
    method GetPatternIndexRandomStripBased(cellIndex: int) returns (r: Result<int, Error>)
      requires Shaped() && 0 <= cellIndex < |waveCells|
      requires CellTallied(waveCells[cellIndex], sumOfPossiblePatterns[cellIndex], sumOfWeights[cellIndex], patternWeights, weightOffset)
      modifies prng
      ensures prng.cursor == old(prng.cursor) + (if sumOfPossiblePatterns[cellIndex] >= 2 then 1 else 0)
      ensures sumOfPossiblePatterns[cellIndex] >= 2 ==> sumOfWeights[cellIndex] >= 1
      ensures var raw := Draw(prng.draws, old(prng.cursor));
        var pick := StripBased(waveCells[cellIndex], sumOfPossiblePatterns[cellIndex], sumOfWeights[cellIndex], patternWeights, raw);
        r == if pick.Some? then Ok(pick.value) else Err(NoPropagateablePatterns(cellIndex))
    {
      ghost var row := waveCells[cellIndex];
      var count := sumOfPossiblePatterns[cellIndex];
      if count == 0 {
        return Err(NoPropagateablePatterns(cellIndex));
      }
      if count == 1 {
        var indices := GetPropagateablePatternIndices(cellIndex);
        return Ok(indices[0]);
      }
      WeightAtLeastCount(row, patternWeights);
      var possiblePatternIndices := GetPropagateablePatternIndices(cellIndex);
      ghost var raw := Draw(prng.draws, prng.cursor);
      var remaining := GetRandomRange(0, sumOfWeights[cellIndex] - 1);
      ghost var walk := Select(possiblePatternIndices, patternWeights, remaining);
      assert walk == StripBased(row, count, sumOfWeights[cellIndex], patternWeights, raw);
      var i := 0;
      while i < sumOfPossiblePatterns[cellIndex]
        invariant 0 <= i <= count && count == |possiblePatternIndices|
        invariant prng.cursor == old(prng.cursor) + 1
        invariant Select(possiblePatternIndices[i..], patternWeights, remaining) == walk
      {
        SelectStep(possiblePatternIndices, patternWeights, i, remaining);
        var weight := patternWeights[possiblePatternIndices[i]];
        if remaining >= weight {
          remaining := remaining - weight;
        } else {
          assert walk == Some(possiblePatternIndices[i]);
          return Ok(possiblePatternIndices[i]);
        }
        i := i + 1;
      }
      assert walk == None;
      return Err(NoPropagateablePatterns(cellIndex));
    }

    /** CollapseCellByPattern: rules out every possible pattern of the cell
        but pattern, emitting one event per pattern ruled out, in ascending
        order, and sets the count to one; the weight sum is left as it was. */
    method CollapseCellByPattern(cellIndex: int, pattern: int) returns (removals: seq<RemovalUpdate>)
      requires xSize > 0 && 0 <= cellIndex < |waveCells| && |waveCells[cellIndex]| == |patternWeights|
      requires |sumOfPossiblePatterns| == |waveCells|
      modifies this`waveCells, this`sumOfPossiblePatterns
      ensures State() == CollapseAt(old(State()), cellIndex, pattern)
      ensures removals == Events(cellIndex, ColumnOf(cellIndex, xSize), RowOf(cellIndex, xSize), TrueIndices(AllBut(old(waveCells[cellIndex]), pattern)))
    {
      removals := RuleOutAllBut(cellIndex, pattern);
      sumOfPossiblePatterns := sumOfPossiblePatterns[cellIndex := 1];
    }

    /** The loop of CollapseCellByPattern: rules out, in ascending order,
        every possible pattern of the cell but pattern. */
    method RuleOutAllBut(cellIndex: int, pattern: int) returns (removals: seq<RemovalUpdate>)
      requires xSize > 0 && 0 <= cellIndex < |waveCells| && |waveCells[cellIndex]| == |patternWeights|
      modifies this`waveCells
      ensures waveCells == old(waveCells)[cellIndex := OnlyPattern(old(waveCells[cellIndex]), pattern)]
      ensures removals == Events(cellIndex, ColumnOf(cellIndex, xSize), RowOf(cellIndex, xSize), TrueIndices(AllBut(old(waveCells[cellIndex]), pattern)))
    {
      ghost var row := waveCells[cellIndex];
      ghost var cells0 := waveCells;
      ghost var y0 := RowOf(cellIndex, xSize);
      ghost var x0 := ColumnOf(cellIndex, xSize);
      ghost var ruledOut: seq<int> := [];
      removals := [];
      CollapsedEnds(row, pattern);
      assert cells0[cellIndex := row] == cells0;
      var i := 0;
      while i < |patternWeights|
        invariant 0 <= i <= |patternWeights|
        invariant waveCells == cells0[cellIndex := CollapsedUpTo(row, pattern, i)]
        invariant ruledOut == TrueIndices(AllBut(row[..i], pattern))
        invariant removals == Events(cellIndex, x0, y0, ruledOut)
      {
        CollapseOneMore(row, pattern, i);
        if i != pattern && waveCells[cellIndex][i] {
          UpdateTwice(cells0, cellIndex, CollapsedUpTo(row, pattern, i), CollapsedUpTo(row, pattern, i + 1));
          waveCells := waveCells[cellIndex := waveCells[cellIndex][i := false]];
          var yIndex := RowOf(cellIndex, xSize);
          var xIndex := ColumnOf(cellIndex, xSize);
          EventsAppendOne(cellIndex, x0, y0, ruledOut, i);
          removals := removals + [RemovalUpdate(cellIndex, i, xIndex, yIndex)];
          ruledOut := ruledOut + [i];
        }
        i := i + 1;
      }
      assert row[..i] == row;
    }

    /** CollapseCell: picks the cell's pattern and collapses the cell onto it.
        The picked pattern is one of the cell's possible patterns, so the
        solver's invariant holds again afterwards. */
    method CollapseCell(cellIndex: int) returns (r: Result<seq<RemovalUpdate>, Error>)
      requires Valid() && 0 <= cellIndex < |waveCells|
      modifies this`waveCells, this`sumOfPossiblePatterns, prng
      ensures Valid()
      ensures var count := old(sumOfPossiblePatterns[cellIndex]);
        var pick := StripBased(old(waveCells[cellIndex]), count, sumOfWeights[cellIndex], patternWeights, Draw(prng.draws, old(prng.cursor)));
        && prng.cursor == old(prng.cursor) + (if count >= 2 then 1 else 0)
        && (pick.None? ==> r == Err(NoPropagateablePatterns(cellIndex)) && State() == old(State()))
        && (pick.Some? ==> r.Ok? && State() == CollapseAt(old(State()), cellIndex, pick.value))
      ensures r.Ok? ==> Collapsed(old(State()), State(), r.value)
    {
      var patternRandom := GetPatternIndexRandomStripBased(cellIndex);
      if patternRandom.Err? {
        return Err(patternRandom.error);
      }
      StripBasedPicksPossible(waveCells[cellIndex], sumOfPossiblePatterns[cellIndex], sumOfWeights[cellIndex],
                              patternWeights, Draw(prng.draws, old(prng.cursor)));
      var removals := CollapseOnto(cellIndex, patternRandom.value);
      return Ok(removals);
    }

    /** CollapseCellByPattern on a valid solver, with a possible pattern. */
    method CollapseOnto(cellIndex: int, pattern: int) returns (removals: seq<RemovalUpdate>)
      requires Valid() && 0 <= cellIndex < |waveCells|
      requires 0 <= pattern < |patterns| && waveCells[cellIndex][pattern]
      modifies this`waveCells, this`sumOfPossiblePatterns
      ensures Valid() && State() == CollapseAt(old(State()), cellIndex, pattern)
      ensures Collapsed(old(State()), State(), removals)
    {
      ghost var s0 := State();
      CollapseKeepsConsistent(s0, patternWeights, weightOffset, propagators, |waveCells|, cellIndex, pattern);
      CellCoordinates(cellIndex, xSize, ySize);
      removals := CollapseCellByPattern(cellIndex, pattern);
      assert State() == CollapseAt(s0, cellIndex, pattern);
      forall k | 0 <= k < |removals| ensures ValidEvent(removals[k]) {
      }
    }

    /** What the collapse of one cell promises from state a to b with events
        es: only patterns are ruled out, the count total drops by one per
        event, and every event is a well-formed removal. */
    ghost predicate Collapsed(a: Tables, b: Tables, es: seq<RemovalUpdate>)
      reads this
      requires Shaped() && Shape(a, |waveCells|, |patterns|) && Shape(b, |waveCells|, |patterns|)
    {
      && Descends(a, b, |waveCells|, |patterns|)
      && Sum(b.counts) + |es| == Sum(a.counts)
      && forall k :: 0 <= k < |es| ==> ValidEvent(es[k])
    }

    /** Pushes every event onto the removal stack, in order, so that the last
        one is on top. */
    method PushAll(events: seq<RemovalUpdate>)
      requires Valid() && forall k :: 0 <= k < |events| ==> ValidEvent(events[k])
      modifies this`removalUpdates
      ensures Valid() && removalUpdates == old(removalUpdates) + events
    {
      var i := 0;
      while i < |events|
        invariant 0 <= i <= |events| && Valid()
        invariant removalUpdates == old(removalUpdates) + events[..i]
      {
        removalUpdates := removalUpdates + [events[i]];
        assert events[..i + 1] == events[..i] + [events[i]];
        i := i + 1;
      }
      assert events[..i] == events;
    }
    // ----------------------------------------------------- next cell, colours

    /** PickNextCell: polls the heap until it yields a cell that still has a
        pattern, and returns it; 0 once the heap is empty. */
    method PickNextCell() returns (cell: int, ghost key: real)
      requires Queued() && |sumOfPossiblePatterns| == |waveCells|
      modifies uncollapsedEntropies
      ensures Queued()
      ensures Picked(multiset(old(uncollapsedEntropies.heap)), multiset(uncollapsedEntropies.heap), sumOfPossiblePatterns, cell, key)
      ensures old(uncollapsedEntropies.heap) != [] ==> |uncollapsedEntropies.heap| < |old(uncollapsedEntropies.heap)|
    {
      ghost var h0 := multiset(uncollapsedEntropies.heap);
      ghost var gone: multiset<Entry<int>> := multiset{};
      key := 0.0;
      while !uncollapsedEntropies.IsEmpty()
        invariant Queued()
        invariant multiset(uncollapsedEntropies.heap) + gone == h0
        invariant forall e :: e in gone ==> 0 <= e.value < |sumOfPossiblePatterns| && sumOfPossiblePatterns[e.value] <= 0
        invariant |uncollapsedEntropies.heap| <= |old(uncollapsedEntropies.heap)|
        decreases |uncollapsedEntropies.heap|
      {
        ghost var before := uncollapsedEntropies.heap;
        var next := PollEntry();
        if sumOfPossiblePatterns[next.value] >= 1 {
          cell, key := next.value, next.key;
          PickLive(h0, before, multiset(uncollapsedEntropies.heap), gone, sumOfPossiblePatterns, next);
          return;
        }
        gone := gone + multiset{next};
      }
      cell := 0;
      PickEmpty(h0, gone, sumOfPossiblePatterns, key);
    }

    /** Polls the heap's top entry, which names a cell and has the least key. */
    method PollEntry() returns (next: Entry<int>)
      requires Queued() && uncollapsedEntropies.heap != []
      modifies uncollapsedEntropies
      ensures Queued() && |uncollapsedEntropies.heap| == |old(uncollapsedEntropies.heap)| - 1
      ensures multiset(old(uncollapsedEntropies.heap)) == multiset(uncollapsedEntropies.heap) + multiset{next}
      ensures 0 <= next.value < |waveCells|
      ensures |old(uncollapsedEntropies.heap)| > 0 && next == old(uncollapsedEntropies.heap)[0]
      ensures forall i :: 0 <= i < |old(uncollapsedEntropies.heap)| ==> next.key <= old(uncollapsedEntropies.heap)[i].key
    {
      ghost var before := uncollapsedEntropies.heap;
      var top := uncollapsedEntropies.Poll();
      next := top.value;
      InCellsShrink(before, uncollapsedEntropies.heap, |waveCells|);
    }

    /** GetCellColor: the colour of element 0 of every possible pattern of
        the cell, in pattern order, as one colour or their blend. */
    method GetCellColor(cellIndex: int) returns (color: Pixel)
      requires Shaped() && 0 <= cellIndex < |waveCells|
      ensures color == CellColor(PossibleColors(waveCells[cellIndex], patterns, colorsOfHashes))
    {
      var row := waveCells[cellIndex];
      var possibleColors: seq<Color> := [];
      var i := 0;
      while i < |patterns|
        invariant 0 <= i <= |patterns|
        invariant possibleColors == PossibleColors(row[..i], patterns, colorsOfHashes)
      {
        assert row[..i + 1][..i] == row[..i];
        if row[i] {
          possibleColors := possibleColors + [colorsOfHashes[patterns[i][0]]];
        }
        i := i + 1;
      }
      assert row[..i] == row;
      if |possibleColors| == 1 {
        return Solid(possibleColors[0]);
      }
      return MeanOf(possibleColors);
    }

    /** CreateColorMap: one pixel per cell, the mask colour where the count
        is zero, the cell's colour elsewhere. */
    method CreateColorMap() returns (colorMap: array<Pixel>)
      requires Shaped()
      ensures fresh(colorMap)
      ensures colorMap[..] == ColorMap(State(), patterns, colorsOfHashes)
    {
      colorMap := new Pixel[xSize * ySize](_ => Solid(MaskColor));
      var i := 0;
      while i < |waveCells|
        invariant 0 <= i <= |waveCells|
        invariant forall k :: 0 <= k < i ==> colorMap[k] == ColorMap(State(), patterns, colorsOfHashes)[k]
      {
        if sumOfPossiblePatterns[i] == 0 {
          colorMap[i] := Solid(MaskColor);
        } else {
          colorMap[i] := GetCellColor(i);
        }
        i := i + 1;
      }
    }
    // ------------------------------------------------------------ execute

    /** Every cell with two or more possible patterns has an entry in the
        heap, or is the cell about to be collapsed. */
    ghost predicate Tracked(next: int)
      reads this, uncollapsedEntropies
    {
      TrackedIn(sumOfPossiblePatterns, uncollapsedEntropies.heap, next)
    }

    /** No cell has run out of patterns. */
    ghost predicate AllLive()
      reads this
    {
      Live(sumOfPossiblePatterns)
    }

    /** The heap is empty and every cell but last is down to at most one pattern. */
    ghost predicate Decided(last: int)
      reads this, uncollapsedEntropies
      requires |sumOfPossiblePatterns| == |waveCells|
    {
      && uncollapsedEntropies.heap == [] && 0 <= last < |waveCells|
      && forall c :: 0 <= c < |waveCells| && c != last ==> sumOfPossiblePatterns[c] <= 1
    }

    /** One round of Execute's loop up to PickNextCell: collapses the cell,
        makes its events the removal stack and propagates them. Ok(None)
        when no contradiction stopped the propagation. */
    method CollapseAndPropagate(nextCell: int, ghost s0: Tables, ghost live: bool) returns (r: Result<Option<Contradiction>, Error>)
      requires Valid() && removalUpdates == [] && 0 <= nextCell < |waveCells| && Tracked(nextCell)
      requires Shape(s0, |waveCells|, |patterns|) && Descends(s0, State(), |waveCells|, |patterns|)
      requires live ==> weightOffset == 0 && AllLive()
      modifies this`waveCells, this`compatibles, this`sumOfPossiblePatterns, this`sumOfWeights, this`removalUpdates
      modifies uncollapsedEntropies, prng
      ensures Valid() && Descends(s0, State(), |waveCells|, |patterns|)
      ensures r.Err? ==> r.error.NoPropagateablePatterns? && !live
      ensures r.Ok? && r.value.Some? ==> Contradicted(sumOfPossiblePatterns, xSize, ySize, r.value.value)
      ensures r == Ok(None) ==>
        && removalUpdates == [] && Tracked(-1) && (live ==> AllLive())
        && |old(uncollapsedEntropies.heap)| <= |uncollapsedEntropies.heap|
        && Remaining() + |uncollapsedEntropies.heap| <= old(Remaining() + |uncollapsedEntropies.heap|)
    {
      ghost var sA, hA := State(), uncollapsedEntropies.heap;
      var collapsed := CollapseRound(nextCell);
      if collapsed.Err? {
        return Err(collapsed.error);
      }
      ghost var sB := State();
      var failed, refreshed := PropagateRound();
      RoundFacts(s0, sA, sB, Drained(State(), refreshed, removalUpdates, failed), patternWeights, weightOffset, propagators,
                 xSize, ySize, nextCell, collapsed.value, hA, uncollapsedEntropies.heap);
      return Ok(failed);
    }

    /** What holds at the head of Execute's loop, with next the cell about
        to be collapsed, s0 the state the loop started from, and live recording
        that the run started without weight offset and with every cell live. */
    ghost predicate Running(next: int, s0: Tables, live: bool)
      reads this, uncollapsedEntropies
    {
      && Valid() && removalUpdates == [] && 0 <= next < |waveCells| && Tracked(next)
      && Shape(s0, |waveCells|, |patterns|) && Descends(s0, State(), |waveCells|, |patterns|)
      && (live ==> weightOffset == 0 && AllLive())
    }

    /** One pass of Execute's loop: the collapse and its propagation, then
        PickNextCell. */
    method Round(nextCell: int, ghost s0: Tables, ghost live: bool) returns (r: Result<Option<Contradiction>, Error>, next: int)
      requires Running(nextCell, s0, live) && uncollapsedEntropies.heap != []
      modifies this`waveCells, this`compatibles, this`sumOfPossiblePatterns, this`sumOfWeights, this`removalUpdates
      modifies uncollapsedEntropies, prng
      ensures Valid() && Descends(s0, State(), |waveCells|, |patterns|)
      ensures r.Err? ==> r.error.NoPropagateablePatterns? && !live
      ensures r.Ok? && r.value.Some? ==> Contradicted(sumOfPossiblePatterns, xSize, ySize, r.value.value)
      ensures r == Ok(None) ==>
        && Running(next, s0, live)
        && Remaining() + |uncollapsedEntropies.heap| < old(Remaining() + |uncollapsedEntropies.heap|)
    {
      next := nextCell;
      r := CollapseAndPropagate(nextCell, s0, live);
      if r != Ok(None) {
        return;
      }
      ghost var hC := uncollapsedEntropies.heap;
      ghost var key;
      next, key := PickNextCell();
      PickedKeepsLive(hC, uncollapsedEntropies.heap, sumOfPossiblePatterns, next, key);
    }

    /** Execute's removalUpdates = CollapseCell(nextCell): collapses the
        cell and makes its events, Ok(their number), the removal stack. */
    method CollapseRound(nextCell: int) returns (r: Result<int, Error>)
      requires Valid() && 0 <= nextCell < |waveCells|
      modifies this`waveCells, this`sumOfPossiblePatterns, this`removalUpdates, prng
      ensures Valid()
      ensures r.Err? ==> r.error.NoPropagateablePatterns? && State() == old(State())
      ensures r.Ok? ==>
        && Descends(old(State()), State(), |waveCells|, |patterns|)
        && sumOfPossiblePatterns == old(sumOfPossiblePatterns)[nextCell := 1]
        && r.value >= 0 && Sum(sumOfPossiblePatterns) + r.value == old(Sum(sumOfPossiblePatterns))
      ensures weightOffset == 0 && old(sumOfPossiblePatterns[nextCell]) >= 1 ==> r.Ok?
    {
      if weightOffset == 0 && sumOfPossiblePatterns[nextCell] >= 1 {
        StripBasedSucceeds(waveCells[nextCell], sumOfPossiblePatterns[nextCell], sumOfWeights[nextCell], patternWeights,
                           Draw(prng.draws, prng.cursor));
      }
      var collapsed := CollapseCell(nextCell);
      if collapsed.Err? {
        return Err(collapsed.error);
      }
      SetRemovalUpdates(collapsed.value);
      return Ok(|collapsed.value|);
    }

    /** Execute's removalUpdates = CollapseCell(nextCell): the collapse's
        events become the removal stack. */
    method SetRemovalUpdates(events: seq<RemovalUpdate>)
      requires Valid() && forall k :: 0 <= k < |events| ==> ValidEvent(events[k])
      modifies this`removalUpdates
      ensures Valid() && removalUpdates == events
    {
      removalUpdates := events;
    }

    /** Propagate, with what the drain of the stack promises: a finished
        run, and one heap entry per refresh. */
    method PropagateRound() returns (failed: Option<Contradiction>, ghost refreshed: seq<Refresh>)
      requires Valid()
      modifies this`waveCells, this`compatibles, this`sumOfPossiblePatterns, this`sumOfWeights, this`removalUpdates
      modifies uncollapsedEntropies, prng
      ensures Valid()
      ensures Finished(old(State()), Drained(State(), refreshed, removalUpdates, failed), patternWeights, weightOffset, propagators, xSize, ySize)
      ensures multiset(old(uncollapsedEntropies.heap)) <= multiset(uncollapsedEntropies.heap)
      ensures |uncollapsedEntropies.heap| == |old(uncollapsedEntropies.heap)| + |refreshed|
    {
      assert Patterns(removalUpdates, |patterns|) by {
        forall k | 0 <= k < |removalUpdates| ensures 0 <= removalUpdates[k].pattern < |patterns| {
          assert ValidEvent(removalUpdates[k]);
        }
      }
      DrainFinishes(State(), patternWeights, weightOffset, propagators, xSize, ySize, removalUpdates);
      ghost var dr := Drain(State(), patternWeights, weightOffset, propagators, xSize, ySize, removalUpdates);
      ghost var k0 := prng.cursor;
      failed := Propagate();
      refreshed := dr.refreshed;
      EntriesSize(entropy, prng.fractions, refreshed, k0);
    }

    /** Execute: collapses a first cell drawn at random, then, while the heap
        has entries, propagates the collapse and collapses the cell
        PickNextCell returns. A contradiction ends the loop early; the colour
        map is read off the wave at the end. The cell PickNextCell returns
        last is not collapsed once the heap is empty (last). */
    method Execute() returns (r: Result<RunResult, Error>, ghost last: int)
      requires Valid() && removalUpdates == [] && Tracked(-1)
      modifies this`waveCells, this`compatibles, this`sumOfPossiblePatterns, this`sumOfWeights, this`removalUpdates
      modifies uncollapsedEntropies, prng
      ensures Valid()
      ensures Descends(old(State()), State(), |waveCells|, |patterns|)
      ensures r.Err? ==> r.error.NoPropagateablePatterns?
      ensures r.Ok? ==> r.value.colorMap == ColorMap(State(), patterns, colorsOfHashes)
      ensures r.Ok? && r.value.contradiction.Some? ==> Contradicted(sumOfPossiblePatterns, xSize, ySize, r.value.contradiction.value)
      ensures r.Ok? && r.value.contradiction.None? ==> Decided(last)
      ensures old(weightOffset == 0 && AllLive()) ==> r.Ok? && (r.value.contradiction.None? ==> AllLive())
    {
      ghost var s0 := State();
      ghost var live := weightOffset == 0 && AllLive();
      var nextCell := GetRandomRange(0, xSize * ySize - 1);
      var outcome;
      outcome, last := ExecuteLoop(nextCell, s0, live);
      if outcome.Err? {
        return Err(outcome.error), last;
      }
      var colorMap := CreateColorMap();
      return Ok(RunResult(colorMap[..], outcome.value)), last;
    }

    /** Execute's while loop, from the first cell nextCell. */
    method ExecuteLoop(nextCell: int, ghost s0: Tables, ghost live: bool) returns (r: Result<Option<Contradiction>, Error>, last: int)
      requires Running(nextCell, s0, live)
      modifies this`waveCells, this`compatibles, this`sumOfPossiblePatterns, this`sumOfWeights, this`removalUpdates
      modifies uncollapsedEntropies, prng
      ensures Valid() && Descends(s0, State(), |waveCells|, |patterns|)
      ensures r.Err? ==> r.error.NoPropagateablePatterns? && !live
      ensures r.Ok? && r.value.Some? ==> Contradicted(sumOfPossiblePatterns, xSize, ySize, r.value.value)
      ensures r == Ok(None) ==> Decided(last) && (live ==> AllLive())
    {
      last := nextCell;
      while !uncollapsedEntropies.IsEmpty()
        invariant Running(last, s0, live)
        decreases Remaining() + |uncollapsedEntropies.heap|
      {
        CountsNonNegative(State(), patternWeights, weightOffset, propagators, |patterns|);
        r, last := Round(last, s0, live);
        if r != Ok(None) {
          return;
        }
      }
      r := Ok(None);
    }
  }
}
