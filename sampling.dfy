/** The raw sample list of Wfc.InitializePatterns: one 3x3 window per centre
    (x, y), rows y = 1 .. H - limitInputY outermost, columns x = 1 ..
    W - limitInputX inside, each followed by its five turned and flipped
    variants when reflections are on. */
module Sampling {
  import opened Sequences
  import opened WfcHelper

  /** The patterns one window contributes, in the order they are added. */
  function Variants(p: Pattern, reflections: bool): (vs: seq<Pattern>)
    ensures |vs| == if reflections then 6 else 1
    ensures vs[0] == p
  {
    if reflections then [p, Turn90(p), Turn180(p), Turn270(p), HorizontalFlip(p), VerticalFlip(p)]
    else [p]
  }

  /** Every window the two loops visit keeps its indices inside the grid. */
  ghost predicate SamplesFit(g: Grid, xCount: int, yCount: int) {
    IsMatrix(g) && (xCount >= 1 && yCount >= 1 ==> xCount + 1 < 2 * Width(g) && yCount + 1 < 2 * Height(g))
  }

  /** The samples of row y, centres x = 1 .. xCount. */
  function SampleRow(g: Grid, y: int, xCount: int, reflections: bool): seq<Pattern>
    requires IsMatrix(g) && 1 <= y && y + 1 < 2 * Height(g) && xCount + 1 < 2 * Width(g)
    decreases xCount
  {
    if xCount <= 0 then []
    else SampleRow(g, y, xCount - 1, reflections) + Variants(OriginalPattern(g, xCount, y), reflections)
  }

  /** The samples of rows 1 .. yCount. */
  function Samples(g: Grid, xCount: int, yCount: int, reflections: bool): seq<Pattern>
    requires SamplesFit(g, xCount, yCount)
    decreases yCount
  {
    if yCount <= 0 || xCount <= 0 then []
    else Samples(g, xCount, yCount - 1, reflections) + SampleRow(g, yCount, xCount, reflections)
  }

  /** Variants per window: six with reflections, one without. */
  function Multiplicity(reflections: bool): nat {
    if reflections then 6 else 1
  }

  function Positive(n: int): nat {
    if n > 0 then n else 0
  }

  lemma {:induction false} SampleRowLength(g: Grid, y: int, xCount: int, reflections: bool)
    requires IsMatrix(g) && 1 <= y && y + 1 < 2 * Height(g) && xCount + 1 < 2 * Width(g)
    ensures |SampleRow(g, y, xCount, reflections)| == Positive(xCount) * Multiplicity(reflections)
    decreases xCount
  {
    if xCount > 0 {
      SampleRowLength(g, y, xCount - 1, reflections);
      assert Positive(xCount) * Multiplicity(reflections)
        == Positive(xCount - 1) * Multiplicity(reflections) + Multiplicity(reflections);
    }
  }

  /** The raw sample count is (W - limitInputX) * (H - limitInputY), times six
      with reflections, each factor taken as zero when it is not positive. */
  lemma {:induction false} SamplesLength(g: Grid, xCount: int, yCount: int, reflections: bool)
    requires SamplesFit(g, xCount, yCount)
    ensures |Samples(g, xCount, yCount, reflections)| == Positive(xCount) * Positive(yCount) * Multiplicity(reflections)
    decreases yCount
  {
    if yCount > 0 && xCount > 0 {
      SamplesLength(g, xCount, yCount - 1, reflections);
      SampleRowLength(g, yCount, xCount, reflections);
      MultiplyStep(Positive(xCount), yCount, Multiplicity(reflections));
    }
  }

  lemma MultiplyStep(a: int, y: int, m: int)
    requires y > 0
    ensures a * Positive(y) * m == a * Positive(y - 1) * m + a * m
  {
    assert a * y * m == a * (y - 1) * m + a * m;
  }

  /** Every byte of p is below n. */
  ghost predicate BytesBelow(p: Pattern, n: int) {
    forall i :: 0 <= i < 9 ==> p[i] as int < n
  }

  /** Every entry of g is below n. */
  ghost predicate GridBelow(g: Grid, n: int) {
    forall x, y :: 0 <= x < |g| && 0 <= y < |g[x]| ==> g[x][y] as int < n
  }

  lemma PermutationBelow(p: Pattern, q: Pattern, n: int)
    requires multiset(q) == multiset(p) && BytesBelow(p, n)
    ensures BytesBelow(q, n)
  {
    forall i | 0 <= i < 9 ensures q[i] as int < n {
      assert q[i] in multiset(p);
    }
  }

  /** The turns and flips only rearrange bytes, so they keep a bound. */
  lemma TransformsBelow(p: Pattern, n: int)
    requires BytesBelow(p, n)
    ensures BytesBelow(Turn90(p), n) && BytesBelow(Turn180(p), n) && BytesBelow(Turn270(p), n)
    ensures BytesBelow(HorizontalFlip(p), n) && BytesBelow(VerticalFlip(p), n)
  {
    TransformsArePermutations(p);
    PermutationBelow(p, Turn90(p), n);
    PermutationBelow(p, Turn180(p), n);
    PermutationBelow(p, Turn270(p), n);
    PermutationBelow(p, HorizontalFlip(p), n);
    PermutationBelow(p, VerticalFlip(p), n);
  }

  lemma VariantsBelow(p: Pattern, reflections: bool, n: int)
    requires BytesBelow(p, n)
    ensures forall k :: 0 <= k < |Variants(p, reflections)| ==> BytesBelow(Variants(p, reflections)[k], n)
  {
    TransformsBelow(p, n);
  }

  lemma WindowBelow(g: Grid, x: int, y: int, n: int)
    requires CanSample(g, x, y) && GridBelow(g, n)
    ensures BytesBelow(OriginalPattern(g, x, y), n)
  {
    var p := OriginalPattern(g, x, y);
    forall i | 0 <= i < 9 ensures p[i] as int < n {
      assert p[i] == Cell(p, Col(i), Row(i));
    }
  }

  lemma {:induction false} SampleRowBelow(g: Grid, y: int, xCount: int, reflections: bool, n: int)
    requires IsMatrix(g) && 1 <= y && y + 1 < 2 * Height(g) && xCount + 1 < 2 * Width(g)
    requires GridBelow(g, n)
    ensures forall k :: 0 <= k < |SampleRow(g, y, xCount, reflections)| ==> BytesBelow(SampleRow(g, y, xCount, reflections)[k], n)
    decreases xCount
  {
    if xCount > 0 {
      SampleRowBelow(g, y, xCount - 1, reflections, n);
      var p := OriginalPattern(g, xCount, y);
      WindowBelow(g, xCount, y, n);
      VariantsBelow(p, reflections, n);
    }
  }

  /** Every sampled byte is a byte of the grid, so a bound on the grid's
      colour indices bounds every pattern's. */
  lemma {:induction false} SamplesBelow(g: Grid, xCount: int, yCount: int, reflections: bool, n: int)
    requires SamplesFit(g, xCount, yCount) && GridBelow(g, n)
    ensures forall k :: 0 <= k < |Samples(g, xCount, yCount, reflections)| ==> BytesBelow(Samples(g, xCount, yCount, reflections)[k], n)
    decreases yCount
  {
    if yCount > 0 && xCount > 0 {
      SamplesBelow(g, xCount, yCount - 1, reflections, n);
      SampleRowBelow(g, yCount, xCount, reflections, n);
    }
  }

  /** A grid holding one colour index everywhere. */
  ghost predicate UniformGrid(g: Grid, b: byte) {
    forall x, y :: 0 <= x < |g| && 0 <= y < |g[x]| ==> g[x][y] == b
  }

  lemma UniformWindow(g: Grid, x: int, y: int, b: byte)
    requires CanSample(g, x, y) && UniformGrid(g, b)
    ensures OriginalPattern(g, x, y) == Uniform(b)
  {
    SameCells(OriginalPattern(g, x, y), Uniform(b));
  }

  lemma UniformVariants(b: byte, reflections: bool)
    ensures forall k :: 0 <= k < |Variants(Uniform(b), reflections)| ==> Variants(Uniform(b), reflections)[k] == Uniform(b)
  {
    UniformIsSymmetric(b);
  }

  lemma UniformWindowVariants(g: Grid, x: int, y: int, reflections: bool, b: byte)
    requires CanSample(g, x, y) && UniformGrid(g, b)
    ensures forall k :: 0 <= k < |Variants(OriginalPattern(g, x, y), reflections)| ==>
      Variants(OriginalPattern(g, x, y), reflections)[k] == Uniform(b)
  {
    UniformWindow(g, x, y, b);
    UniformVariants(b, reflections);
  }

  lemma {:induction false} UniformSampleRow(g: Grid, y: int, xCount: int, reflections: bool, b: byte)
    requires IsMatrix(g) && 1 <= y && y + 1 < 2 * Height(g) && xCount + 1 < 2 * Width(g)
    requires UniformGrid(g, b)
    ensures forall k :: 0 <= k < |SampleRow(g, y, xCount, reflections)| ==> SampleRow(g, y, xCount, reflections)[k] == Uniform(b)
    decreases xCount
  {
    if xCount > 0 {
      var prev := SampleRow(g, y, xCount - 1, reflections);
      var vs := Variants(OriginalPattern(g, xCount, y), reflections);
      UniformSampleRow(g, y, xCount - 1, reflections, b);
      UniformWindowVariants(g, xCount, y, reflections, b);
      ConstantConcat(prev, vs, Uniform(b));
    }
  }

  lemma ConstantConcat<T>(a: seq<T>, b: seq<T>, x: T)
    requires forall k :: 0 <= k < |a| ==> a[k] == x
    requires forall k :: 0 <= k < |b| ==> b[k] == x
    ensures forall k :: 0 <= k < |a + b| ==> (a + b)[k] == x
  {
  }

  lemma {:induction false} UniformSamples(g: Grid, xCount: int, yCount: int, reflections: bool, b: byte)
    requires SamplesFit(g, xCount, yCount) && UniformGrid(g, b)
    ensures forall k :: 0 <= k < |Samples(g, xCount, yCount, reflections)| ==> Samples(g, xCount, yCount, reflections)[k] == Uniform(b)
    decreases yCount
  {
    if yCount > 0 && xCount > 0 {
      UniformSamples(g, xCount, yCount - 1, reflections, b);
      UniformSampleRow(g, yCount, xCount, reflections, b);
    }
  }

  /** A single-colour exemplar with at least one window yields exactly one
      distinct pattern, whose weight is the whole sample count. */
  lemma UniformExemplarOnePattern(g: Grid, xCount: int, yCount: int, reflections: bool, b: byte)
    requires SamplesFit(g, xCount, yCount) && UniformGrid(g, b)
    requires xCount >= 1 && yCount >= 1
    ensures var raw := Samples(g, xCount, yCount, reflections);
      Firsts(raw) == [Uniform(b)] && Counts(raw, Firsts(raw)) == [|raw|]
  {
    var raw := Samples(g, xCount, yCount, reflections);
    SamplesLength(g, xCount, yCount, reflections);
    assert |raw| > 0;
    UniformSamples(g, xCount, yCount, reflections, b);
    FirstsOfConstant(raw, Uniform(b));
  }
}
