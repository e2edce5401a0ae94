/** Pattern sampling, the symmetry transforms, the overlap test and the colour
    hash helper of Assets/Scripts/WfcHelper.cs. A pattern is the 3x3 byte
    array the C# code builds, in the layout it uses: entry (x, y), for
    column x and row y, sits at index x + 3 * y. */
module WfcHelper {

  newtype byte = x: int | 0 <= x < 256

  /** WAVELENGTH: the side of a pattern. Every caller passes this value, and
      the two flips only work for it. */
  const WaveLength: int := 3

  type Pattern = p: seq<byte> | |p| == 9 witness [0, 0, 0, 0, 0, 0, 0, 0, 0]

  /** A colour of the exemplar, compared only for equality (Color32 channels). */
  datatype Color = Color(r: int, g: int, b: int, a: int)

  /** A colour-indexed exemplar, indexed [x][y] like the C# byte[,]. */
  type Grid = seq<seq<byte>>

  /** A rectangular [x][y] matrix, as C#'s two-dimensional arrays are. */
  ghost predicate IsMatrix<T>(m: seq<seq<T>>) {
    forall x :: 0 <= x < |m| ==> |m[x]| == |m[0]|
  }

  function Width<T>(m: seq<seq<T>>): nat {
    |m|
  }

  function Height<T>(m: seq<seq<T>>): nat {
    if |m| == 0 then 0 else |m[0]|
  }

  /** The flat index of entry (x, y). */
  function Idx(x: int, y: int): int {
    x + 3 * y
  }

  /** Row and column of a flat index, without division. */
  function Row(i: int): int {
    if i < 3 then 0 else if i < 6 then 1 else 2
  }

  function Col(i: int): int {
    i - 3 * Row(i)
  }

  ghost predicate InSquare(x: int, y: int) {
    0 <= x < 3 && 0 <= y < 3
  }

  /** Entry (x, y) of a pattern. */
  function Cell(p: Pattern, x: int, y: int): byte
    requires InSquare(x, y)
  {
    p[Idx(x, y)]
  }

  /** The flat index of a cell gives back its column and row. */
  lemma ColRowOfIdx(x: int, y: int)
    requires InSquare(x, y)
    ensures Col(Idx(x, y)) == x && Row(Idx(x, y)) == y
  {
  }

  lemma CellCases(x: int, y: int)
    requires InSquare(x, y)
    ensures (x == 0 || x == 1 || x == 2) && (y == 0 || y == 1 || y == 2)
  {
  }

  /** Distinct cells of the square sit at distinct flat indices. */
  lemma IdxDistinct(x0: int, y0: int)
    requires InSquare(x0, y0)
    ensures forall x, y :: InSquare(x, y) && (x != x0 || y != y0) ==> Idx(x, y) != x0 + y0 * 3
  {
    forall x, y | InSquare(x, y) && (x != x0 || y != y0) ensures Idx(x, y) != x0 + y0 * 3 {
      CellCases(x, y);
      CellCases(x0, y0);
    }
  }

  /** Two patterns agree at every coordinate. */
  lemma SameCells(a: Pattern, b: Pattern)
    requires forall x, y :: InSquare(x, y) ==> Cell(a, x, y) == Cell(b, x, y)
    ensures a == b
  {
    forall i | 0 <= i < 9 ensures a[i] == b[i] {
      assert Cell(a, Col(i), Row(i)) == Cell(b, Col(i), Row(i));
    }
  }

  // ---------------------------------------------------------------- colours

  /** GetColorHash: the stored index of a known colour; for a new colour the
      next free index while the dictionary has at most 255 entries, else 0. */
  function GetColorHash(colors: map<Color, byte>, newColor: Color): (h: byte)
    ensures newColor in colors ==> h == colors[newColor]
    ensures newColor !in colors && |colors| <= 255 ==> h as int == |colors|
    ensures newColor !in colors && |colors| > 255 ==> h == 0
  {
    if newColor in colors then colors[newColor]
    else if |colors| > 255 then 0
    else |colors| as byte
  }

  // ------------------------------------------------------------- sampling

  /** An index of the sampling window, wrapped once past the high edge only. */
  function Wrap(v: int, size: int): int {
    if v >= size then v - size else v
  }

  /** The window's indices stay in the grid when the centre is at least 1 and
      one past the centre is below twice the size. */
  ghost predicate CanSample<T>(m: seq<seq<T>>, x: int, y: int) {
    IsMatrix(m) && 1 <= x && x + 1 < 2 * Width(m) && 1 <= y && y + 1 < 2 * Height(m)
  }

  /** Entry (i, j) of the window centred on (x, y). */
  function WindowAt(m: Grid, x: int, y: int, i: int, j: int): byte
    requires CanSample(m, x, y) && InSquare(i, j)
  {
    m[Wrap(x - 1 + i, Width(m))][Wrap(y - 1 + j, Height(m))]
  }

  /** The 3x3 window centred on (x, y), each index wrapped once. */
  function OriginalPattern(m: Grid, x: int, y: int): (p: Pattern)
    requires CanSample(m, x, y)
    ensures forall i, j :: InSquare(i, j) ==> Cell(p, i, j) == WindowAt(m, x, y, i, j)
  {
    var p := seq(9, k requires 0 <= k < 9 => WindowAt(m, x, y, Col(k), Row(k)));
    assert forall i, j :: InSquare(i, j) ==> Cell(p, i, j) == WindowAt(m, x, y, i, j) by {
      forall i, j | InSquare(i, j) ensures Cell(p, i, j) == WindowAt(m, x, y, i, j) {
        ColRowOfIdx(i, j);
      }
    }
    p
  }

  /** GetOriginalPattern: x outer, y inner, each index wrapped once. */
  method GetOriginalPattern(textureColorMatrix: Grid, xIndex: int, yIndex: int) returns (p: Pattern)
    requires CanSample(textureColorMatrix, xIndex, yIndex)
    ensures p == OriginalPattern(textureColorMatrix, xIndex, yIndex)
  {
    var originalPattern := new byte[9];
    var xMin, xMax := xIndex - 1, xIndex + 1;
    var yMin, yMax := yIndex - 1, yIndex + 1;
    var inputTextureXSize := Width(textureColorMatrix);
    var inputTextureYSize := Height(textureColorMatrix);
    var x := xMin;
    while x <= xMax
      invariant xMin <= x <= xMax + 1
      invariant forall i, j :: 0 <= i < x - xMin && 0 <= j < 3 ==>
        originalPattern[Idx(i, j)] == WindowAt(textureColorMatrix, xIndex, yIndex, i, j)
    {
      var y := yMin;
      ghost var column := x - xMin;
      while y <= yMax
        invariant yMin <= y <= yMax + 1
        invariant forall i, j :: 0 <= i < x - xMin && 0 <= j < 3 ==>
          originalPattern[Idx(i, j)] == WindowAt(textureColorMatrix, xIndex, yIndex, i, j)
        invariant forall j :: 0 <= j < y - yMin ==>
          originalPattern[Idx(column, j)] == WindowAt(textureColorMatrix, xIndex, yIndex, column, j)
      {
        var xOut, yOut := x, y;
        if x >= inputTextureXSize {
          xOut := x - inputTextureXSize;
        }
        if y >= inputTextureYSize {
          yOut := y - inputTextureYSize;
        }
        IdxDistinct(column, y - yMin);
        originalPattern[x - xMin + (y - yMin) * 3] := textureColorMatrix[xOut][yOut];
        y := y + 1;
      }
      x := x + 1;
    }
    p := originalPattern[..];
    SameCells(p, OriginalPattern(textureColorMatrix, xIndex, yIndex));
  }

  // ------------------------------------------------------------ symmetries

  /** Quarter turn: out(x, y) = in(y, 2 - x). */
  function Turn90(p: Pattern): (r: Pattern)
    ensures forall x, y :: InSquare(x, y) ==> Cell(r, x, y) == Cell(p, y, 2 - x)
  {
    var r := [p[6], p[3], p[0], p[7], p[4], p[1], p[8], p[5], p[2]];
    assert forall x, y :: InSquare(x, y) ==> Cell(r, x, y) == Cell(p, y, 2 - x) by {
      forall x, y | InSquare(x, y) ensures Cell(r, x, y) == Cell(p, y, 2 - x) {
        CellCases(x, y);
      }
    }
    r
  }

  /** Half turn: out(x, y) = in(2 - x, 2 - y). */
  function Turn180(p: Pattern): (r: Pattern)
    ensures forall x, y :: InSquare(x, y) ==> Cell(r, x, y) == Cell(p, 2 - x, 2 - y)
  {
    var r := [p[8], p[7], p[6], p[5], p[4], p[3], p[2], p[1], p[0]];
    assert forall x, y :: InSquare(x, y) ==> Cell(r, x, y) == Cell(p, 2 - x, 2 - y) by {
      forall x, y | InSquare(x, y) ensures Cell(r, x, y) == Cell(p, 2 - x, 2 - y) {
        CellCases(x, y);
      }
    }
    r
  }

  /** Three-quarter turn: out(x, y) = in(2 - y, x). */
  function Turn270(p: Pattern): (r: Pattern)
    ensures forall x, y :: InSquare(x, y) ==> Cell(r, x, y) == Cell(p, 2 - y, x)
  {
    var r := [p[2], p[5], p[8], p[1], p[4], p[7], p[0], p[3], p[6]];
    assert forall x, y :: InSquare(x, y) ==> Cell(r, x, y) == Cell(p, 2 - y, x) by {
      forall x, y | InSquare(x, y) ensures Cell(r, x, y) == Cell(p, 2 - y, x) {
        CellCases(x, y);
      }
    }
    r
  }

  /** Mirror across the vertical axis: columns 0 and 2 swap. */
  function HorizontalFlip(p: Pattern): (r: Pattern)
    ensures forall x, y :: InSquare(x, y) ==> Cell(r, x, y) == Cell(p, 2 - x, y)
  {
    var r := [p[2], p[1], p[0], p[5], p[4], p[3], p[8], p[7], p[6]];
    assert forall x, y :: InSquare(x, y) ==> Cell(r, x, y) == Cell(p, 2 - x, y) by {
      forall x, y | InSquare(x, y) ensures Cell(r, x, y) == Cell(p, 2 - x, y) {
        CellCases(x, y);
      }
    }
    r
  }

  /** Mirror across the horizontal axis: rows 0 and 2 swap. */
  function VerticalFlip(p: Pattern): (r: Pattern)
    ensures forall x, y :: InSquare(x, y) ==> Cell(r, x, y) == Cell(p, x, 2 - y)
  {
    var r := [p[6], p[7], p[8], p[3], p[4], p[5], p[0], p[1], p[2]];
    assert forall x, y :: InSquare(x, y) ==> Cell(r, x, y) == Cell(p, x, 2 - y) by {
      forall x, y | InSquare(x, y) ensures Cell(r, x, y) == Cell(p, x, 2 - y) {
        CellCases(x, y);
      }
    }
    r
  }

  lemma Turn90Twice(p: Pattern)
    ensures Turn90(Turn90(p)) == Turn180(p)
  {
    SameCells(Turn90(Turn90(p)), Turn180(p));
  }

  lemma Turn270UndoesTurn90(p: Pattern)
    ensures Turn270(Turn90(p)) == p
  {
    SameCells(Turn270(Turn90(p)), p);
  }

  lemma Turn90FourTimes(p: Pattern)
    ensures Turn90(Turn90(Turn90(Turn90(p)))) == p
  {
    Turn90Twice(p);
    Turn90Twice(Turn180(p));
    SameCells(Turn180(Turn180(p)), p);
  }

  lemma FlipsAreInvolutions(p: Pattern)
    ensures HorizontalFlip(HorizontalFlip(p)) == p
    ensures VerticalFlip(VerticalFlip(p)) == p
  {
    SameCells(HorizontalFlip(HorizontalFlip(p)), p);
    SameCells(VerticalFlip(VerticalFlip(p)), p);
  }

  lemma BothFlipsAreHalfTurn(p: Pattern)
    ensures HorizontalFlip(VerticalFlip(p)) == Turn180(p)
  {
    SameCells(HorizontalFlip(VerticalFlip(p)), Turn180(p));
  }

  /** CreatePatternTurn90Degree: xOut counts up while yIn counts down. */
  method CreatePatternTurn90Degree(patternMatrix: Pattern) returns (r: Pattern)
    ensures r == Turn90(patternMatrix) && multiset(r) == multiset(patternMatrix)
  {
    var turned90 := new byte[9];
    var xOut, yIn := 0, 2;
    while xOut < 3
      invariant 0 <= xOut <= 3 && yIn == 2 - xOut
      invariant forall x, y :: 0 <= x < xOut && 0 <= y < 3 ==> turned90[Idx(x, y)] == Cell(patternMatrix, y, 2 - x)
    {
      var yOut, xIn := 0, 0;
      while yOut < 3
        invariant 0 <= yOut <= 3 && xIn == yOut
        invariant forall x, y :: 0 <= x < xOut && 0 <= y < 3 ==> turned90[Idx(x, y)] == Cell(patternMatrix, y, 2 - x)
        invariant forall y :: 0 <= y < yOut ==> turned90[Idx(xOut, y)] == Cell(patternMatrix, y, yIn)
      {
        IdxDistinct(xOut, yOut);
        turned90[xOut + yOut * 3] := patternMatrix[xIn + yIn * 3];
        yOut, xIn := yOut + 1, xIn + 1;
      }
      xOut, yIn := xOut + 1, yIn - 1;
    }
    r := turned90[..];
    SameCells(r, Turn90(patternMatrix));
    assert multiset(Turn90(patternMatrix)) == multiset(patternMatrix) by {
      TransformsArePermutations(patternMatrix);
    }
  }

  /** CreatePatternTurn180Degree: both input indices count down. */
  method CreatePatternTurn180Degree(patternMatrix: Pattern) returns (r: Pattern)
    ensures r == Turn180(patternMatrix) && multiset(r) == multiset(patternMatrix)
  {
    var turned180 := new byte[9];
    var xOut, xIn := 0, 2;
    while xOut < 3
      invariant 0 <= xOut <= 3 && xIn == 2 - xOut
      invariant forall x, y :: 0 <= x < xOut && 0 <= y < 3 ==> turned180[Idx(x, y)] == Cell(patternMatrix, 2 - x, 2 - y)
    {
      var yOut, yIn := 0, 2;
      while yOut < 3
        invariant 0 <= yOut <= 3 && yIn == 2 - yOut
        invariant forall x, y :: 0 <= x < xOut && 0 <= y < 3 ==> turned180[Idx(x, y)] == Cell(patternMatrix, 2 - x, 2 - y)
        invariant forall y :: 0 <= y < yOut ==> turned180[Idx(xOut, y)] == Cell(patternMatrix, xIn, 2 - y)
      {
        IdxDistinct(xOut, yOut);
        turned180[xOut + yOut * 3] := patternMatrix[xIn + yIn * 3];
        yOut, yIn := yOut + 1, yIn - 1;
      }
      xOut, xIn := xOut + 1, xIn - 1;
    }
    r := turned180[..];
    SameCells(r, Turn180(patternMatrix));
    assert multiset(Turn180(patternMatrix)) == multiset(patternMatrix) by {
      TransformsArePermutations(patternMatrix);
    }
  }

  /** CreatePatternTurn270Degree: yIn counts up while xIn counts down. */
  method CreatePatternTurn270Degree(patternMatrix: Pattern) returns (r: Pattern)
    ensures r == Turn270(patternMatrix) && multiset(r) == multiset(patternMatrix)
  {
    var turned270 := new byte[9];
    var xOut, yIn := 0, 0;
    while xOut < 3
      invariant 0 <= xOut <= 3 && yIn == xOut
      invariant forall x, y :: 0 <= x < xOut && 0 <= y < 3 ==> turned270[Idx(x, y)] == Cell(patternMatrix, 2 - y, x)
    {
      var yOut, xIn := 0, 2;
      while yOut < 3
        invariant 0 <= yOut <= 3 && xIn == 2 - yOut
        invariant forall x, y :: 0 <= x < xOut && 0 <= y < 3 ==> turned270[Idx(x, y)] == Cell(patternMatrix, 2 - y, x)
        invariant forall y :: 0 <= y < yOut ==> turned270[Idx(xOut, y)] == Cell(patternMatrix, 2 - y, yIn)
      {
        IdxDistinct(xOut, yOut);
        turned270[xOut + yOut * 3] := patternMatrix[xIn + yIn * 3];
        yOut, xIn := yOut + 1, xIn - 1;
      }
      xOut, yIn := xOut + 1, yIn + 1;
    }
    r := turned270[..];
    SameCells(r, Turn270(patternMatrix));
    assert multiset(Turn270(patternMatrix)) == multiset(patternMatrix) by {
      TransformsArePermutations(patternMatrix);
    }
  }

  /** CreatePatternHorizontalFlip: columns 0 and 2 are named explicitly. */
  method CreatePatternHorizontalFlip(patternMatrix: Pattern) returns (r: Pattern)
    ensures r == HorizontalFlip(patternMatrix) && multiset(r) == multiset(patternMatrix)
  {
    var horizontalFlip := new byte[9];
    var y := 0;
    while y < 3
      invariant 0 <= y <= 3
      invariant forall i, j :: 0 <= i < 3 && 0 <= j < y ==> horizontalFlip[Idx(i, j)] == Cell(patternMatrix, 2 - i, j)
    {
      var x := 0;
      while x < 3
        invariant 0 <= x <= 3
        invariant forall i, j :: 0 <= i < 3 && 0 <= j < y ==> horizontalFlip[Idx(i, j)] == Cell(patternMatrix, 2 - i, j)
        invariant forall i :: 0 <= i < x ==> horizontalFlip[Idx(i, y)] == Cell(patternMatrix, 2 - i, y)
      {
        IdxDistinct(x, y);
        if x == 0 {
          horizontalFlip[x + y * 3] := patternMatrix[2 + y * 3];
        } else if x == 2 {
          horizontalFlip[x + y * 3] := patternMatrix[0 + y * 3];
        } else {
          horizontalFlip[x + y * 3] := patternMatrix[x + y * 3];
        }
        x := x + 1;
      }
      y := y + 1;
    }
    r := horizontalFlip[..];
    SameCells(r, HorizontalFlip(patternMatrix));
    assert multiset(HorizontalFlip(patternMatrix)) == multiset(patternMatrix) by {
      TransformsArePermutations(patternMatrix);
    }
  }

  /** CreatePatternVerticalFlip: rows 0 and 2 are named explicitly. */
  method CreatePatternVerticalFlip(patternMatrix: Pattern) returns (r: Pattern)
    ensures r == VerticalFlip(patternMatrix) && multiset(r) == multiset(patternMatrix)
  {
    var verticalFlip := new byte[9];
    var x := 0;
    while x < 3
      invariant 0 <= x <= 3
      invariant forall i, j :: 0 <= i < x && 0 <= j < 3 ==> verticalFlip[Idx(i, j)] == Cell(patternMatrix, i, 2 - j)
    {
      var y := 0;
      while y < 3
        invariant 0 <= y <= 3
        invariant forall i, j :: 0 <= i < x && 0 <= j < 3 ==> verticalFlip[Idx(i, j)] == Cell(patternMatrix, i, 2 - j)
        invariant forall j :: 0 <= j < y ==> verticalFlip[Idx(x, j)] == Cell(patternMatrix, x, 2 - j)
      {
        IdxDistinct(x, y);
        if y == 0 {
          verticalFlip[x + y * 3] := patternMatrix[x + 2 * 3];
        } else if y == 2 {
          verticalFlip[x + y * 3] := patternMatrix[x + 0 * 3];
        } else {
          verticalFlip[x + y * 3] := patternMatrix[x + y * 3];
        }
        y := y + 1;
      }
      x := x + 1;
    }
    r := verticalFlip[..];
    SameCells(r, VerticalFlip(patternMatrix));
    assert multiset(VerticalFlip(patternMatrix)) == multiset(patternMatrix) by {
      TransformsArePermutations(patternMatrix);
    }
  }

  // --------------------------------------------------------------- overlap

  /** The compared window shrinks by one column or row on the side the offset
      points away from. */
  function XStart(dx: int): int { if dx <= 0 then 0 else 1 }
  function XMaxExc(dx: int): int { if dx >= 0 then 3 else 2 }
  function YStart(dy: int): int { if dy >= 0 then 0 else 1 }
  function YMaxExc(dy: int): int { if dy > 0 then 2 else 3 }

  ghost predicate UnitOffset(dx: int, dy: int) {
    -1 <= dx <= 1 && -1 <= dy <= 1
  }

  ghost predicate InWindow(dx: int, dy: int, x: int, y: int) {
    XStart(dx) <= x < XMaxExc(dx) && YStart(dy) <= y < YMaxExc(dy)
  }

  /** p1 and p2 agree on the overlap: p1(x, y) == p2(x - dx, y + dy) over the
      shrunk window. */
  ghost predicate Overlaps(p1: Pattern, p2: Pattern, dx: int, dy: int)
    requires UnitOffset(dx, dy)
  {
    forall x, y :: InWindow(dx, dy, x, y) ==> Cell(p1, x, y) == Cell(p2, x - dx, y + dy)
  }

  /** OverlapsInDirection: nested scan with early exit on the first mismatch;
      every index it reads stays inside the nine cells. */
  method OverlapsInDirection(p1: Pattern, p2: Pattern, dx: int, dy: int) returns (overlaps: bool)
    requires UnitOffset(dx, dy)
    ensures overlaps == Overlaps(p1, p2, dx, dy)
  {
    var xStart := if dx <= 0 then 0 else 1;
    var xMaxExc := if dx >= 0 then 3 else 3 - 1;
    var yStart := if dy >= 0 then 0 else 1;
    var yMaxExc := if dy > 0 then 3 - 1 else 3;
    var x := xStart;
    while x < xMaxExc
      invariant xStart <= x <= xMaxExc
      invariant forall i, j :: xStart <= i < x && yStart <= j < yMaxExc ==> Cell(p1, i, j) == Cell(p2, i - dx, j + dy)
    {
      var y := yStart;
      while y < yMaxExc
        invariant yStart <= y <= yMaxExc
        invariant forall i, j :: xStart <= i < x && yStart <= j < yMaxExc ==> Cell(p1, i, j) == Cell(p2, i - dx, j + dy)
        invariant forall j :: yStart <= j < y ==> Cell(p1, x, j) == Cell(p2, x - dx, j + dy)
      {
        if p1[x + 3 * y] != p2[x - dx + 3 * (y + dy)] {
          assert !(Cell(p1, x, y) == Cell(p2, x - dx, y + dy));
          return false;
        }
        y := y + 1;
      }
      x := x + 1;
    }
    return true;
  }

  /** Looking from p2 back towards p1 is the same test. */
  lemma OverlapsSymmetric(p1: Pattern, p2: Pattern, dx: int, dy: int)
    requires UnitOffset(dx, dy)
    ensures Overlaps(p1, p2, dx, dy) <==> Overlaps(p2, p1, -dx, -dy)
  {
    if Overlaps(p1, p2, dx, dy) {
      forall x, y | InWindow(-dx, -dy, x, y)
        ensures Cell(p2, x, y) == Cell(p1, x + dx, y - dy)
      {
        assert InWindow(dx, dy, x + dx, y - dy);
        assert Cell(p1, x + dx, y - dy) == Cell(p2, x + dx - dx, y - dy + dy);
      }
    }
    if Overlaps(p2, p1, -dx, -dy) {
      forall x, y | InWindow(dx, dy, x, y)
        ensures Cell(p1, x, y) == Cell(p2, x - dx, y + dy)
      {
        assert InWindow(-dx, -dy, x - dx, y + dy);
        assert Cell(p2, x - dx, y + dy) == Cell(p1, x - dx + dx, y + dy - dy);
      }
    }
  }

  /** Without an offset the test is plain equality. */
  lemma OverlapsWithoutOffset(p1: Pattern, p2: Pattern)
    ensures Overlaps(p1, p2, 0, 0) <==> p1 == p2
  {
    if Overlaps(p1, p2, 0, 0) {
      forall x, y | InSquare(x, y) ensures Cell(p1, x, y) == Cell(p2, x, y) {
        assert InWindow(0, 0, x, y);
      }
      SameCells(p1, p2);
    }
  }

  /** The pattern of one byte repeated nine times. */
  function Uniform(b: byte): (p: Pattern)
    ensures forall x, y :: InSquare(x, y) ==> Cell(p, x, y) == b
  {
    [b, b, b, b, b, b, b, b, b]
  }

  /** A single-byte pattern overlaps itself in every direction. */
  lemma UniformOverlapsItself(b: byte, dx: int, dy: int)
    requires UnitOffset(dx, dy)
    ensures Overlaps(Uniform(b), Uniform(b), dx, dy)
  {
    forall x, y | InWindow(dx, dy, x, y) ensures Cell(Uniform(b), x, y) == Cell(Uniform(b), x - dx, y + dy) {
      assert InSquare(x, y) && InSquare(x - dx, y + dy);
    }
  }

  /** A uniform pattern is left as it is by every transform. */
  lemma UniformIsSymmetric(b: byte)
    ensures Turn90(Uniform(b)) == Uniform(b) && Turn180(Uniform(b)) == Uniform(b)
    ensures Turn270(Uniform(b)) == Uniform(b)
    ensures HorizontalFlip(Uniform(b)) == Uniform(b) && VerticalFlip(Uniform(b)) == Uniform(b)
  {
    var u := Uniform(b);
    SameCells(Turn90(u), u);
    SameCells(Turn180(u), u);
    SameCells(Turn270(u), u);
    SameCells(HorizontalFlip(u), u);
    SameCells(VerticalFlip(u), u);
  }

  // --------------------------------------------------------- permutations

  /** s with slots i and j exchanged. */
  function Swapped(s: Pattern, i: int, j: int): Pattern
    requires 0 <= i < 9 && 0 <= j < 9
  {
    s[i := s[j]][j := s[i]]
  }

  lemma SwapPermutes(s: Pattern, i: int, j: int)
    requires 0 <= i < 9 && 0 <= j < 9
    ensures multiset(Swapped(s, i, j)) == multiset(s)
  {
  }

  lemma SameEntries(a: Pattern, b: Pattern)
    requires a[0] == b[0] && a[1] == b[1] && a[2] == b[2]
    requires a[3] == b[3] && a[4] == b[4] && a[5] == b[5]
    requires a[6] == b[6] && a[7] == b[7] && a[8] == b[8]
    ensures a == b
  {
    forall i | 0 <= i < 9 ensures a[i] == b[i] {
      assert i == 0 || i == 1 || i == 2 || i == 3 || i == 4 || i == 5 || i == 6 || i == 7 || i == 8;
    }
  }

  /** Mirror across the main diagonal: out(x, y) = in(y, x). */
  function Transpose(p: Pattern): (r: Pattern)
    ensures forall x, y {:trigger Cell(r, x, y)} :: InSquare(x, y) ==> Cell(r, x, y) == Cell(p, y, x)
  {
    var r := [p[0], p[3], p[6], p[1], p[4], p[7], p[2], p[5], p[8]];
    assert forall x, y :: InSquare(x, y) ==> Cell(r, x, y) == Cell(p, y, x) by {
      forall x, y | InSquare(x, y) ensures Cell(r, x, y) == Cell(p, y, x) {
        CellCases(x, y);
      }
    }
    r
  }

  lemma HorizontalFlipIsSwaps(p: Pattern)
    ensures HorizontalFlip(p) == Swapped(Swapped(Swapped(p, 0, 2), 3, 5), 6, 8)
  {
    SameEntries(HorizontalFlip(p), Swapped(Swapped(Swapped(p, 0, 2), 3, 5), 6, 8));
  }

  lemma VerticalFlipIsSwaps(p: Pattern)
    ensures VerticalFlip(p) == Swapped(Swapped(Swapped(p, 0, 6), 1, 7), 2, 8)
  {
    SameEntries(VerticalFlip(p), Swapped(Swapped(Swapped(p, 0, 6), 1, 7), 2, 8));
  }

  lemma TransposeIsSwaps(p: Pattern)
    ensures Transpose(p) == Swapped(Swapped(Swapped(p, 1, 3), 2, 6), 5, 7)
  {
    SameEntries(Transpose(p), Swapped(Swapped(Swapped(p, 1, 3), 2, 6), 5, 7));
  }

  lemma ThreeSwapsPermute(p: Pattern, i1: int, j1: int, i2: int, j2: int, i3: int, j3: int)
    requires 0 <= i1 < 9 && 0 <= j1 < 9 && 0 <= i2 < 9 && 0 <= j2 < 9 && 0 <= i3 < 9 && 0 <= j3 < 9
    ensures multiset(Swapped(Swapped(Swapped(p, i1, j1), i2, j2), i3, j3)) == multiset(p)
  {
    SwapPermutes(p, i1, j1);
    SwapPermutes(Swapped(p, i1, j1), i2, j2);
    SwapPermutes(Swapped(Swapped(p, i1, j1), i2, j2), i3, j3);
  }

  /** The rotations are products of a flip and the transpose. */
  lemma RotationsAsFlips(p: Pattern)
    ensures Turn90(p) == HorizontalFlip(Transpose(p))
    ensures Turn270(p) == VerticalFlip(Transpose(p))
  {
    SameCells(Turn90(p), HorizontalFlip(Transpose(p)));
    SameCells(Turn270(p), VerticalFlip(Transpose(p)));
  }

  /** Every rotation and flip only rearranges the cells. */
  lemma TransformsArePermutations(p: Pattern)
    ensures multiset(Turn90(p)) == multiset(p)
    ensures multiset(Turn180(p)) == multiset(p)
    ensures multiset(Turn270(p)) == multiset(p)
    ensures multiset(HorizontalFlip(p)) == multiset(p)
    ensures multiset(VerticalFlip(p)) == multiset(p)
  {
    FlipsPermute(p);
    TransposeIsSwaps(p);
    ThreeSwapsPermute(p, 1, 3, 2, 6, 5, 7);
    FlipsPermute(Transpose(p));
    FlipsPermute(VerticalFlip(p));
    RotationsAsFlips(p);
    BothFlipsAreHalfTurn(p);
  }

  lemma FlipsPermute(p: Pattern)
    ensures multiset(HorizontalFlip(p)) == multiset(p)
    ensures multiset(VerticalFlip(p)) == multiset(p)
  {
    HorizontalFlipIsSwaps(p);
    ThreeSwapsPermute(p, 0, 2, 3, 5, 6, 8);
    VerticalFlipIsSwaps(p);
    ThreeSwapsPermute(p, 0, 6, 1, 7, 2, 8);
  }
}
