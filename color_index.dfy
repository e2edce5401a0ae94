/** Colour indexing of Wfc.PrepareColors and Wfc.TryAddNewColorToDicts: every
    colour of the exemplar gets a byte index, in the order the colours first
    appear, after the two reserved colours. */
module ColorIndex {
  import opened Sequences
  import opened WfcHelper
  import opened Wave

  /** maskColor, Color32(1, 2, 3, 255): marks cells left without a pattern. */
  const MaskColor: Color := Color(1, 2, 3, 255)

  /** uninitializedColor, Color.clear. */
  const UninitializedColor: Color := Color(0, 0, 0, 0)

  /** The entries of an [x][y] matrix, x outer and y inner. */
  function Flatten<T>(m: seq<seq<T>>): seq<T> {
    if m == [] then [] else Flatten(m[..|m| - 1]) + m[|m| - 1]
  }

  lemma FlattenAppend<T>(m: seq<seq<T>>, column: seq<T>)
    ensures Flatten(m + [column]) == Flatten(m) + column
  {
    assert (m + [column])[..|m|] == m;
  }

  lemma {:induction false} InFlatten<T>(m: seq<seq<T>>, x: int, y: int)
    requires 0 <= x < |m| && 0 <= y < |m[x]|
    ensures m[x][y] in Flatten(m)
    decreases |m|
  {
    var init := m[..|m| - 1];
    if x < |m| - 1 {
      assert init[x] == m[x];
      InFlatten(init, x, y);
    }
  }

  /** The colours that receive an index: the two reserved colours, then each
      exemplar colour at its first appearance in scan order. Position k holds
      the colour of index k. */
  function Palette(m: seq<seq<Color>>): (palette: seq<Color>)
    ensures forall x, y :: 0 <= x < |m| && 0 <= y < |m[x]| ==> m[x][y] in palette
  {
    var palette := Firsts([MaskColor, UninitializedColor] + Flatten(m));
    assert forall x, y :: 0 <= x < |m| && 0 <= y < |m[x]| ==> m[x][y] in palette by {
      forall x, y | 0 <= x < |m| && 0 <= y < |m[x]| ensures m[x][y] in palette {
        InFlatten(m, x, y);
      }
    }
    palette
  }

  /** The mask colour gets index 0 and the uninitialized colour index 1. */
  lemma ReservedIndices(m: seq<seq<Color>>)
    ensures |Palette(m)| >= 2
    ensures Palette(m)[0] == MaskColor && Palette(m)[1] == UninitializedColor
  {
    var start := [MaskColor, UninitializedColor];
    FirstsPrefix(start, Flatten(m));
    assert start == [] + [MaskColor] + [UninitializedColor];
    FirstsAppendOne([], MaskColor);
    FirstsAppendOne([MaskColor], UninitializedColor);
    assert [] + [MaskColor] == [MaskColor];
  }

  /** The two dictionaries hold exactly the indexing of the colours in seen:
      colour seen[k] has index k, and no byte or colour is left over. */
  ghost predicate IndexedBy(seen: seq<Color>, colorsOfHashes: map<byte, Color>, hashesOfColors: map<Color, byte>) {
    && |seen| <= 256
    && NoDuplicates(seen)
    && |hashesOfColors| == |seen|
    && (forall c :: c in hashesOfColors <==> c in seen)
    && (forall c :: c in seen ==> hashesOfColors[c] as int == IndexOf(seen, c))
    && (forall k: byte :: k in colorsOfHashes <==> k as int < |seen|)
    && (forall k: byte :: k in colorsOfHashes ==> colorsOfHashes[k] == seen[k])
  }

  /** The dictionaries stay mutual inverses. */
  lemma DictsAreInverse(seen: seq<Color>, colorsOfHashes: map<byte, Color>, hashesOfColors: map<Color, byte>)
    requires IndexedBy(seen, colorsOfHashes, hashesOfColors)
    ensures forall c :: c in hashesOfColors ==> hashesOfColors[c] in colorsOfHashes && colorsOfHashes[hashesOfColors[c]] == c
    ensures forall k :: k in colorsOfHashes ==> colorsOfHashes[k] in hashesOfColors && hashesOfColors[colorsOfHashes[k]] == k
  {
    forall k | k in colorsOfHashes
      ensures colorsOfHashes[k] in hashesOfColors && hashesOfColors[colorsOfHashes[k]] == k
    {
      IndexOfDistinct(seen, k as int);
    }
  }

  /** The dictionaries PrepareColors builds for the colours seen, one
      colour at a time in order: colour seen[k] under byte k. */
  ghost function ColorsOf(seen: seq<Color>): map<byte, Color>
    requires |seen| <= 256
    decreases |seen|
  {
    if seen == [] then map[] else ColorsOf(seen[..|seen| - 1])[(|seen| - 1) as byte := seen[|seen| - 1]]
  }

  ghost function HashesOf(seen: seq<Color>): map<Color, byte>
    requires |seen| <= 256
    decreases |seen|
  {
    if seen == [] then map[] else HashesOf(seen[..|seen| - 1])[seen[|seen| - 1] := (|seen| - 1) as byte]
  }

  /** GetColorHash over dictionaries that index the colours seen: a known
      colour gets its own index, which names it back; an unseen colour gets
      the byte TryAddNewColorToDicts would store it under, and storing it
      there indexes one colour more, until 256 colours are indexed, after
      which it gets 0. */
  lemma ColorHashIndexes(seen: seq<Color>, colorsOfHashes: map<byte, Color>, hashesOfColors: map<Color, byte>, c: Color)
    requires IndexedBy(seen, colorsOfHashes, hashesOfColors)
    ensures c in seen ==>
      && GetColorHash(hashesOfColors, c) as int == IndexOf(seen, c)
      && GetColorHash(hashesOfColors, c) in colorsOfHashes
      && colorsOfHashes[GetColorHash(hashesOfColors, c)] == c
    ensures c !in seen && |seen| < 256 ==>
      var h := GetColorHash(hashesOfColors, c);
      && h == (|hashesOfColors| % 256) as byte
      && IndexedBy(seen + [c], colorsOfHashes[h := c], hashesOfColors[c := h])
    ensures c !in seen && |seen| == 256 ==> GetColorHash(hashesOfColors, c) == 0
  {
    if c in seen {
      var k := IndexOf(seen, c);
      assert c in hashesOfColors && hashesOfColors[c] as int == k;
      assert k as byte in colorsOfHashes;
    } else {
      NextIndexClashes(seen, colorsOfHashes, hashesOfColors, c);
      if |seen| < 256 {
        IndexOneMore(seen, colorsOfHashes, hashesOfColors, c);
      }
    }
  }

  /** Every index below the number of colours seen is a key of ColorsOf. */
  lemma {:induction false} ColorsOfKeys(seen: seq<Color>)
    requires |seen| <= 256
    ensures forall k: byte :: k as int < |seen| ==> k in ColorsOf(seen)
    decreases |seen|
  {
    if seen != [] {
      ColorsOfKeys(seen[..|seen| - 1]);
    }
  }

  /** Those dictionaries index seen when its colours are distinct. */
  lemma {:induction false} MapsIndex(seen: seq<Color>)
    requires |seen| <= 256 && NoDuplicates(seen)
    ensures IndexedBy(seen, ColorsOf(seen), HashesOf(seen))
    decreases |seen|
  {
    if seen == [] {
      NothingIndexed();
    } else {
      var s, c := seen[..|seen| - 1], seen[|seen| - 1];
      assert seen == s + [c];
      assert NoDuplicates(s) by {
        forall i, j | 0 <= i < j < |s| ensures s[i] != s[j] {
          assert s[i] == seen[i] && s[j] == seen[j];
        }
      }
      MapsIndex(s);
      IndexOneMore(s, ColorsOf(s), HashesOf(s), c);
    }
  }

  /** Two pairs of dictionaries that index the same colours are the same. */
  lemma IndexedByUnique(seen: seq<Color>, colorsOfHashes: map<byte, Color>, hashesOfColors: map<Color, byte>,
                        colorsOfHashes': map<byte, Color>, hashesOfColors': map<Color, byte>)
    requires IndexedBy(seen, colorsOfHashes, hashesOfColors) && IndexedBy(seen, colorsOfHashes', hashesOfColors')
    ensures colorsOfHashes == colorsOfHashes' && hashesOfColors == hashesOfColors'
  {
    SameColors(seen, colorsOfHashes, colorsOfHashes');
    SameHashes(seen, hashesOfColors, hashesOfColors');
  }

  lemma SameColors(seen: seq<Color>, colorsOfHashes: map<byte, Color>, colorsOfHashes': map<byte, Color>)
    requires forall k: byte :: k in colorsOfHashes <==> k as int < |seen|
    requires forall k: byte :: k in colorsOfHashes ==> colorsOfHashes[k] == seen[k]
    requires forall k: byte :: k in colorsOfHashes' <==> k as int < |seen|
    requires forall k: byte :: k in colorsOfHashes' ==> colorsOfHashes'[k] == seen[k]
    ensures colorsOfHashes == colorsOfHashes'
  {
    assert colorsOfHashes.Keys == colorsOfHashes'.Keys;
  }

  lemma SameHashes(seen: seq<Color>, hashesOfColors: map<Color, byte>, hashesOfColors': map<Color, byte>)
    requires forall c :: c in hashesOfColors <==> c in seen
    requires forall c :: c in seen ==> hashesOfColors[c] as int == IndexOf(seen, c)
    requires forall c :: c in hashesOfColors' <==> c in seen
    requires forall c :: c in seen ==> hashesOfColors'[c] as int == IndexOf(seen, c)
    ensures hashesOfColors == hashesOfColors'
  {
    assert hashesOfColors.Keys == hashesOfColors'.Keys;
  }

  /** So the dictionaries that index seen are the ones built in order. */
  lemma IndexedByIsMaps(seen: seq<Color>, colorsOfHashes: map<byte, Color>, hashesOfColors: map<Color, byte>)
    requires IndexedBy(seen, colorsOfHashes, hashesOfColors)
    ensures colorsOfHashes == ColorsOf(seen) && hashesOfColors == HashesOf(seen)
  {
    MapsIndex(seen);
    IndexedByUnique(seen, colorsOfHashes, hashesOfColors, ColorsOf(seen), HashesOf(seen));
  }

  /** Nothing indexed yet. */
  lemma NothingIndexed()
    ensures IndexedBy([], map[], map[])
  {
  }

  /** Indexing one more colour: it receives the next index. */
  lemma IndexOneMore(seen: seq<Color>, colorsOfHashes: map<byte, Color>, hashesOfColors: map<Color, byte>, c: Color)
    requires IndexedBy(seen, colorsOfHashes, hashesOfColors)
    requires c !in seen && |seen| < 256
    ensures IndexedBy(seen + [c], colorsOfHashes[|seen| as byte := c], hashesOfColors[c := |seen| as byte])
  {
    AppendKeepsDistinct(seen, c);
    HashesOneMore(seen, hashesOfColors, c);
    ColorsOneMore(seen, colorsOfHashes, c);
  }

  /** The next index, the count of indexed colours cut to a byte, is in use
      exactly when all 256 are taken; a new colour is never in use. */
  lemma NextIndexClashes(seen: seq<Color>, colorsOfHashes: map<byte, Color>, hashesOfColors: map<Color, byte>, c: Color)
    requires IndexedBy(seen, colorsOfHashes, hashesOfColors) && c !in seen
    ensures c !in hashesOfColors
    ensures ((|hashesOfColors| % 256) as byte in colorsOfHashes) <==> |seen| == 256
    ensures |seen| < 256 ==> (|hashesOfColors| % 256) as byte == |seen| as byte
  {
    if |seen| == 256 {
      assert (0 as byte) in colorsOfHashes;
    }
  }

  lemma AppendKeepsDistinct(seen: seq<Color>, c: Color)
    requires NoDuplicates(seen) && c !in seen
    ensures NoDuplicates(seen + [c])
  {
  }

  lemma HashesOneMore(seen: seq<Color>, hashesOfColors: map<Color, byte>, c: Color)
    requires |seen| < 256 && c !in seen
    requires |hashesOfColors| == |seen|
    requires forall x :: x in hashesOfColors <==> x in seen
    requires forall x :: x in seen ==> hashesOfColors[x] as int == IndexOf(seen, x)
    ensures var hs := hashesOfColors[c := |seen| as byte];
      && |hs| == |seen| + 1
      && (forall x :: x in hs <==> x in seen + [c])
      && (forall x :: x in seen + [c] ==> hs[x] as int == IndexOf(seen + [c], x))
  {
    var seen' := seen + [c];
    var hs := hashesOfColors[c := |seen| as byte];
    assert c !in hashesOfColors;
    assert hs.Keys == hashesOfColors.Keys + {c};
    forall x | x in seen' ensures hs[x] as int == IndexOf(seen', x) {
      if x == c {
        assert seen'[..|seen|] == seen;
        IndexOfUnique(seen', c, |seen|);
      } else {
        IndexOfPrefix(seen, seen', x);
      }
    }
  }

  lemma ColorsOneMore(seen: seq<Color>, colorsOfHashes: map<byte, Color>, c: Color)
    requires |seen| < 256
    requires forall k: byte :: k in colorsOfHashes <==> k as int < |seen|
    requires forall k: byte :: k in colorsOfHashes ==> colorsOfHashes[k] == seen[k]
    ensures var cs := colorsOfHashes[|seen| as byte := c];
      && (forall k: byte :: k in cs <==> k as int < |seen| + 1)
      && (forall k: byte :: k in cs ==> cs[k] == (seen + [c])[k])
  {
  }

  /** The byte grid of colour indices: entry [x][y] is the index of m[x][y]. */
  function IndexGrid(m: seq<seq<Color>>, palette: seq<Color>): (g: Grid)
    requires |palette| <= 256
    requires forall x, y :: 0 <= x < |m| && 0 <= y < |m[x]| ==> m[x][y] in palette
    ensures |g| == |m| && forall x :: 0 <= x < |m| ==> |g[x]| == |m[x]|
  {
    seq(|m|, x requires 0 <= x < |m| =>
      seq(|m[x]|, y requires 0 <= y < |m[x]| => IndexOf(palette, m[x][y]) as byte))
  }

  /** Entry [x][y] of the grid is the palette position of m[x][y]. */
  lemma IndexGridEntries(m: seq<seq<Color>>, palette: seq<Color>)
    requires |palette| <= 256
    requires forall x, y :: 0 <= x < |m| && 0 <= y < |m[x]| ==> m[x][y] in palette
    ensures forall x, y :: 0 <= x < |m| && 0 <= y < |m[x]| ==> IndexGrid(m, palette)[x][y] as int == IndexOf(palette, m[x][y])
  {
  }

  /** Every index in the grid names a colour of the palette. */
  lemma IndexGridBelowPalette(m: seq<seq<Color>>, palette: seq<Color>)
    requires |palette| <= 256
    requires forall x, y :: 0 <= x < |m| && 0 <= y < |m[x]| ==> m[x][y] in palette
    ensures forall x, y :: 0 <= x < |m| && 0 <= y < |m[x]| ==> IndexGrid(m, palette)[x][y] as int < |palette|
  {
  }

  /** Decoding an index through colorsOfHashes gives back the exemplar colour. */
  lemma IndexGridDecodes(m: seq<seq<Color>>, colorsOfHashes: map<byte, Color>, hashesOfColors: map<Color, byte>)
    requires IndexedBy(Palette(m), colorsOfHashes, hashesOfColors)
    ensures forall x, y :: 0 <= x < |m| && 0 <= y < |m[x]| ==>
      IndexGrid(m, Palette(m))[x][y] in colorsOfHashes && colorsOfHashes[IndexGrid(m, Palette(m))[x][y]] == m[x][y]
  {
  }

  lemma IndexGridShape(m: seq<seq<Color>>, palette: seq<Color>)
    requires |palette| <= 256
    requires forall x, y :: 0 <= x < |m| && 0 <= y < |m[x]| ==> m[x][y] in palette
    requires IsMatrix(m)
    ensures IsMatrix(IndexGrid(m, palette))
    ensures Width(IndexGrid(m, palette)) == Width(m) && Height(IndexGrid(m, palette)) == Height(m)
  {
  }

  // ----------------------------------------------------------- colour output

  /** A pixel of the colour map: a single colour, or the blend of several
      (WfcHelper.MeanColor, a floating-point average left abstract). */
  datatype Pixel = Solid(color: Color) | MeanOf(colors: seq<Color>)

  /** The colour of element 0 of every possible pattern, in pattern order: the
      list GetCellColor builds. */
  function PossibleColors(row: seq<bool>, patterns: seq<Pattern>, colorsOfHashes: map<byte, Color>): seq<Color>
    requires |row| <= |patterns|
    requires forall t :: 0 <= t < |patterns| ==> patterns[t][0] in colorsOfHashes
  {
    if row == [] then []
    else
      var n := |row| - 1;
      PossibleColors(row[..n], patterns, colorsOfHashes) + (if row[n] then [colorsOfHashes[patterns[n][0]]] else [])
  }

  /** One colour per possible pattern, the k-th being that of the k-th
      possible pattern. */
  lemma {:induction false} PossibleColorsOfIndices(row: seq<bool>, patterns: seq<Pattern>, colorsOfHashes: map<byte, Color>)
    requires |row| <= |patterns|
    requires forall t :: 0 <= t < |patterns| ==> patterns[t][0] in colorsOfHashes
    ensures |PossibleColors(row, patterns, colorsOfHashes)| == CountTrue(row)
    ensures forall k :: 0 <= k < CountTrue(row) ==>
      PossibleColors(row, patterns, colorsOfHashes)[k] == colorsOfHashes[patterns[TrueIndices(row)[k]][0]]
    decreases |row|
  {
    if row != [] {
      var n := |row| - 1;
      PossibleColorsOfIndices(row[..n], patterns, colorsOfHashes);
      var before := TrueIndices(row[..n]);
      if row[n] {
        assert TrueIndices(row) == before + [n];
      } else {
        assert TrueIndices(row) == before;
      }
    }
  }

  /** GetCellColor: the single colour when exactly one is listed, else the blend. */
  function CellColor(colors: seq<Color>): Pixel {
    if |colors| == 1 then Solid(colors[0]) else MeanOf(colors)
  }

  /** The pixel CreateColorMap emits for a cell. */
  function PixelOf(row: seq<bool>, patterns: seq<Pattern>, colorsOfHashes: map<byte, Color>): Pixel
    requires |row| <= |patterns|
    requires forall t :: 0 <= t < |patterns| ==> patterns[t][0] in colorsOfHashes
  {
    if CountTrue(row) == 0 then Solid(MaskColor)
    else CellColor(PossibleColors(row, patterns, colorsOfHashes))
  }

  /** A cell without patterns shows the mask colour, a decided cell the colour
      of element 0 of its one pattern, and any other cell a blend of one colour
      per possible pattern. */
  lemma PixelCases(row: seq<bool>, patterns: seq<Pattern>, colorsOfHashes: map<byte, Color>)
    requires |row| <= |patterns|
    requires forall t :: 0 <= t < |patterns| ==> patterns[t][0] in colorsOfHashes
    ensures CountTrue(row) == 0 ==> PixelOf(row, patterns, colorsOfHashes) == Solid(MaskColor)
    ensures CountTrue(row) == 1 ==>
      PixelOf(row, patterns, colorsOfHashes) == Solid(colorsOfHashes[patterns[TrueIndices(row)[0]][0]])
    ensures CountTrue(row) >= 2 ==>
      PixelOf(row, patterns, colorsOfHashes).MeanOf? &&
      |PixelOf(row, patterns, colorsOfHashes).colors| == CountTrue(row)
  {
    PossibleColorsOfIndices(row, patterns, colorsOfHashes);
  }
}
