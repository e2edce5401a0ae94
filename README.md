# Wave Function Collapse solver, modelled in Dafny

This project models the solver engine of a Unity Wave Function Collapse
level generator (the overlapping model with 3x3 patterns). It covers the
engine in `Assets/Scripts/Wfc.cs`, the pattern helpers in
`Assets/Scripts/WfcHelper.cs` and the entropy queue in
`Assets/Scripts/MinHeap.cs`. The model is written in the source's own form.
`Wfc` and `MinHeap<T>` are Dafny classes whose fields the methods update, and
every C# loop is a Dafny `while` loop. Each method is proved against a pure
specification function, and the properties of those functions are proved as
lemmas.

- **Pattern catalogue.**
  - `PrepareColors` gives every exemplar colour a byte index. The mask colour
    gets 0, the uninitialized colour gets 1, and each further colour gets the
    next index in x-then-y scan order (`ColorIndex.Palette`).
  - `InitializePatterns` takes the 3x3 window centred on every
    (x, y) with x = 1 .. W - limitInputX and y = 1 .. H - limitInputY. Windows
    wrap once past the high edge only. With reflections each window also adds
    its five turns and flips (`Sampling.Samples`).
  - `DistinctAndCountPatterns` keeps the first copy of every pattern, in
    first-occurrence order. Each pattern is weighted by its number of copies
    (`Sequences.Firsts`, `Sequences.Counts`).
- **Adjacency table.** `InitializeAdjacencies` builds `propagators[d][t1]`,
  the ascending list of the patterns t2 that overlap t1 when shifted one cell
  in direction d (`Adjacency.Propagators`).
- **Wave state.** The state is one value, `Wave.Tables`. It holds the
  possibility rows, the support counters, the possible-pattern counts and the
  integer weight sums. The solver invariant is `Wave.Consistent`:
  - every count is the number of possible patterns;
  - the weight sum of an undecided cell is its possible weight plus an offset;
  - a possible pattern with any compatible pattern has a positive counter.
- **Engine.**
  - Collapse (`Collapsing.CollapseAt`, `Collapsing.StripBased`).
  - Propagation of one removal event (`Propagation.SpreadFrom`).
  - The stack-driven propagation loop (`Draining.Drain`), proved to terminate.
  - `PickNextCell` (`WaveFunctionCollapse.Picked`), `Execute` and the colour
    map (`Collapsing.ColorMap`).
- **MinHeap.** A binary min-heap over a sequence that keeps stale duplicate
  entries. Its invariant is `MinHeaps.IsHeap`. Index arithmetic follows C#
  truncating division, so the root is its own parent.

Some inputs are parameters of the model:
- The exemplar is a matrix of colours in the argument record
  `WfcArgs`, indexed [x][y] as the texture handler returns it.
- `System.Random` is replaced by two caller-supplied streams in the same
  record: raw integer draws for `Next`, and fractions for `NextDouble`
  (`Randomness.Prng`).
- The entropy of a cell is an abstract function of its weight sum, a constant
  field of `Wfc`.

Several quirks of the source are reproduced as written:
- `Next` has an exclusive upper bound. So the first cell is drawn from
  [0, n - 2] and the pattern walk from [0, sum - 2] (`Randomness.TopNeverDrawn`).
- `CollapseCellByPattern` leaves the weight sums alone.
- The last cell `PickNextCell` returns is never collapsed. `Decided(last)`
  exempts that cell.
- `sumOfPossibleWeightsAtStart` is never reset. The ghost field `weightOffset`
  carries what a previous run left in it. The run is only proved free of
  `NoPropagateablePatterns` when that offset is zero.
- The 257th colour makes the byte index wrap onto index 0, which is in use,
  so `TryAddNewColorToDicts` throws.

## Model

| member | source | states |
|---|---|---|
| WaveFunctionCollapse.Wfc.constructor | Assets/Scripts/Wfc.cs:24-55 | The field initializers: sumOfPossibleWeightsAtStart starts at 0, and the generator and heap are fresh placeholders that Initialize replaces. |
| WaveFunctionCollapse.Wfc.Run | Assets/Scripts/Wfc.cs:57-69 | An initialization error is returned as is. Otherwise the patterns are the distinct raw samples and the weights are their counts. The only possible failure is NoPropagateablePatterns, and on a fresh object (sumOfPossibleWeightsAtStart 0) with at least one sample the run cannot fail. On success the invariant holds, the map is ColorMap of the final state, a contradiction names a cell with no pattern left, and without one the heap is empty and every cell but the last is decided. |
| WaveFunctionCollapse.Wfc.Initialize | Assets/Scripts/Wfc.cs:72-109 | Succeeds exactly when InitializeError(args) is None; otherwise returns that error, in the source's order (exemplar too small, output too small, 257th colour, window out of range). On success the dictionaries, patterns, weights, adjacency table, initial state and start heap are the ones computed from args, and the solver invariant holds. |
| WaveFunctionCollapse.Wfc.ApplySettings | Assets/Scripts/Wfc.cs:80-96 | Copies sizes, limits and reflections from args, creates the generator at the start of its streams, and records the exemplar's width and height. |
| WaveFunctionCollapse.Wfc.SampleArguments | Assets/Scripts/Wfc.cs:95-98 | InitializePatterns on accepted sizes fails exactly when InitializeError does, with that error; on success the pattern list is RawSamples(args) and the dictionaries index the palette. |
| WaveFunctionCollapse.RawSampleCount | Assets/Scripts/Wfc.cs:118-133 | The raw sample list has Positive(W - limitInputX) * Positive(H - limitInputY) entries, times 6 with reflections, and the deduplicated weights add up to that number. |
| WaveFunctionCollapse.AcceptedSamples | Assets/Scripts/Wfc.cs:98-100 | For accepted arguments every distinct raw sample has a positive count and its first byte names an indexed colour. |
| WaveFunctionCollapse.Wfc.InitializePatterns | Assets/Scripts/Wfc.cs:112-135 | Returns the 257th colour's error, or IndexOutOfRange when a window reaches past one wrap, and otherwise leaves patterns == RawSamplesOf(exemplar, W - limitInputX, H - limitInputY, reflections); the dictionaries index the palette whenever it has at most 256 colours. |
| WaveFunctionCollapse.Wfc.SamplePatterns | Assets/Scripts/Wfc.cs:116-134 | IndexOutOfRange exactly when some window does not fit; otherwise the samples of the index grid in row order. |
| WaveFunctionCollapse.Wfc.AddSamples | Assets/Scripts/Wfc.cs:118-134 | The two sampling loops append Samples(g, xCount, yCount, reflections) to patterns. |
| WaveFunctionCollapse.Wfc.AddRow | Assets/Scripts/Wfc.cs:120-133 | The inner loop appends the samples of row y, x = 1 .. xCount. |
| WaveFunctionCollapse.Wfc.AddWindow | Assets/Scripts/Wfc.cs:122-132 | One window appends its original pattern, then with reflections its 90, 180 and 270 degree turns and its horizontal and vertical flips. |
| Sampling.Variants | Assets/Scripts/Wfc.cs:122-132 | One window contributes 6 patterns with reflections and 1 without, the original first. |
| Sampling.SamplesLength | Assets/Scripts/Wfc.cs:118-133 | The sample count is Positive(xCount) * Positive(yCount) * Multiplicity(reflections). |
| Sampling.SamplesBelow | Assets/Scripts/Wfc.cs:118-133 | Every sampled byte is bounded by the bound on the grid's colour indices. |
| Sampling.UniformExemplarOnePattern | Assets/Scripts/Wfc.cs:118-199 | A single-colour exemplar with at least one window yields exactly one distinct pattern, whose weight is the whole sample count. |
| WaveFunctionCollapse.Wfc.PrepareColors | Assets/Scripts/Wfc.cs:137-159 | With at most 256 palette colours, returns the index grid of the exemplar and leaves the dictionaries ColorsOf(Palette) and HashesOf(Palette); otherwise fails with ColorAlreadyPresent(Palette[256]). |
| WaveFunctionCollapse.Wfc.IndexReservedColors | Assets/Scripts/Wfc.cs:139-143 | Fresh dictionaries hold the mask colour at 0 and the uninitialized colour at 1, the start of the scan. |
| WaveFunctionCollapse.Wfc.IndexColumns | Assets/Scripts/Wfc.cs:147-156 | The outer loop over x yields the index grid and the palette dictionaries, or the 257th colour's error. |
| WaveFunctionCollapse.Wfc.IndexColumn | Assets/Scripts/Wfc.cs:149-155 | The inner loop over y indexes every new colour of column x and fills the column with palette indices, or fails only when the palette exceeds 256 colours. |
| WaveFunctionCollapse.Wfc.TryAddNewColorToDicts | Assets/Scripts/Wfc.cs:161-171 | The new index is the dictionary size cut to a byte; when that byte or the colour is already present it fails and changes nothing, else both dictionaries gain the pair. |
| WaveFunctionCollapse.Wfc.IndexNewColor | Assets/Scripts/Wfc.cs:151-152 | Indexing an unseen colour fails exactly when 256 colours are indexed, and otherwise the dictionaries index one colour more. |
| ColorIndex.Palette | Assets/Scripts/Wfc.cs:137-158 | Every exemplar colour is in the palette, the list of colours in the order they receive an index. |
| ColorIndex.ReservedIndices | Assets/Scripts/Wfc.cs:142-143 | The mask colour is palette entry 0 and the uninitialized colour entry 1. |
| Setup.ScannedFirsts | Assets/Scripts/Wfc.cs:147-152 | Every colour first met during the x-then-y scan is the palette entry at the position it is met. |
| Setup.ScanDone | Assets/Scripts/Wfc.cs:147-156 | At the end of the scan the whole palette is indexed, at most 256 colours, by the dictionaries built in palette order. |
| ColorIndex.MapsIndex | Assets/Scripts/Wfc.cs:139-156 | The dictionaries built in palette order index a palette of distinct colours. |
| ColorIndex.IndexedByIsMaps | Assets/Scripts/Wfc.cs:139-156 | Dictionaries that index the colours seen are exactly the ones built in order. |
| ColorIndex.DictsAreInverse | Assets/Scripts/Wfc.cs:161-171 | Dictionaries that index the colours seen are mutual inverses. |
| ColorIndex.NextIndexClashes | Assets/Scripts/Wfc.cs:163-165 | The next index (the count cut to a byte) is already in use exactly when 256 colours are indexed. |
| ColorIndex.IndexOneMore | Assets/Scripts/Wfc.cs:169-170 | Storing a new colour under the next index indexes one colour more. |
| ColorIndex.IndexedByUnique | Assets/Scripts/Wfc.cs:139-156 | Two pairs of dictionaries that index the same colours are equal. |
| ColorIndex.IndexGridEntries | Assets/Scripts/Wfc.cs:154 | Entry [x][y] of the index grid is the palette position of the exemplar colour at [x][y]. |
| ColorIndex.IndexGridDecodes | Assets/Scripts/Wfc.cs:154 | Looking an index up in colorsOfHashes gives back the exemplar colour. |
| WfcHelper.GetColorHash | Assets/Scripts/WfcHelper.cs:8-24 | The stored byte of a known colour, the dictionary size for a new colour while it has at most 255 entries, else 0. |
| ColorIndex.ColorHashIndexes | Assets/Scripts/WfcHelper.cs:8-24 | Over dictionaries that index the colours seen: a known colour gets its palette index, which names it back; an unseen colour gets the byte TryAddNewColorToDicts stores it under, and storing it there indexes one colour more; after 256 colours it gets 0. |
| WaveFunctionCollapse.Wfc.DistinctAndCountPatterns | Assets/Scripts/Wfc.cs:173-199 | Leaves patterns == Firsts(old patterns) and patternWeights == Counts(old patterns, patterns). |
| WaveFunctionCollapse.Wfc.RemoveCopies | Assets/Scripts/Wfc.cs:184-195 | One round removes every later copy of patterns[i], keeps the rest in order, and returns the number of copies removed. |
| Sequences.Firsts | Assets/Scripts/Wfc.cs:173-199 | The deduplicated list has no duplicates and holds exactly the values of the list. |
| Sequences.FirstsKeepOrder | Assets/Scripts/Wfc.cs:173-199 | Deduplication keeps first-occurrence order. |
| Sequences.FirstsCons | Assets/Scripts/Wfc.cs:182-198 | The first sample opens the deduplicated list, and the rest is the deduplication of what remains once its copies are gone. |
| Sequences.RemoveAll | Assets/Scripts/Wfc.cs:184-195 | Every copy of the value is gone, every other value keeps its count, and the length drops by the number of copies. |
| Sequences.Counts | Assets/Scripts/Wfc.cs:197 | Entry i is the number of occurrences of key i in the list. |
| Sequences.CountsOfFirstsSum | Assets/Scripts/Wfc.cs:173-199 | The counts of the distinct values add up to the number of samples. |
| Setup.DedupStep | Assets/Scripts/Wfc.cs:184-197 | One round: the first remaining pattern joins the kept list, its other copies go, and its weight is one more than their number. |
| Setup.DedupDone | Assets/Scripts/Wfc.cs:182-198 | When the dedup loop ends, the list holds the distinct samples and the weights their multiplicities. |
| WaveFunctionCollapse.Wfc.InitializeAdjacencies | Assets/Scripts/Wfc.cs:203-230 | Leaves propagators == Propagators(patterns). |
| WaveFunctionCollapse.Wfc.AdjacencyRow | Assets/Scripts/Wfc.cs:209-228 | The loop over t1 yields row d of Propagators(patterns). |
| WaveFunctionCollapse.Wfc.AdjacencyList | Assets/Scripts/Wfc.cs:213-227 | The loop over t2 yields the ascending list of patterns overlapping t1 in direction d. |
| Adjacency.MatchesLists | Assets/Scripts/Wfc.cs:218-222 | The list over the first n patterns is ascending, holds only indices below n, and holds exactly the ones that overlap. |
| Adjacency.PropagatorsListOverlaps | Assets/Scripts/Wfc.cs:203-230 | propagators[d][t1] holds exactly the t2 with OverlapsInDirection(p[t1], p[t2], directionX[d], directionY[d]), ascending and without duplicates. |
| Adjacency.PropagatorsSymmetric | Assets/Scripts/Wfc.cs:203-230 | t2 is listed for t1 in direction d exactly when t1 is listed for t2 in the opposite direction. |
| Adjacency.PropagatorsAreTable | Assets/Scripts/Wfc.cs:203-230 | The built table has four directions, one ascending in-range list per pattern, and is symmetric. |
| Adjacency.UniformPatternSelfCompatible | Assets/Scripts/Wfc.cs:218-222 | A single-byte pattern is compatible with itself in every direction. |
| Adjacency.OppositeIsInvolution | Assets/Scripts/Wfc.cs:20-22 | opposite is an involution without fixed points that negates the direction vector. |
| Adjacency.DirectionToInverts | Assets/Scripts/Wfc.cs:436-447 | The direction PropagateToCell recovers from a direction's own offset is that direction. |
| WaveFunctionCollapse.Wfc.InitializeMap | Assets/Scripts/Wfc.cs:232-255 | Every cell starts with every pattern possible, count = pattern count, and compatibles[i][t][d] = \|propagators[d][t]\|. |
| WaveFunctionCollapse.Wfc.FreshCell | Assets/Scripts/Wfc.cs:240-253 | The loop over t gives one cell its full row and its support counters, and sets its count. |
| WaveFunctionCollapse.Wfc.InitializeWeights | Assets/Scripts/Wfc.cs:257-277 | Adds the total weight to sumOfPossibleWeightsAtStart, sets every cell's weight sum to it, and fills a fresh heap with exactly one entry per cell, all under the starting entropy. |
| WaveFunctionCollapse.Wfc.AddUpWeights | Assets/Scripts/Wfc.cs:259-263 | The first loop adds Sum(patternWeights) to sumOfPossibleWeightsAtStart. |
| WaveFunctionCollapse.Wfc.QueueCells | Assets/Scripts/Wfc.cs:271-276 | The second loop yields one weight sum per cell and a valid heap holding one entry per cell. |
| WaveFunctionCollapse.Wfc.BuildTables | Assets/Scripts/Wfc.cs:102-108 | Adjacency, map and weights together give the initial state and start heap, and an empty removal stack. |
| WaveFunctionCollapse.Wfc.BuildFromSamples | Assets/Scripts/Wfc.cs:100-108 | From the raw samples of accepted arguments, the steps after InitializePatterns leave the solver as Initialize promises: patterns, weights, table, initial state, start heap and generator. |
| WaveFunctionCollapse.Wfc.BuildFromRaw | Assets/Scripts/Wfc.cs:100-108 | From the raw samples, the deduplicated patterns, their weights, the table and the initial state satisfy the solver invariant, with every cell of two or more patterns in the heap. |
| WaveFunctionCollapse.Wfc.StartValid | Assets/Scripts/Wfc.cs:232-277 | The state initialization leaves satisfies the solver invariant and tracks every cell in the heap. |
| Setup.InitialConsistent | Assets/Scripts/Wfc.cs:232-277 | The initial state is consistent once every weight sum is the total weight plus the offset. |
| Setup.FullRowWeighs | Assets/Scripts/Wfc.cs:259-263 | A row with all patterns possible weighs the sum of the weights. |
| WaveFunctionCollapse.StartHeap | Assets/Scripts/Wfc.cs:271-276 | The start heap names only cells and has an entry for every cell. |
| WaveFunctionCollapse.Wfc.Execute | Assets/Scripts/Wfc.cs:284-308 | Draws the first cell from [0, xSize * ySize - 1), then only rules patterns out. It fails only with NoPropagateablePatterns, and not at all on a live state with zero offset. The map is ColorMap of the final state. A contradiction from Propagate stops the loop and names a cell with no pattern left. Otherwise the heap is empty and every cell but the last picked is decided. |
| WaveFunctionCollapse.Wfc.ExecuteLoop | Assets/Scripts/Wfc.cs:288-305 | The while loop over the heap ends (count total plus heap size drops every round) in a contradiction, an uncaught NoPropagateablePatterns, or with every cell but the last decided. |
| WaveFunctionCollapse.Wfc.Round | Assets/Scripts/Wfc.cs:290-304 | One pass: collapse, propagate, pick the next cell; without contradiction the loop invariant holds again and the count total plus heap size has dropped. |
| WaveFunctionCollapse.Wfc.CollapseAndPropagate | Assets/Scripts/Wfc.cs:292-302 | The collapse and its propagation keep the invariant, only rule patterns out, and do not raise the count total plus heap size. |
| WaveFunctionCollapse.Wfc.CollapseRound | Assets/Scripts/Wfc.cs:292 | The collapse sets the cell's count to 1, only rules patterns out and returns the number of events, by which the count total drops; or it fails with NoPropagateablePatterns and changes nothing, which cannot happen to a cell with a pattern when the offset is zero. |
| WaveFunctionCollapse.Wfc.SetRemovalUpdates | Assets/Scripts/Wfc.cs:292 | The removal stack becomes the collapse's events. |
| WaveFunctionCollapse.Wfc.PropagateRound | Assets/Scripts/Wfc.cs:296-302 | Propagate finishes the drain of the stack in the sense of Finished, and only adds heap entries, one per refresh. |
| WaveFunctionCollapse.RoundFacts | Assets/Scripts/Wfc.cs:288-305 | Over one round, patterns are only ruled out and a contradiction names an empty cell. The count total drops by at least the number of heap refreshes. Live cells stay live without a contradiction, and every open cell stays tracked in the heap. |
| WaveFunctionCollapse.Wfc.CollapseCell | Assets/Scripts/Wfc.cs:311-315 | The pattern is StripBased's pick, with one draw when the cell has two or more patterns. Without a pick it fails with NoPropagateablePatterns and changes nothing; with one the state is CollapseAt of that pattern. |
| WaveFunctionCollapse.Wfc.GetPatternIndexRandomStripBased | Assets/Scripts/Wfc.cs:317-348 | Returns StripBased of the cell and the next draw, or NoPropagateablePatterns where the C# code throws. |
| Collapsing.StripBasedPicksPossible | Assets/Scripts/Wfc.cs:317-348 | The pick is a possible pattern of the cell, and the first one when it is the only one. |
| Collapsing.StripBasedSucceeds | Assets/Scripts/Wfc.cs:337-345 | With no weight offset, a cell with a pattern always yields a pick, because the draw is below the cell's possible weight. |
| Wave.SelectSucceeds | Assets/Scripts/Wfc.cs:338-345 | The weight walk finds a pattern exactly when the draw is below the listed patterns' total weight, and the pattern is one of them. |
| Randomness.TopNeverDrawn | Assets/Scripts/Wfc.cs:337 | With the bound written as max - 1, Next never returns max - 1. |
| WaveFunctionCollapse.Wfc.GetPropagateablePatternIndices | Assets/Scripts/Wfc.cs:350-361 | Returns TrueIndices of the cell's row. |
| Wave.TrueIndices | Assets/Scripts/Wfc.cs:350-361 | The list is ascending, as long as the count, and holds exactly the possible patterns. |
| WaveFunctionCollapse.Wfc.CollapseCellByPattern | Assets/Scripts/Wfc.cs:363-386 | The state becomes CollapseAt(old state, cell, pattern). The events are one RemovalUpdate per other possible pattern, ascending, at the cell's column and row. |
| WaveFunctionCollapse.Wfc.RuleOutAllBut | Assets/Scripts/Wfc.cs:367-381 | The loop leaves only the pattern possible at the cell and emits the events of the others. |
| WaveFunctionCollapse.Wfc.CollapseOnto | Assets/Scripts/Wfc.cs:363-386 | Collapsing onto a possible pattern keeps the invariant. Patterns are only ruled out, and the count total drops by the number of events. |
| Wave.Collapse | Assets/Scripts/Wfc.cs:363-386 | Collapsing onto a possible pattern keeps exactly it and rules out the other count - 1. |
| Wave.CollapseDecided | Assets/Scripts/Wfc.cs:363-386 | A cell already down to its one pattern is left as it is, and no event is emitted. |
| Wave.CollapseOneMore | Assets/Scripts/Wfc.cs:367-381 | One loop step rules entry i out exactly when it is possible and not the pattern, and extends the event list by i. |
| Collapsing.CollapseKeepsConsistent | Assets/Scripts/Wfc.cs:363-386 | Collapse keeps the state consistent and only rules patterns out. It lowers the count total by the number of events it emits. |
| WaveFunctionCollapse.CellCoordinates | Assets/Scripts/Wfc.cs:376-377 | yIndex = c / xSize and xIndex = c - yIndex * xSize are in range and recombine to c. |
| WaveFunctionCollapse.Wfc.Propagate | Assets/Scripts/Wfc.cs:390-398 | The state, the failure, the remaining stack and the heap refreshes are those of Drain on the old state and stack. |
| WaveFunctionCollapse.Wfc.DrainStack | Assets/Scripts/Wfc.cs:392-397 | The while loop reaches the drained total it started towards, decreasing the count total plus stack length. |
| WaveFunctionCollapse.Wfc.PropagateTop | Assets/Scripts/Wfc.cs:394-396 | One turn either ends the run at a contradiction or strictly lowers the count total plus stack length and stays on course. |
| WaveFunctionCollapse.Wfc.Pop | Assets/Scripts/Wfc.cs:394 | Takes the newest event off the stack. |
| Draining.DrainStep | Assets/Scripts/Wfc.cs:392-397 | Propagating the top event keeps consistency. Its events name patterns, and without contradiction the count total plus stack length drops. |
| Draining.DrainFinishes | Assets/Scripts/Wfc.cs:390-398 | The drain ends consistent, only rules patterns out, and stops with an empty stack or at a contradiction naming a cell with no pattern. Every refresh is paid for by a removal. |
| Draining.AheadStep | Assets/Scripts/Wfc.cs:392-397 | Taking the top event off either ends the run at a contradiction or moves on with a smaller count total plus stack length. |
| Draining.FinishedByFailure | Assets/Scripts/Wfc.cs:296-301 | A propagation stopped by a contradiction finishes the run, with the stack left as it is. |
| Draining.DrainEmpty | Assets/Scripts/Wfc.cs:392 | An empty stack leaves everything as it is. |
| WaveFunctionCollapse.Wfc.PropagateUpdate | Assets/Scripts/Wfc.cs:400-430 | The state and failure are SpreadFrom over the four directions. Without contradiction the gathered events are pushed in order. The heap gains the refreshes' entries, one draw each. |
| WaveFunctionCollapse.Wfc.VisitNeighbours | Assets/Scripts/Wfc.cs:404-426 | The loop over the four directions is SpreadFrom(old state, ..., 4), stopping at a contradiction. |
| WaveFunctionCollapse.Wfc.PropagateSide | Assets/Scripts/Wfc.cs:406-425 | One direction is SideOf: out-of-bounds neighbours and neighbours with count <= 1 are skipped, anything else is visited. |
| WaveFunctionCollapse.Wfc.VisitCell | Assets/Scripts/Wfc.cs:417-425 | The visit is Visit: PropagateToCell, then a heap refresh only when something was removed. |
| WaveFunctionCollapse.Wfc.PushAll | Assets/Scripts/Wfc.cs:428-429 | Pushes the events in order, so the last one is on top. |
| Propagation.NeighbourAt | Assets/Scripts/Wfc.cs:406-412 | A neighbour exists exactly when the step stays inside the output, and its index is x + y * xSize. |
| Propagation.SpreadStops | Assets/Scripts/Wfc.cs:404-426 | Once a contradiction is raised the remaining directions are skipped. |
| Propagation.ThinDescends | Assets/Scripts/Wfc.cs:414-419 | Thinning a cell with two or more patterns only rules patterns out at that cell and leaves every other cell alone. |
| Propagation.ThinRemovals | Assets/Scripts/Wfc.cs:451-466 | The patterns thinning rules out were possible and are gone, and the cell's count and the count total drop by their number. |
| Propagation.SideDescends | Assets/Scripts/Wfc.cs:406-425 | One direction only rules patterns out, and only at the neighbour it visits. |
| Propagation.SideConsistent | Assets/Scripts/Wfc.cs:406-425 | One direction keeps the state consistent. |
| Propagation.SideSettles | Assets/Scripts/Wfc.cs:419-425 | One direction accounts for its removals. It raises a contradiction exactly when the visited neighbour is left with no pattern. |
| Propagation.SideKeepsProgress | Assets/Scripts/Wfc.cs:404-426 | The visit in direction d keeps the state consistent and extends the progress of the directions before it. |
| Propagation.SpreadProgress | Assets/Scripts/Wfc.cs:400-430 | PropagateUpdate keeps the state consistent. It only rules patterns out next to the event, pushes one event per removal, and refreshes no more than it removes. |
| WaveFunctionCollapse.Wfc.PropagateToCell | Assets/Scripts/Wfc.cs:432-472 | The state becomes ThinAt on the side facing the update. The cell keeps the invariant. Success comes exactly when fewer patterns are removed than it had, and then returns one event per removal; otherwise a Contradiction at its position. |
| WaveFunctionCollapse.Wfc.WithdrawAll | Assets/Scripts/Wfc.cs:451-466 | The loop over the listed patterns is ThinAt, and its events are those of the removed patterns. |
| WaveFunctionCollapse.Wfc.WithdrawSupport | Assets/Scripts/Wfc.cs:453-465 | A still-possible pattern loses one support. It is removed exactly when no support is left. |
| Wave.ThinRow | Assets/Scripts/Wfc.cs:451-466 | A listed possible pattern is ruled out exactly when it had at most one support on that side, and the removals are those patterns. |
| Wave.ThinSupport | Assets/Scripts/Wfc.cs:455-458 | A listed pattern's counter drops by one only while it is possible, and nothing else changes. |
| Wave.ThinTally | Assets/Scripts/Wfc.cs:451-466 | The count drops by the number of removals, and the weight by their total weight. |
| Wave.ThinKeepsSupported | Assets/Scripts/Wfc.cs:451-466 | Counters never go negative, and a surviving pattern keeps a positive counter. |
| Wave.ThinKeepsConsistent | Assets/Scripts/Wfc.cs:432-472 | PropagateToCell's effect keeps the whole state consistent. |
| WaveFunctionCollapse.Wfc.RemovePatternForCell | Assets/Scripts/Wfc.cs:474-481 | Rules one possible pattern out. The count drops by one and the weight sum by its weight, and nothing else changes. |
| Wave.WeightOfIsSumAt | Assets/Scripts/Wfc.cs:337-345 | A row's weight is the weight of the patterns the walk steps through. |
| Wave.WeightAtLeastCount | Assets/Scripts/Wfc.cs:337 | With every weight at least one, a row weighs at least its count. |
| Wave.FewerKeepsSupported | Assets/Scripts/Wfc.cs:451-466 | Ruling patterns out never breaks support. |
| Wave.RemoveOne | Assets/Scripts/Wfc.cs:474-481 | Ruling out a possible pattern lowers the count by one and the weight by that pattern's weight. |
| Wave.RemoveKeepsTallied | Assets/Scripts/Wfc.cs:474-481 | RemovePatternForCell keeps a cell's bookkeeping right. |
| WaveFunctionCollapse.Wfc.UpdateEntropies | Assets/Scripts/Wfc.cs:483-487 | Adds one entry to the heap: the cell under the noised entropy of its weight sum, using the next fraction. |
| WaveFunctionCollapse.EntriesSize | Assets/Scripts/Wfc.cs:483-487 | Each refresh adds exactly one heap entry. |
| WaveFunctionCollapse.Wfc.PickNextCell | Assets/Scripts/Wfc.cs:490-501 | Polls until a cell with count >= 1 comes up and returns it, whose key is least among live entries. Every discarded entry names a cell with count 0. When the heap runs out it returns 0 with the heap empty. |
| WaveFunctionCollapse.Wfc.PollEntry | Assets/Scripts/Wfc.cs:494 | Polls the top entry, which names a cell and has the least key. |
| WaveFunctionCollapse.PickLive | Assets/Scripts/Wfc.cs:494-497 | Stopping at a top entry that names a cell with a pattern, after discarding only entries of empty cells, picks that cell with the least key among live entries. |
| WaveFunctionCollapse.PickEmpty | Assets/Scripts/Wfc.cs:492-500 | When every entry named an empty cell, the heap ends empty and the answer is 0. |
| WaveFunctionCollapse.HeapCellsAfterPoll | Assets/Scripts/Wfc.cs:494 | Polling the top entry loses at most the top's cell from the heap's cells. |
| WaveFunctionCollapse.PickedKeepsLive | Assets/Scripts/Wfc.cs:490-501 | A cell with a pattern left keeps a heap entry across PickNextCell, unless it is the cell returned. |
| WaveFunctionCollapse.Wfc.CreateColorMap | Assets/Scripts/Wfc.cs:504-519 | Returns a fresh array equal to ColorMap of the state. |
| WaveFunctionCollapse.Wfc.GetCellColor | Assets/Scripts/Wfc.cs:521-535 | The colour of element 0 of every possible pattern, in pattern order, as a single colour when there is one. |
| Collapsing.ColorMapPixels | Assets/Scripts/Wfc.cs:504-535 | A count-0 cell shows the mask colour. A count-1 cell shows the colour of element 0 of its one pattern. Any other cell shows a blend of one colour per possible pattern. |
| ColorIndex.PixelCases | Assets/Scripts/Wfc.cs:521-535 | A cell without patterns shows the mask colour, a decided cell the colour of element 0 of its pattern, and any other cell a blend of one colour per possible pattern. |
| WaveFunctionCollapse.Wfc.GetRandomRange | Assets/Scripts/Wfc.cs:540 | prng.Next with the bounds as given, so the upper bound is exclusive. |
| Randomness.Ranged | Assets/Scripts/Wfc.cs:540 | The draw lands in [min, max), or is min when the range is empty. |
| Randomness.Prng.constructor | Assets/Scripts/Wfc.cs:86 | A generator over the given streams starts at position 0. |
| Randomness.Prng.Next | Assets/Scripts/Wfc.cs:540 | Consumes one raw draw and maps it into the range. |
| Randomness.Prng.NextDouble | Assets/Scripts/WfcHelper.cs:225 | Consumes the next fraction. |
| WfcHelper.OriginalPattern | Assets/Scripts/WfcHelper.cs:69-101 | Cell (i, j) of the window is entry [wrap(x - 1 + i)][wrap(y - 1 + j)], wrapping once at the high edge only. |
| WfcHelper.GetOriginalPattern | Assets/Scripts/WfcHelper.cs:69-101 | The nested loops fill the nine bytes of OriginalPattern. |
| WfcHelper.Turn90 | Assets/Scripts/WfcHelper.cs:103-116 | out(x, y) = in(y, 2 - x). |
| WfcHelper.Turn180 | Assets/Scripts/WfcHelper.cs:118-131 | out(x, y) = in(2 - x, 2 - y). |
| WfcHelper.Turn270 | Assets/Scripts/WfcHelper.cs:133-146 | out(x, y) = in(2 - y, x). |
| WfcHelper.HorizontalFlip | Assets/Scripts/WfcHelper.cs:154-170 | Columns 0 and 2 swap. |
| WfcHelper.VerticalFlip | Assets/Scripts/WfcHelper.cs:178-194 | Rows 0 and 2 swap. |
| WfcHelper.CreatePatternTurn90Degree | Assets/Scripts/WfcHelper.cs:103-116 | Returns Turn90 of its input, a permutation of it. |
| WfcHelper.CreatePatternTurn180Degree | Assets/Scripts/WfcHelper.cs:118-131 | Returns Turn180 of its input, a permutation of it. |
| WfcHelper.CreatePatternTurn270Degree | Assets/Scripts/WfcHelper.cs:133-146 | Returns Turn270 of its input, a permutation of it. |
| WfcHelper.CreatePatternHorizontalFlip | Assets/Scripts/WfcHelper.cs:154-170 | Returns HorizontalFlip of its input, a permutation of it. |
| WfcHelper.CreatePatternVerticalFlip | Assets/Scripts/WfcHelper.cs:178-194 | Returns VerticalFlip of its input, a permutation of it. |
| WfcHelper.Turn90Twice | Assets/Scripts/WfcHelper.cs:103-131 | Two quarter turns are a half turn. |
| WfcHelper.Turn270UndoesTurn90 | Assets/Scripts/WfcHelper.cs:103-146 | The three-quarter turn undoes the quarter turn. |
| WfcHelper.Turn90FourTimes | Assets/Scripts/WfcHelper.cs:103-116 | Four quarter turns are the identity. |
| WfcHelper.FlipsAreInvolutions | Assets/Scripts/WfcHelper.cs:154-194 | Each flip undoes itself. |
| WfcHelper.BothFlipsAreHalfTurn | Assets/Scripts/WfcHelper.cs:118-194 | The horizontal flip of the vertical flip is the half turn. |
| WfcHelper.RotationsAsFlips | Assets/Scripts/WfcHelper.cs:103-194 | The quarter turn is the horizontal flip of the transpose, and the three-quarter turn the vertical flip of it. |
| WfcHelper.TransformsArePermutations | Assets/Scripts/WfcHelper.cs:103-194 | Every turn and flip keeps the multiset of bytes. |
| WfcHelper.OverlapsInDirection | Assets/Scripts/WfcHelper.cs:197-215 | The scan with early exit returns Overlaps(p1, p2, dx, dy), and every index it reads lies in the nine cells. |
| WfcHelper.OverlapsSymmetric | Assets/Scripts/WfcHelper.cs:197-215 | The overlap of p1 and p2 at (dx, dy) is the overlap of p2 and p1 at (-dx, -dy). |
| WfcHelper.OverlapsWithoutOffset | Assets/Scripts/WfcHelper.cs:197-215 | Without an offset the test is plain equality. |
| WfcHelper.UniformOverlapsItself | Assets/Scripts/WfcHelper.cs:197-215 | A single-byte pattern overlaps itself in every direction. |
| WfcHelper.UniformIsSymmetric | Assets/Scripts/WfcHelper.cs:103-194 | Every turn and flip leaves a single-byte pattern as it is. |
| MinHeaps.MinHeap.constructor | Assets/Scripts/MinHeap.cs:8-11 | A new heap is empty and valid. |
| MinHeaps.MinHeap.IsEmpty | Assets/Scripts/MinHeap.cs:13-21 | True exactly when the heap has no entry. |
| MinHeaps.MinHeap.Add | Assets/Scripts/MinHeap.cs:23-27 | The size grows by one and the multiset gains (key, value), even when an equal entry is present. The heap order is restored. |
| MinHeaps.MinHeap.Peek | Assets/Scripts/MinHeap.cs:29-36 | None exactly on an empty heap, else an entry of the heap with minimum key; the heap is unchanged. |
| MinHeaps.MinHeap.Poll | Assets/Scripts/MinHeap.cs:38-52 | None on an empty heap. Otherwise it returns the root, of minimum key, and removes exactly that entry, keeping the multiset of the rest and the heap order. |
| MinHeaps.MinHeap.HeapifyUp | Assets/Scripts/MinHeap.cs:54-63 | Restores the heap order from the last slot, keeping the multiset. It stops at the root, whose parent is itself. |
| MinHeaps.MinHeap.HeapifyDown | Assets/Scripts/MinHeap.cs:65-89 | Restores the heap order from the root, keeping the multiset. |
| MinHeaps.MinHeap.Swap | Assets/Scripts/MinHeap.cs:109-114 | Exchanges exactly two slots and changes nothing else. |
| MinHeaps.TruncatingDiv | Assets/Scripts/MinHeap.cs:93 | Division truncating toward zero: the remainder has the sign of the dividend and is smaller than the divisor. |
| MinHeaps.ParentIndex | Assets/Scripts/MinHeap.cs:91-95 | The root is its own parent, and any other slot's parent is an earlier slot. |
| MinHeaps.ParentOfChild | Assets/Scripts/MinHeap.cs:93-105 | The children of slot k are exactly slots 2k+1 and 2k+2. |
| MinHeaps.RootIsMinimum | Assets/Scripts/MinHeap.cs:29-52 | In a heap the root holds a minimum key. |
| MinHeaps.SiftDownStep | Assets/Scripts/MinHeap.cs:71-87 | Swapping a slot with its smallest child moves the hole down to that child. |
| MinHeaps.SiftDownDone | Assets/Scripts/MinHeap.cs:78-81 | Sift-down may stop in a heap once the slot's key is below its smaller child's. |
| MinHeaps.LastToRootMultiset | Assets/Scripts/MinHeap.cs:45-47 | Moving the last entry to the root and dropping the last slot removes exactly the old root from the multiset. |
| MinHeaps.LastToRoot | Assets/Scripts/MinHeap.cs:45-47 | Moving the last entry to the root leaves a heap except below the root, holding the old entries less the old root. |

## Left out

- WaveFunctionCollapse.Wfc.UpdateEntropies and WaveFunctionCollapse.Wfc.InitializeWeights: the heap key (`WaveFunctionCollapse.NoisedKey`) is `entropy(weight sum)` plus noise, an abstract function of the integer weight sum alone. The source's key is Shannon entropy, `log2(sum) - sumOfLogWeights / sum`, so it also depends on which patterns remain. Two cells with weights {1, 3} and {2, 2} share a key here but not in C#. The floating-point `sumOfLogWeights` bookkeeping, `Mathf.Log` and `Math.Log`, `Entropy` and `NoisedEntropy` are not modelled. The entropy is a parameter of the model, so the proved heap facts (one entry per refresh, every live cell tracked, least key polled) hold for any key function.
- Wave.CellTallied: the weight sum of a cell is stated to equal its possible weight (plus the offset) only while the count is at least 2. The source keeps it exact for every cell that CollapseCellByPattern has not touched, including cells propagated down to one pattern. The weight walk reads the sum only at count 2 or more. UpdateEntropies may read it at count 1, but the model keys the heap on the field's own value, so no stated heap fact depends on the missing case.
- The tables (`waveCells`, `compatibles`, `sumOfPossiblePatterns`, `sumOfWeights`, `propagators`) and the heap's list are sequence fields that the methods reassign, not arrays updated in place. In C#, `Propagate` drains the same stack object that `PropagateUpdate` pushes onto (`_removals` aliases `removalUpdates`). The model has one stack field, so it does not capture that aliasing.
- MinHeaps.MinHeap.Peek and MinHeaps.MinHeap.Poll: an empty heap gives None where C# throws InvalidOperationException.
- Randomness.Prng.Next and WaveFunctionCollapse.Wfc.GetRandomRange: `requires minValue <= maxValue`, where System.Random throws ArgumentOutOfRangeException. Callers meet it by the cases they check first. GetPatternIndexRandomStripBased and `Collapsing.StripBased` model the one case the source can hit (a weight sum below 1) as NoPropagateablePatterns.
- `Seed == 0`, which seeds System.Random from the clock, is replaced by caller-supplied streams of draws and fractions. The fractions are not restricted to [0, 1), and how System.Random derives its numbers from a seed is not modelled.
- The partly filled dictionaries and pattern list that PrepareColors and InitializePatterns leave behind after throwing are not modelled. On those paths only the error is stated.
- `MeanColor` and `IsColorAlmostEqual` are floating point. A cell with two or more possible colours is the pixel `MeanOf(colours)`, the list GetCellColor builds, and the average itself is not computed. `ToTextureApplied` and the texture handler are Unity rendering and pixel reading.
- C# `int` and `double` widths: sizes (`xSize * ySize`), counts, the `(int)` casts of `sumOfWeights` and the pattern weights (C# `double`) are unbounded integers. A source `double` weight here is always a whole number below 2^53, and overflow of `xSize * ySize` is not modelled.
- The Stopwatch, `Debug.Log`/`Debug.LogError` and the `steps`, `removals` and `propagationSteps` counters are diagnostics and are dropped. So are the unused `sumPossibleOccurences` loop and the no-op `if (d == 1) d = 1;`.
- Colours are four integer channels compared by equality; Unity's float colour channels are not modelled.
- `CreateColorMap`'s optional highlighted cell (`_cellIndexToDisplay`) is left out: Execute always calls it with the default, so no cell is highlighted.
