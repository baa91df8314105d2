# Seam carving engine

A Dafny model of the seam-carving core of the `Image` class: the integer and
array logic that narrows an image one column at a time by removing the
cheapest vertical seam of its energy map.

The engine keeps a logical `width` and `height` and five flat row-major
buffers:
- the colour samples;
- the grey samples;
- the Sobel energies;
- the accumulated energies of the dynamic programme;
- its backtrack indices.

All five are allocated once at the first width and then used through a
shrinking prefix of `width * height` entries. One resize step does four
things:
- rebuilds the programme;
- follows the backtrack from the first least cell of the last row up to the
  first row;
- removes that seam from the colour, grey and energy buffers in one
  left-shifting pass over the flat arrays;
- recomputes the energy of the (at most two) cells per row beside the removed
  cell, re-pads the border with the sentinel 255, and decrements `width`.

Two diagnostics complete the core. They leave the colour, grey and energy
buffers and the width unchanged, and rebuild only the programme buffers:
- one shows the energy map as a grey image;
- one paints red the backtrack trails of the `min(n, width)` cells of the last
  row with the least accumulated energy.

Modules:
- `Grid`: row-major index arithmetic, the border, and cutting a flat buffer
  into rows and joining it back.
- `Pixels`: the low byte, the channel bit fields, the grey conversion, and the
  shade of an energy.
- `Sobel`: the 3x3 kernel sums, the energy of a cell, the full energy map,
  border padding, and the local repair after a removal.
- `Seams`: the dynamic programme as functions over the rows of the energy map,
  its first-minimum tie-breaking, the backtrack chains, and seam optimality.
- `Carving`: `shiftArray` and `removeSeam` on arrays, proved against the
  carve function `Carve`.
- `Ranking`: the stable sort of the last row's (index, energy) pairs by
  energy.
- `Trails`: what `highlightNSeams` paints.
- `Engine`: the class `Image` and its methods, each proved against these
  functions. It also holds the value model `Picture` of the state a resize
  step works on, with `Step` and `Steps` for one and k passes of the loop.

Integers are mathematical. Overflow is excluded rather than modelled:
- every energy is proved to lie in `[0, 1442]`;
- the state invariant keeps `height * 1442` below `Integer.MAX_VALUE`;
- so no accumulated energy reaches `Integer.MAX_VALUE`, and the
  `IllegalStateException` of the neighbour search is proved unreachable
  (`Seams.ChoiceMinimal`).

The grey conversion is not idempotent. Its weights add up to 0.9999, so a
grey sample of level g > 0 converts to the sample of level g - 1
(`Pixels.GreyDarkens`, `Pixels.GreyConversionDarkens`).

The code does not check the number of seams to remove. A negative count, which
a negative percentage gives, makes the loop run no pass, and so does the model
(`Engine.Image.Passes`). The model requires `count <= width - 1`. For images
of two or more rows, that is the largest count for which every pass of the
loop is well defined.

## Model

| member | source | states |
|---|---|---|
| Pixels.LastByte | code/Image.java:88-90 | `val & 0xff`: a byte, the value itself on bytes, and congruent to the value modulo 256 |
| Pixels.GreySample | code/Image.java:254-261 | a converted sample is a 24-bit value |
| Pixels.PackChannels | code/Image.java:256-261 | the blue, green and red fields (and the low byte) of `g << 16 \| g << 8 \| g` are all g, and the packed value fits in 24 bits |
| Pixels.LuminanceRange | code/Image.java:260 | the luminance of three bytes is a byte, never above 254 |
| Pixels.GreyDarkens | code/Image.java:260 | a grey level g converts to g - 1 for g > 0 and to 0 for 0: grey is not a fixed point |
| Pixels.ConversionNotIdempotent | code/Image.java:250-264 | converting the grey sample of level 200 again gives the sample of level 199 |
| Pixels.GreyConversionDarkens | code/Image.java:250-264 | for every level 0 < g < 256, converting the grey sample of level g gives the grey sample of level g - 1 |
| Pixels.Shade | code/Image.java:329 | `Math.min(255, e) & 0xff` is a byte; for a non-negative energy it is the energy capped at 255 |
| Grid.OnBorderAt | code/Image.java:139-152 | the cells the three padding loops enumerate are exactly the cells of row 0, row h - 1, column 0 and column w - 1 |
| Grid.InteriorNeighbourhood | code/Image.java:53-65 | a cell off the border has its whole 3x3 neighbourhood inside the grid |
| Grid.ConcatRows | code/Image.java:17-23 | joining the rows of a buffer gives back its first w * h entries |
| Sobel.KernelWeights | code/Image.java:26-34 | each kernel has positive weight 4, negative weight -4 and total weight 0 |
| Sobel.ConvolveBounds | code/Image.java:80-83 | a kernel sum over low bytes lies between 255 times the negative and 255 times the positive weight |
| Sobel.ConvolveUniform | code/Image.java:80-83 | over nine samples of one grey level v the kernel sum is v times the kernel's weight |
| Sobel.Isqrt | code/Image.java:85 | the integer square root: r * r <= n < (r + 1) * (r + 1) |
| Sobel.EnergyValue | code/Image.java:76-86 | the energy of a neighbourhood lies in [0, 1442] |
| Sobel.FlatNeighbourhood | code/Image.java:76-86 | a neighbourhood of one grey level has energy 0 |
| Sobel.CalculateEnergyValue | code/Image.java:76-86 | the one loop accumulating both kernel sums returns the energy of the positions |
| Sobel.SobelAt | code/Image.java:55-67 | the energy of an interior cell at stride w lies in [0, 1442] |
| Sobel.EnergyAt | code/Image.java:48-74 | every border cell of the map is the sentinel 255, and every energy lies in [0, 1442] |
| Sobel.PadRange | code/Image.java:140-146 | a padding loop over [lo, hi) sets exactly those entries to 255 and leaves every other entry as it was |
| Sobel.PadSides | code/Image.java:148-151 | the third padding loop sets exactly column 0 and column w - 1 of rows 1 and below to 255 and leaves every other entry as it was |
| Sobel.PaddEnergyImage | code/Image.java:139-152 | every border cell within the grid becomes 255; interior cells and entries past w * h keep their values |
| Sobel.SobelRow | code/Image.java:55-68 | the inner loop gives row k's interior cells their Sobel energy and changes nothing else |
| Sobel.RunSobelEdgeDetection | code/Image.java:48-74 | a fresh w * h map whose border cells are 255 and whose interior cells hold their Sobel energy |
| Sobel.RepairedInside | code/Image.java:119-130 | a recomputed cell's 3x3 neighbourhood lies inside the narrower grid |
| Sobel.RepairedStep | code/Image.java:112-131 | pass i of the repair loop targets exactly the cells `seam[i] - i` and `seam[i] - i - 1` that lie strictly inside row i |
| Sobel.RecomputeCell | code/Image.java:120-130 | gives one cell its Sobel energy at the new width and changes nothing else |
| Sobel.RepairRow | code/Image.java:114-131 | one pass of the repair loop writes the Sobel energy into exactly its target cells and leaves every other entry as it was |
| Sobel.FixEnergyImage | code/Image.java:109-137 | after the repair, border cells are 255, recomputed cells hold their Sobel energy from the grey buffer at the new width, and every other entry is unchanged |
| Sobel.RepairBeyond | code/Image.java:109-137 | the repair leaves every entry past the narrower grid as it was |
| Carving.ShiftArray | code/Image.java:177-182 | with dst <= src, entry dst + k becomes the old entry src + k even when the ranges overlap; every other entry is unchanged |
| Carving.Source | code/Image.java:155-175 | the entry a carved cell comes from is at or after it and inside the old grid; entries past the narrower grid come from themselves |
| Carving.Carve | code/Image.java:155-175 | carving keeps the length and leaves every entry past (w - 1) * h as it was |
| Carving.CarveAt | code/Image.java:155-175 | `new[r*(w-1)+j]` is `old[r*w+j]` left of the seam cell of row r and `old[r*w+j+1]` from it on |
| Carving.CarveRow | code/Image.java:155-175 | row r of the carved buffer is row r of the old one without its seam cell |
| Carving.CarveRowAt | code/Image.java:155-175 | the same, cell by cell |
| Carving.SourceAt | code/Image.java:158-170 | cell (r, j) of the narrower grid comes from cell (r, j) or (r, j + 1) of the old one |
| Carving.SourceMissesSeam | code/Image.java:155-175 | no carved cell comes from a seam cell |
| Carving.SourceIncreasing | code/Image.java:155-175 | carving keeps the order of the surviving cells |
| Carving.SourceOnto | code/Image.java:155-175 | every old cell off the seam survives somewhere in the narrower grid |
| Carving.StretchBounds | code/Image.java:158-170 | the stretch between two seam cells lies inside the grid, and its destination starts where stretch i - 1 left off |
| Carving.SourceStretch | code/Image.java:158-166 | the entries of stretch i come from i + 1 places to the right |
| Carving.ShiftStretch | code/Image.java:159-165 | one pass of the loop extends the compacted prefix by one stretch |
| Carving.CompactedEnd | code/Image.java:168-174 | once the last stretch is shifted, the buffer is the carved buffer |
| Carving.RemoveSeam | code/Image.java:155-175 | the energy, colour and grey buffers are each carved by the same seam |
| Seams.Offsets | code/Image.java:223-227 | two or three offsets in [-1, 1] that keep the column inside the row (`{0, 1}` at the left edge, `{-1, 0}` at the right) |
| Seams.OffsetsSpan | code/Image.java:223-227 | a cell's candidate columns are a contiguous window of the row above |
| Seams.ScanMin | code/Image.java:233-241 | the scan's index is -1 or one of the scanned positions |
| Seams.ScanMinSpec | code/Image.java:233-244 | the scan finds nothing exactly when every value is at least Integer.MAX_VALUE; otherwise it finds a least value, and no value before it is equal to it (the first minimum, as the strict comparison gives) |
| Seams.Choice | code/Image.java:232-247 | the chosen neighbour is a column of the row above at most one column away |
| Seams.ChoiceCol | code/Image.java:246-247 | the backtrack column is inside the row and at most one column away |
| Seams.Candidates | code/Image.java:235-236 | the candidates are the accumulated energies of the row above at the offsets |
| Seams.RowPrefixAt | code/Image.java:220-228 | cell c of a later row holds its energy plus the accumulated energy of its chosen neighbour |
| Seams.AccStep | code/Image.java:212-248 | row 0 of the programme is the energy; a later cell is its energy plus the accumulated energy of its chosen neighbour |
| Seams.AccBound | code/Image.java:246 | with energies in [0, 1442], row r's accumulated energies lie in [0, (r + 1) * 1442], so none overflows |
| Seams.ChoiceMinimal | code/Image.java:235-244 | the backtrack takes the first least candidate in offset order (-1, 0, +1), and the throw is unreachable |
| Seams.ChoiceBelow | code/Image.java:232-247 | the chosen neighbour's accumulated energy is no more than any other neighbour's |
| Seams.SeamCols | code/Image.java:199-207 | the backtrack chain from (r, c) has one column per row up to r, ends in c, and stays inside the grid |
| Seams.SeamColsConnected | code/Image.java:199-207 | a backtrack chain is connected: adjacent columns differ by at most one |
| Seams.SeamColsStep | code/Image.java:200 | each entry of a chain is the backtrack of the entry after it |
| Seams.SeamColsCost | code/Image.java:212-248 | the energy along a backtrack chain is the accumulated energy where it ends |
| Seams.AccOptimal | code/Image.java:212-248 | no connected path from the first row to a cell costs less than the cell's accumulated energy |
| Seams.Seam | code/Image.java:184-210 | the seam holds exactly h indices |
| Seams.SeamEnd | code/Image.java:187-197 | the seam ends in the first cell of the last row with the least accumulated energy and is the backtrack chain from there |
| Seams.StartMinimal | code/Image.java:187-195 | the scan of the last row stops at the first least accumulated energy |
| Seams.StartBelow | code/Image.java:184-210 | the accumulated energy where the seam ends undercuts every connected path |
| Seams.SeamOptimal | code/Image.java:184-210 | the seam is connected, and no connected path of one cell per row costs less |
| Seams.SeamBest | code/Image.java:184-210 | the seam is the flat form of a connected chain that no connected path undercuts |
| Seams.SeamStepBack | code/Image.java:199-207 | each seam entry in row i >= 1 is in row i, and the entry above it is its backtrack |
| Ranking.InsertPermutation | code/Image.java:348 | inserting keeps every pair and adds one |
| Ranking.InsertSorted | code/Image.java:348 | inserting into a sorted sequence keeps it sorted |
| Ranking.StartsNext | code/Image.java:343-346 | the pairs of i + 1 cells are the pairs of i cells and one more |
| Ranking.RankedPermutation | code/Image.java:348 | the sort is a permutation |
| Ranking.RankedSorted | code/Image.java:348 | the sort orders by energy, with ties in increasing index order (stability) |
| Ranking.RankedFirst | code/Image.java:348 | the first pair after the sort is the cell the minimum scan of `findSeam` finds |
| Ranking.RankedPositions | code/Image.java:341-348 | every pair after the sort is a cell of the row with its own energy |
| Ranking.RankedAt | code/Image.java:341-348 | the same for one pair |
| Ranking.RankedLeast | code/Image.java:348 | a cell not among the first m pairs comes after each of them |
| Trails.TopSeamStarts | code/Image.java:341-348 | `topSeamStart` after the sort has one pair per column of the last row, each with that cell's accumulated energy |
| Trails.Count | code/Image.java:350 | `Math.min(n, width)`, and 0 when n is not positive |
| Trails.Picks | code/Image.java:350-352 | `min(n, width)` columns of the last row |
| Trails.PickEnd | code/Image.java:352 | pair i of the ranking is the last-row cell of trail i |
| Trails.Trail | code/Image.java:354-357 | a trail has one cell per row |
| Trails.OnTrailUp | code/Image.java:354-357 | one more step up a trail adds exactly that row's cell |
| Trails.PaintedNext | code/Image.java:350-358 | painting one more trail adds exactly that trail's cells |
| Trails.PaintedSplit | code/Image.java:350-358 | a cell painted by the first i + 1 trails is painted by the first i or lies on trail i |
| Trails.TrailPath | code/Image.java:354-357 | a trail is a connected path from the first row to its column of the last row, and its energy is that cell's accumulated energy |
| Trails.FirstTrail | code/Image.java:336-361 | the first trail painted is the seam `findSeam` returns |
| Trails.PicksLeast | code/Image.java:341-350 | the painted trails start at the least accumulated energies in ranking order, and every column left out comes after each of them (ties by column) |
| Engine.FlatAt | code/Image.java:212-229 | entry r * w + c of the flat programme buffers holds cell (r, c) of the programme |
| Engine.BackInside | code/Image.java:216-247 | every backtrack entry is a flat index of the grid |
| Engine.SeamInRows | code/Image.java:196-209 | the seam has exactly one cell in each row |
| Engine.SeamBack | code/Image.java:199-207 | the backtrack maps the seam cell of row i to the seam cell of row i - 1, so both backtrack passes compute the same seam |
| Engine.ScanMinNext | code/Image.java:190-195 | one more scanned value replaces the pick only when it is strictly smaller |
| Engine.SeamLast | code/Image.java:190-197 | the seam's last entry is the cell where the scan of the last row stops |
| Engine.BackAlong | code/Image.java:199-207 | the backtrack step along the seam, read from the backtrack buffer |
| Engine.NormalizedShade | code/Image.java:329-330 | each channel of a normalised energy is the energy capped at 255 |
| Engine.TrailInside | code/Image.java:354-357 | every cell of a trail is inside the grid and in its own row |
| Engine.TrailBack | code/Image.java:356 | the backtrack buffer maps a trail's cell of row r to its cell of row r - 1 |
| Engine.TrailBackFlat | code/Image.java:356 | the same step on the flat programme |
| Engine.LowestWindow | code/Image.java:233-241 | the neighbour scan over the offsets is the minimum scan over the window of the row above |
| Engine.CellStep | code/Image.java:235-247 | the scan of a cell's window finds a neighbour, and the cell gets its energy plus that value and the neighbour's flat index |
| Engine.FirstRow | code/Image.java:214-218 | row 0 of the buffers is row 0 of the energy with backtrack i at i |
| Engine.SeamOf | code/Image.java:99 | the seam a pass removes has one cell in every row |
| Engine.RepairBounded | code/Image.java:109-137 | after a pass every energy still lies in [0, 1442] |
| Engine.Step | code/Image.java:99-102 | one pass keeps the state invariant, narrows the width by one and keeps the height and the buffer lengths |
| Engine.Steps | code/Image.java:97-103 | k passes keep the state invariant, narrow the width by k and keep the height |
| Engine.StepBorder | code/Image.java:109-137 | after a pass every border cell of the narrower energy map is 255 |
| Engine.SeamOfBest | code/Image.java:99 | the seam a pass removes is the flat form of a connected path that no connected path undercuts |
| Engine.StepRow | code/Image.java:100 | row r of the colour and grey buffers after a pass is row r before without its seam cell |
| Engine.StepRemovesSeam | code/Image.java:99-100 | a pass removes a cheapest connected seam, one cell per row, from the colour and grey buffers |
| Engine.StepIs | code/Image.java:99-102 | carving the three buffers and then repairing the energy gives the narrower picture |
| Engine.ConvertToBw | code/Image.java:250-264 | a fresh w * h buffer of the grey samples of the colour samples |
| Engine.Lowest | code/Image.java:233-241 | the scan's index is -1 or one of the offsets' positions |
| Engine.Image.constructor | code/Image.java:36-46 | the colours are the pixels, the grey buffer is their conversion, the energy is its Sobel map, and the state invariant holds |
| Engine.Image.FindPos | code/Image.java:232-248 | when a candidate is found, the cell gets its energy plus the least candidate and that candidate's flat index; otherwise nothing is written |
| Engine.Image.Rebuild | code/Image.java:212-229 | the first w * h entries of both buffers hold the programme over the energy map; later entries are unchanged |
| Engine.Image.LaterRows | code/Image.java:220-228 | the outer loop fills rows 1 to h - 1 of both buffers from row 0 |
| Engine.Image.LaterRow | code/Image.java:221-227 | one outer pass adds row i of the programme to the filled prefix |
| Engine.Image.RowPass | code/Image.java:222-227 | one row's searches write exactly that row of the programme |
| Engine.Image.InteriorPass | code/Image.java:222-224 | the inner loop writes the row's cells except its two edges |
| Engine.Image.SearchAt | code/Image.java:223-227 | one neighbour search writes one more cell of the row |
| Engine.Image.FindSeam | code/Image.java:184-210 | returns the seam of the current energy map and leaves the programme in the buffers |
| Engine.Image.SeamBottom | code/Image.java:187-195 | the scan of the last row stops at the seam's last entry |
| Engine.Image.ScanLastRow | code/Image.java:187-195 | the flat index of the first least accumulated energy of the last row, or 0 when none is below Integer.MAX_VALUE |
| Engine.Image.FollowSeam | code/Image.java:196-209 | both backtrack loops fill the array with the seam |
| Engine.Image.Narrow | code/Image.java:99-102 | one pass of the loop is `Step` on the state, and the invariant holds |
| Engine.Image.ResizeHorizontally | code/Image.java:97-103 | after the loop the width is `w0 - count` (`w0` for a negative count, which makes no pass), the height is unchanged, and the state is `Steps` of the old state over that many passes |
| Engine.Image.NormalizeEnergy | code/Image.java:325-334 | a fresh w * h buffer holding each energy's shade packed in all three channels |
| Engine.Image.CopyColours | code/Image.java:337-338 | a fresh copy of the first w * h colour samples |
| Engine.Image.RankStarts | code/Image.java:341-348 | `topSeamStart`, built over the last row and sorted |
| Engine.Image.PaintTrail | code/Image.java:354-357 | the inner loop paints exactly the cells of one trail red |
| Engine.Image.PaintTrails | code/Image.java:350-358 | the outer loop paints exactly the cells of the first `min(n, width)` trails red |
| Engine.Image.HighlightNSeams | code/Image.java:336-361 | the result is the colour image with exactly the picked trails painted `0xFF0000`; the colour, grey and energy buffers are not modified |

## Left out

- Image input and output, display and the command line (`extractImagedata`,
  `arrayToImage`, `writeImage`, the display methods, `toJlabel`, `main`) and
  the progress output of the resize loop. This is library plumbing. The
  constructor takes the decoded samples as a sequence of packed RGB values.
- Engine.Image.ResizeHorizontally: takes the number of seams as an integer.
  The percentage and its `double` product (line 95) are not modelled.
  `count <= width - 1` is a precondition, because the code does not check it
  (for images of two or more rows, a larger count reaches a rebuild at width 1).
- Engine.Image.ResizeHorizontally: returns nothing. The `BufferedImage` it
  builds from the colour buffer is I/O. Likewise `HighlightNSeams` and
  `NormalizeEnergy` return the buffers the source turns into images.
- Pixels.Luminance: uses the weights as exact decimals with truncation. The
  source sums `double` products, so on inputs whose exact luminance is an
  integer its grey level can be one lower than the model's: (0, 72, 24) has
  luminance exactly 45, while the `double` sum lies just below 45 and truncates
  to 44. Grey inputs (r = g = b) are not affected, since 0.9999 * g is never
  within rounding distance of an integer for 0 < g < 256, so
  `Pixels.GreyDarkens` and `Pixels.GreyConversionDarkens` hold for the source's
  arithmetic too. Only the packing of the grey value is modelled exactly.
- Sobel.Isqrt: stands in for `Math.sqrt` and the `int` cast. The kernel sums are
  exact integers, and the square root is the exact integer square root,
  without IEEE rounding.
- Ranking.Ranked: an insertion sort stands in for `Arrays.sort`. It states
  only the documented result, a stable sort by accumulated energy.
- Engine.Good: requires `height * 1442 < Integer.MAX_VALUE`, so no 32-bit
  accumulated energy overflows. Taller images are not modelled.
- Engine.Image.Rebuild: requires `width >= 2`, and so do `FindSeam` and
  `HighlightNSeams`. For images of two or more rows, the edge searches of lines
  226-227 at width 1 read outside the row above (index -1 in row 1).
- Engine.Image.ResizeHorizontally: one-row images at width 1 are not modelled.
  With `height == 1`, rebuild's row loop (line 220) does not run, and
  `removeSeam` and `fixEnergyImage` have empty ranges. So the source can take a
  one-row image from width 1 to width 0 without an exception. The model
  requires `width >= 2` for every pass, for every height, because its
  programme is stated over rows at least two columns wide.
- Engine.Image.FindPos: models the `IllegalStateException` as "nothing is
  written, `found` is false". `Seams.ChoiceMinimal` proves that the throw is
  unreachable for the maps the engine builds.
- Seams.Seam: when the scan of the last row finds nothing (`SeamStart` is -1),
  every entry of the seam is flat index 0. In `findSeam` this comes from the
  initial `min_energy_path = 0` and from `back[0] = 0`. Such a seam is not one
  cell per row. `Seams.SeamEnd` proves that the case is unreachable under
  `Costs`, which every map the engine builds satisfies.
- Sobel.FixEnergyImage: no claim is made that the repaired map equals a full
  Sobel recomputation of the narrower image. The code repairs only two cells
  per row, and other cells' neighbourhoods change too when the seam is
  diagonal.
