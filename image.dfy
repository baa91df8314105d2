/**
 * The image engine (class `Image`): the logical width and height and five
 * flat row-major buffers allocated once at the first width, of which the
 * first width * height entries are in use. Each resize step finds the
 * cheapest seam of the energy map, removes it from the colour, grey and
 * energy buffers, repairs the energy beside it and narrows the image by one.
 */
module Engine {
  import opened Grid
  import opened Pixels
  import opened Sobel
  import opened Seams
  import opened Carving
  import opened Ranking
  import opened Trails

  /** The colour `highlightNSeams` paints seams with, `0xff << 16`. */
  const Highlight: int := 0xFF_0000

  /** The rows of `horizontalAccumulatedEnergy` once the programme has run. */
  function AccRows(g: seq<seq<int>>, w: int): (rows: seq<seq<int>>)
    requires Shape(g, w)
    ensures |rows| == |g| && Uniform(rows, w)
  {
    seq(|g|, r requires 0 <= r < |g| => AccRow(g, w, r))
  }

  /** Row r of `horizontal_dp_backtrack` once the programme has run. */
  function BackRow(g: seq<seq<int>>, w: int, r: int): (row: seq<int>)
    requires Shape(g, w) && 0 <= r < |g|
    ensures |row| == w
  {
    seq(w, c requires 0 <= c < w => BackAt(g, w, r, c))
  }

  /** The rows of `horizontal_dp_backtrack` once the programme has run. */
  function BackRows(g: seq<seq<int>>, w: int): (rows: seq<seq<int>>)
    requires Shape(g, w)
    ensures |rows| == |g| && Uniform(rows, w)
  {
    seq(|g|, r requires 0 <= r < |g| => BackRow(g, w, r))
  }

  /** The flat contents of `horizontalAccumulatedEnergy` once the programme has run. */
  function AccFlat(g: seq<seq<int>>, w: int): seq<int>
    requires Shape(g, w)
  {
    Concat(AccRows(g, w))
  }

  /** The flat contents of `horizontal_dp_backtrack` once the programme has run. */
  function BackFlat(g: seq<seq<int>>, w: int): seq<int>
    requires Shape(g, w)
  {
    Concat(BackRows(g, w))
  }

  /** The flat buffers hold cell (r, c) of the programme at r * w + c. */
  lemma FlatAt(g: seq<seq<int>>, w: int, r: int, c: int)
    requires Shape(g, w) && 0 <= r < |g| && 0 <= c < w
    ensures |AccFlat(g, w)| == |g| * w && |BackFlat(g, w)| == |g| * w
    ensures r * w + c < |g| * w
    ensures AccFlat(g, w)[r * w + c] == AccAt(g, w, r, c)
    ensures BackFlat(g, w)[r * w + c] == BackAt(g, w, r, c)
  {
    ConcatLength(AccRows(g, w), w);
    ConcatLength(BackRows(g, w), w);
    ConcatAt(AccRows(g, w), w, r, c);
    ConcatAt(BackRows(g, w), w, r, c);
  }

  /** Every backtrack entry is a flat index of the grid. */
  lemma BackInside(g: seq<seq<int>>, w: int, t: int)
    requires Shape(g, w) && 0 <= t < |g| * w
    ensures |BackFlat(g, w)| == |g| * w && 0 <= BackFlat(g, w)[t] < |g| * w
  {
    IndexCell(t, w, |g|);
    var r, c := t / w, t % w;
    FlatAt(g, w, r, c);
    if r > 0 {
      CellInside(r - 1, ChoiceCol(g, w, r, c), w, |g|);
    } else {
      MulMonotone(1, |g|, w);
    }
  }

  /** The energy map of the first w * h entries of a buffer whose energies lie in [0, MaxEnergy]. */
  lemma MapCosts(e: seq<int>, w: int, h: int)
    requires 2 <= w && 1 <= h && w * h <= |e| && h * MaxEnergy < IntMax
    requires forall t :: 0 <= t < w * h ==> 0 <= e[t] <= MaxEnergy
    ensures Costs(Rows(e, w, h), w)
  {
    var g := Rows(e, w, h);
    forall r, c | 0 <= r < h && 0 <= c < w
      ensures 0 <= g[r][c] <= MaxEnergy
    {
      RowsAt(e, w, h, r, c);
    }
  }

  /** The seam of a map satisfying `Costs` has one cell in every row. */
  lemma SeamInRows(g: seq<seq<int>>, w: int)
    requires Costs(g, w)
    ensures InRows(Seam(g, w), w, |g|)
  {
    SeamEnd(g, w);
  }

  /**
   * Following the backtrack from the seam cell of row i >= 1 leads to the seam
   * cell of row i - 1: the two passes of `findSeam` compute the same seam.
   */
  lemma SeamBack(g: seq<seq<int>>, w: int, i: int)
    requires Costs(g, w) && 1 <= i < |g|
    ensures var s := Seam(g, w);
      0 <= s[i] < |g| * w && |BackFlat(g, w)| == |g| * w && BackFlat(g, w)[s[i]] == s[i - 1]
  {
    var c := SeamStepBack(g, w, i);
    CellInside(i, c, w, |g|);
    FlatAt(g, w, i, c);
  }

  /** Entry i of the last row of the flat programme, read from a buffer holding it. */
  lemma LastRowAt(g: seq<seq<int>>, w: int, h: int, a: seq<int>, lastBase: int, i: int)
    requires Shape(g, w) && |g| == h && w * h <= |a| && a[..w * h] == AccFlat(g, w)
    requires lastBase == h * w - w && lastBase <= i < h * w
    ensures a[i] == LastRow(g, w)[i - lastBase]
  {
    assert lastBase == (h - 1) * w && h * w == w * h;
    FlatAt(g, w, h - 1, i - lastBase);
    assert a[..w * h][i] == a[i];
  }

  /** One more value in a scan: the scan keeps its pick unless the new value is strictly smaller. */
  lemma ScanMinNext(vals: seq<int>, n: nat)
    requires n < |vals|
    ensures var p := ScanMin(vals, n);
      ScanMin(vals, n + 1) == if vals[n] < p.value then Pick(vals[n], n) else p
  { }

  /** The seam ends in the cell of the last row where the scan of `findSeam` stops. */
  lemma SeamLast(g: seq<seq<int>>, w: int, h: int)
    requires Costs(g, w) && |g| == h
    ensures var k := ScanMin(LastRow(g, w), w).index;
      0 <= k < w && Seam(g, w)[h - 1] == h * w - w + k
  {
    SeamEnd(g, w);
    assert (h - 1) * w == h * w - w;
  }

  /** One step of the backtrack up the seam, read from a buffer holding the flat backtrack. */
  lemma BackAlong(g: seq<seq<int>>, w: int, h: int, b: seq<int>, i: int)
    requires Costs(g, w) && |g| == h && 1 <= i < h && w * h <= |b| && b[..w * h] == BackFlat(g, w)
    ensures var s := Seam(g, w); 0 <= s[i] < |b| && b[s[i]] == s[i - 1]
  {
    SeamBack(g, w, i);
    var s := Seam(g, w);
    assert h * w == w * h;
    assert b[..w * h][s[i]] == b[s[i]];
  }

  /**
   * A normalised energy is a grey sample: each of its three channels is the
   * energy, capped at 255.
   */
  lemma NormalizedShade(e: int)
    requires 0 <= e
    ensures var s := if e < 255 then e else 255;
      Red(Pack(Shade(e))) == s && Green(Pack(Shade(e))) == s && Blue(Pack(Shade(e))) == s
  {
    PackChannels(Shade(e));
  }

  /** `width * (height - 1)`, the flat index where the last row starts. */
  lemma LastBaseValue(w: int, h: int)
    ensures w * (h - 1) == h * w - w
  {
  }

  /** Every cell of a trail is a flat index of the grid, in its own row. */
  lemma TrailInside(g: seq<seq<int>>, w: int, h: int, k: int, r: int)
    requires Shape(g, w) && |g| == h && 0 <= k < w && 0 <= r < h
    ensures r * w <= Trail(g, w, k)[r] < r * w + w && 0 <= Trail(g, w, k)[r] < w * h
  {
    var cols := SeamCols(g, w, h - 1, k);
    CellInside(r, cols[r], w, h);
  }

  /**
   * Following the backtrack from the cell of row r >= 1 of a trail leads to
   * its cell of row r - 1, read from a buffer holding the flat backtrack.
   */
  lemma TrailBack(g: seq<seq<int>>, w: int, h: int, b: seq<int>, k: int, r: int)
    requires Shape(g, w) && |g| == h && 0 <= k < w && 1 <= r < h
    requires w * h <= |b| && b[..w * h] == BackFlat(g, w)
    ensures var s := Trail(g, w, k); 0 <= s[r] < |b| && b[s[r]] == s[r - 1]
  {
    TrailBackFlat(g, w, k, r);
    var s := Trail(g, w, k);
    assert h * w == w * h;
    assert b[..w * h][s[r]] == b[s[r]];
  }

  /** The same step on the flat backtrack of the programme. */
  lemma TrailBackFlat(g: seq<seq<int>>, w: int, k: int, r: int)
    requires Shape(g, w) && 0 <= k < w && 1 <= r < |g|
    ensures var s := Trail(g, w, k);
      0 <= s[r] < |g| * w && |BackFlat(g, w)| == |g| * w && BackFlat(g, w)[s[r]] == s[r - 1]
  {
    var cols := SeamCols(g, w, |g| - 1, k);
    SeamColsStep(g, w, |g| - 1, k, r);
    var c := cols[r];
    CellInside(r, c, w, |g|);
    FlatAt(g, w, r, c);
    assert Trail(g, w, k)[r - 1] == (r - 1) * w + ChoiceCol(g, w, r, c);
  }

  /** What a resize step reads and writes: the width and height and the three pixel buffers. */
  datatype Picture = Picture(width: int, height: int, rgb: seq<int>, bw: seq<int>, energy: seq<int>)

  /**
   * The invariant of the engine's state: buffers of one length holding a
   * width-by-height grid, energies in [0, MaxEnergy], and few enough rows
   * that no accumulated energy overflows.
   */
  predicate Good(p: Picture)
  {
    1 <= p.width && 1 <= p.height && p.width * p.height <= |p.energy| &&
    |p.rgb| == |p.energy| && |p.bw| == |p.energy| && p.height * MaxEnergy < IntMax &&
    forall t :: 0 <= t < p.width * p.height ==> 0 <= p.energy[t] <= MaxEnergy
  }

  /** The seam `findSeam` removes from a picture at least two columns wide. */
  function SeamOf(p: Picture): (s: seq<int>)
    requires Good(p) && 2 <= p.width
    ensures InRows(s, p.width, p.height)
  {
    var g := Rows(p.energy, p.width, p.height);
    MapCosts(p.energy, p.width, p.height);
    SeamInRows(g, p.width);
    Seam(g, p.width)
  }

  /**
   * One pass of the loop of `resizeHorizontally`: remove the seam from the
   * three buffers, then repair the energy at the new width.
   */
  function Step(p: Picture): (q: Picture)
    requires Good(p) && 2 <= p.width
    ensures Good(q) && q.width == p.width - 1 && q.height == p.height && |q.energy| == |p.energy|
    ensures |q.rgb| == |p.rgb| && |q.bw| == |p.bw|
  {
    var w, h, seam := p.width, p.height, SeamOf(p);
    var e, bw := Carve(p.energy, seam, w, h), Carve(p.bw, seam, w, h);
    MulMonotone(w - 1, w, h);
    RepairBounded(p, seam, e, bw, w - 1);
    Picture(w - 1, h, Carve(p.rgb, seam, w, h), bw, Repair(e, bw, seam, w - 1, h))
  }

  /** The energies after a resize step stay in [0, MaxEnergy]. */
  lemma RepairBounded(p: Picture, seam: seq<int>, e: seq<int>, bw: seq<int>, nw: int)
    requires Good(p) && 2 <= p.width && seam == SeamOf(p) && nw == p.width - 1
    requires e == Carve(p.energy, seam, p.width, p.height) && bw == Carve(p.bw, seam, p.width, p.height)
    ensures nw * p.height <= |bw|
    ensures forall t :: 0 <= t < nw * p.height ==> 0 <= Repair(e, bw, seam, nw, p.height)[t] <= MaxEnergy
  {
    var w, h := p.width, p.height;
    MulMonotone(nw, w, h);
    forall t | 0 <= t < nw * h
      ensures 0 <= Repair(e, bw, seam, nw, h)[t] <= MaxEnergy
    {
      var u := Source(seam, w, h, t);
      assert e[t] == p.energy[u];
    }
  }

  /** k passes of the resize loop: the width drops by k, the height stays, the invariant holds. */
  function Steps(p: Picture, k: int): (q: Picture)
    requires Good(p) && 0 <= k <= p.width - 1
    ensures Good(q) && q.width == p.width - k && q.height == p.height && |q.energy| == |p.energy|
    decreases k
  {
    if k == 0 then p else Step(Steps(p, k - 1))
  }

  /** After a resize step every border cell of the narrower energy map holds the sentinel. */
  lemma StepBorder(p: Picture, t: int)
    requires Good(p) && 2 <= p.width && 0 <= t < Step(p).width * p.height
    requires OnBorder(t, p.width - 1, p.height)
    ensures Step(p).energy[t] == Sentinel
  {
  }

  /**
   * The seam a resize step removes is the cheapest one: the chain of columns
   * best from `SeamStart` is a connected path that no connected path cols
   * undercuts, and the seam holds cell best[r] of each row r.
   */
  lemma SeamOfBest(p: Picture, g: seq<seq<int>>, cols: seq<int>)
    requires Good(p) && 2 <= p.width && g == Rows(p.energy, p.width, p.height)
    requires Connected(cols, p.width) && |cols| == p.height
    ensures 0 <= SeamStart(g, p.width) < p.width
    ensures var best := SeamCols(g, p.width, |g| - 1, SeamStart(g, p.width));
      Connected(best, p.width) && PathCost(g, p.width, best) <= PathCost(g, p.width, cols) &&
      SeamOf(p) == Cells(best, p.width)
  {
    MapCosts(p.energy, p.width, p.height);
    SeamBest(g, p.width, cols);
  }

  /**
   * Row r of the narrower colour and grey buffers is row r before without
   * the seam cell of that row.
   */
  lemma StepRow(p: Picture, r: int)
    requires Good(p) && 2 <= p.width && 0 <= r < p.height
    ensures var c, q := SeamOf(p)[r] - r * p.width, Step(p);
      var rgb, bw := Rows(p.rgb, p.width, p.height)[r], Rows(p.bw, p.width, p.height)[r];
      0 <= c < p.width &&
      Rows(q.rgb, q.width, q.height)[r] == rgb[..c] + rgb[c + 1..] &&
      Rows(q.bw, q.width, q.height)[r] == bw[..c] + bw[c + 1..]
  {
    var seam, q := SeamOf(p), Step(p);
    assert q.width == p.width - 1 && q.rgb == Carve(p.rgb, seam, p.width, p.height) && q.bw == Carve(p.bw, seam, p.width, p.height);
    CarveRow(p.rgb, seam, p.width, p.height, r);
    CarveRow(p.bw, seam, p.width, p.height, r);
  }

  /**
   * A resize step removes the cheapest seam: a connected path of one cell per
   * row that no connected path undercuts, cell c_r of row r; row r of the
   * narrower colour and grey buffers is row r before without cell c_r.
   */
  lemma StepRemovesSeam(p: Picture, g: seq<seq<int>>, cols: seq<int>, r: int)
    requires Good(p) && 2 <= p.width && 0 <= r < p.height && g == Rows(p.energy, p.width, p.height)
    requires Connected(cols, p.width) && |cols| == p.height
    ensures 0 <= SeamStart(g, p.width) < p.width
    ensures var best := SeamCols(g, p.width, |g| - 1, SeamStart(g, p.width));
      var q, rgb, bw := Step(p), Rows(p.rgb, p.width, p.height)[r], Rows(p.bw, p.width, p.height)[r];
      Connected(best, p.width) && PathCost(g, p.width, best) <= PathCost(g, p.width, cols) &&
      0 <= best[r] < p.width &&
      Rows(q.rgb, q.width, q.height)[r] == rgb[..best[r]] + rgb[best[r] + 1..] &&
      Rows(q.bw, q.width, q.height)[r] == bw[..best[r]] + bw[best[r] + 1..]
  {
    SeamOfBest(p, g, cols);
    var best := SeamCols(g, p.width, |g| - 1, SeamStart(g, p.width));
    assert SeamOf(p)[r] == r * p.width + best[r];
    StepRow(p, r);
  }

  /**
   * The buffers after one pass of the loop of `resizeHorizontally` (the seam
   * carved out of the three buffers, then the energy repaired) are the
   * picture one step narrower.
   */
  lemma StepIs(p: Picture, seam: seq<int>, rgb: seq<int>, bw: seq<int>, carved: seq<int>, nw: int, e: seq<int>)
    requires Good(p) && 2 <= p.width && seam == SeamOf(p) && nw == p.width - 1
    requires rgb == Carve(p.rgb, seam, p.width, p.height) && bw == Carve(p.bw, seam, p.width, p.height)
    requires carved == Carve(p.energy, seam, p.width, p.height)
    requires (MulMonotone(nw, p.width, p.height); e == Repair(carved, bw, seam, nw, p.height))
    ensures Step(p) == Picture(nw, p.height, rgb, bw, e)
  {
  }

  /** `convertToBw`: the grey sample of each of the first w * h colour samples. */
  method ConvertToBw(rgb: array<int>, w: int, h: int) returns (bw: array<int>)
    requires 0 <= w && 0 <= h && w * h <= rgb.Length
    ensures fresh(bw) && bw.Length == w * h
    ensures forall t :: 0 <= t < w * h ==> bw[t] == GreySample(rgb[t])
  {
    MulMonotone(0, w, h);
    bw := new int[w * h];
    for i := 0 to w * h
      invariant forall t :: 0 <= t < i ==> bw[t] == GreySample(rgb[t])
    {
      bw[i] := GreySample(rgb[i]);
    }
  }

  /**
   * The scan of `findPosOfLowestValueNeightbourInPrevRow` over the first n
   * offsets: starting from Integer.MAX_VALUE, it takes a neighbour's
   * accumulated energy only when it is strictly smaller, and reports the
   * offset index it took last, -1 when it took none.
   */
  function Lowest(a: seq<int>, position: int, w: int, offsets: seq<int>, n: nat): (p: Pick)
    requires n <= |offsets|
    requires forall k :: 0 <= k < |offsets| ==> 0 <= position - w + offsets[k] < |a|
    ensures -1 <= p.index < n
  {
    if n == 0 then Pick(IntMax, -1)
    else
      var p := Lowest(a, position, w, offsets, n - 1);
      var v := a[position - w + offsets[n - 1]];
      if v < p.value then Pick(v, n - 1) else p
  }

  /**
   * `findPosOfLowestValueNeightbourInPrevRow` on the accumulated energies:
   * when the scan finds a neighbour, the cell gets its energy plus the least
   * value; otherwise nothing is written.
   */
  function SearchAcc(a: seq<int>, e: seq<int>, position: int, w: int, offsets: seq<int>): (r: seq<int>)
    requires 0 <= position < |a| && position < |e|
    requires forall k :: 0 <= k < |offsets| ==> 0 <= position - w + offsets[k] < |a|
    ensures |r| == |a|
  {
    var p := Lowest(a, position, w, offsets, |offsets|);
    if p.index == -1 then a else a[position := e[position] + p.value]
  }

  /**
   * `findPosOfLowestValueNeightbourInPrevRow` on the backtrack: when the scan
   * of a finds a neighbour, the cell gets the flat index of that neighbour;
   * otherwise nothing is written.
   */
  function SearchBack(a: seq<int>, b: seq<int>, position: int, w: int, offsets: seq<int>): (r: seq<int>)
    requires 0 <= position < |b|
    requires forall k :: 0 <= k < |offsets| ==> 0 <= position - w + offsets[k] < |a|
    ensures |r| == |b|
  {
    var p := Lowest(a, position, w, offsets, |offsets|);
    if p.index == -1 then b else b[position := position - w + offsets[p.index]]
  }

  /** Whether the buffers are long enough for a pass over the row starting at base. */
  predicate Passable(a: seq<int>, b: seq<int>, e: seq<int>, base: int, w: int)
  {
    2 <= w <= base && base + w <= |a| && |a| == |b| == |e|
  }

  /** The w entries below flat index base hold the row prev. */
  predicate Below(a: seq<int>, base: int, w: int, prev: seq<int>)
  {
    |prev| == w && 0 <= w <= base <= |a| && forall k :: 0 <= k < w ==> a[base - w + k] == prev[k]
  }

  class Image {
    var width: int
    var height: int
    const rgb: array<int>
    const energy: array<int>
    const bw: array<int>
    const acc: array<int>
    const back: array<int>

    /** The state a resize step works on. */
    ghost function Snapshot(): Picture
      reads this, rgb, bw, energy
    {
      Picture(width, height, rgb[..], bw[..], energy[..])
    }

    /** The five buffers are distinct and the two programme buffers as long as the energy buffer. */
    ghost predicate Distinct()
    {
      acc.Length == energy.Length && back.Length == energy.Length &&
      rgb != energy && rgb != bw && rgb != acc && rgb != back && energy != bw &&
      energy != acc && energy != back && bw != acc && bw != back && acc != back
    }

    ghost predicate Valid()
      reads this, rgb, bw, energy
    {
      Good(Snapshot()) && Distinct()
    }

    /** The energy map in use, cut into rows. */
    ghost function Map(): (g: seq<seq<int>>)
      reads this, rgb, bw, energy
      requires Valid()
      ensures |g| == height
    {
      Rows(energy[..], width, height)
    }

    /**
     * `Image(BufferedImage)`: the decoded pixels, their grey image and its
     * Sobel energy map; the two programme buffers are allocated alongside.
     */
    constructor (pixels: seq<int>, w: int, h: int)
      requires 1 <= w && 1 <= h && |pixels| == w * h && h * MaxEnergy < IntMax
      ensures Valid() && width == w && height == h
      ensures fresh(rgb) && fresh(bw) && fresh(energy) && fresh(acc) && fresh(back)
      ensures rgb[..] == pixels && rgb.Length == w * h
      ensures forall t :: 0 <= t < w * h ==> bw[t] == GreySample(pixels[t])
      ensures forall t :: 0 <= t < w * h ==> energy[t] == EnergyAt(bw[..], w, h, t)
    {
      width := w;
      height := h;
      var colours := new int[w * h](t requires 0 <= t < w * h => pixels[t]);
      rgb := colours;
      acc := new int[w * h];
      back := new int[w * h];
      var grey := ConvertToBw(colours, w, h);
      bw := grey;
      var sobel := RunSobelEdgeDetection(grey, w, h);
      energy := sobel;
      assert colours[..] == pixels;
    }

    /**
     * `findPosOfLowestValueNeightbourInPrevRow`: scans the cells of the row
     * above at the given offsets for the first least accumulated energy. When
     * it finds one (`found`) the cell gets its own energy plus that value and
     * records where it came from; when every candidate is Integer.MAX_VALUE the
     * source throws and nothing is written.
     */
    method FindPos(position: int, offsets: seq<int>) returns (found: bool)
      requires acc != back && acc != energy && back != energy
      requires 0 <= position < acc.Length && position < back.Length && position < energy.Length
      requires forall k :: 0 <= k < |offsets| ==> 0 <= position - width + offsets[k] < acc.Length
      modifies acc, back
      ensures found == (Lowest(old(acc[..]), position, width, offsets, |offsets|).index != -1)
      ensures acc[..] == SearchAcc(old(acc[..]), energy[..], position, width, offsets)
      ensures back[..] == SearchBack(old(acc[..]), old(back[..]), position, width, offsets)
    {
      ghost var a := acc[..];
      var minEnergy := IntMax;
      var minPrevious := -1;
      for k := 0 to |offsets|
        invariant var p := Lowest(a, position, width, offsets, k);
          minEnergy == p.value && minPrevious == if p.index == -1 then -1 else position - width + offsets[p.index]
      {
        var previous := position - width + offsets[k];
        if acc[previous] < minEnergy {
          minEnergy := acc[previous];
          minPrevious := previous;
        }
      }
      if minPrevious < 0 {
        return false;
      }
      acc[position] := energy[position] + minEnergy;
      back[position] := minPrevious;
      found := true;
    }

    /**
     * `rebuildAccumulatedEnergyMatrix`: the programme over the energy map in
     * use, row 0 copied from the energies, each later row from the one above;
     * entries past the grid keep their values.
     */
    method Rebuild()
      requires Valid() && 2 <= width
      modifies acc, back
      ensures width * height <= acc.Length
      ensures acc[..width * height] == AccFlat(Map(), width)
      ensures back[..width * height] == BackFlat(Map(), width)
      ensures acc[width * height..] == old(acc[width * height..])
      ensures back[width * height..] == old(back[width * height..])
    {
      ghost var g, w, h, e := Map(), width, height, energy[..];
      MapCosts(e, w, h);
      ghost var accs, backs := AccRows(g, w), BackRows(g, w);
      ghost var n := w * h;
      MulMonotone(1, h, w);
      forall t | 0 <= t < width {
        acc[t] := energy[t];
      }
      ghost var copied := acc[..];
      assert energy[..] == e;
      for t := 0 to width
        invariant acc[..] == copied && energy[..] == e
        invariant forall s :: 0 <= s < t ==> back[s] == s
        invariant back[width..] == old(back[width..])
      {
        back[t] := t;
      }
      FirstRow(acc[..], back[..], e, g, w, h);
      LaterRows(g);
    }

    /**
     * The outer loop of `rebuildAccumulatedEnergyMatrix`: with row 0 of the
     * programme in place, each later row is computed from the one above.
     */
    method LaterRows(ghost g: seq<seq<int>>)
      requires acc != back && acc != energy && back != energy
      requires acc.Length == energy.Length && back.Length == energy.Length
      requires 2 <= width && 1 <= height && width * height <= energy.Length
      requires g == Rows(energy[..], width, height) && Costs(g, width)
      requires acc[..width] == Concat(AccRows(g, width)[..1]) && back[..width] == Concat(BackRows(g, width)[..1])
      modifies acc, back
      ensures acc[..width * height] == AccFlat(g, width) && back[..width * height] == BackFlat(g, width)
      ensures acc[width * height..] == old(acc[width * height..])
      ensures back[width * height..] == old(back[width * height..])
    {
      ghost var e := energy[..];
      ghost var n := width * height;
      MulMonotone(1, height, width);
      var i := 1;
      while i < height
        invariant 1 <= i <= height && i * width <= n && energy[..] == e
        invariant acc[..i * width] == Concat(AccRows(g, width)[..i]) && back[..i * width] == Concat(BackRows(g, width)[..i])
        invariant acc[n..] == old(acc[n..]) && back[n..] == old(back[n..])
      {
        LaterRow(g, i);
        i := i + 1;
      }
      assert AccRows(g, width)[..height] == AccRows(g, width) && BackRows(g, width)[..height] == BackRows(g, width);
    }

    /** One pass of the outer loop of `rebuildAccumulatedEnergyMatrix`: row i of both programmes. */
    method LaterRow(ghost g: seq<seq<int>>, i: int)
      requires acc != back && acc != energy && back != energy
      requires acc.Length == energy.Length && back.Length == energy.Length
      requires 2 <= width && 1 <= i < height && width * height <= energy.Length
      requires g == Rows(energy[..], width, height) && Costs(g, width)
      requires acc[..i * width] == Concat(AccRows(g, width)[..i]) && back[..i * width] == Concat(BackRows(g, width)[..i])
      modifies acc, back
      ensures (i + 1) * width <= width * height
      ensures acc[..(i + 1) * width] == Concat(AccRows(g, width)[..i + 1])
      ensures back[..(i + 1) * width] == Concat(BackRows(g, width)[..i + 1])
      ensures acc[width * height..] == old(acc[width * height..])
      ensures back[width * height..] == old(back[width * height..])
    {
      ghost var a, b := acc[..], back[..];
      ghost var accs, backs := AccRows(g, width), BackRows(g, width);
      RowStep(a, b, energy[..], g, width, height, i);
      RowPass(i * width, accs[i - 1], accs[i], backs[i]);
    }

    /**
     * The two loops of `rebuildAccumulatedEnergyMatrix` over the row that
     * starts at heightBase, with the row prev of the programme below it: the
     * interior cells, then the two edges. The pass writes the row and brow
     * that the neighbour searches compute into that row and nothing else.
     */
    method RowPass(heightBase: int, ghost prev: seq<int>, ghost row: seq<int>, ghost brow: seq<int>)
      requires acc != back && acc != energy && back != energy
      requires acc.Length == energy.Length && back.Length == energy.Length
      requires 2 <= width <= heightBase && heightBase + width <= acc.Length
      requires Below(acc[..], heightBase, width, prev) && RowFrom(prev, energy[..], heightBase, width, row, brow)
      modifies acc, back
      ensures acc[..] == Overlay(old(acc[..]), heightBase, row, 0, width)
      ensures back[..] == Overlay(old(back[..]), heightBase, brow, 0, width)
    {
      ghost var a, b := acc[..], back[..];
      InteriorPass(heightBase, prev, row, brow);
      SearchAt(heightBase, 0, heightBase, 1, width - 1, 0, width - 1, a, b, prev, row, brow);
      SearchAt(heightBase, width - 1, heightBase + width - 1, 0, width - 1, 0, width, a, b, prev, row, brow);
    }

    /** The inner loop of `rebuildAccumulatedEnergyMatrix`: the cells of the row but its two edges. */
    method InteriorPass(heightBase: int, ghost prev: seq<int>, ghost row: seq<int>, ghost brow: seq<int>)
      requires acc != back && acc != energy && back != energy
      requires acc.Length == energy.Length && back.Length == energy.Length
      requires 2 <= width <= heightBase && heightBase + width <= acc.Length
      requires Below(acc[..], heightBase, width, prev) && RowFrom(prev, energy[..], heightBase, width, row, brow)
      modifies acc, back
      ensures acc[..] == Overlay(old(acc[..]), heightBase, row, 1, width - 1)
      ensures back[..] == Overlay(old(back[..]), heightBase, brow, 1, width - 1)
    {
      ghost var a, b, e := acc[..], back[..], energy[..];
      OverlayNone(a, heightBase, row, 1);
      OverlayNone(b, heightBase, brow, 1);
      var j := 1;
      while j < width - 1
        invariant 1 <= j <= width - 1 && energy[..] == e
        invariant acc[..] == Overlay(a, heightBase, row, 1, j)
        invariant back[..] == Overlay(b, heightBase, brow, 1, j)
      {
        SearchAt(heightBase, j, heightBase + j, 1, j, 1, j + 1, a, b, prev, row, brow);
        j := j + 1;
      }
    }

    /**
     * The neighbour search of column c of the row starting at heightBase,
     * once the columns lo .. hi - 1 of the row are written over a and b:
     * the columns nlo .. nhi - 1 are then written.
     */
    method SearchAt(heightBase: int, c: int, position: int, lo: int, hi: int, nlo: int, nhi: int,
                    ghost a: seq<int>, ghost b: seq<int>, ghost prev: seq<int>, ghost row: seq<int>, ghost brow: seq<int>)
      requires acc != back && acc != energy && back != energy
      requires Passable(a, b, energy[..], heightBase, width) && Below(a, heightBase, width, prev)
      requires RowFrom(prev, energy[..], heightBase, width, row, brow)
      requires 0 <= lo <= hi <= width && 0 <= c < width && position == heightBase + c
      requires (c == hi && nlo == lo && nhi == hi + 1) || (c + 1 == lo && nlo == c && nhi == hi)
      requires acc[..] == Overlay(a, heightBase, row, lo, hi) && back[..] == Overlay(b, heightBase, brow, lo, hi)
      modifies acc, back
      ensures acc[..] == Overlay(a, heightBase, row, nlo, nhi) && back[..] == Overlay(b, heightBase, brow, nlo, nhi)
    {
      SearchCell(a, b, energy[..], heightBase, width, c, position, lo, hi, nlo, nhi, prev, row, brow);
      var found := FindPos(position, Offsets(c, width));
    }

    /**
     * `findSeam`: runs the programme, takes the first cell of the last row
     * with the least accumulated energy and follows the backtrack up to the
     * first row, twice, with the same result.
     */
    method FindSeam() returns (seam: array<int>)
      requires Valid() && 2 <= width
      modifies acc, back
      ensures Valid() && width * height <= acc.Length
      ensures fresh(seam) && seam[..] == Seam(Map(), width)
      ensures acc[..width * height] == AccFlat(Map(), width)
      ensures back[..width * height] == BackFlat(Map(), width)
    {
      Rebuild();
      ghost var g := Map();
      MapCosts(energy[..], width, height);
      var minEnergyPath := SeamBottom(g);
      seam := FollowSeam(g, minEnergyPath);
    }

    /**
     * The scan of the last row in `findSeam`: the flat index of its first
     * cell with the least accumulated energy, where the seam ends.
     */
    method SeamBottom(ghost g: seq<seq<int>>) returns (minEnergyPath: int)
      requires Costs(g, width) && |g| == height
      requires width * height <= acc.Length && acc[..width * height] == AccFlat(g, width)
      ensures minEnergyPath == Seam(g, width)[height - 1]
    {
      ghost var last := LastRow(g, width);
      SeamLast(g, width, height);
      ghost var lastBase := height * width - width;
      forall k | 0 <= k < width
        ensures acc[lastBase + k] == last[k]
      {
        LastRowAt(g, width, height, acc[..], lastBase, lastBase + k);
      }
      minEnergyPath := ScanLastRow(last);
    }

    /**
     * The scan itself, over the last width entries of the accumulated
     * energy, which hold last: the flat index of the first least entry, or 0
     * when every entry is at least Integer.MAX_VALUE.
     */
    method ScanLastRow(ghost last: seq<int>) returns (minEnergyPath: int)
      requires |last| == width <= height * width <= acc.Length
      requires forall k :: 0 <= k < width ==> acc[height * width - width + k] == last[k]
      ensures var p := ScanMin(last, width);
        minEnergyPath == if p.index == -1 then 0 else height * width - width + p.index
    {
      minEnergyPath := 0;
      var minEnergyValue := IntMax;
      ghost var lastBase := height * width - width;
      var i := height * width - width;
      ghost var k := 0;
      while i < height * width
        invariant lastBase <= i <= height * width && k == i - lastBase
        invariant var p := ScanMin(last, k);
          minEnergyValue == p.value && minEnergyPath == if p.index == -1 then 0 else lastBase + p.index
      {
        ScanMinNext(last, k);
        if acc[i] < minEnergyValue {
          minEnergyPath := i;
          minEnergyValue := acc[i];
        }
        i, k := i + 1, k + 1;
      }
    }

    /**
     * The two backtracking loops of `findSeam`: from the seam's cell in the
     * last row up to the first row along the backtrack, once filling the
     * seam from entry i to entry i - 1, once again from entry i + 1 to entry
     * i; both give the seam.
     */
    method FollowSeam(ghost g: seq<seq<int>>, minEnergyPath: int) returns (seam: array<int>)
      requires Costs(g, width) && |g| == height
      requires width * height <= back.Length && back[..width * height] == BackFlat(g, width)
      requires minEnergyPath == Seam(g, width)[height - 1]
      ensures fresh(seam) && seam[..] == Seam(g, width)
    {
      ghost var s := Seam(g, width);
      seam := new int[height];
      seam[height - 1] := minEnergyPath;
      var i := seam.Length - 1;
      while i > 0
        invariant 0 <= i <= height - 1
        invariant forall k :: i <= k < height ==> seam[k] == s[k]
        modifies seam
      {
        BackAlong(g, width, height, back[..], i);
        seam[i - 1] := back[seam[i]];
        i := i - 1;
      }
      seam[height - 1] := minEnergyPath;
      i := height - 2;
      while i > -1
        invariant -1 <= i <= height - 2
        invariant seam[..] == s
        modifies seam
      {
        BackAlong(g, width, height, back[..], i + 1);
        seam[i] := back[seam[i + 1]];
        i := i - 1;
      }
    }

    /** The number of passes `resizeHorizontally` makes for `count` seams: none when count is negative. */
    static function Passes(count: int): (k: nat)
      ensures count <= 0 ==> k == 0
      ensures 0 <= count ==> k == count
    {
      if count < 0 then 0 else count
    }

    /**
     * The loop of `resizeHorizontally` for `count` seams: each pass narrows
     * the image by one seam, and a negative count makes no pass.
     */
    method ResizeHorizontally(count: int)
      requires Valid() && count <= width - 1
      modifies this, rgb, bw, energy, acc, back
      ensures Valid() && width == old(width) - Passes(count) && height == old(height)
      ensures Snapshot() == Steps(old(Snapshot()), Passes(count))
    {
      ghost var start := Snapshot();
      assert Steps(start, 0) == start;
      var i := 0;
      while i < count
        invariant 0 <= i <= Passes(count)
        invariant Valid() && width == old(width) - i && height == old(height)
        invariant Snapshot() == Steps(start, i)
      {
        Narrow();
        i := i + 1;
      }
      assert i == Passes(count);
    }

    /**
     * One pass of the loop of `resizeHorizontally`: find the seam, remove it
     * from the three buffers, repair the energy at the new width and narrow
     * the image by one column.
     */
    method Narrow()
      requires Valid() && 2 <= width
      modifies this, rgb, bw, energy, acc, back
      ensures height == old(height) && Valid() && Snapshot() == Step(old(Snapshot()))
    {
      ghost var p := Snapshot();
      var seam := FindSeam();
      assert seam[..] == SeamOf(p);
      RemoveSeam(seam[..], energy, rgb, bw, width, height);
      ghost var carved := energy[..];
      var narrower := width - 1;
      MulMonotone(narrower, width, height);
      FixEnergyImage(seam[..], bw, energy, narrower, height);
      StepIs(p, seam[..], rgb[..], bw[..], carved, narrower, energy[..]);
      width := narrower;
    }

    /**
     * `normalizeEnergy`: the energy map as a grey image, each energy shown
     * as its shade in all three channels.
     */
    method NormalizeEnergy() returns (normalized: array<int>)
      requires Valid()
      ensures fresh(normalized) && normalized.Length == width * height
      ensures forall t :: 0 <= t < width * height ==> normalized[t] == Pack(Shade(energy[t]))
    {
      MulMonotone(0, width, height);
      normalized := new int[width * height];
      for i := 0 to width * height
        invariant forall t :: 0 <= t < i ==> normalized[t] == Pack(Shade(energy[t]))
      {
        var normalizedValue := LastByte(if 255 < energy[i] then 255 else energy[i]);
        normalized[i] := Pack(normalizedValue);
      }
    }

    /**
     * `highlightNSeams`: a copy of the colour image in which the trails of
     * the first min(n, width) cells of the ranking of the last row are
     * painted red, after the programme is rebuilt; the colour, grey and
     * energy buffers stay as they are.
     */
    method HighlightNSeams(n: int) returns (highlighted: array<int>)
      requires Valid() && 2 <= width
      modifies acc, back
      ensures fresh(highlighted) && highlighted.Length == width * height
      ensures acc[..width * height] == AccFlat(Map(), width)
      ensures back[..width * height] == BackFlat(Map(), width)
      ensures forall t :: 0 <= t < width * height ==>
        highlighted[t] == if Painted(Map(), width, Picks(Map(), width, n), t) then Highlight else rgb[t]
    {
      highlighted := CopyColours();
      Rebuild();
      ghost var g := Map();
      MapCosts(energy[..], width, height);
      var ranked := RankStarts(g);
      PaintTrails(highlighted, g, ranked, n);
    }

    /** The copy of the first width * height colour samples `highlightNSeams` paints on. */
    method CopyColours() returns (copy: array<int>)
      requires Valid()
      ensures fresh(copy) && copy.Length == width * height
      ensures forall t :: 0 <= t < width * height ==> copy[t] == rgb[t]
    {
      MulMonotone(0, width, height);
      copy := new int[width * height];
      for t := 0 to width * height
        invariant forall u :: 0 <= u < t ==> copy[u] == rgb[u]
      {
        copy[t] := rgb[t];
      }
    }

    /**
     * `topSeamStart`: the pairs of a flat index of the last row and its
     * accumulated energy, in column order, then sorted by energy.
     */
    method RankStarts(ghost g: seq<seq<int>>) returns (ranked: seq<Start>)
      requires Shape(g, width) && |g| == height
      requires width * height <= acc.Length && acc[..width * height] == AccFlat(g, width)
      ensures ranked == TopSeamStarts(g, width)
    {
      ghost var vals, base := LastRow(g, width), LastBase(g, width);
      LastBaseValue(width, height);
      var topSeamStart: seq<Start> := [];
      for i := 0 to width
        invariant topSeamStart == Starts(vals[..i], base)
      {
        var arrayPos := width * (height - 1) + i;
        LastRowAt(g, width, height, acc[..], height * width - width, arrayPos);
        StartsNext(vals, base, i);
        topSeamStart := topSeamStart + [Start(arrayPos, acc[arrayPos])];
      }
      assert vals[..width] == vals;
      ranked := Ranked(topSeamStart);
    }

    /** The outer loop of `highlightNSeams` over the first min(n, width) pairs of the ranking. */
    method PaintTrails(highlighted: array<int>, ghost g: seq<seq<int>>, ranked: seq<Start>, n: int)
      requires highlighted != back
      requires Shape(g, width) && |g| == height && ranked == TopSeamStarts(g, width)
      requires width * height <= back.Length && back[..width * height] == BackFlat(g, width)
      requires highlighted.Length == width * height
      modifies highlighted
      ensures forall t :: 0 <= t < highlighted.Length ==>
        highlighted[t] == if Painted(g, width, Picks(g, width, n), t) then Highlight else old(highlighted[t])
    {
      ghost var ks := Picks(g, width, n);
      ghost var before := highlighted[..];
      var m := if n < width then n else width;
      var i := 0;
      while i < m
        invariant 0 <= i <= |ks| && |ks| == (if m < 0 then 0 else m)
        invariant forall t :: 0 <= t < highlighted.Length ==>
          highlighted[t] == if Painted(g, width, ks[..i], t) then Highlight else before[t]
      {
        var pos := ranked[i].pos;
        PickEnd(g, width, n, i);
        PaintTrail(highlighted, g, ks[i], pos);
        forall t | 0 <= t < highlighted.Length
          ensures Painted(g, width, ks[..i + 1], t) <==> Painted(g, width, ks[..i], t) || OnTrail(g, width, ks[i], t)
        {
          PaintedNext(g, width, ks, i, t);
        }
        i := i + 1;
      }
      assert ks[..i] == ks;
    }

    /** The inner loop of `highlightNSeams`: paints the trail from start up to the first row. */
    method PaintTrail(highlighted: array<int>, ghost g: seq<seq<int>>, ghost k: int, start: int)
      requires highlighted != back
      requires Shape(g, width) && |g| == height && 0 <= k < width
      requires width * height <= back.Length && back[..width * height] == BackFlat(g, width)
      requires highlighted.Length == width * height && start == Trail(g, width, k)[height - 1]
      modifies highlighted
      ensures forall t :: 0 <= t < highlighted.Length ==>
        highlighted[t] == if OnTrail(g, width, k, t) then Highlight else old(highlighted[t])
    {
      ghost var before := highlighted[..];
      ghost var row, lo := height - 1, height;
      var pos := start;
      for j := 0 to height
        invariant row == height - 1 - j && lo == row + 1
        invariant j < height ==> pos == Trail(g, width, k)[row]
        invariant forall t :: 0 <= t < highlighted.Length ==>
          highlighted[t] == if OnTrailFrom(g, width, k, lo, t) then Highlight else before[t]
      {
        TrailInside(g, width, height, k, row);
        highlighted[pos] := Highlight;
        forall t | 0 <= t < highlighted.Length
          ensures OnTrailFrom(g, width, k, row, t) <==> OnTrailFrom(g, width, k, lo, t) || Trail(g, width, k)[row] == t
        {
          OnTrailUp(g, width, k, row, lo, t);
        }
        if 0 < row {
          TrailBack(g, width, height, back[..], k, row);
        }
        pos := back[pos];
        row, lo := row - 1, row;
      }
    }
  }

  /**
   * A neighbour search of column c of the row starting at base, while the w
   * entries below base hold prev, writes the values v and u that `CellFrom`
   * names into that cell and nothing else.
   */
  lemma SearchFound(a: seq<int>, b: seq<int>, e: seq<int>, base: int, w: int, c: int, position: int,
                    prev: seq<int>, v: int, u: int)
    requires Passable(a, b, e, base, w) && 0 <= c < w && position == base + c
    requires Below(a, base, w, prev) && CellFrom(prev, e, base, w, c, v, u)
    ensures SearchAcc(a, e, position, w, Offsets(c, w)) == a[position := v]
    ensures SearchBack(a, b, position, w, Offsets(c, w)) == b[position := u]
  {
    LowestWindow(a, base, w, c, position, prev, |Offsets(c, w)|);
  }

  /**
   * While the columns lo .. hi - 1 of the row starting at base hold the row's
   * values, the neighbour search of the column just outside them, c = hi or
   * c = lo - 1, writes the value of column c, so the columns nlo .. nhi - 1
   * hold the row's values.
   */
  lemma SearchCell(a: seq<int>, b: seq<int>, e: seq<int>, base: int, w: int, c: int, position: int,
                   lo: int, hi: int, nlo: int, nhi: int, prev: seq<int>, row: seq<int>, brow: seq<int>)
    requires Passable(a, b, e, base, w) && Below(a, base, w, prev) && RowFrom(prev, e, base, w, row, brow)
    requires 0 <= lo <= hi <= w && 0 <= c < w && position == base + c
    requires (c == hi && nlo == lo && nhi == hi + 1) || (c + 1 == lo && nlo == c && nhi == hi)
    ensures SearchAcc(Overlay(a, base, row, lo, hi), e, position, w, Offsets(c, w)) == Overlay(a, base, row, nlo, nhi)
    ensures SearchBack(Overlay(a, base, row, lo, hi), Overlay(b, base, brow, lo, hi), position, w, Offsets(c, w))
      == Overlay(b, base, brow, nlo, nhi)
  {
    OverlayBelow(a, base, w, row, lo, hi, prev);
    SearchFound(Overlay(a, base, row, lo, hi), Overlay(b, base, brow, lo, hi), e, base, w, c, position, prev, row[c], brow[c]);
    OverlayGrow(a, base, row, lo, hi, c, position, nlo, nhi);
    OverlayGrow(b, base, brow, lo, hi, c, position, nlo, nhi);
  }

  /**
   * One pass of the outer loop of `rebuildAccumulatedEnergyMatrix`: when the
   * buffers hold the programme's rows before i, the pass over row i makes
   * them hold the rows up to i, and the entries past the grid keep their values.
   */
  lemma RowStep(a: seq<int>, b: seq<int>, e: seq<int>, g: seq<seq<int>>, w: int, h: int, i: int)
    requires 2 <= w && 1 <= i < h && w * h <= |e| && |a| == |e| && |b| == |e|
    requires g == Rows(e, w, h) && Costs(g, w)
    requires a[..i * w] == Concat(AccRows(g, w)[..i]) && b[..i * w] == Concat(BackRows(g, w)[..i])
    ensures w <= i * w && i * w + w <= w * h && (i + 1) * w <= w * h
    ensures Below(a, i * w, w, AccRows(g, w)[i - 1])
    ensures RowFrom(AccRows(g, w)[i - 1], e, i * w, w, AccRows(g, w)[i], BackRows(g, w)[i])
    ensures Overlay(a, i * w, AccRows(g, w)[i], 0, w)[..(i + 1) * w] == Concat(AccRows(g, w)[..i + 1])
    ensures Overlay(b, i * w, BackRows(g, w)[i], 0, w)[..(i + 1) * w] == Concat(BackRows(g, w)[..i + 1])
    ensures Overlay(a, i * w, AccRows(g, w)[i], 0, w)[w * h..] == a[w * h..]
    ensures Overlay(b, i * w, BackRows(g, w)[i], 0, w)[w * h..] == b[w * h..]
  {
    var accs, backs := AccRows(g, w), BackRows(g, w);
    NextRow(a, e, g, w, h, i, accs[i - 1]);
    RowDone(a, Overlay(a, i * w, accs[i], 0, w), accs, w, h, i);
    RowDone(b, Overlay(b, i * w, backs[i], 0, w), backs, w, h, i);
  }

  /**
   * While the w entries below base hold the row prev, the scan of column c
   * of the row starting at base is the scan of that cell's window in prev.
   */
  lemma {:induction false} LowestWindow(a: seq<int>, base: int, w: int, c: int, position: int, prev: seq<int>, n: nat)
    requires 2 <= w == |prev| && 0 <= c < w && w <= base <= |a| && position == base + c
    requires forall k :: 0 <= k < w ==> a[base - w + k] == prev[k]
    requires n <= |Offsets(c, w)|
    ensures forall k :: 0 <= k < |Offsets(c, w)| ==> 0 <= position - w + Offsets(c, w)[k] < |a|
    ensures (OffsetsSpan(c, w); Lowest(a, position, w, Offsets(c, w), n) == ScanMin(Window(prev, c), n))
    decreases n
  {
    OffsetsSpan(c, w);
    if n > 0 {
      LowestWindow(a, base, w, c, position, prev, n - 1);
      var k := n - 1;
      assert position - w + Offsets(c, w)[k] == base - w + (WindowStart(c) + k);
      assert Window(prev, c)[k] == prev[WindowStart(c) + k];
    }
  }

  /**
   * What the neighbour search of cell (i, c), i >= 1, computes from the
   * window of the row above: it finds a neighbour, and energy plus least
   * value and the flat index of that neighbour are the programme's values.
   */
  lemma CellStep(g: seq<seq<int>>, w: int, i: int, c: int)
    requires Costs(g, w) && 1 <= i < |g| && 0 <= c < w
    ensures var vals := Window(AccRow(g, w, i - 1), c);
      var p := ScanMin(vals, |vals|);
      0 <= p.index < |Offsets(c, w)| &&
      g[i][c] + p.value == AccAt(g, w, i, c) &&
      (i - 1) * w + c + Offsets(c, w)[p.index] == BackAt(g, w, i, c)
  {
    var vals := Window(AccRow(g, w, i - 1), c);
    assert vals == Candidates(g, w, i, c);
    ChoiceMinimal(g, w, i, c);
    ScanMinSpec(vals, |vals|);
    AccStep(g, w, i, c);
    var k := ScanMin(vals, |vals|).index;
    assert vals[k] == AccAt(g, w, i - 1, ChoiceCol(g, w, i, c));
  }

  /**
   * The values the neighbour search of cell (i, c), i >= 1, writes when it
   * reads the programme's row i - 1: it finds a neighbour, and energy plus
   * least value and the flat index of that neighbour are the programme's
   * values for (i, c).
   */
  lemma CellValues(e: seq<int>, g: seq<seq<int>>, w: int, h: int, i: int, c: int, base: int)
    requires 1 <= i < h && 0 <= c < w && w * h <= |e|
    requires g == Rows(e, w, h) && Costs(g, w) && base == i * w
    ensures var p := ScanMin(Window(AccRow(g, w, i - 1), c), |Offsets(c, w)|);
      0 <= p.index < |Offsets(c, w)| &&
      base + c < w * h && e[base + c] + p.value == AccAt(g, w, i, c) &&
      base + c - w + Offsets(c, w)[p.index] == BackAt(g, w, i, c)
  {
    assert base - w == (i - 1) * w;
    RowsAt(e, w, h, i, c);
    OffsetsSpan(c, w);
    CellStep(g, w, i, c);
  }

  /**
   * Cell c of the row starting at flat index base, searched from the row
   * prev above it: the search finds a neighbour, v is the cell's energy plus
   * the least value and u the flat index of that neighbour.
   */
  predicate CellFrom(prev: seq<int>, e: seq<int>, base: int, w: int, c: int, v: int, u: int)
    requires 2 <= w == |prev| && 0 <= c < w
  {
    OffsetsSpan(c, w);
    var p := ScanMin(Window(prev, c), |Offsets(c, w)|);
    0 <= p.index && 0 <= base + c < |e| && v == e[base + c] + p.value && u == base + c - w + Offsets(c, w)[p.index]
  }

  /** Every cell of row and brow is what its neighbour search in prev computes. */
  predicate RowFrom(prev: seq<int>, e: seq<int>, base: int, w: int, row: seq<int>, brow: seq<int>)
    requires 2 <= w == |prev|
  {
    |row| == w && |brow| == w &&
    forall c {:trigger CellFrom(prev, e, base, w, c, row[c], brow[c])} :: 0 <= c < w ==> CellFrom(prev, e, base, w, c, row[c], brow[c])
  }

  /** Row i >= 1 of the programme is what the neighbour searches compute from row i - 1. */
  lemma RowFromProgramme(e: seq<int>, g: seq<seq<int>>, w: int, h: int, i: int)
    requires 2 <= w && 1 <= i < h && w * h <= |e| && g == Rows(e, w, h) && Costs(g, w)
    ensures RowFrom(AccRow(g, w, i - 1), e, i * w, w, AccRow(g, w, i), BackRow(g, w, i))
  {
    forall c | 0 <= c < w
      ensures CellFrom(AccRow(g, w, i - 1), e, i * w, w, c, AccRow(g, w, i)[c], BackRow(g, w, i)[c])
    {
      CellFromProgramme(e, g, w, h, i, c);
    }
  }

  /** Cell (i, c), i >= 1, of the programme is what its neighbour search computes from row i - 1. */
  lemma CellFromProgramme(e: seq<int>, g: seq<seq<int>>, w: int, h: int, i: int, c: int)
    requires 2 <= w && 1 <= i < h && 0 <= c < w && w * h <= |e| && g == Rows(e, w, h) && Costs(g, w)
    ensures CellFrom(AccRow(g, w, i - 1), e, i * w, w, c, AccRow(g, w, i)[c], BackRow(g, w, i)[c])
  {
    CellValues(e, g, w, h, i, c, i * w);
    AccAtRow(g, w, i, c);
  }

  /** After the copy of row 0, the buffers hold the programme's row 0. */
  lemma FirstRow(a: seq<int>, b: seq<int>, e: seq<int>, g: seq<seq<int>>, w: int, h: int)
    requires 2 <= w && 1 <= h && w * h <= |e| && w <= |a| && w <= |b| && g == Rows(e, w, h)
    requires forall t :: 0 <= t < w ==> a[t] == e[t] && b[t] == t
    ensures a[..w] == Concat(AccRows(g, w)[..1]) && b[..w] == Concat(BackRows(g, w)[..1])
  {
    assert AccRows(g, w)[..1] == [g[0]];
    assert BackRows(g, w)[..1] == [BackRow(g, w, 0)];
    forall c | 0 <= c < w
      ensures a[c] == g[0][c]
    {
      RowsAt(e, w, h, 0, c);
    }
  }

  /**
   * Before row i >= 1 is searched, the w entries below it hold the
   * programme's row i - 1, and the programme's row i is what its neighbour
   * searches compute.
   */
  lemma NextRow(a: seq<int>, e: seq<int>, g: seq<seq<int>>, w: int, h: int, i: int, prev: seq<int>)
    requires 2 <= w && 1 <= i < h && w * h <= |e| && w * h <= |a| && g == Rows(e, w, h) && Costs(g, w)
    requires a[..i * w] == Concat(AccRows(g, w)[..i]) && prev == AccRows(g, w)[i - 1]
    ensures w <= i * w && i * w + w <= w * h && |prev| == w
    ensures forall k :: 0 <= k < w ==> a[i * w - w + k] == prev[k]
    ensures RowFrom(prev, e, i * w, w, AccRows(g, w)[i], BackRows(g, w)[i])
  {
    PrevRowHeld(a, AccRows(g, w), w, h, i, prev);
    RowFromProgramme(e, g, w, h, i);
  }

  /** When a holds the rows before i, the w entries below row i hold row i - 1. */
  lemma PrevRowHeld(a: seq<int>, rows: seq<seq<int>>, w: int, h: int, i: int, prev: seq<int>)
    requires 2 <= w && 1 <= i < h == |rows| && Uniform(rows, w) && w * h <= |a|
    requires a[..i * w] == Concat(rows[..i]) && prev == rows[i - 1]
    ensures w <= i * w && i * w + w <= w * h
    ensures forall k :: 0 <= k < w ==> a[i * w - w + k] == prev[k]
  {
    MulMonotone(1, i, w);
    MulMonotone(i + 1, h, w);
    assert (i + 1) * w == i * w + w;
    var before := rows[..i - 1];
    ConcatPrefix(rows, i - 1);
    assert rows[..i - 1 + 1] == rows[..i];
    assert Uniform(before, w);
    ConcatLength(before, w);
    assert (i - 1) * w == i * w - w;
    TailHeld(a, i * w, w, Concat(before), prev);
  }

  /** When the first n entries of a are x followed by the w entries of tail, the w entries below n hold tail. */
  lemma TailHeld(a: seq<int>, n: int, w: int, x: seq<int>, tail: seq<int>)
    requires 0 <= n <= |a| && |tail| == w && |x| == n - w && a[..n] == x + tail
    ensures forall k :: 0 <= k < w ==> a[n - w + k] == tail[k]
  {
    forall k | 0 <= k < w
      ensures a[n - w + k] == tail[k]
    {
      assert a[..n][n - w + k] == (x + tail)[|x| + k];
    }
  }

  /** Once row i is written over a, the buffer holds the rows up to i and is unchanged past the grid. */
  lemma RowDone(a: seq<int>, o: seq<int>, rows: seq<seq<int>>, w: int, h: int, i: int)
    requires 2 <= w && 1 <= i < h == |rows| && Uniform(rows, w) && w * h <= |a|
    requires a[..i * w] == Concat(rows[..i])
    requires (MulMonotone(i + 1, h, w); o == Overlay(a, i * w, rows[i], 0, w))
    ensures (i + 1) * w <= w * h
    ensures o[..(i + 1) * w] == Concat(rows[..i + 1])
    ensures o[w * h..] == a[w * h..]
  {
    MulMonotone(i + 1, h, w);
    ConcatPrefix(rows, i);
    assert (i + 1) * w == i * w + w;
    assert o[..i * w] == a[..i * w];
    assert o[i * w .. i * w + w] == rows[i];
    assert o[..i * w + w] == o[..i * w] + o[i * w .. i * w + w];
  }

  /** a with the entries lo .. hi - 1 of row written from flat index base on. */
  function Overlay(a: seq<int>, base: int, row: seq<int>, lo: int, hi: int): (o: seq<int>)
    requires 0 <= lo <= hi <= |row|
  {
    seq(|a|, t requires 0 <= t < |a| => if base + lo <= t < base + hi then row[t - base] else a[t])
  }

  /** Writing no entries leaves a as it is. */
  lemma OverlayNone(a: seq<int>, base: int, row: seq<int>, k: int)
    requires 0 <= k <= |row|
    ensures Overlay(a, base, row, k, k) == a
  {
  }

  /**
   * Writing entry c of row just outside the entries lo .. hi - 1 already
   * written gives the overlay of nlo .. nhi - 1.
   */
  lemma OverlayGrow(a: seq<int>, base: int, row: seq<int>, lo: int, hi: int, c: int, position: int, nlo: int, nhi: int)
    requires 0 <= lo <= hi <= |row| && 0 <= c < |row| && position == base + c && 0 <= position < |a|
    requires (c == hi && nlo == lo && nhi == hi + 1) || (c + 1 == lo && nlo == c && nhi == hi)
    ensures Overlay(a, base, row, lo, hi)[position := row[c]] == Overlay(a, base, row, nlo, nhi)
  {
  }

  /** An overlay from base on leaves the w entries below base as they were. */
  lemma OverlayBelow(a: seq<int>, base: int, w: int, row: seq<int>, lo: int, hi: int, prev: seq<int>)
    requires 0 <= lo <= hi <= |row| && Below(a, base, w, prev)
    ensures Below(Overlay(a, base, row, lo, hi), base, w, prev)
  {
  }

  /** Cell (i, c) of the programme as an entry of its row. */
  lemma AccAtRow(g: seq<seq<int>>, w: int, i: int, c: int)
    requires Shape(g, w) && 0 <= i < |g| && 0 <= c < w
    ensures AccRow(g, w, i)[c] == AccAt(g, w, i, c) && BackRow(g, w, i)[c] == BackAt(g, w, i, c)
  {
  }
}
