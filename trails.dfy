/**
 * What `highlightNSeams` paints. The cells of the last row are ranked by
 * accumulated energy (`Ranking`), and the first min(n, width) of them each
 * start a backtrack chain up to the first row, its trail; every pixel on a
 * trail turns red, every other pixel keeps its colour.
 */
module Trails {
  import opened Grid
  import opened Seams
  import opened Ranking

  /** The flat index of the first cell of the last row, `width * (height - 1)`. */
  function LastBase(g: seq<seq<int>>, w: int): int
  {
    w * (|g| - 1)
  }

  /** `topSeamStart` after the sort: the cells of the last row, least accumulated energy first. */
  function TopSeamStarts(g: seq<seq<int>>, w: int): (r: seq<Start>)
    requires Shape(g, w)
    ensures |r| == w
    ensures forall i :: 0 <= i < w ==> LastBase(g, w) <= r[i].pos < LastBase(g, w) + w
    ensures forall i :: 0 <= i < w ==> r[i].value == LastRow(g, w)[r[i].pos - LastBase(g, w)]
  {
    var vals, base := LastRow(g, w), LastBase(g, w);
    RankedPositions(vals, base);
    Ranked(Starts(vals, base))
  }

  /** How many trails are painted, `Math.min(n, width)`: none when n is not positive. */
  function Count(n: int, w: int): (m: nat)
    ensures m <= n || m == 0
    ensures m <= w || m == 0
    ensures 0 < n && 0 < w ==> m == n || m == w
  {
    if n <= 0 || w <= 0 then 0 else if n < w then n else w
  }

  /** The columns of the last row whose trails are painted, in ranking order. */
  function Picks(g: seq<seq<int>>, w: int, n: int): (ks: seq<int>)
    requires Shape(g, w)
    ensures |ks| == Count(n, w) && forall i :: 0 <= i < |ks| ==> 0 <= ks[i] < w
  {
    var r := TopSeamStarts(g, w);
    seq(Count(n, w), i requires 0 <= i < Count(n, w) => r[i].pos - LastBase(g, w))
  }

  /** Pick i is where the trail from pair i of the ranking ends: the trail's cell in the last row. */
  lemma PickEnd(g: seq<seq<int>>, w: int, n: int, i: int)
    requires Shape(g, w) && 0 <= i < Count(n, w)
    ensures var ks := Picks(g, w, n);
      0 <= ks[i] < w && TopSeamStarts(g, w)[i].pos == Trail(g, w, ks[i])[|g| - 1]
  {
    var h := |g|;
    assert w * (h - 1) == (h - 1) * w;
  }

  /** The flat indices of the backtrack chain from column k of the last row, first row first. */
  function Trail(g: seq<seq<int>>, w: int, k: int): (s: seq<int>)
    requires Shape(g, w) && 0 <= k < w
    ensures |s| == |g|
  {
    Cells(SeamCols(g, w, |g| - 1, k), w)
  }

  /** Whether flat index t is the cell of the trail from column k in one of the rows lo and below. */
  predicate OnTrailFrom(g: seq<seq<int>>, w: int, k: int, lo: int, t: int)
    requires Shape(g, w) && 0 <= k < w
  {
    exists r :: lo <= r < |g| && 0 <= r && Trail(g, w, k)[r] == t
  }

  /** Whether flat index t lies on the trail from column k. */
  predicate OnTrail(g: seq<seq<int>>, w: int, k: int, t: int)
    requires Shape(g, w) && 0 <= k < w
  {
    OnTrailFrom(g, w, k, 0, t)
  }

  /** Walking the trail up from row lo to row row = lo - 1 adds exactly that row's cell. */
  lemma OnTrailUp(g: seq<seq<int>>, w: int, k: int, row: int, lo: int, t: int)
    requires Shape(g, w) && 0 <= k < w && 0 <= row < |g| && lo == row + 1
    ensures OnTrailFrom(g, w, k, row, t) <==> OnTrailFrom(g, w, k, lo, t) || Trail(g, w, k)[row] == t
  {
  }

  /** Whether flat index t lies on the trail of one of the columns ks. */
  predicate Painted(g: seq<seq<int>>, w: int, ks: seq<int>, t: int)
    requires Shape(g, w)
  {
    exists i :: 0 <= i < |ks| && 0 <= ks[i] < w && OnTrail(g, w, ks[i], t)
  }

  /** Painting one more trail paints exactly the cells of that trail on top. */
  lemma PaintedNext(g: seq<seq<int>>, w: int, ks: seq<int>, i: int, t: int)
    requires Shape(g, w) && 0 <= i < |ks| && 0 <= ks[i] < w
    ensures Painted(g, w, ks[..i + 1], t) <==> Painted(g, w, ks[..i], t) || OnTrail(g, w, ks[i], t)
  {
    if Painted(g, w, ks[..i + 1], t) {
      PaintedSplit(g, w, ks, i, t);
    }
    if Painted(g, w, ks[..i], t) {
      var j :| 0 <= j < i && 0 <= ks[..i][j] < w && OnTrail(g, w, ks[..i][j], t);
      assert ks[..i + 1][j] == ks[j];
    }
    if OnTrail(g, w, ks[i], t) {
      assert ks[..i + 1][i] == ks[i];
    }
  }

  /** A cell painted by the first i + 1 trails is painted by the first i or lies on trail i. */
  lemma PaintedSplit(g: seq<seq<int>>, w: int, ks: seq<int>, i: int, t: int)
    requires Shape(g, w) && 0 <= i < |ks| && 0 <= ks[i] < w && Painted(g, w, ks[..i + 1], t)
    ensures Painted(g, w, ks[..i], t) || OnTrail(g, w, ks[i], t)
  {
    var j :| 0 <= j < i + 1 && 0 <= ks[..i + 1][j] < w && OnTrail(g, w, ks[..i + 1][j], t);
    if j < i {
      assert ks[..i][j] == ks[j];
    }
  }

  /**
   * A trail is a connected path of one cell per row from the first row to
   * column k of the last, and its energy is the accumulated energy of that cell.
   */
  lemma TrailPath(g: seq<seq<int>>, w: int, k: int)
    requires Shape(g, w) && 0 <= k < w
    ensures var cols := SeamCols(g, w, |g| - 1, k);
      Connected(cols, w) && cols[|g| - 1] == k && Trail(g, w, k) == Cells(cols, w) &&
      PathCost(g, w, cols) == LastRow(g, w)[k]
  {
    SeamColsConnected(g, w, |g| - 1, k);
    SeamColsCost(g, w, |g| - 1, k);
  }

  /** The first trail painted is the seam `findSeam` returns. */
  lemma FirstTrail(g: seq<seq<int>>, w: int, n: int)
    requires Costs(g, w) && 1 <= n
    ensures var ks := Picks(g, w, n); 1 <= |ks| && Trail(g, w, ks[0]) == Seam(g, w)
  {
    var vals := LastRow(g, w);
    forall c | 0 <= c < w
      ensures vals[c] < IntMax
    {
      AccBound(g, w, |g| - 1, c);
    }
    RankedFirst(vals, LastBase(g, w));
    SeamEnd(g, w);
  }

  /**
   * The trails painted start from the cells of the last row with the least
   * accumulated energy: the picks come in ranking order (less energy first,
   * ties in increasing column order), and every column left out comes after
   * each of them.
   */
  lemma PicksLeast(g: seq<seq<int>>, w: int, n: int)
    requires Shape(g, w)
    ensures var ks, last := Picks(g, w, n), LastRow(g, w);
      (forall i, j :: 0 <= i < j < |ks| ==>
        last[ks[i]] < last[ks[j]] || (last[ks[i]] == last[ks[j]] && ks[i] <= ks[j])) &&
      (forall i, c :: 0 <= i < |ks| && 0 <= c < w && c !in ks ==>
        last[ks[i]] < last[c] || (last[ks[i]] == last[c] && ks[i] < c))
  {
    var ks, last, base := Picks(g, w, n), LastRow(g, w), LastBase(g, w);
    var r := TopSeamStarts(g, w);
    RankedSorted(Starts(last, base));
    forall i, j | 0 <= i < j < |ks|
      ensures last[ks[i]] < last[ks[j]] || (last[ks[i]] == last[ks[j]] && ks[i] <= ks[j])
    {
      assert Before(r[i], r[j]);
    }
    forall i, c | 0 <= i < |ks| && 0 <= c < w && c !in ks
      ensures last[ks[i]] < last[c] || (last[ks[i]] == last[c] && ks[i] < c)
    {
      forall j | 0 <= j < |ks|
        ensures r[j].pos != base + c
      {
        assert ks[j] != c;
      }
      RankedLeast(last, base, |ks|, c);
      assert Before(r[i], Start(base + c, last[c]));
    }
  }
}
