/**
 * Seam removal on the flat buffers (`shiftArray`, `removeSeam`). A seam holds
 * one flat index per row, seam[r] == r * w + c_r. Removing it compacts the
 * first w * h entries of a buffer into (w - 1) * h entries, row after row, in
 * one pass of left shifts: the stretch between the seam cells of rows i and
 * i + 1 moves i + 1 places to the left.
 */
module Carving {
  import opened Grid

  /** A seam of an h-by-w grid: exactly one cell in every row. */
  predicate InRows(seam: seq<int>, w: int, h: int)
  {
    |seam| == h && forall r :: 0 <= r < h ==> r * w <= seam[r] < r * w + w
  }

  /**
   * `shiftArray`: copies the entries [src, stop) down to [dst, dst + stop - src),
   * front to back, so the copy is right even when the two ranges overlap.
   * Every other entry keeps its value.
   */
  method ShiftArray(a: array<int>, dst: int, src: int, stop: int)
    requires 0 <= dst <= src && stop <= a.Length
    modifies a
    ensures forall t :: 0 <= t < a.Length ==>
      a[t] == if dst <= t < dst + (stop - src) then old(a[t + (src - dst)]) else old(a[t])
  {
    var i := 0;
    while i < stop - src
      invariant 0 <= i && (i <= stop - src || i == 0)
      invariant forall t :: 0 <= t < a.Length ==>
        a[t] == if dst <= t < dst + i then old(a[t + (src - dst)]) else old(a[t])
    {
      a[dst + i] := a[src + i];
      i := i + 1;
    }
  }

  /**
   * Where entry t of the carved buffer comes from: cell (r, j) of the narrower
   * grid is cell (r, j) of the old grid left of the seam and cell (r, j + 1)
   * from the seam on; entries past the narrower grid stay where they are.
   */
  function Source(seam: seq<int>, w: int, h: int, t: int): (u: int)
    requires 1 <= w && InRows(seam, w, h) && 0 <= t
    ensures t <= u
    ensures t < (w - 1) * h ==> u < w * h
    ensures (w - 1) * h <= t ==> u == t
  {
    if t < (w - 1) * h then
      IndexCell(t, w - 1, h);
      var r, j := t / (w - 1), t % (w - 1);
      CellIndex(r, j + 1, w, h);
      MulMonotone(w - 1, w, r);
      r * w + j + (if j < seam[r] - r * w then 0 else 1)
    else
      t
  }

  /** The buffer with the seam removed; the same for energy, colour and grey. */
  function Carve(s: seq<int>, seam: seq<int>, w: int, h: int): (c: seq<int>)
    requires 1 <= w && InRows(seam, w, h) && w * h <= |s|
    ensures |c| == |s|
    ensures forall t :: (w - 1) * h <= t < |s| ==> c[t] == s[t]
  {
    seq(|s|, t requires 0 <= t < |s| => s[Source(seam, w, h, t)])
  }

  /**
   * Removal, cell by cell: entry j of row r at width w - 1 is entry j of row r
   * at width w left of the seam cell c_r, and entry j + 1 from c_r on.
   */
  lemma CarveAt(s: seq<int>, seam: seq<int>, w: int, h: int, r: int, j: int)
    requires 1 <= w && InRows(seam, w, h) && w * h <= |s|
    requires 0 <= r < h && 0 <= j < w - 1
    ensures r * (w - 1) + j < (w - 1) * h
    ensures Carve(s, seam, w, h)[r * (w - 1) + j] == s[r * w + j + (if j < seam[r] - r * w then 0 else 1)]
  {
    SourceAt(seam, w, h, r, j);
  }

  /**
   * Removal, row by row: row r of the narrower grid is row r of the old grid
   * without its seam cell c_r.
   */
  lemma CarveRow(s: seq<int>, seam: seq<int>, w: int, h: int, r: int)
    requires 2 <= w && InRows(seam, w, h) && w * h <= |s| && 0 <= r < h
    ensures (w - 1) * h <= |s|
    ensures var c, old_row := seam[r] - r * w, Rows(s, w, h)[r];
      0 <= c < w && Rows(Carve(s, seam, w, h), w - 1, h)[r] == old_row[..c] + old_row[c + 1..]
  {
    MulMonotone(w - 1, w, h);
    var c, old_row := seam[r] - r * w, Rows(s, w, h)[r];
    var row := Rows(Carve(s, seam, w, h), w - 1, h)[r];
    forall j | 0 <= j < w - 1
      ensures row[j] == (old_row[..c] + old_row[c + 1..])[j]
    {
      CarveRowAt(s, seam, w, h, r, j);
    }
  }

  lemma CarveRowAt(s: seq<int>, seam: seq<int>, w: int, h: int, r: int, j: int)
    requires 2 <= w && InRows(seam, w, h) && w * h <= |s| && 0 <= r < h && 0 <= j < w - 1
    ensures (w - 1) * h <= |s|
    ensures var c := seam[r] - r * w;
      Rows(Carve(s, seam, w, h), w - 1, h)[r][j] == Rows(s, w, h)[r][j + (if j < c then 0 else 1)]
  {
    MulMonotone(w - 1, w, h);
    var c := seam[r] - r * w;
    RowsAt(Carve(s, seam, w, h), w - 1, h, r, j);
    CarveAt(s, seam, w, h, r, j);
    RowsAt(s, w, h, r, j + (if j < c then 0 else 1));
  }

  /** Source in row and column terms. */
  lemma SourceAt(seam: seq<int>, w: int, h: int, r: int, j: int)
    requires 1 <= w && InRows(seam, w, h) && 0 <= r < h && 0 <= j < w - 1
    ensures 0 <= r * (w - 1) + j < (w - 1) * h
    ensures Source(seam, w, h, r * (w - 1) + j) == r * w + j + (if j < seam[r] - r * w then 0 else 1)
  {
    CellIndex(r, j, w - 1, h);
  }

  /** The removed cells are never read back: no entry of the carved grid comes from the seam. */
  lemma SourceMissesSeam(seam: seq<int>, w: int, h: int, t: int, r: int)
    requires 1 <= w && InRows(seam, w, h) && 0 <= t < (w - 1) * h && 0 <= r < h
    ensures Source(seam, w, h, t) != seam[r]
  {
    IndexCell(t, w - 1, h);
    var q, j := t / (w - 1), t % (w - 1);
    var u := Source(seam, w, h, t);
    assert u == q * w + j + (if j < seam[q] - q * w then 0 else 1);
    CellIndex(q, j + (if j < seam[q] - q * w then 0 else 1), w, h);
    CellIndex(r, seam[r] - r * w, w, h);
  }

  /** The compaction keeps the order of the surviving cells. */
  lemma SourceIncreasing(seam: seq<int>, w: int, h: int, t: int)
    requires 1 <= w && InRows(seam, w, h) && 0 <= t && t + 1 < (w - 1) * h
    ensures Source(seam, w, h, t) < Source(seam, w, h, t + 1)
  {
    IndexCell(t, w - 1, h);
    IncreasingAt(seam, w, h, t / (w - 1), t % (w - 1));
  }

  lemma IncreasingAt(seam: seq<int>, w: int, h: int, q: int, j: int)
    requires 1 <= w && InRows(seam, w, h) && 0 <= q < h && 0 <= j < w - 1
    requires q * (w - 1) + j + 1 < (w - 1) * h
    ensures Source(seam, w, h, q * (w - 1) + j) < Source(seam, w, h, q * (w - 1) + j + 1)
  {
    if j + 1 < w - 1 {
      IncreasingInRow(seam, w, h, q, j);
    } else {
      IncreasingAcrossRows(seam, w, h, q);
    }
  }

  lemma IncreasingInRow(seam: seq<int>, w: int, h: int, q: int, j: int)
    requires 1 <= w && InRows(seam, w, h) && 0 <= q < h && 0 <= j && j + 1 < w - 1
    ensures Source(seam, w, h, q * (w - 1) + j) < Source(seam, w, h, q * (w - 1) + j + 1)
  {
    SourceAt(seam, w, h, q, j);
    SourceAt(seam, w, h, q, j + 1);
  }

  lemma IncreasingAcrossRows(seam: seq<int>, w: int, h: int, q: int)
    requires 2 <= w && InRows(seam, w, h) && 0 <= q && q + 1 < h
    ensures Source(seam, w, h, q * (w - 1) + w - 2) < Source(seam, w, h, q * (w - 1) + w - 1)
  {
    SourceAt(seam, w, h, q, w - 2);
    SourceAt(seam, w, h, q + 1, 0);
    assert (q + 1) * (w - 1) == q * (w - 1) + w - 1;
    assert (q + 1) * w == q * w + w;
  }

  /** Every cell of the old grid off the seam survives: it is the source of some carved entry. */
  lemma SourceOnto(seam: seq<int>, w: int, h: int, r: int, c: int) returns (t: int)
    requires 1 <= w && InRows(seam, w, h) && 0 <= r < h && 0 <= c < w && r * w + c != seam[r]
    ensures 0 <= t < (w - 1) * h && Source(seam, w, h, t) == r * w + c
  {
    var j := if c < seam[r] - r * w then c else c - 1;
    t := r * (w - 1) + j;
    CellIndex(r, j, w - 1, h);
  }

  /**
   * How far removal has got: cells before the frontier of stretch i hold
   * their carved value, the rest still hold their old value.
   */
  function Frontier(seam: seq<int>, w: int, h: int, i: int): (f: int)
    requires 1 <= w && InRows(seam, w, h) && 0 <= i <= h
    ensures 0 <= f <= (w - 1) * h
  {
    if i < h then
      FrontierBound(seam, w, h, i);
      seam[i] - i
    else
      (w - 1) * h
  }

  /** The seam cell of row i, counted in the carved grid, lies within that grid. */
  lemma FrontierBound(seam: seq<int>, w: int, h: int, i: int)
    requires 1 <= w && InRows(seam, w, h) && 0 <= i < h
    ensures 0 <= seam[i] - i <= (w - 1) * h
  {
    assert i * w - i == i * (w - 1);
    MulMonotone(0, i, w - 1);
    assert (i + 1) * (w - 1) == i * w + w - 1 - i;
    MulMonotone(i + 1, h, w - 1);
  }

  predicate Compacted(a: seq<int>, o: seq<int>, seam: seq<int>, w: int, h: int, i: int)
    requires 1 <= w && InRows(seam, w, h) && 0 <= i <= h
  {
    |a| == |o| && w * h <= |o| &&
    forall t :: 0 <= t < |a| ==>
      a[t] == if t < Frontier(seam, w, h, i) then o[Source(seam, w, h, t)] else o[t]
  }

  /** Nothing before the first seam cell moves. */
  lemma SourceHead(seam: seq<int>, w: int, h: int, t: int)
    requires 1 <= w && 1 <= h && InRows(seam, w, h) && 0 <= t < seam[0]
    ensures Source(seam, w, h, t) == t
  {
    CellIndex(0, t, w - 1, h);
  }

  /** Stretch i, from the seam cell of row i to that of row i + 1, moves i + 1 places left. */
  lemma SourceStretch(seam: seq<int>, w: int, h: int, i: int, t: int)
    requires 1 <= w && InRows(seam, w, h) && 0 <= i < h
    requires Frontier(seam, w, h, i) <= t < Frontier(seam, w, h, i + 1)
    ensures Source(seam, w, h, t) == t + i + 1
  {
    if t < (i + 1) * (w - 1) {
      StretchInRow(seam, w, h, i, t);
    } else {
      StretchInNextRow(seam, w, h, i, t);
    }
  }

  /** The part of stretch i in row i: the cells right of the seam cell. */
  lemma StretchInRow(seam: seq<int>, w: int, h: int, i: int, t: int)
    requires 1 <= w && InRows(seam, w, h) && 0 <= i < h
    requires seam[i] - i <= t < (i + 1) * (w - 1)
    ensures Source(seam, w, h, t) == t + i + 1
  {
    var base := i * (w - 1);
    assert base == i * w - i && (i + 1) * (w - 1) == base + (w - 1);
    var j := t - base;
    SourceAt(seam, w, h, i, j);
  }

  /** The part of stretch i in row i + 1: the cells left of the seam cell. */
  lemma StretchInNextRow(seam: seq<int>, w: int, h: int, i: int, t: int)
    requires 1 <= w && InRows(seam, w, h) && 0 <= i < h - 1
    requires (i + 1) * (w - 1) <= t < seam[i + 1] - (i + 1)
    ensures Source(seam, w, h, t) == t + i + 1
  {
    var base := (i + 1) * (w - 1);
    assert base == (i + 1) * w - (i + 1);
    var j := t - base;
    SourceAt(seam, w, h, i + 1, j);
  }

  /** The bounds of the i-th call of `shiftArray` in `removeSeam`. */
  lemma StretchBounds(seam: seq<int>, w: int, h: int, i: int)
    requires 1 <= w && InRows(seam, w, h) && 0 <= i < h
    ensures 0 <= seam[i] - i && seam[i] + 1 <= (if i + 1 < h then seam[i + 1] else w * h) <= w * h
    ensures Frontier(seam, w, h, i + 1) == (if i + 1 < h then seam[i + 1] else w * h) - (i + 1)
  {
    CellIndex(i, seam[i] - i * w, w, h);
    MulMonotone(0, w - 1, i);
    if i + 1 < h {
      CellIndex(i + 1, seam[i + 1] - (i + 1) * w, w, h);
    }
  }

  /** One stretch of `removeSeam` on one buffer: the frontier moves from stretch i to stretch i + 1. */
  method ShiftStretch(a: array<int>, seam: seq<int>, w: int, h: int, i: int,
                      dstStart: int, srcStart: int, srcStop: int, ghost o: seq<int>)
    requires 1 <= w && InRows(seam, w, h) && 0 <= i < h && w * h <= a.Length
    requires srcStart == seam[i] + 1 && dstStart == seam[i] - i
    requires srcStop == if i + 1 < h then seam[i + 1] else w * h
    requires Compacted(a[..], o, seam, w, h, i)
    modifies a
    ensures Compacted(a[..], o, seam, w, h, i + 1)
  {
    StretchBounds(seam, w, h, i);
    ghost var before := a[..];
    ShiftArray(a, dstStart, srcStart, srcStop);
    forall t | 0 <= t < a.Length
      ensures a[t] == if t < Frontier(seam, w, h, i + 1) then o[Source(seam, w, h, t)] else o[t]
    {
      if Frontier(seam, w, h, i) <= t < Frontier(seam, w, h, i + 1) {
        SourceStretch(seam, w, h, i, t);
        assert a[t] == before[t + i + 1];
      }
    }
  }

  /** Removal starts with nothing compacted. */
  lemma CompactedStart(o: seq<int>, seam: seq<int>, w: int, h: int)
    requires 1 <= w && 1 <= h && InRows(seam, w, h) && w * h <= |o|
    ensures Compacted(o, o, seam, w, h, 0)
  {
    forall t | 0 <= t < |o| && t < Frontier(seam, w, h, 0)
      ensures o[t] == o[Source(seam, w, h, t)]
    {
      SourceHead(seam, w, h, t);
    }
  }

  /** Once every stretch has moved the buffer is the carved buffer. */
  lemma CompactedEnd(a: seq<int>, o: seq<int>, seam: seq<int>, w: int, h: int)
    requires 1 <= w && InRows(seam, w, h) && w * h <= |o|
    requires Compacted(a, o, seam, w, h, h)
    ensures a == Carve(o, seam, w, h)
  {
  }

  /**
   * `removeSeam`: deletes the seam cell of every row from the energy, colour
   * and grey buffers, shifting each buffer identically.
   */
  method RemoveSeam(seam: seq<int>, energy: array<int>, rgb: array<int>, bw: array<int>, w: int, h: int)
    requires 1 <= w && 1 <= h && InRows(seam, w, h)
    requires w * h <= energy.Length && w * h <= rgb.Length && w * h <= bw.Length
    requires energy != rgb && energy != bw && rgb != bw
    modifies energy, rgb, bw
    ensures energy[..] == Carve(old(energy[..]), seam, w, h)
    ensures rgb[..] == Carve(old(rgb[..]), seam, w, h)
    ensures bw[..] == Carve(old(bw[..]), seam, w, h)
  {
    ghost var e0, c0, g0 := energy[..], rgb[..], bw[..];
    CompactedStart(e0, seam, w, h);
    CompactedStart(c0, seam, w, h);
    CompactedStart(g0, seam, w, h);
    var i := 0;
    while i < |seam| - 1
      invariant 0 <= i <= h - 1
      invariant Compacted(energy[..], e0, seam, w, h, i)
      invariant Compacted(rgb[..], c0, seam, w, h, i)
      invariant Compacted(bw[..], g0, seam, w, h, i)
    {
      var srcStart := seam[i] + 1;
      var dstStart := srcStart - 1 - i;
      var srcStop := seam[i + 1];
      ShiftStretch(energy, seam, w, h, i, dstStart, srcStart, srcStop, e0);
      ShiftStretch(rgb, seam, w, h, i, dstStart, srcStart, srcStop, c0);
      ShiftStretch(bw, seam, w, h, i, dstStart, srcStart, srcStop, g0);
      i := i + 1;
    }
    var dstStart := seam[|seam| - 1] - (|seam| - 1);
    var srcStart := seam[|seam| - 1] + 1;
    var srcStop := w * h;
    ShiftStretch(energy, seam, w, h, h - 1, dstStart, srcStart, srcStop, e0);
    ShiftStretch(rgb, seam, w, h, h - 1, dstStart, srcStart, srcStop, c0);
    ShiftStretch(bw, seam, w, h, h - 1, dstStart, srcStart, srcStop, g0);
    CompactedEnd(energy[..], e0, seam, w, h);
    CompactedEnd(rgb[..], c0, seam, w, h);
    CompactedEnd(bw[..], g0, seam, w, h);
  }
}
