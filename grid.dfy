/**
 * Row-major layout shared by every per-pixel buffer of the image engine:
 * a grid `w` wide keeps cell (r, c) at flat index r * w + c, and a buffer may
 * be longer than the grid (the buffers are allocated once at the first width
 * and then used through a shrinking prefix).
 */
module Grid {

  /** Integer.MAX_VALUE of the 32-bit source. */
  const IntMax: int := 0x7fff_ffff

  lemma MulMonotone(a: int, b: int, d: int)
    requires a <= b && 0 <= d
    ensures a * d <= b * d
  { }

  /** Division and remainder are determined by the quotient and the remainder. */
  lemma DivModUnique(q: int, m: int, d: int)
    requires 0 <= m < d
    ensures (q * d + m) / d == q && (q * d + m) % d == m
  {
    var k := q * d + m;
    var q', m' := k / d, k % d;
    assert k == q' * d + m';
    assert (q - q') * d == m' - m;
    if q > q' { MulMonotone(1, q - q', d); }
    if q < q' { MulMonotone(1, q' - q, d); }
  }

  /** Cell (r, c) of an h-by-w grid lies in row r of the flat buffer. */
  lemma CellIndex(r: int, c: int, w: int, h: int)
    requires 0 <= r < h && 0 <= c < w
    ensures 0 <= r * w <= r * w + c < r * w + w <= w * h
    ensures (r * w + c) / w == r && (r * w + c) % w == c
  {
    MulMonotone(0, r, w);
    MulMonotone(r + 1, h, w);
    DivModUnique(r, c, w);
  }

  /** Cell (r, c) of an h-by-w grid has a flat index inside the grid. */
  lemma CellInside(r: int, c: int, w: int, h: int)
    requires 0 <= r < h && 0 <= c < w
    ensures 0 <= r * w + c < w * h
  {
    MulMonotone(0, r, w);
    MulMonotone(r + 1, h, w);
  }

  /** A flat index of the grid splits into its row and column. */
  lemma IndexCell(t: int, w: int, h: int)
    requires 0 < w && 0 <= t < w * h
    ensures 0 <= t / w < h && 0 <= t % w < w
    ensures t == (t / w) * w + t % w
  {
    if t / w >= h { MulMonotone(h, t / w, w); }
  }

  /**
   * The sentinel cells of an energy map: rows 0 and h - 1 and columns 0 and
   * w - 1, as the three padding loops of the source enumerate them.
   */
  predicate OnBorder(t: int, w: int, h: int)
    requires 0 < w
  {
    0 <= t < w * h && (t < w || w * h - w <= t || SideColumn(t, w))
  }

  /** Column 0 or column w - 1. */
  predicate SideColumn(t: int, w: int)
    requires 0 < w
  {
    t % w == 0 || t % w == w - 1
  }

  /** Moving from row m to row m + 1 adds exactly the two side cells of row m. */
  lemma SideColumnStep(t: int, i: int, m: int, w: int)
    requires 0 < w && i == m * w
    ensures (t < i + w && SideColumn(t, w)) <==> (t < i && SideColumn(t, w)) || t == i || t == i + w - 1
  {
    if i <= t < i + w { DivModUnique(m, t - i, w); }
  }

  /** OnBorder in row and column terms. */
  lemma OnBorderAt(r: int, c: int, w: int, h: int)
    requires 0 <= r < h && 0 <= c < w
    ensures OnBorder(r * w + c, w, h) <==> r == 0 || r == h - 1 || c == 0 || c == w - 1
  {
    CellIndex(r, c, w, h);
    if r < h - 1 { CellIndex(r + 1, 0, w, h); }
    assert (h - 1) * w == w * h - w;
  }

  /** The first and the last cell of every row are border cells. */
  lemma RowEnds(base: int, r: int, w: int, h: int)
    requires 0 < w && 0 <= r < h && base == r * w
    ensures OnBorder(base, w, h) && OnBorder(base + w - 1, w, h) && base + w <= w * h
    ensures base + w == (r + 1) * w
  {
    OnBorderAt(r, 0, w, h);
    OnBorderAt(r, w - 1, w, h);
    CellIndex(r, w - 1, w, h);
  }

  /** Row k at or past the last row starts at or past the last row's first cell. */
  lemma PastLastRow(base: int, k: int, w: int, h: int)
    requires 0 <= w && h - 1 <= k && base == k * w
    ensures w * h - w <= base
  {
    MulMonotone(h - 1, k, w);
  }

  /** A cell inside the grid, off the border, lies before the last row. */
  lemma InteriorBeforeLastRow(t: int, base: int, w: int, h: int)
    requires 0 < w && w * h - w <= base && 0 <= t < w * h && !OnBorder(t, w, h)
    ensures t < base
  {
  }

  /** Cell (r, c) with 1 <= r <= h - 2 and 1 <= c <= w - 2 is off the border. */
  lemma InteriorCell(base: int, r: int, c: int, w: int, h: int)
    requires 1 <= r <= h - 2 && 1 <= c <= w - 2 && base == r * w
    ensures 0 <= base + c < w * h && !OnBorder(base + c, w, h)
    ensures w + 1 <= base + c && base + c + w + 1 < w * h
  {
    OnBorderAt(r, c, w, h);
    CellIndex(r, c, w, h);
    InteriorNeighbourhood(base + c, w, h);
  }

  /** A cell off the border has its whole 3x3 neighbourhood inside the grid. */
  lemma InteriorNeighbourhood(t: int, w: int, h: int)
    requires 0 < w && 0 <= t < w * h && !OnBorder(t, w, h)
    ensures w + 1 <= t && t + w + 1 < w * h
  {
    IndexCell(t, w, h);
    var r, c := t / w, t % w;
    OnBorderAt(r, c, w, h);
    assert 1 <= r <= h - 2 && 1 <= c <= w - 2;
    MulMonotone(1, r, w);
    MulMonotone(r + 2, h, w);
  }

  /** Cuts the first w * h entries of a flat buffer into h rows of w entries. */
  function Rows(s: seq<int>, w: nat, h: nat): (g: seq<seq<int>>)
    requires w * h <= |s|
    ensures |g| == h
    ensures forall r :: 0 <= r < h ==> |g[r]| == w
  {
    seq(h, r requires 0 <= r < h => RowSlice(s, w, h, r))
  }

  function RowSlice(s: seq<int>, w: nat, h: nat, r: nat): (row: seq<int>)
    requires w * h <= |s| && r < h
    ensures |row| == w
  {
    MulMonotone(0, r, w);
    MulMonotone(r + 1, h, w);
    s[r * w .. r * w + w]
  }

  lemma RowsAt(s: seq<int>, w: nat, h: nat, r: nat, c: nat)
    requires w * h <= |s| && r < h && c < w
    ensures r * w + c < w * h
    ensures Rows(s, w, h)[r][c] == s[r * w + c]
  {
    CellIndex(r, c, w, h);
  }

  /** Joins rows back into a flat buffer (the inverse of Rows). */
  function Concat(g: seq<seq<int>>): seq<int>
  {
    if g == [] then [] else Concat(g[..|g| - 1]) + g[|g| - 1]
  }

  predicate Uniform(g: seq<seq<int>>, w: int)
  {
    forall r :: 0 <= r < |g| ==> |g[r]| == w
  }

  lemma {:induction false} ConcatLength(g: seq<seq<int>>, w: nat)
    requires Uniform(g, w)
    ensures |Concat(g)| == |g| * w
  {
    if g != [] {
      var n := |g|;
      ConcatLength(g[..n - 1], w);
      assert (n - 1) * w + w == n * w;
    }
  }

  /** Entry c of row r of rows that are all w long sits at r * w + c once joined. */
  lemma {:induction false} ConcatAt(g: seq<seq<int>>, w: nat, r: nat, c: nat)
    requires Uniform(g, w) && r < |g| && c < w
    ensures r * w + c < |Concat(g)| && Concat(g)[r * w + c] == g[r][c]
  {
    var n := |g|;
    ConcatLength(g, w);
    ConcatLength(g[..n - 1], w);
    CellIndex(r, c, w, n);
    if r < n - 1 {
      ConcatAt(g[..n - 1], w, r, c);
    } else {
      assert (n - 1) * w == n * w - w;
    }
  }

  lemma ConcatPrefix(g: seq<seq<int>>, i: nat)
    requires i < |g|
    ensures Concat(g[..i + 1]) == Concat(g[..i]) + g[i]
  {
    assert g[..i + 1][..i] == g[..i];
  }

  /** Joining the rows of a buffer gives back its first w * h entries. */
  lemma ConcatRows(s: seq<int>, w: nat, h: nat)
    requires w * h <= |s|
    ensures Concat(Rows(s, w, h)) == s[..w * h]
  {
    var g := Rows(s, w, h);
    ConcatLength(g, w);
    forall t | 0 <= t < w * h
      ensures Concat(g)[t] == s[t]
    {
      if 0 < w {
        IndexCell(t, w, h);
        ConcatAt(g, w, t / w, t % w);
        RowsAt(s, w, h, t / w, t % w);
      }
    }
  }
}
