/**
 * The energy computer and the energy repairer: the Sobel gradient magnitude of
 * a cell's 3x3 neighbourhood of grey samples, the 255 sentinel on the border,
 * the first full energy map and the local repair after a seam is removed.
 */
module Sobel {
  import opened Grid
  import opened Pixels

  /** The horizontal and vertical kernels, in the order of a 3x3 neighbourhood read row by row. */
  const SobelX: seq<int> := [-1, 0, 1, -2, 0, 2, -1, 0, 1]
  const SobelY: seq<int> := [1, 2, 1, 0, 0, 0, -1, -2, -1]

  /** The sentinel written on every border cell. */
  const Sentinel: int := 255

  /** No cell's energy exceeds this: 1442 * 1442 <= 2 * 1020 * 1020 < 1443 * 1443. */
  const MaxEnergy: int := 1442

  predicate InBounds(bw: seq<int>, pos: seq<int>)
  {
    forall k :: 0 <= k < |pos| ==> 0 <= pos[k] < |bw|
  }

  /** The kernel sum over the low bytes of the first n samples named by pos. */
  function Convolve(bw: seq<int>, pos: seq<int>, kernel: seq<int>, n: nat): int
    requires n <= |pos| && n <= |kernel| && InBounds(bw, pos)
  {
    if n == 0 then 0
    else Convolve(bw, pos, kernel, n - 1) + LastByte(bw[pos[n - 1]]) * kernel[n - 1]
  }

  function PositiveWeight(kernel: seq<int>, n: nat): int
    requires n <= |kernel|
  {
    if n == 0 then 0 else PositiveWeight(kernel, n - 1) + (if kernel[n - 1] > 0 then kernel[n - 1] else 0)
  }

  function NegativeWeight(kernel: seq<int>, n: nat): int
    requires n <= |kernel|
  {
    if n == 0 then 0 else NegativeWeight(kernel, n - 1) + (if kernel[n - 1] < 0 then kernel[n - 1] else 0)
  }

  function Weight(kernel: seq<int>, n: nat): int
    requires n <= |kernel|
  {
    if n == 0 then 0 else Weight(kernel, n - 1) + kernel[n - 1]
  }

  lemma KernelWeights()
    ensures PositiveWeight(SobelX, 9) == 4 && NegativeWeight(SobelX, 9) == -4 && Weight(SobelX, 9) == 0
    ensures PositiveWeight(SobelY, 9) == 4 && NegativeWeight(SobelY, 9) == -4 && Weight(SobelY, 9) == 0
  { }

  lemma {:induction false} ConvolveBounds(bw: seq<int>, pos: seq<int>, kernel: seq<int>, n: nat)
    requires n <= |pos| && n <= |kernel| && InBounds(bw, pos)
    ensures 255 * NegativeWeight(kernel, n) <= Convolve(bw, pos, kernel, n) <= 255 * PositiveWeight(kernel, n)
  {
    if n > 0 {
      ConvolveBounds(bw, pos, kernel, n - 1);
      TermBounds(LastByte(bw[pos[n - 1]]), kernel[n - 1]);
    }
  }

  /** One sample's term of a kernel sum lies between 255 times the negative and the positive part of its weight. */
  lemma TermBounds(b: int, k: int)
    requires 0 <= b <= 255
    ensures 255 * (if k < 0 then k else 0) <= b * k <= 255 * (if k > 0 then k else 0)
  {
    if k >= 0 {
      MulMonotone(b, 255, k);
      MulMonotone(0, b, k);
    } else {
      MulMonotone(b, 255, -k);
      MulMonotone(0, b, -k);
    }
  }

  /** When every sample has the same low byte v, the kernel sum is v times the kernel's weight. */
  lemma {:induction false} ConvolveUniform(bw: seq<int>, pos: seq<int>, kernel: seq<int>, n: nat, v: int)
    requires n <= |pos| && n <= |kernel| && InBounds(bw, pos)
    requires forall k :: 0 <= k < n ==> LastByte(bw[pos[k]]) == v
    ensures Convolve(bw, pos, kernel, n) == v * Weight(kernel, n)
  {
    if n > 0 {
      ConvolveUniform(bw, pos, kernel, n - 1, v);
    }
  }

  /** The integer square root: what `(int) Math.sqrt(x)` yields on an exact integer x. */
  function Isqrt(n: nat): (r: nat)
    ensures r * r <= n < (r + 1) * (r + 1)
  {
    if n == 0 then 0
    else
      var s := Isqrt(n - 1);
      if (s + 1) * (s + 1) <= n then
        assert n == (s + 1) * (s + 1);
        s + 1
      else s
  }

  lemma IsqrtBelow(n: nat, bound: nat)
    requires n < (bound + 1) * (bound + 1)
    ensures Isqrt(n) <= bound
  {
    var r := Isqrt(n);
    if r > bound {
      MulMonotone(bound + 1, r, bound + 1);
      MulMonotone(bound + 1, r, r);
    }
  }

  lemma SquareBelow(g: int, bound: nat)
    requires -(bound as int) <= g <= bound
    ensures g * g <= bound * bound
  {
    if g >= 0 {
      MulMonotone(g, bound, g);
      MulMonotone(g, bound, bound);
    } else {
      MulMonotone(-g, bound, -g);
      MulMonotone(-g, bound, bound);
    }
  }

  /**
   * `calculateEnergyValue`: the gradient magnitude over the nine samples named
   * by pos, read row by row. Both kernel sums lie in [-1020, 1020].
   */
  function EnergyValue(bw: seq<int>, pos: seq<int>): (e: int)
    requires |pos| == 9 && InBounds(bw, pos)
    ensures 0 <= e <= MaxEnergy
  {
    var gx := Convolve(bw, pos, SobelX, 9);
    var gy := Convolve(bw, pos, SobelY, 9);
    KernelWeights();
    ConvolveBounds(bw, pos, SobelX, 9);
    ConvolveBounds(bw, pos, SobelY, 9);
    SquareBelow(gx, 1020);
    SquareBelow(gy, 1020);
    IsqrtBelow(gx * gx + gy * gy, MaxEnergy);
    Isqrt(gx * gx + gy * gy)
  }

  /** A neighbourhood whose nine samples share one grey level has no energy. */
  lemma FlatNeighbourhood(bw: seq<int>, pos: seq<int>, v: int)
    requires |pos| == 9 && InBounds(bw, pos)
    requires forall k :: 0 <= k < 9 ==> LastByte(bw[pos[k]]) == v
    ensures EnergyValue(bw, pos) == 0
  {
    KernelWeights();
    ConvolveUniform(bw, pos, SobelX, 9, v);
    ConvolveUniform(bw, pos, SobelY, 9, v);
  }

  /** The nine flat indices around cell t of a grid w wide, row by row. */
  function Neighbourhood(t: int, w: int): seq<int>
  {
    [t - w - 1, t - w, t - w + 1,
     t - 1,     t,     t + 1,
     t + w - 1, t + w, t + w + 1]
  }

  /** The Sobel energy of cell t of a grid w wide. */
  function SobelAt(bw: seq<int>, t: int, w: int): (e: int)
    requires 1 <= w && w + 1 <= t && t + w + 1 < |bw|
    ensures 0 <= e <= MaxEnergy
  {
    EnergyValue(bw, Neighbourhood(t, w))
  }

  /** `runSobelEdgeDetection` at cell t: the sentinel on the border, the Sobel energy inside. */
  function EnergyAt(bw: seq<int>, w: int, h: int, t: int): (e: int)
    requires 1 <= w && 0 <= t < w * h <= |bw|
    ensures OnBorder(t, w, h) ==> e == Sentinel
    ensures 0 <= e <= MaxEnergy
  {
    if OnBorder(t, w, h) then Sentinel
    else
      InteriorNeighbourhood(t, w, h);
      SobelAt(bw, t, w)
  }

  /** `calculateEnergyValue`: both kernel sums in one pass over the positions. */
  method CalculateEnergyValue(bw: array<int>, positions: seq<int>) returns (e: int)
    requires |positions| == 9 && InBounds(bw[..], positions)
    ensures e == EnergyValue(bw[..], positions)
  {
    var gx, gy := 0, 0;
    for i := 0 to |positions|
      invariant gx == Convolve(bw[..], positions, SobelX, i)
      invariant gy == Convolve(bw[..], positions, SobelY, i)
    {
      gx := gx + LastByte(bw[positions[i]]) * SobelX[i];
      gy := gy + LastByte(bw[positions[i]]) * SobelY[i];
    }
    e := Isqrt(gx * gx + gy * gy);
  }

  /** `paddEnergyImage`: every border cell of the w-by-h map becomes the sentinel; nothing else changes. */
  method PaddEnergyImage(e: array<int>, w: int, h: int)
    requires 1 <= w && 1 <= h && w * h <= e.Length
    modifies e
    ensures forall t :: 0 <= t < e.Length ==> e[t] == if OnBorder(t, w, h) then Sentinel else old(e[t])
  {
    var n := w * h;
    MulMonotone(1, h, w);
    ghost var e0 := e[..];
    PadRange(e, 0, w);
    ghost var e1 := e[..];
    PadRange(e, n - w, n);
    ghost var e2 := e[..];
    PadSides(e, w, h);
    forall t | 0 <= t < e.Length
      ensures e[t] == if OnBorder(t, w, h) then Sentinel else e0[t]
    {
      assert e[t] == if w <= t < n && SideColumn(t, w) then Sentinel else e2[t];
      assert e2[t] == if n - w <= t < n then Sentinel else e1[t];
      assert e1[t] == if t < w then Sentinel else e0[t];
    }
  }

  /** The first two loops of `paddEnergyImage`: the cells lo until hi become the sentinel. */
  method PadRange(e: array<int>, lo: int, hi: int)
    requires 0 <= lo <= hi <= e.Length
    modifies e
    ensures forall t :: 0 <= t < e.Length ==> e[t] == if lo <= t < hi then Sentinel else old(e[t])
  {
    for i := lo to hi
      invariant forall t :: 0 <= t < e.Length ==> e[t] == if lo <= t < i then Sentinel else old(e[t])
    {
      e[i] := Sentinel;
    }
  }

  /** A row start below w * h leaves room for the whole row. */
  lemma RowStartBound(i: int, m: int, w: int, h: int)
    requires 1 <= w && 1 <= m && i == m * w && i < w * h
    ensures m < h && i + w <= w * h && i + w == (m + 1) * w
  {
    if m >= h { MulMonotone(h, m, w); }
    MulMonotone(m + 1, h, w);
  }

  /** One pass of the third loop of `paddEnergyImage` adds the two side cells of the row starting at i. */
  lemma SidesStep(a: seq<int>, b: seq<int>, o: seq<int>, i: int, m: int, w: int)
    requires 1 <= w && i == m * w && |a| == |b| == |o|
    requires forall t :: 0 <= t < |a| ==> a[t] == if w <= t < i && SideColumn(t, w) then Sentinel else o[t]
    requires forall t :: 0 <= t < |a| ==> b[t] == if t == i || t == i + w - 1 then Sentinel else a[t]
    requires w <= i
    ensures forall t :: 0 <= t < |a| ==> b[t] == if w <= t < i + w && SideColumn(t, w) then Sentinel else o[t]
  {
    forall t | 0 <= t < |a|
      ensures b[t] == if w <= t < i + w && SideColumn(t, w) then Sentinel else o[t]
    {
      SideColumnStep(t, i, m, w);
    }
  }

  /** The third loop of `paddEnergyImage`: both side cells of every row from the second one on. */
  method PadSides(e: array<int>, w: int, h: int)
    requires 1 <= w && 1 <= h && w * h <= e.Length
    modifies e
    ensures forall t :: 0 <= t < e.Length ==>
      e[t] == if w <= t < w * h && SideColumn(t, w) then Sentinel else old(e[t])
  {
    var n := w * h;
    MulMonotone(1, h, w);
    var i := w;
    ghost var m := 1;
    ghost var e0 := e[..];
    while i < n
      invariant 1 <= m <= h && i == m * w
      invariant forall t :: 0 <= t < e.Length ==>
        e[t] == if w <= t < i && SideColumn(t, w) then Sentinel else e0[t]
      decreases n - i
    {
      RowStartBound(i, m, w, h);
      ghost var before := e[..];
      e[i] := Sentinel;
      e[i + w - 1] := Sentinel;
      SidesStep(before, e[..], e0, i, m, w);
      i := i + w;
      m := m + 1;
    }
    MulMonotone(m, h, w);
    assert i == w * h;
  }

  /** The inner loop of `runSobelEdgeDetection`: the Sobel energy of the interior cells of row k. */
  method SobelRow(bw: array<int>, energy: array<int>, base: int, k: int, w: int, h: int)
    requires bw != energy && 1 <= w && 1 <= k <= h - 2 && base == k * w
    requires w * h <= bw.Length && w * h == energy.Length
    modifies energy
    ensures forall t :: base < t < base + w - 1 ==> 0 <= t < w * h && energy[t] == EnergyAt(bw[..], w, h, t)
    ensures forall t :: 0 <= t < energy.Length && !(base < t < base + w - 1) ==> energy[t] == old(energy[t])
  {
    ghost var grey := bw[..];
    RowEnds(base, k, w, h);
    var j := 1;
    while j < w - 1
      invariant 1 <= j && (j <= w - 1 || j == 1)
      invariant forall t :: base < t < base + j ==> 0 <= t < w * h && energy[t] == EnergyAt(grey, w, h, t)
      invariant forall t :: 0 <= t < energy.Length && !(base < t < base + j) ==> energy[t] == old(energy[t])
    {
      var i := base + j;
      InteriorCell(base, k, j, w, h);
      energy[i] := CalculateEnergyValue(bw, Neighbourhood(i, w));
      j := j + 1;
    }
  }

  /** `runSobelEdgeDetection`: the Sobel energy of every interior cell, then the border padding. */
  method RunSobelEdgeDetection(bw: array<int>, w: int, h: int) returns (energy: array<int>)
    requires 1 <= w && 1 <= h && w * h <= bw.Length
    ensures fresh(energy) && energy.Length == w * h
    ensures forall t :: 0 <= t < w * h ==> energy[t] == EnergyAt(bw[..], w, h, t)
  {
    ghost var grey := bw[..];
    var n := w * h;
    energy := new int[n];
    var k := 1;
    var base := w;
    while k < h - 1
      invariant 1 <= k && (k <= h - 1 || h == 1) && base == k * w
      invariant forall t :: 0 <= t < base && t < n && !OnBorder(t, w, h) ==> energy[t] == EnergyAt(grey, w, h, t)
    {
      SobelRow(bw, energy, base, k, w, h);
      RowEnds(base, k, w, h);
      k := k + 1;
      base := base + w;
    }
    PastLastRow(base, k, w, h);
    ghost var inner := energy[..];
    forall t | 0 <= t < n && !OnBorder(t, w, h)
      ensures inner[t] == EnergyAt(grey, w, h, t)
    {
      InteriorBeforeLastRow(t, base, w, h);
    }
    PaddEnergyImage(energy, w, h);
    forall t | 0 <= t < n
      ensures energy[t] == EnergyAt(grey, w, h, t)
    {
    }
  }

  /**
   * The cells `fixEnergyImage` recomputes: in each row i with 1 <= i <= |seam| - 2,
   * the cells seam[i] - i and seam[i] - i - 1 of the map now nw wide, when they
   * lie strictly inside row i.
   */
  predicate Repaired(t: int, seam: seq<int>, nw: int)
    requires 1 <= nw
  {
    var i := t / nw;
    1 <= i < |seam| - 1 && 0 < t % nw < nw - 1 && (t == seam[i] - i || t == seam[i] - i - 1)
  }

  lemma RepairedInside(t: int, seam: seq<int>, nw: int, h: int)
    requires 1 <= nw && |seam| == h && Repaired(t, seam, nw)
    ensures nw + 1 <= t && t + nw + 1 < nw * h
  {
    var i, c := t / nw, t % nw;
    assert t == i * nw + c;
    MulMonotone(1, i, nw);
    MulMonotone(i + 2, h, nw);
  }

  /** The cells row i of the repair loop recomputes: seam[i] - i and seam[i] - i - 1, strictly inside row i. */
  predicate RowTarget(t: int, seam: seq<int>, nw: int, i: int)
    requires 0 <= i < |seam|
  {
    (t == seam[i] - i || t == seam[i] - i - 1) && nw * i < t < nw * i + nw - 1
  }

  lemma RowTargetInside(t: int, seam: seq<int>, nw: int, h: int, i: int)
    requires 1 <= nw && |seam| == h && 1 <= i < h - 1 && RowTarget(t, seam, nw, i)
    ensures nw + 1 <= t && t + nw + 1 < nw * h
  {
    MulMonotone(1, i, nw);
    MulMonotone(i + 2, h, nw);
  }

  /** Row i of the repair loop recomputes exactly the cells of row i that `Repaired` names. */
  lemma RepairedStep(t: int, seam: seq<int>, nw: int, i: int)
    requires 1 <= nw && 1 <= i < |seam| - 1
    ensures (Repaired(t, seam, nw) && t / nw == i) <==> RowTarget(t, seam, nw, i)
  {
    if nw * i < t < nw * i + nw - 1 { DivModUnique(i, t - nw * i, nw); }
    if t / nw == i { assert t == i * nw + t % nw; }
  }

  function RepairedSobel(bw: seq<int>, seam: seq<int>, nw: int, h: int, t: int): (e: int)
    requires 1 <= nw && |seam| == h && nw * h <= |bw| && Repaired(t, seam, nw)
    ensures 0 <= e <= MaxEnergy
  {
    RepairedInside(t, seam, nw, h);
    SobelAt(bw, t, nw)
  }

  /** The energy map after `fixEnergyImage`, cell by cell. */
  function RepairedEnergy(e: seq<int>, bw: seq<int>, seam: seq<int>, nw: int, h: int, t: int): int
    requires 1 <= nw && 1 <= h && |seam| == h && nw * h <= |bw| && 0 <= t < |e|
  {
    if OnBorder(t, nw, h) then Sentinel
    else if Repaired(t, seam, nw) then RepairedSobel(bw, seam, nw, h, t)
    else e[t]
  }

  /** The energy map after `fixEnergyImage` at width nw. */
  function Repair(e: seq<int>, bw: seq<int>, seam: seq<int>, nw: int, h: int): (r: seq<int>)
    requires 1 <= nw && 1 <= h && |seam| == h && nw * h <= |bw|
    ensures |r| == |e|
  {
    seq(|e|, t requires 0 <= t < |e| => RepairedEnergy(e, bw, seam, nw, h, t))
  }

  /** The repair leaves every entry past the grid nw wide as it was. */
  lemma RepairBeyond(e: seq<int>, bw: seq<int>, seam: seq<int>, nw: int, h: int, t: int)
    requires 1 <= nw && 1 <= h && |seam| == h && nw * h <= |bw| && nw * h <= t < |e|
    ensures Repair(e, bw, seam, nw, h)[t] == e[t]
  {
    var i := t / nw;
    assert t == i * nw + t % nw;
    if i < h {
      MulMonotone(i + 1, h, nw);
    }
  }

  /** The recomputation of one cell strictly inside a map nw wide. */
  method RecomputeCell(bw: array<int>, e: array<int>, pos: int, nw: int, h: int)
    requires bw != e && 1 <= nw && nw * h <= bw.Length && nw * h <= e.Length
    requires nw + 1 <= pos && pos + nw + 1 < nw * h
    modifies e
    ensures forall t :: 0 <= t < e.Length ==> e[t] == if t == pos then SobelAt(bw[..], pos, nw) else old(e[t])
  {
    e[pos] := CalculateEnergyValue(bw, Neighbourhood(pos, nw));
  }

  /** One pass of the loop of `fixEnergyImage`: the guarded recomputation in row i. */
  method RepairRow(seam: seq<int>, bw: array<int>, e: array<int>, nw: int, h: int, i: int)
    requires bw != e
    requires 1 <= nw && |seam| == h && nw * h <= bw.Length && nw * h <= e.Length
    requires 1 <= i < h - 1
    modifies e
    ensures forall t :: 0 <= t < e.Length && RowTarget(t, seam, nw, i) ==>
      nw + 1 <= t && t + nw + 1 < nw * h && e[t] == SobelAt(bw[..], t, nw)
    ensures forall t :: 0 <= t < e.Length && !RowTarget(t, seam, nw, i) ==> e[t] == old(e[t])
  {
    var posA := seam[i] - i;
    var posB := posA - 1;
    var widthMin := nw * i;
    var widthMax := widthMin + nw - 1;
    if posA > widthMin && posA < widthMax {
      RowTargetInside(posA, seam, nw, h, i);
      RecomputeCell(bw, e, posA, nw, h);
    }
    if posB > widthMin && posB < widthMax {
      RowTargetInside(posB, seam, nw, h, i);
      RecomputeCell(bw, e, posB, nw, h);
    }
  }

  /**
   * `fixEnergyImage`: recomputes the two cells beside the removed pixel of every
   * row but the first and the last, from the grey image at the new width, and
   * pads the border again.
   */
  method FixEnergyImage(seam: seq<int>, bw: array<int>, e: array<int>, nw: int, h: int)
    requires bw != e
    requires 1 <= nw && 1 <= h && |seam| == h && nw * h <= bw.Length && nw * h <= e.Length
    modifies e
    ensures e[..] == Repair(old(e[..]), bw[..], seam, nw, h)
  {
    ghost var grey, before := bw[..], e[..];
    var i := 1;
    while i < |seam| - 1
      invariant 1 <= i && (i <= |seam| - 1 || i == 1)
      invariant forall t :: 0 <= t < e.Length ==>
        e[t] == if Repaired(t, seam, nw) && t / nw < i then RepairedSobel(grey, seam, nw, h, t) else before[t]
    {
      RepairRow(seam, bw, e, nw, h, i);
      forall t | 0 <= t < e.Length
        ensures e[t] == if Repaired(t, seam, nw) && t / nw < i + 1 then RepairedSobel(grey, seam, nw, h, t) else before[t]
      {
        RepairedStep(t, seam, nw, i);
      }
      i := i + 1;
    }
    ghost var repaired := e[..];
    PaddEnergyImage(e, nw, h);
    forall t | 0 <= t < e.Length
      ensures e[t] == RepairedEnergy(before, grey, seam, nw, h, t)
    {
      assert e[t] == if OnBorder(t, nw, h) then Sentinel else repaired[t];
    }
    assert e[..] == Repair(before, grey, seam, nw, h);
  }
}
