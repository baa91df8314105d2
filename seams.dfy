/**
 * The seam finder: the dynamic programme of `rebuildAccumulatedEnergyMatrix`
 * over the energy map, the backtrack chain `findSeam` follows from the cheapest
 * cell of the last row, and what they promise: every chain is a connected
 * path from the top row, its cost is the accumulated energy of its last cell,
 * and no connected path is cheaper.
 *
 * The programme is stated over the energy map cut into rows (`Grid.Rows`),
 * cell (r, c) being g[r][c]; `Seam` turns the chain back into the flat
 * indices r * w + c of the buffers.
 */
module Seams {
  import opened Grid
  import opened Sobel

  /** An energy map of at least one row, every row w >= 2 wide. */
  predicate Shape(g: seq<seq<int>>, w: int)
  {
    2 <= w && 1 <= |g| && forall r :: 0 <= r < |g| ==> |g[r]| == w
  }

  /**
   * An energy map the dynamic programme runs over without overflow: every
   * cell's energy in [0, MaxEnergy], and few enough rows that no accumulated
   * energy reaches Integer.MAX_VALUE.
   */
  predicate Costs(g: seq<seq<int>>, w: int)
  {
    Shape(g, w) && |g| * MaxEnergy < IntMax &&
    forall r, c :: 0 <= r < |g| && 0 <= c < w ==> 0 <= g[r][c] <= MaxEnergy
  }

  /**
   * The offsets into the previous row that `rebuildAccumulatedEnergyMatrix`
   * hands to the neighbour search of a cell in column c: {0, 1} in the first
   * column, {-1, 0} in the last, {-1, 0, 1} elsewhere.
   */
  function Offsets(c: int, w: int): (off: seq<int>)
    requires 2 <= w && 0 <= c < w
    ensures 2 <= |off| <= 3
    ensures forall k :: 0 <= k < |off| ==> -1 <= off[k] <= 1 && 0 <= c + off[k] < w
  {
    if c == 0 then [0, 1] else if c == w - 1 then [-1, 0] else [-1, 0, 1]
  }

  /** The first column of the previous row the neighbour search of column c looks at. */
  function WindowStart(c: int): int
  {
    if c == 0 then 0 else c - 1
  }

  /** One past the last column of the previous row the neighbour search of column c looks at. */
  function WindowEnd(c: int, w: int): int
  {
    if c == w - 1 then c + 1 else c + 2
  }

  /**
   * The offsets visit the columns of the window in increasing order, each
   * once: the k-th offset names column WindowStart(c) + k, and every column
   * d with |d - c| <= 1 inside the grid is in the window.
   */
  lemma OffsetsSpan(c: int, w: int)
    requires 2 <= w && 0 <= c < w
    ensures 0 <= WindowStart(c) < WindowEnd(c, w) <= w
    ensures WindowEnd(c, w) - WindowStart(c) == |Offsets(c, w)|
    ensures forall k :: 0 <= k < |Offsets(c, w)| ==> c + Offsets(c, w)[k] == WindowStart(c) + k
  {
  }

  /** The result of a scan for the smallest value: the value and where it was found. */
  datatype Pick = Pick(value: int, index: int)

  /**
   * The scan of the neighbour search and of `findSeam`'s last row over the
   * first n values: it starts from Integer.MAX_VALUE and index -1 and takes a
   * value only when it is strictly smaller. `ScanMinSpec` states what it finds.
   */
  function ScanMin(vals: seq<int>, n: nat): (p: Pick)
    requires n <= |vals|
    ensures -1 <= p.index < n
  {
    if n == 0 then Pick(IntMax, -1)
    else
      var p := ScanMin(vals, n - 1);
      if vals[n - 1] < p.value then Pick(vals[n - 1], n - 1) else p
  }

  /**
   * The scan finds the first minimum, and finds nothing exactly when every
   * value is at least Integer.MAX_VALUE.
   */
  lemma {:induction false} ScanMinSpec(vals: seq<int>, n: nat)
    requires n <= |vals|
    ensures var p := ScanMin(vals, n);
      (p.index == -1 <==> forall j :: 0 <= j < n ==> vals[j] >= IntMax) &&
      (p.index == -1 ==> p.value == IntMax) &&
      (p.index != -1 ==> p.value == vals[p.index] && p.value < IntMax) &&
      (p.index != -1 ==> forall j :: 0 <= j < n ==> p.value <= vals[j]) &&
      (p.index != -1 ==> forall j :: 0 <= j < p.index ==> p.value < vals[j])
  {
    if n > 0 {
      ScanMinSpec(vals, n - 1);
    }
  }

  /** The values of the previous row that the neighbour search of column c compares, in offset order. */
  function Window(prev: seq<int>, c: int): (vals: seq<int>)
    requires 2 <= |prev| && 0 <= c < |prev|
    ensures 2 <= |vals| <= 3
  {
    prev[WindowStart(c) .. WindowEnd(c, |prev|)]
  }

  /**
   * The column of the previous row the neighbour search picks for column c:
   * the first neighbour with the least value. When the scan finds nothing the
   * source throws; the model falls back on the first neighbour, which
   * `ChoiceMinimal` shows never happens on a map satisfying `Costs`.
   */
  function Choice(prev: seq<int>, c: int): (d: int)
    requires 2 <= |prev| && 0 <= c < |prev|
    ensures 0 <= d < |prev| && -1 <= d - c <= 1
  {
    var vals := Window(prev, c);
    var k := ScanMin(vals, |vals|).index;
    if k == -1 then WindowStart(c) else WindowStart(c) + k
  }

  /**
   * Row r of `horizontalAccumulatedEnergy`: the energies of the first row,
   * below it the energy of each cell plus the accumulated energy of the
   * neighbour the search picks in the row above.
   */
  function AccRow(g: seq<seq<int>>, w: int, r: int): (row: seq<int>)
    requires Shape(g, w) && 0 <= r < |g|
    ensures |row| == w
    decreases r, 2, 0
  {
    if r == 0 then g[0] else RowPrefix(g, w, r, w)
  }

  /** The first n cells of row r >= 1 of the programme. */
  function RowPrefix(g: seq<seq<int>>, w: int, r: int, n: nat): (row: seq<int>)
    requires Shape(g, w) && 1 <= r < |g| && n <= w
    ensures |row| == n
    decreases r, 1, n
  {
    if n == 0 then []
    else RowPrefix(g, w, r, n - 1) + [g[r][n - 1] + AccAt(g, w, r - 1, ChoiceCol(g, w, r, n - 1))]
  }

  /** `horizontalAccumulatedEnergy` at cell (r, c). */
  function AccAt(g: seq<seq<int>>, w: int, r: int, c: int): int
    requires Shape(g, w) && 0 <= r < |g| && 0 <= c < w
    decreases r, 3, 0
  {
    AccRow(g, w, r)[c]
  }

  /** The column of row r - 1 that `horizontal_dp_backtrack` records for cell (r, c), r >= 1. */
  function ChoiceCol(g: seq<seq<int>>, w: int, r: int, c: int): (d: int)
    requires Shape(g, w) && 1 <= r < |g| && 0 <= c < w
    ensures 0 <= d < w && -1 <= d - c <= 1
    decreases r, 0, 0
  {
    Choice(AccRow(g, w, r - 1), c)
  }

  lemma {:induction false} RowPrefixAt(g: seq<seq<int>>, w: int, r: int, n: nat, c: int)
    requires Shape(g, w) && 1 <= r < |g| && n <= w && 0 <= c < n
    ensures RowPrefix(g, w, r, n)[c] == g[r][c] + AccAt(g, w, r - 1, ChoiceCol(g, w, r, c))
  {
    if c < n - 1 {
      RowPrefixAt(g, w, r, n - 1, c);
    }
  }

  /** The accumulated energies the neighbour search of cell (r, c), r >= 1, compares. */
  function Candidates(g: seq<seq<int>>, w: int, r: int, c: int): (vals: seq<int>)
    requires Shape(g, w) && 1 <= r < |g| && 0 <= c < w
    ensures |vals| == |Offsets(c, w)|
    ensures forall k :: 0 <= k < |vals| ==> vals[k] == AccAt(g, w, r - 1, c + Offsets(c, w)[k])
  {
    OffsetsSpan(c, w);
    Window(AccRow(g, w, r - 1), c)
  }

  /**
   * The recurrence of the programme cell by cell: the first row holds the
   * energies, and a cell below it adds its energy to the accumulated energy
   * of the neighbour the search picks.
   */
  lemma AccStep(g: seq<seq<int>>, w: int, r: int, c: int)
    requires Shape(g, w) && 0 <= r < |g| && 0 <= c < w
    ensures r == 0 ==> AccAt(g, w, r, c) == g[0][c]
    ensures r > 0 ==> AccAt(g, w, r, c) == g[r][c] + AccAt(g, w, r - 1, ChoiceCol(g, w, r, c))
  {
    if r > 0 {
      RowPrefixAt(g, w, r, w, c);
    }
  }

  /** `horizontal_dp_backtrack` at cell (r, c), as a flat index: the cell itself in the first row. */
  function BackAt(g: seq<seq<int>>, w: int, r: int, c: int): int
    requires Shape(g, w) && 0 <= r < |g| && 0 <= c < w
  {
    if r == 0 then c else (r - 1) * w + ChoiceCol(g, w, r, c)
  }

  /** The accumulated energy of cell (r, c) is at most (r + 1) * MaxEnergy. */
  lemma {:induction false} AccBound(g: seq<seq<int>>, w: int, r: int, c: int)
    requires Costs(g, w) && 0 <= r < |g| && 0 <= c < w
    ensures 0 <= AccAt(g, w, r, c) <= (r + 1) * MaxEnergy
    decreases r
  {
    AccStep(g, w, r, c);
    if r > 0 {
      var d := ChoiceCol(g, w, r, c);
      AccBound(g, w, r - 1, d);
      var x := AccAt(g, w, r - 1, d);
      assert AccAt(g, w, r, c) == g[r][c] + x;
    }
  }

  /**
   * On a map satisfying `Costs` the neighbour search of cell (r, c), r >= 1,
   * always finds a cell (the exception of the source is unreachable), and the
   * column it picks has the least accumulated energy of the neighbours,
   * strictly less than every neighbour to its left.
   */
  lemma ChoiceMinimal(g: seq<seq<int>>, w: int, r: int, c: int)
    requires Costs(g, w) && 1 <= r < |g| && 0 <= c < w
    ensures var vals := Candidates(g, w, r, c);
      var k := ScanMin(vals, |vals|).index;
      0 <= k < |vals| && ChoiceCol(g, w, r, c) == c + Offsets(c, w)[k] &&
      (forall j :: 0 <= j < |vals| ==> vals[k] <= vals[j]) &&
      (forall j :: 0 <= j < k ==> vals[k] < vals[j])
  {
    var vals, off := Candidates(g, w, r, c), Offsets(c, w);
    OffsetsSpan(c, w);
    ScanMinSpec(vals, |vals|);
    MulMonotone(r, |g| - 1, MaxEnergy);
    forall j | 0 <= j < |off|
      ensures vals[j] < IntMax
    {
      AccBound(g, w, r - 1, c + off[j]);
    }
    assert vals[0] < IntMax;
  }

  /** The picked neighbour is no more expensive than any cell (r - 1, d) with |d - c| <= 1. */
  lemma ChoiceBelow(g: seq<seq<int>>, w: int, r: int, c: int, d: int)
    requires Costs(g, w) && 1 <= r < |g| && 0 <= c < w && 0 <= d < w && -1 <= d - c <= 1
    ensures AccAt(g, w, r - 1, ChoiceCol(g, w, r, c)) <= AccAt(g, w, r - 1, d)
  {
    ChoiceMinimal(g, w, r, c);
    OffsetsSpan(c, w);
    var vals := Candidates(g, w, r, c);
    var j := d - WindowStart(c);
    var k := ScanMin(vals, |vals|).index;
    assert vals[j] == AccAt(g, w, r - 1, d);
    assert vals[k] == AccAt(g, w, r - 1, ChoiceCol(g, w, r, c));
  }

  /**
   * A connected path down the grid, as the column of each row: entry k is a
   * column of row k, and the columns of consecutive rows differ by at most one.
   */
  predicate Connected(cols: seq<int>, w: int)
  {
    InColumns(cols, w) && forall i :: 0 <= i < |cols| - 1 ==> -1 <= Drift(cols, i) <= 1
  }

  /** How far the path moves sideways from row i to row i + 1. */
  function Drift(cols: seq<int>, i: int): int
    requires 0 <= i < |cols| - 1
  {
    cols[i + 1] - cols[i]
  }

  /** Every entry of `cols` is a column of a grid w wide. */
  predicate InColumns(cols: seq<int>, w: int)
  {
    forall k :: 0 <= k < |cols| ==> 0 <= cols[k] < w
  }

  /** The energy summed along a path of at most |g| rows, entry k naming a column of row k. */
  function PathCost(g: seq<seq<int>>, w: int, cols: seq<int>): int
    requires Shape(g, w) && InColumns(cols, w) && |cols| <= |g|
  {
    if |cols| == 0 then 0
    else
      var k := |cols| - 1;
      PathCost(g, w, cols[..k]) + g[k][cols[k]]
  }

  /** The columns of the backtrack chain that ends in cell (r, c), from the first row down. */
  function SeamCols(g: seq<seq<int>>, w: int, r: int, c: int): (s: seq<int>)
    requires Shape(g, w) && 0 <= r < |g| && 0 <= c < w
    ensures |s| == r + 1 && s[r] == c && InColumns(s, w)
    decreases r
  {
    if r == 0 then [c] else SeamCols(g, w, r - 1, ChoiceCol(g, w, r, c)) + [c]
  }

  /** The backtrack chain ending in (r, c) is a connected path. */
  lemma {:induction false} SeamColsConnected(g: seq<seq<int>>, w: int, r: int, c: int)
    requires Shape(g, w) && 0 <= r < |g| && 0 <= c < w
    ensures Connected(SeamCols(g, w, r, c), w)
    decreases r
  {
    if r > 0 {
      var d := ChoiceCol(g, w, r, c);
      SeamColsConnected(g, w, r - 1, d);
      var s, s' := SeamCols(g, w, r, c), SeamCols(g, w, r - 1, d);
      assert s == s' + [c];
      forall i | 0 <= i < r - 1
        ensures Drift(s, i) == Drift(s', i)
      {
      }
    }
  }

  /** Entry k >= 1 of the chain ending in (r, c) is followed back to entry k - 1 by the backtrack. */
  lemma {:induction false} SeamColsStep(g: seq<seq<int>>, w: int, r: int, c: int, k: int)
    requires Shape(g, w) && 0 <= r < |g| && 0 <= c < w && 1 <= k <= r
    ensures var s := SeamCols(g, w, r, c);
      0 <= s[k] < w && s[k - 1] == ChoiceCol(g, w, k, s[k])
    decreases r
  {
    var d := ChoiceCol(g, w, r, c);
    var s, s' := SeamCols(g, w, r, c), SeamCols(g, w, r - 1, d);
    assert s == s' + [c];
    if k < r {
      SeamColsStep(g, w, r - 1, d, k);
      assert s[k - 1] == s'[k - 1] && s[k] == s'[k];
    } else {
      assert s[k] == c && s[k - 1] == s'[r - 1] == d;
    }
  }

  /** The cost of the chain ending in (r, c) is the accumulated energy of (r, c). */
  lemma {:induction false} SeamColsCost(g: seq<seq<int>>, w: int, r: int, c: int)
    requires Shape(g, w) && 0 <= r < |g| && 0 <= c < w
    ensures PathCost(g, w, SeamCols(g, w, r, c)) == AccAt(g, w, r, c)
    decreases r
  {
    AccStep(g, w, r, c);
    if r > 0 {
      var d := ChoiceCol(g, w, r, c);
      SeamColsCost(g, w, r - 1, d);
      var s, s' := SeamCols(g, w, r, c), SeamCols(g, w, r - 1, d);
      assert s == s' + [c];
      assert s[..r] == s';
    }
  }

  /**
   * Optimality of the programme: no connected path from the first row to a
   * cell is cheaper than the cell's accumulated energy.
   */
  lemma {:induction false} AccOptimal(g: seq<seq<int>>, w: int, cols: seq<int>)
    requires Costs(g, w) && Connected(cols, w) && 1 <= |cols| <= |g|
    ensures AccAt(g, w, |cols| - 1, cols[|cols| - 1]) <= PathCost(g, w, cols)
    decreases |cols|
  {
    var k := |cols| - 1;
    AccStep(g, w, k, cols[k]);
    if k > 0 {
      var prefix := cols[..k];
      forall i | 0 <= i < k - 1
        ensures Drift(prefix, i) == Drift(cols, i)
      {
      }
      AccOptimal(g, w, prefix);
      assert -1 <= Drift(cols, k - 1) <= 1;
      ChoiceBelow(g, w, k, cols[k], cols[k - 1]);
    }
  }

  /** The accumulated energies of the last row. */
  function LastRow(g: seq<seq<int>>, w: int): (vals: seq<int>)
    requires Shape(g, w)
    ensures |vals| == w && forall c :: 0 <= c < w ==> vals[c] == AccAt(g, w, |g| - 1, c)
  {
    AccRow(g, w, |g| - 1)
  }

  /** The column of the last row `findSeam` starts from: the first one with the least accumulated energy. */
  function SeamStart(g: seq<seq<int>>, w: int): int
    requires Shape(g, w)
  {
    ScanMin(LastRow(g, w), w).index
  }

  /** The flat indices of a path: row k, column cols[k]. */
  function Cells(cols: seq<int>, w: int): (s: seq<int>)
    ensures |s| == |cols| && forall k :: 0 <= k < |cols| ==> s[k] == k * w + cols[k]
  {
    seq(|cols|, k requires 0 <= k < |cols| => k * w + cols[k])
  }

  /**
   * The seam `findSeam` returns, one flat index per row: the backtrack chain
   * from `SeamStart`. If the scan of the last row finds nothing the source
   * keeps its initial flat index 0, whose backtrack is itself, in every entry.
   */
  function Seam(g: seq<seq<int>>, w: int): (s: seq<int>)
    requires Shape(g, w)
    ensures |s| == |g|
  {
    var k := SeamStart(g, w);
    if k == -1 then seq(|g|, _ => 0) else Cells(SeamCols(g, w, |g| - 1, k), w)
  }

  /**
   * On a map satisfying `Costs` the seam is the chain from the first cell of
   * the last row whose accumulated energy is least.
   */
  lemma SeamEnd(g: seq<seq<int>>, w: int)
    requires Costs(g, w)
    ensures var k := SeamStart(g, w);
      0 <= k < w && Seam(g, w) == Cells(SeamCols(g, w, |g| - 1, k), w) &&
      (forall c :: 0 <= c < w ==> LastRow(g, w)[k] <= LastRow(g, w)[c]) &&
      (forall c :: 0 <= c < k ==> LastRow(g, w)[k] < LastRow(g, w)[c])
  {
    StartMinimal(g, w);
  }

  /** The start column is the first one of the last row with the least accumulated energy. */
  lemma StartMinimal(g: seq<seq<int>>, w: int)
    requires Costs(g, w)
    ensures var k := SeamStart(g, w);
      0 <= k < w &&
      (forall c :: 0 <= c < w ==> LastRow(g, w)[k] <= LastRow(g, w)[c]) &&
      (forall c :: 0 <= c < k ==> LastRow(g, w)[k] < LastRow(g, w)[c])
  {
    var vals := LastRow(g, w);
    ScanMinSpec(vals, w);
    AccBound(g, w, |g| - 1, 0);
    assert vals[0] < IntMax;
  }

  /**
   * The seam is a connected path of one cell per row, and no connected path
   * of one cell per row costs less.
   */
  lemma SeamOptimal(g: seq<seq<int>>, w: int, cols: seq<int>)
    requires Costs(g, w) && Connected(cols, w) && |cols| == |g|
    ensures 0 <= SeamStart(g, w) < w
    ensures var s := SeamCols(g, w, |g| - 1, SeamStart(g, w));
      Connected(s, w) && PathCost(g, w, s) <= PathCost(g, w, cols)
  {
    var k := SeamStart(g, w);
    StartBelow(g, w, cols);
    SeamColsConnected(g, w, |g| - 1, k);
    SeamColsCost(g, w, |g| - 1, k);
  }

  /** The accumulated energy where the seam starts undercuts every connected path. */
  lemma StartBelow(g: seq<seq<int>>, w: int, cols: seq<int>)
    requires Costs(g, w) && Connected(cols, w) && |cols| == |g|
    ensures 0 <= SeamStart(g, w) < w && AccAt(g, w, |g| - 1, SeamStart(g, w)) <= PathCost(g, w, cols)
  {
    var h, k := |g|, SeamStart(g, w);
    var c := cols[h - 1];
    StartMinimal(g, w);
    assert LastRow(g, w)[k] <= LastRow(g, w)[c];
    AccOptimal(g, w, cols);
  }

  /**
   * The seam, as columns: a connected path that no connected path of one
   * cell per row undercuts, holding cell c_k of each row k.
   */
  lemma SeamBest(g: seq<seq<int>>, w: int, cols: seq<int>)
    requires Costs(g, w) && Connected(cols, w) && |cols| == |g|
    ensures 0 <= SeamStart(g, w) < w
    ensures var best := SeamCols(g, w, |g| - 1, SeamStart(g, w));
      Connected(best, w) && PathCost(g, w, best) <= PathCost(g, w, cols) && Seam(g, w) == Cells(best, w)
  {
    SeamOptimal(g, w, cols);
    SeamEnd(g, w);
  }

  /**
   * Entry i >= 1 of the seam is cell c of row i, and entry i - 1 is where the
   * backtrack of that cell points.
   */
  lemma SeamStepBack(g: seq<seq<int>>, w: int, i: int) returns (c: int)
    requires Costs(g, w) && 1 <= i < |g|
    ensures 0 <= c < w && Seam(g, w)[i] == i * w + c && Seam(g, w)[i - 1] == BackAt(g, w, i, c)
  {
    SeamEnd(g, w);
    var k := SeamStart(g, w);
    var cols := SeamCols(g, w, |g| - 1, k);
    SeamColsStep(g, w, |g| - 1, k, i);
    c := cols[i];
    assert Seam(g, w)[i - 1] == (i - 1) * w + ChoiceCol(g, w, i, c);
  }
}
