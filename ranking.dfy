/**
 * The ordering `highlightNSeams` puts the cells of the last row in: pairs of
 * a flat index and its accumulated energy, sorted by energy with
 * `Arrays.sort`, which is stable. The pairs are built in increasing index
 * order, so a stable sort by energy is the sort by (energy, index); `Ranked`
 * is an insertion sort by that key standing in for the library call.
 */
module Ranking {
  import opened Grid
  import opened Seams

  /** One row of `topSeamStart`: a flat index and the accumulated energy there. */
  datatype Start = Start(pos: int, value: int)

  /** Less energy first; equal energies in increasing index order. */
  predicate Before(a: Start, b: Start)
  {
    a.value < b.value || (a.value == b.value && a.pos <= b.pos)
  }

  predicate Sorted(s: seq<Start>)
  {
    forall i, j :: 0 <= i < j < |s| ==> Before(s[i], s[j])
  }

  /** The pairs of `highlightNSeams` for a last row starting at flat index base. */
  function Starts(vals: seq<int>, base: int): (s: seq<Start>)
    ensures |s| == |vals| && forall i :: 0 <= i < |vals| ==> s[i] == Start(base + i, vals[i])
  {
    seq(|vals|, i requires 0 <= i < |vals| => Start(base + i, vals[i]))
  }

  function Insert(x: Start, s: seq<Start>): (r: seq<Start>)
    ensures |r| == |s| + 1
  {
    if s == [] then [x]
    else if Before(x, s[0]) then [x] + s
    else [s[0]] + Insert(x, s[1..])
  }

  function Ranked(s: seq<Start>): (r: seq<Start>)
    ensures |r| == |s|
  {
    if s == [] then [] else Insert(s[0], Ranked(s[1..]))
  }

  lemma {:induction false} InsertPermutation(x: Start, s: seq<Start>)
    ensures multiset(Insert(x, s)) == multiset(s) + multiset{x}
  {
    if s == [] {
      assert Insert(x, s) == [x];
    } else if Before(x, s[0]) {
      assert Insert(x, s) == [x] + s;
    } else {
      var t := s[1..];
      InsertPermutation(x, t);
      assert s == [s[0]] + t;
      assert Insert(x, s) == [s[0]] + Insert(x, t);
      assert multiset(Insert(x, s)) == multiset{s[0]} + multiset(Insert(x, t));
    }
  }

  lemma {:induction false} InsertSorted(x: Start, s: seq<Start>)
    requires Sorted(s)
    ensures Sorted(Insert(x, s))
  {
    if s != [] && !Before(x, s[0]) {
      var t := s[1..];
      InsertSorted(x, t);
      InsertPermutation(x, t);
      var r := Insert(x, t);
      forall j | 0 <= j < |r|
        ensures Before(s[0], r[j])
      {
        assert r[j] in multiset(t) + multiset{x};
        if r[j] != x {
          assert r[j] in t;
        }
      }
    }
  }

  /** The pairs of one more cell: the pair of that cell at the end. */
  lemma StartsNext(vals: seq<int>, base: int, i: int)
    requires 0 <= i < |vals|
    ensures Starts(vals[..i + 1], base) == Starts(vals[..i], base) + [Start(base + i, vals[i])]
  {
  }

  /** The ranking holds the same pairs as the input. */
  lemma {:induction false} RankedPermutation(s: seq<Start>)
    ensures multiset(Ranked(s)) == multiset(s)
  {
    if s != [] {
      RankedPermutation(s[1..]);
      InsertPermutation(s[0], Ranked(s[1..]));
      assert s == [s[0]] + s[1..];
    }
  }

  /** The ranking is ordered by energy, ties in increasing index order. */
  lemma {:induction false} RankedSorted(s: seq<Start>)
    ensures Sorted(Ranked(s))
  {
    if s != [] {
      RankedSorted(s[1..]);
      InsertSorted(s[0], Ranked(s[1..]));
    }
  }

  /**
   * The first pair of the ranking is the cell `findSeam` starts from: the
   * first cell of the last row with the least accumulated energy.
   */
  lemma RankedFirst(vals: seq<int>, base: int)
    requires 1 <= |vals| && forall c :: 0 <= c < |vals| ==> vals[c] < IntMax
    ensures var k := ScanMin(vals, |vals|).index;
      0 <= k < |vals| && Ranked(Starts(vals, base))[0] == Start(base + k, vals[k])
  {
    var s := Starts(vals, base);
    var r := Ranked(s);
    ScanMinSpec(vals, |vals|);
    var k := ScanMin(vals, |vals|).index;
    assert vals[0] < IntMax;
    RankedPermutation(s);
    RankedSorted(s);
    assert r[0] in multiset(s);
    var m :| 0 <= m < |s| && s[m] == r[0];
    assert s[k] in multiset(r);
    var n :| 0 <= n < |r| && r[n] == s[k];
    assert Before(r[0], s[k]) by {
      if n > 0 { assert Before(r[0], r[n]); }
    }
    assert m == k;
  }

  /**
   * Every pair of the ranking of a last row starting at base is one of its
   * cells: a flat index of the row and the value there.
   */
  lemma RankedPositions(vals: seq<int>, base: int)
    ensures var r := Ranked(Starts(vals, base));
      |r| == |vals| &&
      (forall i :: 0 <= i < |vals| ==> base <= r[i].pos < base + |vals|) &&
      (forall i :: 0 <= i < |vals| ==> r[i].value == vals[r[i].pos - base])
  {
    forall i | 0 <= i < |vals|
      ensures var p := Ranked(Starts(vals, base))[i];
        base <= p.pos < base + |vals| && p.value == vals[p.pos - base]
    {
      RankedAt(vals, base, i);
    }
  }

  lemma RankedAt(vals: seq<int>, base: int, i: int)
    requires 0 <= i < |vals|
    ensures var p := Ranked(Starts(vals, base))[i];
      base <= p.pos < base + |vals| && p.value == vals[p.pos - base]
  {
    var s := Starts(vals, base);
    var p := Ranked(s)[i];
    RankedPermutation(s);
    assert p in multiset(s);
    var c :| 0 <= c < |s| && s[c] == p;
  }

  /**
   * A cell whose pair is not among the first m of the ranking comes after
   * each of them: it has more energy, or as much and a larger index.
   */
  lemma RankedLeast(vals: seq<int>, base: int, m: int, c: int)
    requires 0 <= m <= |vals| && 0 <= c < |vals|
    requires forall j :: 0 <= j < m ==> Ranked(Starts(vals, base))[j].pos != base + c
    ensures forall i :: 0 <= i < m ==> Before(Ranked(Starts(vals, base))[i], Start(base + c, vals[c]))
  {
    var s := Starts(vals, base);
    var r := Ranked(s);
    RankedPermutation(s);
    RankedSorted(s);
    assert s[c] in multiset(r);
    var n :| 0 <= n < |r| && r[n] == s[c];
    assert m <= n;
    forall i | 0 <= i < m
      ensures Before(r[i], s[c])
    {
      assert i < n;
    }
  }
}
