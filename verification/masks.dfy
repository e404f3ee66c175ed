// Fixed 5x5 board geometry used by the bitmask solver and the validator
// (crates/engine/src/masks.rs). A u32 mask is modelled as the set of its bit
// positions, so `a & b` is `a * b` and `count_ones(a & b)` is `|a * b|`.
module Masks {
  const GridSize: nat := 5
  const CellCount: nat := GridSize * GridSize
  const DiagCount: nat := GridSize * 2 - 1
  const LineCount: nat := GridSize * 2 + 2

  type Mask = set<nat>

  /** The mask of every cell of the board. */
  const AllCells: Mask := set i: nat | i < CellCount

  function CellIndex(x: nat, y: nat): (i: nat)
    requires x < GridSize && y < GridSize
    ensures i < CellCount
  {
    x * GridSize + y
  }

  /** `cell_index` is undone by taking quotient and remainder by the grid size. */
  lemma CellIndexRoundTrip(x: nat, y: nat)
    requires x < GridSize && y < GridSize
    ensures Row(CellIndex(x, y)) == x && Col(CellIndex(x, y)) == y
  {
  }

  function CellBit(i: nat): (m: Mask)
    requires i < 32
    ensures i in m && |m| == 1
  {
    {i}
  }

  function Row(i: nat): nat { i / GridSize }
  function Col(i: nat): nat { i % GridSize }

  /** `x.saturating_sub(1)` and `(x + 1).min(GRID_SIZE - 1)`: the scan window around x. */
  function Lo(x: nat): nat { if x == 0 then 0 else x - 1 }
  function Hi(x: nat): nat { if x + 1 < GridSize - 1 then x + 1 else GridSize - 1 }

  /** Cells of the rectangle rows a0..=a1, columns b0..=b1. */
  function Rect(a0: nat, a1: nat, b0: nat, b1: nat): Mask
    requires a1 < GridSize && b1 < GridSize
  {
    set x: nat, y: nat | a0 <= x <= a1 && b0 <= y <= b1 :: CellIndex(x, y)
  }

  /** NEIGHBORS_8[i]: the scan window around i without i itself. */
  function Neighbors8(i: nat): Mask
    requires i < CellCount
  {
    Rect(Lo(Row(i)), Hi(Row(i)), Lo(Col(i)), Hi(Col(i))) - {i}
  }

  /** NEIGHBORS_4[i]: up, down, left and right, when on the board. */
  function Neighbors4(i: nat): Mask
    requires i < CellCount
  {
    var x, y := Row(i), Col(i);
    (if x > 0 then {CellIndex(x - 1, y)} else {})
    + (if x + 1 < GridSize then {CellIndex(x + 1, y)} else {})
    + (if y > 0 then {CellIndex(x, y - 1)} else {})
    + (if y + 1 < GridSize then {CellIndex(x, y + 1)} else {})
  }

  function RowMask(r: nat): Mask
    requires r < GridSize
  {
    set c: nat | c < GridSize :: CellIndex(r, c)
  }

  function ColMask(c: nat): Mask
    requires c < GridSize
  {
    set r: nat | r < GridSize :: CellIndex(r, c)
  }

  /** Id of the down-diagonal (top-left to bottom-right) through (x, y). */
  function DownId(x: nat, y: nat): nat
    requires y < GridSize
  {
    x + (GridSize - 1) - y
  }

  /** Id of the up-diagonal (bottom-left to top-right) through (x, y). */
  function UpId(x: nat, y: nat): nat { x + y }

  function DiagDownMask(d: nat): Mask
  {
    set x: nat, y: nat | x < GridSize && y < GridSize && DownId(x, y) == d :: CellIndex(x, y)
  }

  function DiagUpMask(d: nat): Mask
  {
    set x: nat, y: nat | x < GridSize && y < GridSize && UpId(x, y) == d :: CellIndex(x, y)
  }

  /** The cells (k, k). */
  const MainDiagonal: Mask := Track(0, GridSize - 1, Rise, 0)
  /** The cells (k, GRID_SIZE - 1 - k). */
  const AntiDiagonal: Mask := Track(0, GridSize - 1, Fall, GridSize - 1)

  /** LINE_MASKS: rows 0..=4, columns at 5..=9, the main diagonal at 10, the anti-diagonal at 11. */
  function LineMasks(): (ls: seq<Mask>)
    ensures |ls| == LineCount
  {
    seq(LineCount, k requires 0 <= k < LineCount =>
      if k < GridSize then RowMask(k)
      else if k < 2 * GridSize then ColMask(k - GridSize)
      else if k == 2 * GridSize then MainDiagonal
      else AntiDiagonal)
  }

  // ---------------------------------------------------------------------
  // Membership

  lemma CellIndexInjective(a: nat, b: nat, c: nat, d: nat)
    requires a < GridSize && b < GridSize && c < GridSize && d < GridSize
    ensures CellIndex(a, b) == CellIndex(c, d) <==> a == c && b == d
  {
  }

  lemma CellIndexOf(i: nat)
    requires i < CellCount
    ensures Row(i) < GridSize && Col(i) < GridSize && CellIndex(Row(i), Col(i)) == i
  {
  }

  lemma InRect(a0: nat, a1: nat, b0: nat, b1: nat, i: nat)
    requires a1 < GridSize && b1 < GridSize
    ensures i in Rect(a0, a1, b0, b1) <==>
      i < CellCount && a0 <= Row(i) <= a1 && b0 <= Col(i) <= b1
  {
    if i < CellCount && a0 <= Row(i) <= a1 && b0 <= Col(i) <= b1 {
      CellIndexOf(i);
    }
  }

  /** i's 8-neighbours are exactly the other cells at king-move distance 1. */
  lemma Neighbors8Exact(i: nat, j: nat)
    requires i < CellCount
    ensures j in Neighbors8(i) <==>
      j < CellCount && j != i && -1 <= Row(j) - Row(i) <= 1 && -1 <= Col(j) - Col(i) <= 1
  {
    InRect(Lo(Row(i)), Hi(Row(i)), Lo(Col(i)), Hi(Col(i)), j);
  }

  lemma Neighbors8Symmetric(i: nat, j: nat)
    requires i < CellCount && j < CellCount
    ensures i !in Neighbors8(i)
    ensures j in Neighbors8(i) <==> i in Neighbors8(j)
  {
    Neighbors8Exact(i, j);
    Neighbors8Exact(j, i);
  }

  /** i's 4-neighbours are exactly the cells at rook-move distance 1. */
  lemma Neighbors4Exact(i: nat, j: nat)
    requires i < CellCount
    ensures j in Neighbors4(i) <==>
      j < CellCount &&
      ((Row(j) == Row(i) && (Col(j) + 1 == Col(i) || Col(i) + 1 == Col(j))) ||
       (Col(j) == Col(i) && (Row(j) + 1 == Row(i) || Row(i) + 1 == Row(j))))
  {
  }

  lemma Neighbors4Within8(i: nat, j: nat)
    requires i < CellCount && j < CellCount
    ensures j in Neighbors4(i) ==> j in Neighbors8(i)
    ensures j in Neighbors4(i) <==> i in Neighbors4(j)
  {
    Neighbors4Exact(i, j);
    Neighbors4Exact(j, i);
    Neighbors8Exact(i, j);
  }

  lemma InRowMask(r: nat, i: nat)
    requires r < GridSize
    ensures i in RowMask(r) <==> i < CellCount && Row(i) == r
  {
    if i < CellCount && Row(i) == r {
      CellIndexOf(i);
    }
  }

  lemma InColMask(c: nat, i: nat)
    requires c < GridSize
    ensures i in ColMask(c) <==> i < CellCount && Col(i) == c
  {
    if i < CellCount && Col(i) == c {
      CellIndexOf(i);
    }
  }

  lemma InDiagDownMask(d: nat, i: nat)
    ensures i in DiagDownMask(d) <==> i < CellCount && DownId(Row(i), Col(i)) == d
  {
    if i < CellCount && DownId(Row(i), Col(i)) == d {
      CellIndexOf(i);
    }
  }

  lemma InDiagUpMask(d: nat, i: nat)
    ensures i in DiagUpMask(d) <==> i < CellCount && UpId(Row(i), Col(i)) == d
  {
    if i < CellCount && UpId(Row(i), Col(i)) == d {
      CellIndexOf(i);
    }
  }

  /** Each cell is in exactly one row, one column, one down- and one up-diagonal. */
  lemma PartitionsCoverBoard(i: nat)
    requires i < CellCount
    ensures Row(i) < GridSize && i in RowMask(Row(i))
    ensures Col(i) < GridSize && i in ColMask(Col(i))
    ensures DownId(Row(i), Col(i)) < DiagCount && i in DiagDownMask(DownId(Row(i), Col(i)))
    ensures UpId(Row(i), Col(i)) < DiagCount && i in DiagUpMask(UpId(Row(i), Col(i)))
    ensures forall r :: 0 <= r < GridSize && i in RowMask(r) ==> r == Row(i)
    ensures forall c :: 0 <= c < GridSize && i in ColMask(c) ==> c == Col(i)
    ensures forall d :: 0 <= d && i in DiagDownMask(d) ==> d == DownId(Row(i), Col(i))
    ensures forall d :: 0 <= d && i in DiagUpMask(d) ==> d == UpId(Row(i), Col(i))
  {
    InRowMask(Row(i), i);
    InColMask(Col(i), i);
    InDiagDownMask(DownId(Row(i), Col(i)), i);
    InDiagUpMask(UpId(Row(i), Col(i)), i);
    forall r | 0 <= r < GridSize && i in RowMask(r) ensures r == Row(i) { InRowMask(r, i); }
    forall c | 0 <= c < GridSize && i in ColMask(c) ensures c == Col(i) { InColMask(c, i); }
    forall d | 0 <= d && i in DiagDownMask(d) ensures d == DownId(Row(i), Col(i)) { InDiagDownMask(d, i); }
    forall d | 0 <= d && i in DiagUpMask(d) ensures d == UpId(Row(i), Col(i)) { InDiagUpMask(d, i); }
  }

  // ---------------------------------------------------------------------
  // Popcounts

  /** How the column moves from one row to the next along a straight track. */
  datatype Slope = Flat | Rise | Fall

  function ColAt(slope: Slope, y0: int, x: nat): int
  {
    match slope
    case Flat => y0
    case Rise => y0 + x
    case Fall => y0 - x
  }

  predicate TrackOnBoard(lo: nat, hi: nat, slope: Slope, y0: int)
  {
    hi < GridSize && forall x: nat :: lo <= x <= hi ==> 0 <= ColAt(slope, y0, x) < GridSize
  }

  /** Cells (x, ColAt(slope, y0, x)) for x in lo..=hi: one cell per row. */
  function Track(lo: nat, hi: nat, slope: Slope, y0: int): Mask
    requires TrackOnBoard(lo, hi, slope, y0)
  {
    set x: nat | lo <= x <= hi :: CellIndex(x, ColAt(slope, y0, x))
  }

  lemma InTrack(lo: nat, hi: nat, slope: Slope, y0: int, i: nat)
    requires TrackOnBoard(lo, hi, slope, y0)
    ensures i in Track(lo, hi, slope, y0) <==>
      i < CellCount && lo <= Row(i) <= hi && Col(i) == ColAt(slope, y0, Row(i))
  {
    if i in Track(lo, hi, slope, y0) {
      var x: nat :| lo <= x <= hi && i == CellIndex(x, ColAt(slope, y0, x));
      CellIndexRoundTrip(x, ColAt(slope, y0, x));
    }
    if i < CellCount && lo <= Row(i) <= hi && Col(i) == ColAt(slope, y0, Row(i)) {
      CellIndexOf(i);
    }
  }

  lemma {:induction false} TrackCard(lo: nat, hi: nat, slope: Slope, y0: int)
    requires lo <= hi
    requires TrackOnBoard(lo, hi, slope, y0)
    ensures |Track(lo, hi, slope, y0)| == hi - lo + 1
    decreases hi - lo
  {
    var last := CellIndex(hi, ColAt(slope, y0, hi));
    if lo == hi {
      assert Track(lo, hi, slope, y0) == {last};
    } else {
      TrackCard(lo, hi - 1, slope, y0);
      TrackStep(lo, hi, slope, y0);
    }
  }

  /** A track is the track one row shorter plus its last cell, which is new. */
  lemma TrackStep(lo: nat, hi: nat, slope: Slope, y0: int)
    requires lo < hi && TrackOnBoard(lo, hi, slope, y0)
    ensures |Track(lo, hi, slope, y0)| == |Track(lo, hi - 1, slope, y0)| + 1
  {
    TrackSplit(lo, hi, slope, y0);
    CardAddNew(Track(lo, hi - 1, slope, y0), Track(lo, hi, slope, y0), CellIndex(hi, ColAt(slope, y0, hi)));
  }

  lemma TrackSplit(lo: nat, hi: nat, slope: Slope, y0: int)
    requires lo < hi && TrackOnBoard(lo, hi, slope, y0)
    ensures var last := CellIndex(hi, ColAt(slope, y0, hi));
      Track(lo, hi, slope, y0) == Track(lo, hi - 1, slope, y0) + {last}
      && last !in Track(lo, hi - 1, slope, y0)
  {
    var last := CellIndex(hi, ColAt(slope, y0, hi));
    CellIndexRoundTrip(hi, ColAt(slope, y0, hi));
    InTrack(lo, hi - 1, slope, y0, last);
  }

  /** A set that adds one new element to another is one larger. */
  lemma CardAddNew(a: Mask, b: Mask, x: nat)
    requires b == a + {x} && x !in a
    ensures |b| == |a| + 1
  {
  }

  /** Cells (x, y) for y in b0..=b1: part of one row. */
  function RowSpan(x: nat, b0: nat, b1: nat): Mask
    requires x < GridSize && b1 < GridSize
  {
    set y: nat | b0 <= y <= b1 :: CellIndex(x, y)
  }

  lemma {:induction false} RowSpanCard(x: nat, b0: nat, b1: nat)
    requires x < GridSize && b0 <= b1 < GridSize
    ensures |RowSpan(x, b0, b1)| == b1 - b0 + 1
    decreases b1 - b0
  {
    if b0 == b1 {
      assert RowSpan(x, b0, b1) == {CellIndex(x, b0)};
    } else {
      RowSpanCard(x, b0, b1 - 1);
      assert RowSpan(x, b0, b1) == RowSpan(x, b0, b1 - 1) + {CellIndex(x, b1)};
      assert CellIndex(x, b1) !in RowSpan(x, b0, b1 - 1);
    }
  }

  lemma RectCard(a0: nat, a1: nat, b0: nat, b1: nat)
    requires a0 <= a1 < GridSize && b0 <= b1 < GridSize
    ensures |Rect(a0, a1, b0, b1)| == (a1 - a0 + 1) * (b1 - b0 + 1)
  {
    RectRows(a0, a1 - a0, b0, b1, b1 - b0 + 1);
  }

  /** A rectangle of h + 1 rows a0..=a0 + h whose rows have w cells each has (h + 1) * w cells. */
  lemma {:induction false} RectRows(a0: nat, h: nat, b0: nat, b1: nat, w: nat)
    requires a0 + h < GridSize && b0 <= b1 < GridSize && w == b1 - b0 + 1
    ensures |Rect(a0, a0 + h, b0, b1)| == (h + 1) * w
  {
    RowSpanCard(a0 + h, b0, b1);
    if h == 0 {
      RectOneRow(a0, b0, b1);
    } else {
      RectRows(a0, h - 1, b0, b1, w);
      RectStep(a0, a0 + h, b0, b1);
      assert (h + 1) * w == h * w + w;
    }
  }

  /** A rectangle of one row is that row's span. */
  lemma RectOneRow(a0: nat, b0: nat, b1: nat)
    requires a0 < GridSize && b0 <= b1 < GridSize
    ensures |Rect(a0, a0, b0, b1)| == |RowSpan(a0, b0, b1)|
  {
    assert Rect(a0, a0, b0, b1) == RowSpan(a0, b0, b1);
  }

  lemma DisjointCard(a: Mask, b: Mask)
    requires a * b == {}
    ensures |a + b| == |a| + |b|
  {
  }

  /** A rectangle is the rectangle one row shorter plus its last row, which it
      does not meet, so their sizes add up. */
  lemma RectStep(a0: nat, a1: nat, b0: nat, b1: nat)
    requires a0 < a1 < GridSize && b0 <= b1 < GridSize
    ensures |Rect(a0, a1, b0, b1)| == |Rect(a0, a1 - 1, b0, b1)| + |RowSpan(a1, b0, b1)|
  {
    var above, last := Rect(a0, a1 - 1, b0, b1), RowSpan(a1, b0, b1);
    forall i | i in last ensures i !in above {
      var y: nat :| b0 <= y <= b1 && i == CellIndex(a1, y);
      CellIndexRoundTrip(a1, y);
      InRect(a0, a1 - 1, b0, b1, i);
    }
    assert Rect(a0, a1, b0, b1) == above + last;
    DisjointCard(above, last);
  }

  predicate OnBorder(v: nat) { v == 0 || v == GridSize - 1 }

  /** An 8-neighbourhood has 3 cells at a corner, 5 on an edge and 8 inside. */
  lemma Neighbors8Count(i: nat)
    requires i < CellCount
    ensures |Neighbors8(i)| ==
      if OnBorder(Row(i)) && OnBorder(Col(i)) then 3
      else if OnBorder(Row(i)) || OnBorder(Col(i)) then 5
      else 8
  {
    var x, y := Row(i), Col(i);
    var window := Rect(Lo(x), Hi(x), Lo(y), Hi(y));
    RectCard(Lo(x), Hi(x), Lo(y), Hi(y));
    InRect(Lo(x), Hi(x), Lo(y), Hi(y), i);
    CardRemove(window, i);
    var w, h := Hi(x) - Lo(x) + 1, Hi(y) - Lo(y) + 1;
    assert w == if OnBorder(x) then 2 else 3;
    assert h == if OnBorder(y) then 2 else 3;
    assert |window| == w * h;
  }

  /** Removing a member makes a set one smaller. */
  lemma CardRemove(a: Mask, x: nat)
    requires x in a
    ensures |a - {x}| == |a| - 1
  {
    assert a == (a - {x}) + {x};
  }

  lemma RowColCard(k: nat)
    requires k < GridSize
    ensures |RowMask(k)| == GridSize && |ColMask(k)| == GridSize
  {
    RowSpanCard(k, 0, GridSize - 1);
    assert RowMask(k) == RowSpan(k, 0, GridSize - 1);
    TrackCard(0, GridSize - 1, Flat, k);
    forall i ensures i in ColMask(k) <==> i in Track(0, GridSize - 1, Flat, k) {
      InColMask(k, i);
      InTrack(0, GridSize - 1, Flat, k, i);
    }
    assert ColMask(k) == Track(0, GridSize - 1, Flat, k);
  }

  function Max(a: int, b: int): int { if a < b then b else a }
  function Min(a: int, b: int): int { if a < b then a else b }

  /** Diagonal bucket d holds 5 - |d - 4| cells. */
  lemma DiagCard(d: nat)
    requires d < DiagCount
    ensures |DiagDownMask(d)| == GridSize - (if d < GridSize - 1 then GridSize - 1 - d else d - (GridSize - 1))
    ensures |DiagUpMask(d)| == |DiagDownMask(d)|
  {
    var lo: nat, hi: nat := Max(0, d - 4), Min(4, d);
    TrackCard(lo, hi, Rise, 4 - d);
    DownIsTrack(d, lo, hi);
    TrackCard(lo, hi, Fall, d);
    UpIsTrack(d, lo, hi);
  }

  lemma DownIsTrack(d: nat, lo: nat, hi: nat)
    requires d < DiagCount && lo == Max(0, d - 4) && hi == Min(4, d)
    ensures TrackOnBoard(lo, hi, Rise, 4 - d) && DiagDownMask(d) == Track(lo, hi, Rise, 4 - d)
  {
    forall i ensures i in DiagDownMask(d) <==> i in Track(lo, hi, Rise, 4 - d) {
      InDiagDownMask(d, i);
      InTrack(lo, hi, Rise, 4 - d, i);
    }
  }

  lemma UpIsTrack(d: nat, lo: nat, hi: nat)
    requires d < DiagCount && lo == Max(0, d - 4) && hi == Min(4, d)
    ensures TrackOnBoard(lo, hi, Fall, d) && DiagUpMask(d) == Track(lo, hi, Fall, d)
  {
    forall i ensures i in DiagUpMask(d) <==> i in Track(lo, hi, Fall, d) {
      InDiagUpMask(d, i);
      InTrack(lo, hi, Fall, d, i);
    }
  }

  /** Every winning line has five cells on the board. */
  lemma LineMasksShape(k: nat)
    requires k < LineCount
    ensures |LineMasks()[k]| == GridSize
    ensures LineMasks()[k] <= AllCells
  {
    if k < 2 * GridSize {
      RowColCard(k % GridSize);
    } else if k == 2 * GridSize {
      TrackCard(0, GridSize - 1, Rise, 0);
    } else {
      TrackCard(0, GridSize - 1, Fall, GridSize - 1);
    }
  }

  /** Popcount over a union of disjoint masks adds up. */
  lemma PopcountSplit(m: Mask, a: Mask, b: Mask)
    requires a * b == {}
    ensures |m * (a + b)| == |m * a| + |m * b|
  {
    assert m * (a + b) == (m * a) + (m * b);
    assert (m * a) * (m * b) == {};
  }
}
