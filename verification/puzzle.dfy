// What the propagation engine is solving: the colour rules over a set m of
// checked cells on a size x size board, read through the RuleSet index, and
// the five-in-a-row goal over the length-5 segments five_in_a_row_possible and
// bingo_segment_stats scan (crates/engine/src/solver/mod.rs).
module Puzzle {
  import opened Colors
  import opened Lines
  import opened RuleIndex
  import opened Board

  // ---------------------------------------------------------------------
  // Length-5 segments

  /** The four scan directions: along a row, down a column, `\` and `/`. */
  datatype Dir = Across | Down | DiagDown | DiagUp

  /** The segment whose first cell is (r, c), walking five cells in direction dir. */
  datatype Segment = Segment(dir: Dir, r: nat, c: nat)

  /** The length of a winning line. */
  const Len: nat := 5

  /** The segment stays on the board for all five of its cells. */
  predicate OnBoard(n: nat, seg: Segment)
  {
    Len <= n &&
    match seg.dir
    case Across => seg.r < n && seg.c + Len <= n
    case Down => seg.r + Len <= n && seg.c < n
    case DiagDown => seg.r + Len <= n && seg.c + Len <= n
    case DiagUp => seg.r + Len <= n && Len - 1 <= seg.c < n
  }

  function SegRow(seg: Segment, d: nat): nat
  {
    if seg.dir == Across then seg.r else seg.r + d
  }

  function SegCol(seg: Segment, d: nat): int
  {
    match seg.dir
    case Across => seg.c + d
    case Down => seg.c
    case DiagDown => seg.c + d
    case DiagUp => seg.c - d
  }

  /** Cell d (0 <= d < 5) of an on-board segment lies on the board. */
  lemma SegCellOnBoard(n: nat, seg: Segment, d: nat)
    requires OnBoard(n, seg) && d < Len
    ensures SegRow(seg, d) < n && 0 <= SegCol(seg, d) < n
  {
  }

  /** The id of cell d of the segment. */
  function SegCell(n: nat, seg: Segment, d: nat): nat
    requires OnBoard(n, seg) && d < Len
  {
    Id(n, SegRow(seg, d), SegCol(seg, d))
  }

  /** The value of cell d of the segment (a column left of the board reads as Unknown). */
  function SegGet(s: State, seg: Segment, d: nat): Tri
  {
    var c := SegCol(seg, d);
    if c < 0 then Unknown else Get(s, SegRow(seg, d), c)
  }

  /** No cell of the segment is known unchecked: it may still become a line. */
  predicate Open(s: State, seg: Segment)
  {
    forall d: nat :: d < Len ==> SegGet(s, seg, d) != Unchecked
  }

  /** Every cell of the segment is known checked: the line is already there. */
  predicate Done(s: State, seg: Segment)
  {
    forall d: nat :: d < Len ==> SegGet(s, seg, d) == Checked
  }

  /** The row-major pairs (i, j) with i < a and j < b. */
  function Pairs(a: nat, b: nat): (ps: seq<(nat, nat)>)
    ensures |ps| == a * b
    ensures forall i: nat, j: nat :: (i, j) in ps <==> i < a && j < b
  {
    if a == 0 then []
    else
      var last := seq(b, j requires 0 <= j < b => (a - 1, j));
      assert forall i: nat, j: nat :: (i, j) in last <==> i == a - 1 && j < b by {
        forall i: nat, j: nat | (i, j) in last ensures i == a - 1 && j < b {
          var k :| 0 <= k < b && last[k] == (i, j);
        }
        forall i: nat, j: nat | i == a - 1 && j < b ensures (i, j) in last {
          assert last[j] == (i, j);
        }
      }
      Pairs(a - 1, b) + last
  }

  function Tag(ps: seq<(nat, nat)>, dir: Dir, swap: bool, shift: nat): (segs: seq<Segment>)
    ensures |segs| == |ps|
    ensures forall k :: 0 <= k < |ps| ==>
      segs[k] == if swap then Segment(dir, ps[k].1, ps[k].0 + shift) else Segment(dir, ps[k].0, ps[k].1 + shift)
  {
    seq(|ps|, k requires 0 <= k < |ps| =>
      if swap then Segment(dir, ps[k].1, ps[k].0 + shift) else Segment(dir, ps[k].0, ps[k].1 + shift))
  }

  /**
   * Every segment in the order the source scans them: rows (then start
   * column), columns (then start row), `\` starts by row and column, and `/`
   * starts by row and then column from 4 upwards.
   */
  function Segments(n: nat): (segs: seq<Segment>)
  {
    if n < Len then []
    else
      var w := n - (Len - 1);
      Tag(Pairs(n, w), Across, false, 0) + Tag(Pairs(n, w), Down, true, 0) +
      Tag(Pairs(w, w), DiagDown, false, 0) + Tag(Pairs(w, w), DiagUp, false, Len - 1)
  }

  lemma InTag(ps: seq<(nat, nat)>, dir: Dir, swap: bool, shift: nat, seg: Segment)
    ensures seg in Tag(ps, dir, swap, shift) <==>
      seg.dir == dir &&
      if swap then seg.c >= shift && (seg.c - shift, seg.r) in ps
      else seg.c >= shift && (seg.r, seg.c - shift) in ps
  {
    var t := Tag(ps, dir, swap, shift);
    if seg in t {
      var k :| 0 <= k < |t| && t[k] == seg;
      assert ps[k] in ps;
    }
    if seg.dir == dir && seg.c >= shift {
      var p := if swap then (seg.c - shift, seg.r) else (seg.r, seg.c - shift);
      if p in ps {
        var k :| 0 <= k < |ps| && ps[k] == p;
        assert t[k] == seg;
      }
    }
  }

  /** The enumeration lists exactly the on-board segments. */
  lemma SegmentsExact(n: nat, seg: Segment)
    ensures seg in Segments(n) <==> OnBoard(n, seg)
  {
    if n >= Len {
      var w := n - (Len - 1);
      var a, b, c, d := Tag(Pairs(n, w), Across, false, 0), Tag(Pairs(n, w), Down, true, 0),
        Tag(Pairs(w, w), DiagDown, false, 0), Tag(Pairs(w, w), DiagUp, false, Len - 1);
      assert Segments(n) == a + b + c + d;
      assert seg in Segments(n) <==> seg in a || seg in b || seg in c || seg in d;
      InTag(Pairs(n, w), Across, false, 0, seg);
      InTag(Pairs(n, w), Down, true, 0, seg);
      InTag(Pairs(w, w), DiagDown, false, 0, seg);
      InTag(Pairs(w, w), DiagUp, false, Len - 1, seg);
    }
  }

  /** `total` of bingo_segment_stats: 2n(n - 4) straight plus 2(n - 4)^2 diagonal segments. */
  lemma SegmentCount(n: nat)
    ensures |Segments(n)| == if n < Len then 0 else 2 * n * (n - 4) + 2 * (n - 4) * (n - 4)
  {
  }

  // ---------------------------------------------------------------------
  // The goal and the rules over a set of checked cells

  /** Some on-board segment is checked in all five cells. */
  ghost predicate Bingo(n: nat, m: set<nat>)
  {
    exists seg :: OnBoard(n, seg) && forall d: nat :: d < Len ==> SegCell(n, seg, d) in m
  }

  /** The constraint cell id of the index's colour grid puts on the checked set m. */
  ghost predicate CellHolds(rs: RuleSet, m: set<nat>, id: nat)
    requires 0 < rs.size && |rs.colors| == |rs.neighbors8| == |rs.neighbors4| == rs.size * rs.size
    requires id < rs.size * rs.size
  {
    var n := rs.size;
    IdSplit(n, id);
    var r, c := id / n, id % n;
    var around8, around4 := CountIn(m, rs.neighbors8[id]), CountIn(m, rs.neighbors4[id]);
    match rs.colors[id]
    case Black => id in m
    case White => true
    case Red => around8 >= 1
    case Blue => around8 <= 2
    case Purple => around8 % 2 == 1
    case Orange => around8 % 2 == 0
    case Cyan => id in m ==> around4 >= 1
    case Green => RowColBalanced(n, m, r, c)
    case Yellow => DiagonalsBalanced(n, m, r, c)
  }

  /** Green: the row and the column through (r, c) hold as many checked cells. */
  ghost predicate RowColBalanced(n: nat, m: set<nat>, r: nat, c: nat)
    requires r < n && c < n
  {
    CountIn(m, LineIds(n, RowLine, r)) == CountIn(m, LineIds(n, ColLine, c))
  }

  /** Yellow: the two diagonals through (r, c) hold as many checked cells. */
  ghost predicate DiagonalsBalanced(n: nat, m: set<nat>, r: nat, c: nat)
    requires r < n && c < n
  {
    CountIn(m, LineIds(n, DownLine, DownId(n, r, c))) == CountIn(m, LineIds(n, UpLine, UpId(r, c)))
  }

  /** A solution of the board: a set of its cells that keeps every rule and completes a line. */
  ghost predicate Solution(rs: RuleSet, m: set<nat>)
    requires WellFormed(rs)
  {
    (forall id :: id in m ==> id < rs.size * rs.size) &&
    (forall id: nat :: id < rs.size * rs.size ==> CellHolds(rs, m, id)) &&
    Bingo(rs.size, m)
  }

  // ---------------------------------------------------------------------
  // five_in_a_row_possible and bingo_segment_stats

  /** Is some segment still open? (The source returns at the first open one it meets.) */
  function FiveInARowPossible(s: State): (b: bool)
    ensures b <==> exists seg :: OnBoard(s.size, seg) && Open(s, seg)
  {
    OpenOnBoard(s);
    AnyOpen(s, Segments(s.size))
  }

  lemma OpenOnBoard(s: State)
    ensures (exists k :: 0 <= k < |Segments(s.size)| && Open(s, Segments(s.size)[k])) <==>
      exists seg :: OnBoard(s.size, seg) && Open(s, seg)
  {
    if exists k :: 0 <= k < |Segments(s.size)| && Open(s, Segments(s.size)[k]) {
      var k :| 0 <= k < |Segments(s.size)| && Open(s, Segments(s.size)[k]);
      SegmentsExact(s.size, Segments(s.size)[k]);
    }
    if exists seg :: OnBoard(s.size, seg) && Open(s, seg) {
      var seg :| OnBoard(s.size, seg) && Open(s, seg);
      SegmentsExact(s.size, seg);
      var k :| 0 <= k < |Segments(s.size)| && Segments(s.size)[k] == seg;
    }
  }

  function AnyOpen(s: State, segs: seq<Segment>): (b: bool)
    ensures b <==> exists k :: 0 <= k < |segs| && Open(s, segs[k])
  {
    if |segs| == 0 then false
    else if Open(s, segs[0]) then true
    else
      var b := AnyOpen(s, segs[1..]);
      assert forall k :: 1 <= k < |segs| ==> segs[k] == segs[1..][k - 1];
      b
  }

  /** (total, possible, guaranteed) of bingo_segment_stats. */
  datatype SegmentStats = SegmentStats(total: nat, possible: nat, guaranteed: nat)

  /**
   * bingo_segment_stats: every on-board segment is counted once, as possible
   * when it is open and as guaranteed when it is fully checked.
   */
  function Stats(s: State): (st: SegmentStats)
    ensures st.total == |Segments(s.size)|
    ensures st.possible == |set seg | seg in Segments(s.size) && Open(s, seg)|
    ensures st.guaranteed == |set seg | seg in Segments(s.size) && Done(s, seg)|
    ensures st.guaranteed <= st.possible <= st.total
    ensures st.possible > 0 <==> FiveInARowPossible(s)
    ensures s.size < Len ==> st == SegmentStats(0, 0, 0)
  {
    CountedOnce(s);
    StatsOf(s, Segments(s.size))
  }

  /** The positions of segs holding an open segment. */
  ghost function OpenAt(s: State, segs: seq<Segment>): set<nat>
  {
    set k: nat | k < |segs| && Open(s, segs[k])
  }

  /** The positions of segs holding a fully checked segment. */
  ghost function DoneAt(s: State, segs: seq<Segment>): set<nat>
  {
    set k: nat | k < |segs| && Done(s, segs[k])
  }

  /** One pass over the segments: a segment counts as possible when open and as guaranteed when done. */
  function StatsOf(s: State, segs: seq<Segment>): (st: SegmentStats)
    ensures st.total == |segs|
    ensures st.possible == |OpenAt(s, segs)|
    ensures st.guaranteed == |DoneAt(s, segs)|
    ensures st.guaranteed <= st.possible <= st.total
    ensures st.possible > 0 <==> exists k :: 0 <= k < |segs| && Open(s, segs[k])
  {
    if |segs| == 0 then SegmentStats(0, 0, 0)
    else
      var rest := StatsOf(s, segs[1..]);
      assert forall k :: 1 <= k < |segs| ==> segs[k] == segs[1..][k - 1];
      AtStep(s, segs);
      var open := Open(s, segs[0]);
      var done := open && Done(s, segs[0]);
      SegmentStats(rest.total + 1,
        rest.possible + (if open then 1 else 0),
        rest.guaranteed + (if done then 1 else 0))
  }

  /** Dropping the first segment drops at most position 0 and shifts the rest down by one. */
  lemma AtStep(s: State, segs: seq<Segment>)
    requires |segs| > 0
    ensures |OpenAt(s, segs)| == |OpenAt(s, segs[1..])| + (if Open(s, segs[0]) then 1 else 0)
    ensures |DoneAt(s, segs)| == |DoneAt(s, segs[1..])| + (if Done(s, segs[0]) then 1 else 0)
  {
    assert forall k :: 1 <= k < |segs| ==> segs[k] == segs[1..][k - 1];
    ShiftedCard(OpenAt(s, segs), OpenAt(s, segs[1..]), Open(s, segs[0]));
    ShiftedCard(DoneAt(s, segs), DoneAt(s, segs[1..]), Done(s, segs[0]));
  }

  /** A set of positions that is another one shifted up by one, plus 0 when head holds. */
  lemma ShiftedCard(at: set<nat>, rest: set<nat>, head: bool)
    requires forall k: nat :: k in at <==> if k == 0 then head else k - 1 in rest
    ensures |at| == |rest| + (if head then 1 else 0)
  {
    ShiftCard(rest);
    assert at == (if head then {0} else {}) + Up(rest);
    assert 0 !in Up(rest);
  }

  /** Every position moved up by one. */
  ghost function Up(b: set<nat>): set<nat>
  {
    set k | k in b :: k + 1
  }

  lemma {:induction false} ShiftCard(b: set<nat>)
    ensures |Up(b)| == |b|
    decreases |b|
  {
    if b != {} {
      var x :| x in b;
      ShiftCard(b - {x});
      forall y | y in Up(b) ensures y in Up(b - {x}) + {x + 1} {
        var k :| k in b && y == k + 1;
        if k != x {
          assert k in b - {x};
        }
      }
      assert Up(b) == Up(b - {x}) + {x + 1};
      assert x + 1 !in Up(b - {x});
      assert b == (b - {x}) + {x};
    } else {
      assert Up(b) == {};
    }
  }

  /** Picking the elements at distinct positions of a repeat-free sequence picks as many elements. */
  lemma {:induction false} ImageCard<T>(a: set<nat>, xs: seq<T>)
    requires forall k :: k in a ==> k < |xs|
    requires Distinct(xs)
    ensures |set k | k in a :: xs[k]| == |a|
    decreases |a|
  {
    if a != {} {
      var x :| x in a;
      ImageCard(a - {x}, xs);
      assert (set k | k in a :: xs[k]) == (set k | k in a - {x} :: xs[k]) + {xs[x]};
    }
  }

  /** Counting positions of the enumeration counts segments, since none is listed twice. */
  lemma CountedOnce(s: State)
    ensures |OpenAt(s, Segments(s.size))| == |set seg | seg in Segments(s.size) && Open(s, seg)|
    ensures |DoneAt(s, Segments(s.size))| == |set seg | seg in Segments(s.size) && Done(s, seg)|
  {
    var segs := Segments(s.size);
    SegmentsDistinct(s.size);
    ImageCard(OpenAt(s, segs), segs);
    ImageCard(DoneAt(s, segs), segs);
    assert (set k | k in OpenAt(s, segs) :: segs[k]) == set seg | seg in segs && Open(s, seg);
    assert (set k | k in DoneAt(s, segs) :: segs[k]) == set seg | seg in segs && Done(s, seg);
  }

  /** Two repeat-free sequences with no element in common join into a repeat-free one. */
  lemma DistinctJoin<T>(xs: seq<T>, ys: seq<T>)
    requires Distinct(xs) && Distinct(ys)
    requires forall i, j :: 0 <= i < |xs| && 0 <= j < |ys| ==> xs[i] != ys[j]
    ensures Distinct(xs + ys)
  {
    forall i, j | 0 <= i < j < |xs + ys| ensures (xs + ys)[i] != (xs + ys)[j] {
      if j < |xs| {
      } else if i >= |xs| {
        assert (xs + ys)[i] == ys[i - |xs|] && (xs + ys)[j] == ys[j - |xs|];
      } else {
        assert (xs + ys)[j] == ys[j - |xs|];
      }
    }
  }

  lemma {:induction false} PairsDistinct(a: nat, b: nat)
    ensures Distinct(Pairs(a, b))
  {
    if a > 0 {
      PairsDistinct(a - 1, b);
      var prev, ps := Pairs(a - 1, b), Pairs(a, b);
      var last := seq(b, j requires 0 <= j < b => (a - 1, j));
      assert ps == prev + last;
      forall i, j | 0 <= i < j < |ps| ensures ps[i] != ps[j] {
        if j < |prev| {
          assert ps[i] == prev[i] && ps[j] == prev[j];
        } else if i >= |prev| {
          assert ps[i] == last[i - |prev|] && ps[j] == last[j - |prev|];
        } else {
          assert ps[i] == prev[i] && prev[i] in prev;
          assert ps[j] == last[j - |prev|];
        }
      }
    }
  }

  lemma TagDistinct(ps: seq<(nat, nat)>, dir: Dir, swap: bool, shift: nat)
    requires Distinct(ps)
    ensures Distinct(Tag(ps, dir, swap, shift))
  {
  }

  /** Two tagged lists of repeat-free pairs with different directions join without repeats. */
  lemma TagsApart(p: seq<(nat, nat)>, q: seq<(nat, nat)>, d1: Dir, d2: Dir, sw1: bool, sw2: bool, sh1: nat, sh2: nat)
    requires Distinct(p) && Distinct(q) && d1 != d2
    ensures Distinct(Tag(p, d1, sw1, sh1) + Tag(q, d2, sw2, sh2))
    ensures forall i :: 0 <= i < |Tag(p, d1, sw1, sh1) + Tag(q, d2, sw2, sh2)| ==>
      (Tag(p, d1, sw1, sh1) + Tag(q, d2, sw2, sh2))[i].dir in {d1, d2}
  {
    var a: seq<Segment>, b: seq<Segment> := Tag(p, d1, sw1, sh1), Tag(q, d2, sw2, sh2);
    TagDistinct(p, d1, sw1, sh1);
    TagDistinct(q, d2, sw2, sh2);
    DistinctJoin(a, b);
    forall i | 0 <= i < |a + b| ensures (a + b)[i].dir in {d1, d2} {
      if i < |a| {
        assert (a + b)[i] == a[i];
      } else {
        assert (a + b)[i] == b[i - |a|];
      }
    }
  }

  /** The enumeration lists no segment twice. */
  lemma SegmentsDistinct(n: nat)
    ensures Distinct(Segments(n))
  {
    if n >= Len {
      var w := n - (Len - 1);
      var p, q := Pairs(n, w), Pairs(w, w);
      PairsDistinct(n, w);
      PairsDistinct(w, w);
      TaggedDistinct(p, q, Len - 1);
      assert Segments(n) == Tag(p, Across, false, 0) + Tag(p, Down, true, 0) +
        Tag(q, DiagDown, false, 0) + Tag(q, DiagUp, false, Len - 1);
    }
  }

  /** The four tagged runs of the enumeration, over any repeat-free starts. */
  lemma TaggedDistinct(p: seq<(nat, nat)>, q: seq<(nat, nat)>, shift: nat)
    requires Distinct(p) && Distinct(q)
    ensures Distinct(Tag(p, Across, false, 0) + Tag(p, Down, true, 0) +
      Tag(q, DiagDown, false, 0) + Tag(q, DiagUp, false, shift))
  {
    TagsApart(p, p, Across, Down, false, true, 0, 0);
    TagsApart(q, q, DiagDown, DiagUp, false, false, 0, shift);
    StraightBeforeDiagonal(Tag(p, Across, false, 0), Tag(p, Down, true, 0),
      Tag(q, DiagDown, false, 0), Tag(q, DiagUp, false, shift));
  }

  /** Straight segments and diagonal ones never coincide, so the two halves join without repeats. */
  lemma StraightBeforeDiagonal(a: seq<Segment>, b: seq<Segment>, c: seq<Segment>, d: seq<Segment>)
    requires Distinct(a + b) && Distinct(c + d)
    requires forall i :: 0 <= i < |a + b| ==> (a + b)[i].dir in {Across, Down}
    requires forall j :: 0 <= j < |c + d| ==> (c + d)[j].dir in {DiagDown, DiagUp}
    ensures Distinct(a + b + c + d)
  {
    forall i, j | 0 <= i < |a + b| && 0 <= j < |c + d| ensures (a + b)[i] != (c + d)[j] {
      assert (a + b)[i].dir in {Across, Down};
    }
    DistinctJoin(a + b, c + d);
    assert a + b + c + d == (a + b) + (c + d);
  }

  /** A done segment is open, so guaranteed segments are among the possible ones. */
  lemma DoneIsOpen(s: State, seg: Segment)
    requires Done(s, seg)
    ensures Open(s, seg)
  {
  }
}
