// The two solvers answer one question. On the 5x5 grid the rules the
// propagation engine states over its RuleSet index (solver/mod.rs) are the
// rules the bitmask solver and validate_state state over the fixed masks
// (solver.rs, validate.rs, masks.rs), so both solvers list exactly the masks
// the brute-force test of solver/mod.rs accepts.
module Agreement {
  import opened Colors
  import opened Masks
  import Rules
  import Validate
  import Lines
  import Neighbors
  import RuleIndex
  import Board
  import Puzzle
  import Search
  import BitSolver
  import Difficulty
  import Results

  // ---------------------------------------------------------------------
  // Counting along a list is counting in a mask

  /** Counting the cells of a repeat-free list that lie in m counts m's members among them. */
  lemma {:induction false} CountInCard(m: set<nat>, ids: seq<nat>, s: set<nat>)
    requires Lines.Distinct(ids)
    requires forall x: nat :: x in s <==> x in ids
    ensures Board.CountIn(m, ids) == |m * s|
    decreases |ids|
  {
    if |ids| == 0 {
      assert s == {};
    } else {
      var a, rest := ids[0], ids[1..];
      forall i, j | 0 <= i < j < |rest| ensures rest[i] != rest[j] {
        assert rest[i] == ids[i + 1] && rest[j] == ids[j + 1];
      }
      forall x: nat ensures x in s - {a} <==> x in rest {
        if x in rest {
          var j :| 0 <= j < |rest| && rest[j] == x;
          assert ids[j + 1] == x;
        }
        if x in s - {a} {
          var j :| 0 <= j < |ids| && ids[j] == x;
          assert rest[j - 1] == x;
        }
      }
      CountInCard(m, rest, s - {a});
      assert a in s;
      if a in m {
        assert m * s == (m * (s - {a})) + {a};
      } else {
        assert m * s == m * (s - {a});
      }
    }
  }

  /** On the 5x5 grid a cell's id is its cell index. */
  lemma IdIsIndex(x: nat)
    requires x < CellCount
    ensures x == Lines.Id(GridSize, x / GridSize, x % GridSize)
    ensures x / GridSize == Row(x) && x % GridSize == Col(x) && Row(x) < GridSize && Col(x) < GridSize
  {
  }

  /** neighbors8[id] counts, in m, the cells of NEIGHBORS_8[id]. */
  lemma Around8(rs: RuleIndex.RuleSet, m: set<nat>, id: nat)
    requires RuleIndex.Indexed(rs) && rs.size == GridSize && id < CellCount
    ensures Board.CountIn(m, rs.neighbors8[id]) == |m * Neighbors8(id)|
  {
    RuleIndex.NeighborsAt(rs, id);
    List8(m, id);
  }

  lemma List8(m: set<nat>, id: nat)
    requires id < CellCount
    ensures Board.CountIn(m, Neighbors.Nbr8At(GridSize, id)) == |m * Neighbors8(id)|
  {
    IdIsIndex(id);
    var ns := Neighbors.Nbr8(GridSize, id / GridSize, id % GridSize);
    forall x: nat ensures x in Neighbors8(id) <==> x in ns {
      Member8(id, x);
    }
    CountInCard(m, ns, Neighbors8(id));
  }

  /** The 8-neighbour list of a cell and NEIGHBORS_8 agree on one cell x. */
  lemma Member8(id: nat, x: nat)
    requires id < CellCount
    ensures x in Neighbors8(id) <==> x in Neighbors.Nbr8(GridSize, id / GridSize, id % GridSize)
  {
    var r, c := id / GridSize, id % GridSize;
    var ns := Neighbors.Nbr8(GridSize, r, c);
    IdIsIndex(id);
    Neighbors8Exact(id, x);
    if x < CellCount {
      IdIsIndex(x);
      assert (Lines.Id(GridSize, x / GridSize, x % GridSize) in ns) == Neighbors.Adjacent8(r, c, x / GridSize, x % GridSize);
    }
  }

  /** neighbors4[id] counts, in m, the cells of NEIGHBORS_4[id]. */
  lemma Around4(rs: RuleIndex.RuleSet, m: set<nat>, id: nat)
    requires RuleIndex.Indexed(rs) && rs.size == GridSize && id < CellCount
    ensures Board.CountIn(m, rs.neighbors4[id]) == |m * Neighbors4(id)|
  {
    RuleIndex.NeighborsAt(rs, id);
    List4(m, id);
  }

  lemma List4(m: set<nat>, id: nat)
    requires id < CellCount
    ensures Board.CountIn(m, Neighbors.Nbr4At(GridSize, id)) == |m * Neighbors4(id)|
  {
    IdIsIndex(id);
    var ns := Neighbors.Nbr4(GridSize, id / GridSize, id % GridSize);
    forall x: nat ensures x in Neighbors4(id) <==> x in ns {
      Member4(id, x);
    }
    CountInCard(m, ns, Neighbors4(id));
  }

  /** The 4-neighbour list of a cell and NEIGHBORS_4 agree on one cell x. */
  lemma Member4(id: nat, x: nat)
    requires id < CellCount
    ensures x in Neighbors4(id) <==> x in Neighbors.Nbr4(GridSize, id / GridSize, id % GridSize)
  {
    var r, c := id / GridSize, id % GridSize;
    var ns := Neighbors.Nbr4(GridSize, r, c);
    IdIsIndex(id);
    Neighbors4Exact(id, x);
    if x < CellCount {
      IdIsIndex(x);
      assert (Lines.Id(GridSize, x / GridSize, x % GridSize) in ns) == Neighbors.Adjacent4(r, c, x / GridSize, x % GridSize);
    }
  }

  /** Counting along line k of a family counts, in m, the cells of the mask holding that line. */
  lemma LineTally(m: set<nat>, kind: Lines.LineKind, k: nat, mask: Mask)
    requires k < Lines.NumLines(GridSize, kind)
    requires forall x: nat :: x in mask <==> x < CellCount && Lines.LineOf(GridSize, kind, x / GridSize, x % GridSize) == k
    ensures Board.CountIn(m, Lines.LineIds(GridSize, kind, k)) == |m * mask|
  {
    var ids := Lines.LineIds(GridSize, kind, k);
    Lines.LineWellFormed(GridSize, kind, k);
    forall x: nat ensures x in mask <==> x in ids {
      if x in ids {
        var j :| 0 <= j < |ids| && ids[j] == x;
      }
      if x < CellCount {
        IdIsIndex(x);
        Lines.InLine(GridSize, kind, k, x / GridSize, x % GridSize);
      }
    }
    CountInCard(m, ids, mask);
  }

  /** Green and Yellow: the line counts the engine compares are the popcounts the masks give. */
  lemma LinesAgree(m: set<nat>, id: nat)
    requires id < CellCount
    ensures Puzzle.RowColBalanced(GridSize, m, Row(id), Col(id)) <==>
      |m * RowMask(Row(id))| == |m * ColMask(Col(id))|
    ensures Puzzle.DiagonalsBalanced(GridSize, m, Row(id), Col(id)) <==>
      |m * DiagDownMask(DownId(Row(id), Col(id)))| == |m * DiagUpMask(UpId(Row(id), Col(id)))|
  {
    StraightAgree(m, Row(id), Col(id));
    SlantAgree(m, Row(id), Col(id));
  }

  /** Green: the row and column counts of the engine are the row and column popcounts. */
  lemma StraightAgree(m: set<nat>, r: nat, c: nat)
    requires r < GridSize && c < GridSize
    ensures Puzzle.RowColBalanced(GridSize, m, r, c) <==> |m * RowMask(r)| == |m * ColMask(c)|
  {
    forall x: nat ensures x in RowMask(r) <==> x < CellCount && x / GridSize == r { InRowMask(r, x); }
    forall x: nat ensures x in ColMask(c) <==> x < CellCount && x % GridSize == c { InColMask(c, x); }
    LineTally(m, Lines.RowLine, r, RowMask(r));
    LineTally(m, Lines.ColLine, c, ColMask(c));
  }

  /** Yellow: the two diagonal counts of the engine are the diagonal popcounts. */
  lemma SlantAgree(m: set<nat>, r: nat, c: nat)
    requires r < GridSize && c < GridSize
    ensures Puzzle.DiagonalsBalanced(GridSize, m, r, c) <==>
      |m * DiagDownMask(DownId(r, c))| == |m * DiagUpMask(UpId(r, c))|
  {
    assert Lines.DownId(GridSize, r, c) == DownId(r, c);
    DownTally(m, DownId(r, c));
    UpTally(m, UpId(r, c));
  }

  /** Counting along down-diagonal d counts, in m, the cells of DIAG_DOWN_MASKS[d]. */
  lemma DownTally(m: set<nat>, d: nat)
    requires d < DiagCount
    ensures Board.CountIn(m, Lines.LineIds(GridSize, Lines.DownLine, d)) == |m * DiagDownMask(d)|
  {
    forall x: nat ensures x in DiagDownMask(d) <==>
      x < CellCount && Lines.DownId(GridSize, x / GridSize, x % GridSize) == d
    {
      InDiagDownMask(d, x);
    }
    LineTally(m, Lines.DownLine, d, DiagDownMask(d));
  }

  /** Counting along up-diagonal d counts, in m, the cells of DIAG_UP_MASKS[d]. */
  lemma UpTally(m: set<nat>, d: nat)
    requires d < DiagCount
    ensures Board.CountIn(m, Lines.LineIds(GridSize, Lines.UpLine, d)) == |m * DiagUpMask(d)|
  {
    forall x: nat ensures x in DiagUpMask(d) <==>
      x < CellCount && Lines.UpId(x / GridSize, x % GridSize) == d
    {
      InDiagUpMask(d, x);
    }
    LineTally(m, Lines.UpLine, d, DiagUpMask(d));
  }

  /** Each cell's colour rule, read through the index, is the rule check_all_rules checks. */
  lemma CellAgrees(rs: RuleIndex.RuleSet, m: set<nat>, id: nat)
    requires RuleIndex.Indexed(rs) && rs.size == GridSize && id < CellCount
    ensures Puzzle.CellHolds(rs, m, id) <==> Rules.CellRule(rs.colors[id], m, id)
  {
    IdIsIndex(id);
    Around8(rs, m, id);
    Around4(rs, m, id);
    LinesAgree(m, id);
    RuleFromCounts(rs, m, id);
  }

  /** With the neighbour and line counts matched, the two readings of a cell's rule agree. */
  lemma RuleFromCounts(rs: RuleIndex.RuleSet, m: set<nat>, id: nat)
    requires rs.size == GridSize && |rs.colors| == |rs.neighbors8| == |rs.neighbors4| == CellCount
    requires id < CellCount && id / GridSize == Row(id) && id % GridSize == Col(id)
    requires Board.CountIn(m, rs.neighbors8[id]) == |m * Neighbors8(id)|
    requires Board.CountIn(m, rs.neighbors4[id]) == |m * Neighbors4(id)|
    requires Puzzle.RowColBalanced(GridSize, m, Row(id), Col(id)) <==>
      |m * RowMask(Row(id))| == |m * ColMask(Col(id))|
    requires Puzzle.DiagonalsBalanced(GridSize, m, Row(id), Col(id)) <==>
      |m * DiagDownMask(DownId(Row(id), Col(id)))| == |m * DiagUpMask(UpId(Row(id), Col(id)))|
    ensures Puzzle.CellHolds(rs, m, id) <==> Rules.CellRule(rs.colors[id], m, id)
  {
    var r, c := id / rs.size, id % rs.size;
    assert r == Row(id) && c == Col(id);
    match rs.colors[id]
    case Green =>
      assert Puzzle.CellHolds(rs, m, id) == Puzzle.RowColBalanced(GridSize, m, r, c);
    case Yellow =>
      assert Puzzle.CellHolds(rs, m, id) == Puzzle.DiagonalsBalanced(GridSize, m, r, c);
    case _ =>
  }

  /** A winning segment of the 5x5 board is one of the twelve LINE_MASKS. */
  lemma BingoAgrees(m: set<nat>)
    ensures Puzzle.Bingo(GridSize, m) <==> Rules.Bingo(m)
  {
    if Puzzle.Bingo(GridSize, m) {
      var seg :| Puzzle.OnBoard(GridSize, seg) &&
        forall d: nat :: d < Puzzle.Len ==> Puzzle.SegCell(GridSize, seg, d) in m;
      var k := SegmentLine(seg);
      forall x | x in LineMasks()[k] ensures x in m {
        var d := LineCellAt(seg, k, x);
      }
      assert LineMasks()[k] <= m;
    }
    if Rules.Bingo(m) {
      var k :| 0 <= k < LineCount && LineMasks()[k] <= m;
      var seg := LineSegment(k);
      forall d: nat | d < Puzzle.Len ensures Puzzle.SegCell(GridSize, seg, d) in m {
        SegmentCellOn(k, d);
      }
      assert Puzzle.OnBoard(GridSize, seg);
    }
  }

  /** The LINE_MASKS index of an on-board segment. */
  function SegmentLine(seg: Puzzle.Segment): (k: nat)
    requires Puzzle.OnBoard(GridSize, seg)
    ensures k < LineCount
  {
    match seg.dir
    case Across => seg.r
    case Down => GridSize + seg.c
    case DiagDown => 2 * GridSize
    case DiagUp => 2 * GridSize + 1
  }

  /** The segment that walks LINE_MASKS[k]. */
  function LineSegment(k: nat): (seg: Puzzle.Segment)
    requires k < LineCount
    ensures Puzzle.OnBoard(GridSize, seg) && SegmentLine(seg) == k
  {
    if k < GridSize then Puzzle.Segment(Puzzle.Across, k, 0)
    else if k < 2 * GridSize then Puzzle.Segment(Puzzle.Down, 0, k - GridSize)
    else if k == 2 * GridSize then Puzzle.Segment(Puzzle.DiagDown, 0, 0)
    else Puzzle.Segment(Puzzle.DiagUp, 0, GridSize - 1)
  }

  /** Every cell of a line mask is some cell d of the segment that walks it. */
  lemma LineCellAt(seg: Puzzle.Segment, k: nat, x: nat) returns (d: nat)
    requires Puzzle.OnBoard(GridSize, seg) && k == SegmentLine(seg) && x in LineMasks()[k]
    ensures d < Puzzle.Len && Puzzle.SegCell(GridSize, seg, d) == x
  {
    match seg.dir
    case Across =>
      InRowMask(seg.r, x);
      d := Col(x);
    case Down =>
      InColMask(seg.c, x);
      d := Row(x);
    case DiagDown =>
      InTrack(0, GridSize - 1, Rise, 0, x);
      d := Row(x);
    case DiagUp =>
      InTrack(0, GridSize - 1, Fall, GridSize - 1, x);
      d := Row(x);
  }

  /** Cell d of the segment that walks LINE_MASKS[k] lies on that mask. */
  lemma SegmentCellOn(k: nat, d: nat)
    requires k < LineCount && d < Puzzle.Len
    ensures Puzzle.SegCell(GridSize, LineSegment(k), d) in LineMasks()[k]
  {
    var x := Puzzle.SegCell(GridSize, LineSegment(k), d);
    if k < GridSize {
      InRowMask(k, x);
    } else if k < 2 * GridSize {
      InColMask(k - GridSize, x);
    } else if k == 2 * GridSize {
      InTrack(0, GridSize - 1, Rise, 0, x);
    } else {
      InTrack(0, GridSize - 1, Fall, GridSize - 1, x);
    }
  }

  // ---------------------------------------------------------------------
  // One specification

  /**
   * On the 5x5 grid a solution of the propagation engine's puzzle is exactly
   * a solution in the sense of check_all_rules and has_five_in_a_row.
   */
  lemma SolutionIsReference(colors: seq<Color>, m: set<nat>)
    requires |colors| == CellCount
    ensures Puzzle.Solution(RuleIndex.New(GridSize, colors), m) <==> Rules.IsSolution(colors, m)
  {
    var rs := RuleIndex.New(GridSize, colors);
    IndexReadsAlike(rs, m);
  }

  /** The same for any index built over the 5x5 grid, whatever its colours. */
  lemma IndexReadsAlike(rs: RuleIndex.RuleSet, m: set<nat>)
    requires RuleIndex.Indexed(rs) && RuleIndex.WellFormed(rs) && rs.size == GridSize
    ensures Puzzle.Solution(rs, m) <==> Rules.IsSolution(rs.colors, m)
  {
    var inside := forall id :: id in m ==> id < rs.size * rs.size;
    var holds := forall id: nat :: id < rs.size * rs.size ==> Puzzle.CellHolds(rs, m, id);
    assert Puzzle.Solution(rs, m) == (inside && holds && Puzzle.Bingo(GridSize, m));
    assert inside <==> m <= AllCells;
    forall id: nat | id < CellCount ensures Puzzle.CellHolds(rs, m, id) <==> Rules.CellRule(rs.colors[id], m, id) {
      CellAgrees(rs, m, id);
    }
    assert holds <==> Rules.AllRulesHold(rs.colors, m);
    BingoAgrees(m);
  }

  /**
   * The brute-force reference of the solver tests: a mask of board cells that
   * validate_state finds valid and bingo.
   */
  predicate BruteForceAccepts(grid: seq<nat>, m: Mask)
    requires |grid| == CellCount && forall i :: 0 <= i < |grid| ==> grid[i] < ColorCount
  {
    Validate.IsValidAgreesWithCheckAllRules(m, grid);
    m <= AllCells && Validate.ValidateState(m, grid).value.isValid && Validate.ValidateState(m, grid).value.isBingo
  }

  /** validate_state's verdict is the solution predicate both solvers are proved against. */
  lemma BruteForceIsReference(grid: seq<nat>, m: Mask)
    requires |grid| == CellCount && forall i :: 0 <= i < |grid| ==> grid[i] < ColorCount
    ensures DecodeGrid(grid).Ok?
    ensures BruteForceAccepts(grid, m) <==> Rules.IsSolution(DecodeGrid(grid).value, m)
  {
    Validate.IsValidAgreesWithCheckAllRules(m, grid);
  }

  /**
   * solutions_match_bruteforce: without a limit the propagation search, the
   * bitmask solver and the brute-force reference accept the same masks.
   */
  lemma SolversAgree(grid: seq<nat>, m: Mask)
    requires |grid| == CellCount && forall i :: 0 <= i < |grid| ==> grid[i] < ColorCount
    ensures DecodeGrid(grid).Ok?
    ensures m in Search.SolveMasks(DecodeGrid(grid).value, 0) <==> BruteForceAccepts(grid, m)
    ensures m in BitSolver.SolveMasksLimit(BitSolver.New(DecodeGrid(grid).value), 0) <==> BruteForceAccepts(grid, m)
  {
    BruteForceIsReference(grid, m);
    var colors := DecodeGrid(grid).value;
    Search.SolveMasksExact(colors, m);
    BitSolver.SolveAllExact(colors, m);
    SolutionIsReference(colors, m);
  }

  /** Without a limit the propagation search and the bitmask solver list the same masks. */
  lemma SearchMatchesBitSolver(colors: seq<Color>, m: set<nat>)
    requires |colors| == CellCount
    ensures m in Search.SolveMasks(colors, 0) <==> m in BitSolver.SolveMasksLimit(BitSolver.New(colors), 0)
  {
    Search.SolveMasksExact(colors, m);
    BitSolver.SolveAllExact(colors, m);
    SolutionIsReference(colors, m);
  }

  /** compute_difficulty reports NoSolution exactly when no mask passes check_all_rules and bingo. */
  lemma NoSolutionIsReference(grid: seq<nat>, roundedTotal: int, firstTriggers: seq<Difficulty.TriggerCount>)
    requires |grid| == CellCount && forall i :: 0 <= i < |grid| ==> grid[i] < ColorCount
    requires Difficulty.CountsInRange(firstTriggers)
    ensures DecodeGrid(grid).Ok?
    ensures Difficulty.Report(grid, roundedTotal, firstTriggers) == Results.Err(Difficulty.NoSolution) <==>
      !exists m :: Rules.IsSolution(DecodeGrid(grid).value, m)
  {
    Difficulty.NoSolutionExact(grid, roundedTotal, firstTriggers);
    var colors := DecodeGrid(grid).value;
    forall m: set<nat> ensures Puzzle.Solution(RuleIndex.New(GridSize, colors), m) <==> Rules.IsSolution(colors, m) {
      SolutionIsReference(colors, m);
    }
  }
}
