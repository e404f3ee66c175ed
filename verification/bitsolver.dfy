// The bitmask backtracking solver of the fixed 5x5 board
// (crates/engine/src/solver.rs): Solver::new's tables, the incremental line
// counters, partial_prune and backtrack. Masks are sets of cell ids as in the
// Masks module, and the solver is proved to return exactly the solutions
// Rules.IsSolution describes, each once.
module BitSolver {
  import opened Colors
  import opened Masks
  import opened Rules
  import opened Ordering
  import Lines
  import RuleIndex
  import Search

  /** What Solver::new precomputes. Green and Yellow cells are kept as (row, column). */
  datatype Solver = Solver(
    colors: seq<Color>,
    blackMask: Mask,
    variableMask: Mask,
    decisionOrder: seq<nat>,
    blueCells: seq<nat>,
    redCells: seq<nat>,
    greenCells: seq<(nat, nat)>,
    yellowCells: seq<(nat, nat)>,
    purpleCells: seq<nat>,
    orangeCells: seq<nat>,
    cyanCells: seq<nat>,
    blueImpactedByCell: seq<Mask>)

  // ---------------------------------------------------------------------
  // Solver::new

  /** The cells of colour c. */
  function ColorMask(colors: seq<Color>, c: Color): (m: Mask)
    requires |colors| == CellCount
    ensures forall i: nat :: i in m <==> i < CellCount && colors[i] == c
  {
    set i: nat | i < CellCount && colors[i] == c
  }

  /** Row-major cell ids as (row, column) pairs. */
  function Coords(ids: seq<nat>): (ps: seq<(nat, nat)>)
    ensures |ps| == |ids|
    ensures forall k :: 0 <= k < |ids| ==> ps[k] == (Row(ids[k]), Col(ids[k]))
  {
    seq(|ids|, k requires 0 <= k < |ids| => (Row(ids[k]), Col(ids[k])))
  }

  /** The sort key `-(colour weight + popcount(NEIGHBORS_8[i]))` of every cell. */
  function DecisionKeys(colors: seq<Color>): (keys: seq<int>)
    requires |colors| == CellCount
    ensures |keys| == CellCount
  {
    seq(CellCount, i requires 0 <= i < CellCount => -(ColorWeight(colors[i]) + |Neighbors8(i)|))
  }

  /** blue_impacted_by_cell[n]: the Blue cells that have n among their 8 neighbours. */
  function BlueImpacted(colors: seq<Color>): (t: seq<Mask>)
    requires |colors| == CellCount
    ensures |t| == CellCount
  {
    seq(CellCount, n requires 0 <= n < CellCount =>
      set b: nat | b < CellCount && colors[b] == Blue && n in Neighbors8(b))
  }

  function New(colors: seq<Color>): (sv: Solver)
    requires |colors| == CellCount
    ensures Ok(sv) && sv.colors == colors
    ensures Keyed(sv.decisionOrder, DecisionKeys(colors))
    ensures KeySorted(sv.decisionOrder, DecisionKeys(colors))
  {
    var black := ColorMask(colors, Black);
    var nonBlack := RuleIndex.CellsOf(colors, Black, false, 0);
    var built := Solver(
      colors, black, AllCells - black,
      SortByKey(nonBlack, DecisionKeys(colors)),
      RuleIndex.CellsOf(colors, Blue, true, 0),
      RuleIndex.CellsOf(colors, Red, true, 0),
      Coords(RuleIndex.CellsOf(colors, Green, true, 0)),
      Coords(RuleIndex.CellsOf(colors, Yellow, true, 0)),
      RuleIndex.CellsOf(colors, Purple, true, 0),
      RuleIndex.CellsOf(colors, Orange, true, 0),
      RuleIndex.CellsOf(colors, Cyan, true, 0),
      BlueImpacted(colors));
    NewOk(colors, built);
    built
  }

  /** ids lists exactly the cells of colour c. */
  ghost predicate ListsColor(ids: seq<nat>, colors: seq<Color>, c: Color)
    requires |colors| == CellCount
  {
    && (forall k :: 0 <= k < |ids| ==> ids[k] < CellCount && colors[ids[k]] == c)
    && (forall i :: 0 <= i < CellCount && colors[i] == c ==> i in ids)
  }

  /** ps lists exactly the cells of colour c, as (row, column). */
  ghost predicate ListsColorAt(ps: seq<(nat, nat)>, colors: seq<Color>, c: Color)
    requires |colors| == CellCount
  {
    && (forall k :: 0 <= k < |ps| ==>
          ps[k].0 < GridSize && ps[k].1 < GridSize && colors[CellIndex(ps[k].0, ps[k].1)] == c)
    && (forall i :: 0 <= i < CellCount && colors[i] == c ==> (Row(i), Col(i)) in ps)
  }

  /** The facts about Solver::new's tables that the search relies on. */
  ghost predicate Ok(sv: Solver)
  {
    Frame(sv) && ListsOk(sv) && ImpactOk(sv)
  }

  /**
   * The part of Ok that backtrack itself needs: the masks, the decision
   * order, and table entries that are cells of the board.
   */
  ghost predicate Frame(sv: Solver)
  {
    && |sv.colors| == CellCount && MasksOk(sv)
    && |sv.blueImpactedByCell| == CellCount
    && OnBoard(sv.blueCells) && OnBoard(sv.redCells) && OnBoard(sv.purpleCells)
    && OnBoard(sv.orangeCells) && OnBoard(sv.cyanCells)
    && OnBoardAt(sv.greenCells) && OnBoardAt(sv.yellowCells)
  }

  predicate OnBoard(ids: seq<nat>)
  {
    forall k :: 0 <= k < |ids| ==> ids[k] < CellCount
  }

  predicate OnBoardAt(ps: seq<(nat, nat)>)
  {
    forall k :: 0 <= k < |ps| ==> ps[k].0 < GridSize && ps[k].1 < GridSize
  }

  /** The Black and variable masks, and the decision order listing each variable cell once. */
  ghost predicate MasksOk(sv: Solver)
    requires |sv.colors| == CellCount
  {
    && sv.blackMask == ColorMask(sv.colors, Black)
    && sv.variableMask == AllCells - sv.blackMask
    && Lines.Distinct(sv.decisionOrder)
    && (forall i: nat :: i in sv.decisionOrder <==> i in sv.variableMask)
  }

  /** Each colour list holds exactly the cells of its colour. */
  ghost predicate ListsOk(sv: Solver)
    requires |sv.colors| == CellCount
  {
    && ListsColor(sv.blueCells, sv.colors, Blue)
    && ListsColor(sv.redCells, sv.colors, Red)
    && ListsColorAt(sv.greenCells, sv.colors, Green)
    && ListsColorAt(sv.yellowCells, sv.colors, Yellow)
    && ListsColor(sv.purpleCells, sv.colors, Purple)
    && ListsColor(sv.orangeCells, sv.colors, Orange)
    && ListsColor(sv.cyanCells, sv.colors, Cyan)
  }

  /** blue_impacted_by_cell[n] holds exactly the Blue cells bordering n. */
  ghost predicate ImpactOk(sv: Solver)
    requires |sv.colors| == CellCount
  {
    && |sv.blueImpactedByCell| == CellCount
    && (forall n, b: nat :: 0 <= n < CellCount ==>
          (b in sv.blueImpactedByCell[n] <==> b < CellCount && sv.colors[b] == Blue && n in Neighbors8(b)))
  }

  lemma NewOk(colors: seq<Color>, sv: Solver)
    requires |colors| == CellCount
    requires sv.colors == colors
    requires sv.blackMask == ColorMask(colors, Black) && sv.variableMask == AllCells - sv.blackMask
    requires sv.decisionOrder == SortByKey(RuleIndex.CellsOf(colors, Black, false, 0), DecisionKeys(colors))
    requires sv.blueCells == RuleIndex.CellsOf(colors, Blue, true, 0)
    requires sv.redCells == RuleIndex.CellsOf(colors, Red, true, 0)
    requires sv.greenCells == Coords(RuleIndex.CellsOf(colors, Green, true, 0))
    requires sv.yellowCells == Coords(RuleIndex.CellsOf(colors, Yellow, true, 0))
    requires sv.purpleCells == RuleIndex.CellsOf(colors, Purple, true, 0)
    requires sv.orangeCells == RuleIndex.CellsOf(colors, Orange, true, 0)
    requires sv.cyanCells == RuleIndex.CellsOf(colors, Cyan, true, 0)
    requires sv.blueImpactedByCell == BlueImpacted(colors)
    ensures Ok(sv)
    ensures Keyed(sv.decisionOrder, DecisionKeys(colors))
    ensures KeySorted(sv.decisionOrder, DecisionKeys(colors))
  {
    var nonBlack := RuleIndex.CellsOf(colors, Black, false, 0);
    NewOrderOk(colors, nonBlack, sv.decisionOrder);
    SortByKeySorted(nonBlack, DecisionKeys(colors));
    NewMasks(sv);
    NewLists(colors, sv);
    ListsOnBoard(sv);
    ImpactTable(colors);
  }

  /** Solver::new's Black mask, variable mask and decision order meet MasksOk. */
  lemma NewMasks(sv: Solver)
    requires |sv.colors| == CellCount
    requires sv.blackMask == ColorMask(sv.colors, Black) && sv.variableMask == AllCells - sv.blackMask
    requires Lines.Distinct(sv.decisionOrder)
    requires forall i: nat :: i in sv.decisionOrder <==> i in AllCells - ColorMask(sv.colors, Black)
    ensures MasksOk(sv)
  {
  }

  /** Solver::new's colour lists meet ListsOk. */
  lemma NewLists(colors: seq<Color>, sv: Solver)
    requires |colors| == CellCount && sv.colors == colors
    requires sv.blueCells == RuleIndex.CellsOf(colors, Blue, true, 0)
    requires sv.redCells == RuleIndex.CellsOf(colors, Red, true, 0)
    requires sv.greenCells == Coords(RuleIndex.CellsOf(colors, Green, true, 0))
    requires sv.yellowCells == Coords(RuleIndex.CellsOf(colors, Yellow, true, 0))
    requires sv.purpleCells == RuleIndex.CellsOf(colors, Purple, true, 0)
    requires sv.orangeCells == RuleIndex.CellsOf(colors, Orange, true, 0)
    requires sv.cyanCells == RuleIndex.CellsOf(colors, Cyan, true, 0)
    ensures ListsOk(sv)
  {
    NewListsOk(colors);
  }

  /** blue_impacted_by_cell as Solver::new builds it lists the Blue cells bordering each cell. */
  lemma ImpactTable(colors: seq<Color>)
    requires |colors| == CellCount
    ensures forall n, b: nat :: 0 <= n < CellCount ==>
      (b in BlueImpacted(colors)[n] <==> b < CellCount && colors[b] == Blue && n in Neighbors8(b))
  {
  }

  /** Cells listed by colour are cells of the board. */
  lemma ListsOnBoard(sv: Solver)
    requires |sv.colors| == CellCount && ListsOk(sv)
    ensures OnBoard(sv.blueCells) && OnBoard(sv.redCells) && OnBoard(sv.purpleCells)
    ensures OnBoard(sv.orangeCells) && OnBoard(sv.cyanCells)
    ensures OnBoardAt(sv.greenCells) && OnBoardAt(sv.yellowCells)
  {
  }

  /** The decision order Solver::new builds lists each variable cell once. */
  lemma NewOrderOk(colors: seq<Color>, nonBlack: seq<nat>, order: seq<nat>)
    requires |colors| == CellCount
    requires nonBlack == RuleIndex.CellsOf(colors, Black, false, 0)
    requires order == SortByKey(nonBlack, DecisionKeys(colors))
    ensures Lines.Distinct(order)
    ensures forall i: nat :: i in order <==> i in AllCells - ColorMask(colors, Black)
  {
    assert forall i: nat :: i in nonBlack <==> i < CellCount && colors[i] != Black;
    OrderOk(colors, nonBlack, order);
  }

  /** Solver::new's colour lists hold exactly the cells of their colours. */
  lemma NewListsOk(colors: seq<Color>)
    requires |colors| == CellCount
    ensures ListsColor(RuleIndex.CellsOf(colors, Blue, true, 0), colors, Blue)
    ensures ListsColor(RuleIndex.CellsOf(colors, Red, true, 0), colors, Red)
    ensures ListsColorAt(Coords(RuleIndex.CellsOf(colors, Green, true, 0)), colors, Green)
    ensures ListsColorAt(Coords(RuleIndex.CellsOf(colors, Yellow, true, 0)), colors, Yellow)
    ensures ListsColor(RuleIndex.CellsOf(colors, Purple, true, 0), colors, Purple)
    ensures ListsColor(RuleIndex.CellsOf(colors, Orange, true, 0), colors, Orange)
    ensures ListsColor(RuleIndex.CellsOf(colors, Cyan, true, 0), colors, Cyan)
  {
    CellsOfLists(colors, Blue);
    CellsOfLists(colors, Red);
    CellsOfLists(colors, Green);
    CoordsListColor(RuleIndex.CellsOf(colors, Green, true, 0), colors, Green);
    CellsOfLists(colors, Yellow);
    CoordsListColor(RuleIndex.CellsOf(colors, Yellow, true, 0), colors, Yellow);
    CellsOfLists(colors, Purple);
    CellsOfLists(colors, Orange);
    CellsOfLists(colors, Cyan);
  }

  lemma CellsOfLists(colors: seq<Color>, c: Color)
    requires |colors| == CellCount
    ensures ListsColor(RuleIndex.CellsOf(colors, c, true, 0), colors, c)
  {
  }

  /** A reordering of the ascending non-Black cells lists each variable cell once. */
  lemma OrderOk(colors: seq<Color>, nonBlack: seq<nat>, order: seq<nat>)
    requires |colors| == CellCount
    requires Ascending(nonBlack)
    requires forall i: nat :: i in nonBlack <==> i < CellCount && colors[i] != Black
    requires multiset(order) == multiset(nonBlack)
    ensures Lines.Distinct(order)
    ensures forall i: nat :: i in order <==> i in AllCells - ColorMask(colors, Black)
  {
    AscendingDistinct(nonBlack);
    SameMultisetDistinct(nonBlack, order);
    SameMembers(nonBlack, order);
  }

  lemma SameMembers(xs: seq<nat>, ys: seq<nat>)
    requires multiset(xs) == multiset(ys)
    ensures forall i: nat :: i in xs <==> i in ys
  {
    forall i: nat ensures i in xs <==> i in ys {
      assert i in xs <==> i in multiset(xs);
      assert i in ys <==> i in multiset(ys);
    }
  }

  lemma CoordsListColor(ids: seq<nat>, colors: seq<Color>, c: Color)
    requires |colors| == CellCount && ListsColor(ids, colors, c)
    ensures ListsColorAt(Coords(ids), colors, c)
  {
    var ps := Coords(ids);
    forall k | 0 <= k < |ps|
      ensures ps[k].0 < GridSize && ps[k].1 < GridSize && colors[CellIndex(ps[k].0, ps[k].1)] == c
    {
      CellIndexOf(ids[k]);
    }
    forall i | 0 <= i < CellCount && colors[i] == c ensures (Row(i), Col(i)) in ps {
      var k :| 0 <= k < |ids| && ids[k] == i;
      assert ps[k] == (Row(i), Col(i));
    }
  }

  lemma {:induction false} AscendingDistinct(xs: seq<nat>)
    requires Ascending(xs)
    ensures forall x :: multiset(xs)[x] <= 1
  {
    if |xs| > 0 {
      assert xs == [xs[0]] + xs[1..];
      AscendingDistinct(xs[1..]);
      assert xs[0] !in xs[1..];
    }
  }

  lemma SameMultisetDistinct(xs: seq<nat>, ys: seq<nat>)
    requires forall x :: multiset(xs)[x] <= 1
    requires multiset(xs) == multiset(ys)
    ensures Lines.Distinct(ys)
  {
    forall i, j | 0 <= i < j < |ys| ensures ys[i] != ys[j] {
      if ys[i] == ys[j] {
        TwoCopies(ys, i, j);
        assert false;
      }
    }
  }

  /** A value at two positions occurs at least twice in the multiset. */
  lemma TwoCopies(ys: seq<nat>, i: nat, j: nat)
    requires i < j < |ys| && ys[i] == ys[j]
    ensures multiset(ys)[ys[i]] >= 2
  {
    assert ys == ys[..j] + ys[j..];
    assert ys[i] in ys[..j];
    assert ys[j..][0] == ys[j];
  }

  // ---------------------------------------------------------------------
  // Line counters

  function Rows(): (ls: seq<Mask>)
    ensures |ls| == GridSize && forall k :: 0 <= k < GridSize ==> ls[k] == RowMask(k)
  {
    seq(GridSize, r requires 0 <= r < GridSize => RowMask(r))
  }
  function Cols(): (ls: seq<Mask>)
    ensures |ls| == GridSize && forall k :: 0 <= k < GridSize ==> ls[k] == ColMask(k)
  {
    seq(GridSize, c requires 0 <= c < GridSize => ColMask(c))
  }
  function Downs(): (ls: seq<Mask>)
    ensures |ls| == DiagCount && forall k :: 0 <= k < DiagCount ==> ls[k] == DiagDownMask(k)
  {
    seq(DiagCount, d requires 0 <= d < DiagCount => DiagDownMask(d))
  }
  function Ups(): (ls: seq<Mask>)
    ensures |ls| == DiagCount && forall k :: 0 <= k < DiagCount ==> ls[k] == DiagUpMask(k)
  {
    seq(DiagCount, d requires 0 <= d < DiagCount => DiagUpMask(d))
  }

  /** Popcount of a over each line of a family: one counter per line. */
  function Pop(a: Mask, lines: seq<Mask>): (v: seq<int>)
    ensures |v| == |lines|
    ensures forall k :: 0 <= k < |lines| ==> v[k] == |a * lines[k]|
  {
    seq(|lines|, k requires 0 <= k < |lines| => |a * lines[k]|)
  }

  /** The checked and the undecided counters of one family of lines (row_checked and row_undecided, say). */
  datatype LineTally = LineTally(checked: seq<int>, undecided: seq<int>)

  /**
   * backtrack's counter arrays: one tally per family of lines (rows, columns,
   * down- and up-diagonals) and the checked 8-neighbours of each Blue cell.
   */
  datatype Counts = Counts(rows: LineTally, cols: LineTally, downs: LineTally, ups: LineTally, blueChecked: seq<int>)

  predicate TallyShaped(p: LineTally, count: nat)
  {
    |p.checked| == count && |p.undecided| == count
  }

  predicate Shaped(t: Counts)
  {
    && TallyShaped(t.rows, GridSize) && TallyShaped(t.cols, GridSize)
    && TallyShaped(t.downs, DiagCount) && TallyShaped(t.ups, DiagCount)
    && |t.blueChecked| == CellCount
  }

  /** A tally holds the popcounts of the checked cells and of the undecided cells u. */
  ghost predicate TallyOf(p: LineTally, checked: Mask, u: Mask, lines: seq<Mask>)
  {
    p.checked == Pop(checked, lines) && p.undecided == Pop(u, lines)
  }

  /** Each Blue cell's counter is its checked 8-neighbour count. */
  ghost predicate BlueExact(colors: seq<Color>, checked: Mask, v: seq<int>)
    requires |colors| == CellCount
  {
    |v| == CellCount &&
    forall b :: 0 <= b < CellCount && colors[b] == Blue ==> v[b] == |checked * Neighbors8(b)|
  }

  /** The counters are the popcounts of the checked and the undecided cells. */
  ghost predicate Exact(sv: Solver, checked: Mask, decided: Mask, t: Counts)
    requires Frame(sv)
  {
    CountsOf(sv.colors, checked, sv.variableMask - decided, t)
  }

  /** The counters are the popcounts of the checked cells and of the undecided cells u. */
  ghost predicate CountsOf(colors: seq<Color>, checked: Mask, u: Mask, t: Counts)
    requires |colors| == CellCount
  {
    && TallyOf(t.rows, checked, u, Rows()) && TallyOf(t.cols, checked, u, Cols())
    && TallyOf(t.downs, checked, u, Downs()) && TallyOf(t.ups, checked, u, Ups())
    && BlueExact(colors, checked, t.blueChecked)
  }

  /** The counters solve_masks_limit starts from: Black cells checked, the rest undecided. */
  function InitialCounts(sv: Solver): (t: Counts)
    requires Frame(sv)
    ensures Shaped(t) && Exact(sv, sv.blackMask, {}, t)
  {
    assert sv.variableMask - {} == sv.variableMask;
    Counts(
      LineTally(Pop(sv.blackMask, Rows()), Pop(sv.variableMask, Rows())),
      LineTally(Pop(sv.blackMask, Cols()), Pop(sv.variableMask, Cols())),
      LineTally(Pop(sv.blackMask, Downs()), Pop(sv.variableMask, Downs())),
      LineTally(Pop(sv.blackMask, Ups()), Pop(sv.variableMask, Ups())),
      seq(CellCount, b requires 0 <= b < CellCount =>
        if sv.colors[b] == Blue then |sv.blackMask * Neighbors8(b)| else 0))
  }

  /** The four lines through cell i: row, column, down- and up-diagonal. */
  function RowOf(i: nat): (k: nat)
    requires i < CellCount
    ensures k < GridSize
  {
    Row(i)
  }

  function ColOf(i: nat): (k: nat)
    requires i < CellCount
    ensures k < GridSize
  {
    Col(i)
  }

  function DownOf(i: nat): (k: nat)
    requires i < CellCount
    ensures k < DiagCount
  {
    DownId(Row(i), Col(i))
  }

  function UpOf(i: nat): (k: nat)
    requires i < CellCount
    ensures k < DiagCount
  {
    UpId(Row(i), Col(i))
  }

  /** The undecided counters of cell i's four lines are all positive. */
  predicate Positive(t: Counts, i: nat)
    requires Shaped(t) && i < CellCount
  {
    && t.rows.undecided[RowOf(i)] > 0 && t.cols.undecided[ColOf(i)] > 0
    && t.downs.undecided[DownOf(i)] > 0 && t.ups.undecided[UpOf(i)] > 0
  }

  function Dec(v: seq<int>, k: nat): (w: seq<int>)
    requires k < |v|
    ensures |w| == |v|
  {
    v[k := v[k] - 1]
  }

  function Inc(v: seq<int>, k: nat): (w: seq<int>)
    requires k < |v|
    ensures |w| == |v|
  {
    v[k := v[k] + 1]
  }

  /** `undecided[k] -= 1`. */
  function SkipLine(p: LineTally, k: nat): (q: LineTally)
    requires k < |p.undecided|
    ensures |q.checked| == |p.checked| && |q.undecided| == |p.undecided|
  {
    p.(undecided := Dec(p.undecided, k))
  }

  /** `checked[k] += 1; undecided[k] -= 1`. */
  function TakeLine(p: LineTally, k: nat): (q: LineTally)
    requires k < |p.checked| && k < |p.undecided|
    ensures |q.checked| == |p.checked| && |q.undecided| == |p.undecided|
  {
    LineTally(Inc(p.checked, k), Dec(p.undecided, k))
  }

  /** Branch 1 of backtrack: cell i is decided unchecked, so its lines lose an undecided cell. */
  function Skip(t: Counts, i: nat): (t2: Counts)
    requires Shaped(t) && i < CellCount
    ensures Shaped(t2)
  {
    t.(rows := SkipLine(t.rows, RowOf(i)), cols := SkipLine(t.cols, ColOf(i)),
       downs := SkipLine(t.downs, DownOf(i)), ups := SkipLine(t.ups, UpOf(i)))
  }

  /** The Blue counters after checking a cell: those of the Blue cells it borders go up by one. */
  function Bump(v: seq<int>, impacted: Mask): (w: seq<int>)
    ensures |w| == |v|
    ensures forall b :: 0 <= b < |v| ==> w[b] == if b in impacted then v[b] + 1 else v[b]
  {
    seq(|v|, b requires 0 <= b < |v| => if b in impacted then v[b] + 1 else v[b])
  }

  /**
   * Branch 2 of backtrack: cell i is checked, so its lines move a cell from
   * undecided to checked and every Blue cell it borders gains a neighbour.
   */
  function Take(t: Counts, i: nat, impacted: Mask): (t2: Counts)
    requires Shaped(t) && i < CellCount
    ensures Shaped(t2)
  {
    Counts(TakeLine(t.rows, RowOf(i)), TakeLine(t.cols, ColOf(i)),
      TakeLine(t.downs, DownOf(i)), TakeLine(t.ups, UpOf(i)),
      Bump(t.blueChecked, impacted))
  }

  // ---------------------------------------------------------------------
  // partial_prune

  /** Some winning line has no cell decided unchecked, so it can still be completed. */
  predicate LineOpen(decidedUnchecked: Mask)
  {
    exists k :: 0 <= k < LineCount && LineMasks()[k] * decidedUnchecked == {}
  }

  /** The ranges [aMin, aMin + aSpan] and [bMin, bMin + bSpan] meet. */
  predicate Overlap(aMin: int, aSpan: int, bMin: int, bSpan: int)
  {
    !(aMin > bMin + bSpan || bMin > aMin + aSpan)
  }

  predicate BluesOk(sv: Solver, t: Counts)
    requires Frame(sv) && Shaped(t)
  {
    forall k :: 0 <= k < |sv.blueCells| ==> !(t.blueChecked[sv.blueCells[k]] > 2)
  }

  predicate GreensOk(sv: Solver, t: Counts)
    requires Frame(sv) && Shaped(t)
  {
    forall k :: 0 <= k < |sv.greenCells| ==> GreenFits(t, sv.greenCells[k].0, sv.greenCells[k].1)
  }

  /** The checked-count ranges of row x and column y can still meet. */
  predicate GreenFits(t: Counts, x: nat, y: nat)
    requires Shaped(t) && x < GridSize && y < GridSize
  {
    Overlap(t.rows.checked[x], t.rows.undecided[x], t.cols.checked[y], t.cols.undecided[y])
  }

  predicate YellowsOk(sv: Solver, t: Counts)
    requires Frame(sv) && Shaped(t)
  {
    forall k :: 0 <= k < |sv.yellowCells| ==> YellowFits(t, sv.yellowCells[k].0, sv.yellowCells[k].1)
  }

  /** The checked-count ranges of the two diagonals through (x, y) can still meet. */
  predicate YellowFits(t: Counts, x: nat, y: nat)
    requires Shaped(t) && x < GridSize && y < GridSize
  {
    Overlap(t.downs.checked[DownId(x, y)], t.downs.undecided[DownId(x, y)],
      t.ups.checked[UpId(x, y)], t.ups.undecided[UpId(x, y)])
  }

  predicate RedsOk(sv: Solver, checked: Mask, undecided: Mask)
    requires Frame(sv)
  {
    forall k :: 0 <= k < |sv.redCells| ==>
      checked * Neighbors8(sv.redCells[k]) != {} || undecided * Neighbors8(sv.redCells[k]) != {}
  }

  predicate PurplesOk(sv: Solver, checked: Mask, undecided: Mask)
    requires Frame(sv)
  {
    forall k :: 0 <= k < |sv.purpleCells| ==>
      undecided * Neighbors8(sv.purpleCells[k]) != {} || |checked * Neighbors8(sv.purpleCells[k])| % 2 == 1
  }

  predicate OrangesOk(sv: Solver, checked: Mask, undecided: Mask)
    requires Frame(sv)
  {
    forall k :: 0 <= k < |sv.orangeCells| ==>
      undecided * Neighbors8(sv.orangeCells[k]) != {} || |checked * Neighbors8(sv.orangeCells[k])| % 2 == 0
  }

  predicate CyansOk(sv: Solver, checked: Mask, undecided: Mask)
    requires Frame(sv)
  {
    forall k :: 0 <= k < |sv.cyanCells| ==> CyanFits(checked, undecided, sv.cyanCells[k])
  }

  /** An unchecked Cyan cell, or a checked one with a 4-neighbour checked or still open. */
  predicate CyanFits(checked: Mask, undecided: Mask, c: nat)
    requires c < CellCount
  {
    c !in checked || checked * Neighbors4(c) != {} || undecided * Neighbors4(c) != {}
  }

  /** partial_prune: false only when no completion of the partial assignment can be a solution. */
  predicate PartialPrune(sv: Solver, checked: Mask, decided: Mask, decidedUnchecked: Mask, t: Counts)
    requires Frame(sv) && Shaped(t)
  {
    && LineOpen(decidedUnchecked)
    && BluesOk(sv, t) && GreensOk(sv, t) && YellowsOk(sv, t)
    && NeighboursOk(sv, checked, sv.variableMask - decided)
  }

  /** The neighbour-count checks, given the still undecided variable cells. */
  predicate NeighboursOk(sv: Solver, checked: Mask, undecided: Mask)
    requires Frame(sv)
  {
    && RedsOk(sv, checked, undecided) && PurplesOk(sv, checked, undecided)
    && OrangesOk(sv, checked, undecided) && CyansOk(sv, checked, undecided)
  }

  // ---------------------------------------------------------------------
  // backtrack and solve_masks_limit

  /** The variable cells at positions idx.. of the decision order. */
  function Pending(order: seq<nat>, idx: nat): Mask
  {
    set j | idx <= j < |order| :: order[j]
  }

  /**
   * The state backtrack is called in: Black cells checked, the cells of the
   * decision order before idx decided and the rest undecided.
   */
  ghost predicate Reached(sv: Solver, idx: nat, checked: Mask, decided: Mask)
    requires Frame(sv)
  {
    && idx <= |sv.decisionOrder|
    && Partial(sv, checked, decided)
    && sv.variableMask - decided == Pending(sv.decisionOrder, idx)
  }

  /** The decision order lists variable cells only. */
  lemma OrderCell(sv: Solver, idx: nat)
    requires Frame(sv) && idx < |sv.decisionOrder|
    ensures sv.decisionOrder[idx] in sv.variableMask && sv.decisionOrder[idx] < CellCount
  {
    assert sv.decisionOrder[idx] in sv.decisionOrder;
  }

  /** backtrack: appends to out the solutions reachable from this state, stopping at limit (0 = no limit). */
  function Backtrack(sv: Solver, idx: nat, checked: Mask, decided: Mask, t: Counts, limit: nat, out: seq<Mask>): (res: seq<Mask>)
    requires Frame(sv) && idx <= |sv.decisionOrder| && Shaped(t)
    ensures out <= res
    ensures limit != 0 && |out| <= limit ==> |res| <= limit
    decreases |sv.decisionOrder| - idx, 1
  {
    if limit != 0 && |out| >= limit then out
    else if idx >= |sv.decisionOrder| then
      if HasFiveInARow(checked) && CheckAllRules(sv.colors, checked) then out + [checked] else out
    else
      var cell := sv.decisionOrder[idx];
      OrderCell(sv, idx);
      var out1 := Branch(sv, idx, checked, decided + {cell}, Skip(t, cell), limit, out);
      Branch(sv, idx, checked + {cell}, decided + {cell}, Take(t, cell, sv.blueImpactedByCell[cell]), limit, out1)
  }

  /** One branch of backtrack: recurse only when partial_prune lets the extended state through. */
  function Branch(sv: Solver, idx: nat, checked: Mask, decided: Mask, t: Counts, limit: nat, out: seq<Mask>): (res: seq<Mask>)
    requires Frame(sv) && idx < |sv.decisionOrder| && Shaped(t)
    ensures out <= res
    ensures limit != 0 && |out| <= limit ==> |res| <= limit
    decreases |sv.decisionOrder| - idx, 0
  {
    if PartialPrune(sv, checked, decided, decided - checked, t) then
      Backtrack(sv, idx + 1, checked, decided, t, limit, out)
    else out
  }

  /** Some Blue cell already has more than two Black neighbours. */
  predicate BlueOverloaded(sv: Solver, t: Counts)
    requires Frame(sv) && Shaped(t)
  {
    exists k :: 0 <= k < |sv.blueCells| && t.blueChecked[sv.blueCells[k]] > 2
  }

  /** solve_masks_limit: at most limit solutions (0 = all), in search order. */
  function SolveMasksLimit(sv: Solver, limit: nat): (res: seq<Mask>)
    requires Ok(sv)
    ensures limit != 0 ==> |res| <= limit
  {
    if BlueOverloaded(sv, InitialCounts(sv)) then []
    else Backtrack(sv, 0, sv.blackMask, {}, InitialCounts(sv), limit, [])
  }

  // ---------------------------------------------------------------------
  // The state invariant

  lemma InitialReached(sv: Solver)
    requires Frame(sv)
    ensures Reached(sv, 0, sv.blackMask, {})
  {
    forall i ensures i in sv.variableMask - {} <==> i in Pending(sv.decisionOrder, 0) {
      if i in sv.variableMask {
        var j :| 0 <= j < |sv.decisionOrder| && sv.decisionOrder[j] == i;
      }
    }
  }

  /** Removing an element of a from a lowers exactly the counter of the one line holding it. */
  lemma PopRemove(a: Mask, lines: seq<Mask>, i: nat, k0: nat)
    requires i in a && k0 < |lines| && i in lines[k0]
    requires forall k :: 0 <= k < |lines| && i in lines[k] ==> k == k0
    ensures Pop(a, lines)[k0] > 0
    ensures Pop(a - {i}, lines) == Dec(Pop(a, lines), k0)
  {
    assert i in a * lines[k0];
    forall k | 0 <= k < |lines| ensures |(a - {i}) * lines[k]| == Dec(Pop(a, lines), k0)[k] {
      if k == k0 {
        assert (a - {i}) * lines[k] == a * lines[k] - {i};
      } else {
        assert (a - {i}) * lines[k] == a * lines[k];
      }
    }
  }

  /** Adding a new element to a raises exactly the counter of the one line holding it. */
  lemma PopAdd(a: Mask, lines: seq<Mask>, i: nat, k0: nat)
    requires i !in a && k0 < |lines| && i in lines[k0]
    requires forall k :: 0 <= k < |lines| && i in lines[k] ==> k == k0
    ensures Pop(a + {i}, lines) == Inc(Pop(a, lines), k0)
  {
    forall k | 0 <= k < |lines| ensures |(a + {i}) * lines[k]| == Inc(Pop(a, lines), k0)[k] {
      if k == k0 {
        assert (a + {i}) * lines[k] == a * lines[k] + {i};
      } else {
        assert (a + {i}) * lines[k] == a * lines[k];
      }
    }
  }

  /** Cell i lies on exactly one line of each family: its row, column and diagonals. */
  lemma LinesOf(i: nat)
    requires i < CellCount
    ensures RowOf(i) < GridSize && i in Rows()[RowOf(i)]
    ensures forall k :: 0 <= k < |Rows()| && i in Rows()[k] ==> k == RowOf(i)
    ensures ColOf(i) < GridSize && i in Cols()[ColOf(i)]
    ensures forall k :: 0 <= k < |Cols()| && i in Cols()[k] ==> k == ColOf(i)
    ensures DownOf(i) < DiagCount && i in Downs()[DownOf(i)]
    ensures forall k :: 0 <= k < |Downs()| && i in Downs()[k] ==> k == DownOf(i)
    ensures UpOf(i) < DiagCount && i in Ups()[UpOf(i)]
    ensures forall k :: 0 <= k < |Ups()| && i in Ups()[k] ==> k == UpOf(i)
  {
    PartitionsCoverBoard(i);
  }

  /** Deciding undecided cell i unchecked keeps a tally exact. */
  lemma SkipLineExact(p: LineTally, checked: Mask, u: Mask, lines: seq<Mask>, i: nat, k0: nat)
    requires TallyOf(p, checked, u, lines)
    requires i in u && k0 < |lines| && i in lines[k0]
    requires forall k :: 0 <= k < |lines| && i in lines[k] ==> k == k0
    ensures p.undecided[k0] > 0
    ensures TallyOf(SkipLine(p, k0), checked, u - {i}, lines)
  {
    PopRemove(u, lines, i, k0);
  }

  /** Checking undecided cell i keeps a tally exact. */
  lemma TakeLineExact(p: LineTally, checked: Mask, u: Mask, lines: seq<Mask>, i: nat, k0: nat)
    requires TallyOf(p, checked, u, lines)
    requires i in u && i !in checked && k0 < |lines| && i in lines[k0]
    requires forall k :: 0 <= k < |lines| && i in lines[k] ==> k == k0
    ensures p.undecided[k0] > 0 && k0 < |p.checked|
    ensures TallyOf(TakeLine(p, k0), checked + {i}, u - {i}, lines)
  {
    PopRemove(u, lines, i, k0);
    PopAdd(checked, lines, i, k0);
  }

  /** An undecided cell leaves each of its lines with a positive undecided counter. */
  lemma PendingPositive(colors: seq<Color>, checked: Mask, u: Mask, t: Counts, i: nat)
    requires |colors| == CellCount && Shaped(t) && CountsOf(colors, checked, u, t)
    requires i in u && i < CellCount
    ensures Positive(t, i)
  {
    LinesOf(i);
    SkipLineExact(t.rows, checked, u, Rows(), i, RowOf(i));
    SkipLineExact(t.cols, checked, u, Cols(), i, ColOf(i));
    SkipLineExact(t.downs, checked, u, Downs(), i, DownOf(i));
    SkipLineExact(t.ups, checked, u, Ups(), i, UpOf(i));
  }

  /** Branch 1 keeps the counters exact. */
  lemma SkipExact(sv: Solver, checked: Mask, decided: Mask, t: Counts, i: nat)
    requires Frame(sv) && Shaped(t) && Exact(sv, checked, decided, t)
    requires i in sv.variableMask - decided
    ensures i < CellCount && Positive(t, i)
    ensures Exact(sv, checked, decided + {i}, Skip(t, i))
  {
    var u := sv.variableMask - decided;
    assert i < CellCount && CountsOf(sv.colors, checked, u, t);
    PendingPositive(sv.colors, checked, u, t, i);
    SkipCounts(sv.colors, checked, u, t, i);
    Undecided(sv, decided, decided, i);
    ExactOf(sv, checked, decided + {i}, u - {i}, Skip(t, i));
  }

  /** Deciding undecided cell i unchecked keeps the four line families exact. */
  lemma SkipCounts(colors: seq<Color>, checked: Mask, u: Mask, t: Counts, i: nat)
    requires |colors| == CellCount && Shaped(t) && i < CellCount && i in u
    requires CountsOf(colors, checked, u, t)
    ensures CountsOf(colors, checked, u - {i}, Skip(t, i))
  {
    LinesOf(i);
    SkipLineExact(t.rows, checked, u, Rows(), i, RowOf(i));
    SkipLineExact(t.cols, checked, u, Cols(), i, ColOf(i));
    SkipLineExact(t.downs, checked, u, Downs(), i, DownOf(i));
    SkipLineExact(t.ups, checked, u, Ups(), i, UpOf(i));
  }

  /** Branch 2 keeps the counters exact, the Blue neighbour counts included. */
  lemma TakeExact(sv: Solver, checked: Mask, decided: Mask, t: Counts, i: nat)
    requires Frame(sv) && ImpactOk(sv) && Shaped(t) && Exact(sv, checked, decided, t)
    requires i in sv.variableMask - decided && checked <= sv.blackMask + decided
    ensures i < CellCount && Positive(t, i)
    ensures Exact(sv, checked + {i}, decided + {i}, Take(t, i, sv.blueImpactedByCell[i]))
  {
    var u := sv.variableMask - decided;
    Undecided(sv, checked, decided, i);
    ImpactAt(sv, i);
    TakeStep(sv.colors, checked, u, t, i, sv.blueImpactedByCell[i]);
    ExactOf(sv, checked + {i}, decided + {i}, u - {i}, Take(t, i, sv.blueImpactedByCell[i]));
  }

  /** Checking undecided cell i: its counters are positive and stay exact. */
  lemma TakeStep(colors: seq<Color>, checked: Mask, u: Mask, t: Counts, i: nat, impacted: Mask)
    requires |colors| == CellCount && Shaped(t) && CountsOf(colors, checked, u, t)
    requires i in u && i < CellCount && i !in checked
    requires forall b: nat :: b < CellCount && colors[b] == Blue ==> (b in impacted <==> i in Neighbors8(b))
    ensures Positive(t, i)
    ensures CountsOf(colors, checked + {i}, u - {i}, Take(t, i, impacted))
  {
    PendingPositive(colors, checked, u, t, i);
    TakeCounts(colors, checked, u, t, i, impacted);
  }

  /** Exact counters for the undecided cells u, when u is what decided leaves. */
  lemma ExactOf(sv: Solver, checked: Mask, decided: Mask, u: Mask, t: Counts)
    requires Frame(sv) && u == sv.variableMask - decided && CountsOf(sv.colors, checked, u, t)
    ensures Exact(sv, checked, decided, t)
  {
  }

  /** An undecided variable cell is a board cell that is not checked yet. */
  lemma Undecided(sv: Solver, checked: Mask, decided: Mask, i: nat)
    requires sv.variableMask == AllCells - sv.blackMask
    requires i in sv.variableMask - decided && checked <= sv.blackMask + decided
    ensures i < CellCount && i !in checked
    ensures sv.variableMask - (decided + {i}) == (sv.variableMask - decided) - {i}
  {
  }

  /** The table entry of cell i holds exactly the Blue cells bordering i. */
  lemma ImpactAt(sv: Solver, i: nat)
    requires |sv.colors| == CellCount && ImpactOk(sv) && i < CellCount
    ensures forall b: nat :: b < CellCount && sv.colors[b] == Blue ==>
      (b in sv.blueImpactedByCell[i] <==> i in Neighbors8(b))
  {
  }

  /** Checking undecided cell i keeps the four line families and the Blue counters exact. */
  lemma TakeCounts(colors: seq<Color>, checked: Mask, u: Mask, t: Counts, i: nat, impacted: Mask)
    requires |colors| == CellCount && Shaped(t) && i < CellCount && i in u && i !in checked
    requires CountsOf(colors, checked, u, t)
    requires forall b: nat :: b < CellCount && colors[b] == Blue ==> (b in impacted <==> i in Neighbors8(b))
    ensures CountsOf(colors, checked + {i}, u - {i}, Take(t, i, impacted))
  {
    LinesOf(i);
    TakeLineExact(t.rows, checked, u, Rows(), i, RowOf(i));
    TakeLineExact(t.cols, checked, u, Cols(), i, ColOf(i));
    TakeLineExact(t.downs, checked, u, Downs(), i, DownOf(i));
    TakeLineExact(t.ups, checked, u, Ups(), i, UpOf(i));
    BumpExact(colors, checked, t.blueChecked, i, impacted);
  }

  /** Checking cell i bumps exactly the Blue cells it borders, which keeps their counters exact. */
  lemma BumpExact(colors: seq<Color>, checked: Mask, v: seq<int>, i: nat, impacted: Mask)
    requires |colors| == CellCount && BlueExact(colors, checked, v) && i !in checked
    requires forall b: nat :: b < CellCount && colors[b] == Blue ==> (b in impacted <==> i in Neighbors8(b))
    ensures BlueExact(colors, checked + {i}, Bump(v, impacted))
  {
    forall b | 0 <= b < CellCount && colors[b] == Blue
      ensures Bump(v, impacted)[b] == |(checked + {i}) * Neighbors8(b)|
    {
      CountAdd(checked, Neighbors8(b), i);
    }
  }

  lemma CountAdd(a: Mask, nbrs: Mask, i: nat)
    requires i !in a
    ensures |(a + {i}) * nbrs| == |a * nbrs| + (if i in nbrs then 1 else 0)
  {
    if i in nbrs {
      assert (a + {i}) * nbrs == a * nbrs + {i};
    } else {
      assert (a + {i}) * nbrs == a * nbrs;
    }
  }

  /** Deciding the next cell of the order, either way, reaches the state at idx + 1. */
  lemma StepReached(sv: Solver, idx: nat, checked: Mask, decided: Mask, cell: nat)
    requires Frame(sv) && Reached(sv, idx, checked, decided) && idx < |sv.decisionOrder|
    requires cell == sv.decisionOrder[idx]
    ensures cell in sv.variableMask - decided && cell < CellCount
    ensures Reached(sv, idx + 1, checked, decided + {cell})
    ensures Reached(sv, idx + 1, checked + {cell}, decided + {cell})
  {
    StepPending(sv, idx, decided, cell);
  }

  /**
   * Deciding an undecided cell, either way, keeps the counters exact; in
   * particular the undecided counters it lowers are positive, so the u8
   * arithmetic never wraps.
   */
  lemma StepExact(sv: Solver, checked: Mask, decided: Mask, t: Counts, cell: nat)
    requires Ok(sv) && Partial(sv, checked, decided) && Shaped(t) && Exact(sv, checked, decided, t)
    requires cell in sv.variableMask - decided
    ensures cell < CellCount && Positive(t, cell)
    ensures Exact(sv, checked, decided + {cell}, Skip(t, cell))
    ensures Exact(sv, checked + {cell}, decided + {cell}, Take(t, cell, sv.blueImpactedByCell[cell]))
  {
    SkipExact(sv, checked, decided, t, cell);
    TakeExact(sv, checked, decided, t, cell);
  }

  /** The next cell of the order is undecided, and deciding it leaves the rest of the order pending. */
  lemma StepPending(sv: Solver, idx: nat, decided: Mask, cell: nat)
    requires Frame(sv) && idx < |sv.decisionOrder| && cell == sv.decisionOrder[idx]
    requires decided <= sv.variableMask && sv.variableMask - decided == Pending(sv.decisionOrder, idx)
    ensures cell in sv.variableMask - decided
    ensures decided + {cell} <= sv.variableMask
    ensures sv.variableMask - (decided + {cell}) == Pending(sv.decisionOrder, idx + 1)
  {
    assert cell in Pending(sv.decisionOrder, idx);
    PendingStep(sv.decisionOrder, idx);
  }

  lemma PendingStep(order: seq<nat>, idx: nat)
    requires Lines.Distinct(order) && idx < |order|
    ensures Pending(order, idx + 1) == Pending(order, idx) - {order[idx]}
  {
    forall x | x in Pending(order, idx) - {order[idx]} ensures x in Pending(order, idx + 1) {
      var j :| idx <= j < |order| && order[j] == x;
    }
  }

  // ---------------------------------------------------------------------
  // partial_prune never cuts off a solution

  /** The Black cells are checked, and every checked cell is Black or decided. */
  ghost predicate Partial(sv: Solver, checked: Mask, decided: Mask)
    requires Frame(sv)
  {
    sv.blackMask <= checked <= sv.blackMask + decided && decided <= sv.variableMask
  }

  /** m is a full assignment that extends the partial one: its Black and decided cells are exactly checked. */
  ghost predicate Agrees(sv: Solver, checked: Mask, decided: Mask, m: Mask)
    requires Frame(sv)
  {
    m <= AllCells && m * (sv.blackMask + decided) == checked
  }

  /** The decided-or-Black cells and the undecided cells split an extension's cells between them. */
  lemma Split(sv: Solver, checked: Mask, decided: Mask, m: Mask)
    requires Frame(sv) && Partial(sv, checked, decided) && Agrees(sv, checked, decided, m)
    ensures m <= (sv.blackMask + decided) + (sv.variableMask - decided)
    ensures (sv.blackMask + decided) * (sv.variableMask - decided) == {}
    ensures m * (sv.blackMask + decided) == checked
  {
  }

  /**
   * On any line, an extension has at least the checked cells and at most
   * the checked plus the undecided ones; with nothing undecided it has exactly the checked ones.
   */
  lemma Between(known: Mask, u: Mask, checked: Mask, m: Mask, line: Mask)
    requires m <= known + u && known * u == {} && m * known == checked
    ensures |checked * line| <= |m * line| <= |checked * line| + |u * line|
    ensures u * line == {} ==> m * line == checked * line
  {
    var rest := m * u * line;
    assert m * line == checked * line + rest;
    assert checked * line * rest == {};
    SubsetCard(rest, u * line);
  }

  lemma SubsetCard(a: Mask, b: Mask)
    requires a <= b
    ensures |a| <= |b|
  {
    assert b == a + (b - a);
  }

  lemma LineOpenSound(sv: Solver, checked: Mask, decided: Mask, m: Mask)
    requires Frame(sv) && Partial(sv, checked, decided) && Agrees(sv, checked, decided, m)
    requires Bingo(m)
    ensures LineOpen(decided - checked)
  {
    var k :| 0 <= k < LineCount && LineMasks()[k] <= m;
    assert LineMasks()[k] * (decided - checked) == {};
  }

  lemma BluesSound(sv: Solver, checked: Mask, decided: Mask, t: Counts, m: Mask)
    requires Ok(sv) && Partial(sv, checked, decided) && Agrees(sv, checked, decided, m)
    requires Shaped(t) && Exact(sv, checked, decided, t) && AllRulesHold(sv.colors, m)
    ensures BluesOk(sv, t)
  {
    Split(sv, checked, decided, m);
    forall k | 0 <= k < |sv.blueCells| ensures !(t.blueChecked[sv.blueCells[k]] > 2) {
      var b := sv.blueCells[k];
      assert CellRule(sv.colors[b], m, b);
      Between(sv.blackMask + decided, sv.variableMask - decided, checked, m, Neighbors8(b));
    }
  }

  lemma GreensSound(sv: Solver, checked: Mask, decided: Mask, t: Counts, m: Mask)
    requires Ok(sv) && Partial(sv, checked, decided) && Agrees(sv, checked, decided, m)
    requires Shaped(t) && Exact(sv, checked, decided, t) && AllRulesHold(sv.colors, m)
    ensures GreensOk(sv, t)
  {
    Split(sv, checked, decided, m);
    forall k | 0 <= k < |sv.greenCells| ensures GreenFits(t, sv.greenCells[k].0, sv.greenCells[k].1) {
      var (x, y) := sv.greenCells[k];
      var i := CellIndex(x, y);
      CellIndexRoundTrip(x, y);
      assert CellRule(sv.colors[i], m, i);
      Between(sv.blackMask + decided, sv.variableMask - decided, checked, m, RowMask(x));
      Between(sv.blackMask + decided, sv.variableMask - decided, checked, m, ColMask(y));
    }
  }

  lemma YellowsSound(sv: Solver, checked: Mask, decided: Mask, t: Counts, m: Mask)
    requires Ok(sv) && Partial(sv, checked, decided) && Agrees(sv, checked, decided, m)
    requires Shaped(t) && Exact(sv, checked, decided, t) && AllRulesHold(sv.colors, m)
    ensures YellowsOk(sv, t)
  {
    Split(sv, checked, decided, m);
    var known, u := sv.blackMask + decided, sv.variableMask - decided;
    assert TallyOf(t.downs, checked, u, Downs()) && TallyOf(t.ups, checked, u, Ups());
    forall k | 0 <= k < |sv.yellowCells| ensures YellowFits(t, sv.yellowCells[k].0, sv.yellowCells[k].1) {
      var (x, y) := sv.yellowCells[k];
      var i := CellIndex(x, y);
      CellIndexRoundTrip(x, y);
      assert CellRule(sv.colors[i], m, i);
      YellowCell(t, known, u, checked, m, x, y);
    }
  }

  /** A Yellow cell whose rule holds in m keeps the ranges of its two diagonals overlapping. */
  lemma YellowCell(t: Counts, known: Mask, u: Mask, checked: Mask, m: Mask, x: nat, y: nat)
    requires Shaped(t) && x < GridSize && y < GridSize
    requires TallyOf(t.downs, checked, u, Downs()) && TallyOf(t.ups, checked, u, Ups())
    requires m <= known + u && known * u == {} && m * known == checked
    requires |m * DiagDownMask(DownId(x, y))| == |m * DiagUpMask(UpId(x, y))|
    ensures YellowFits(t, x, y)
  {
    var d, e := DownId(x, y), UpId(x, y);
    Between(known, u, checked, m, DiagDownMask(d));
    Between(known, u, checked, m, DiagUpMask(e));
    assert t.downs.checked[d] == |checked * DiagDownMask(d)| && t.downs.undecided[d] == |u * DiagDownMask(d)|;
    assert t.ups.checked[e] == |checked * DiagUpMask(e)| && t.ups.undecided[e] == |u * DiagUpMask(e)|;
  }

  lemma NeighboursSound(sv: Solver, checked: Mask, decided: Mask, m: Mask)
    requires Ok(sv) && Partial(sv, checked, decided) && Agrees(sv, checked, decided, m)
    requires AllRulesHold(sv.colors, m)
    ensures NeighboursOk(sv, checked, sv.variableMask - decided)
  {
    Split(sv, checked, decided, m);
    var known, u := sv.blackMask + decided, sv.variableMask - decided;
    RedsSound(sv, known, u, checked, m);
    PurplesSound(sv, known, u, checked, m);
    OrangesSound(sv, known, u, checked, m);
    CyansSound(sv, known, u, checked, m);
  }

  lemma RedsSound(sv: Solver, known: Mask, u: Mask, checked: Mask, m: Mask)
    requires Ok(sv) && m <= known + u && known * u == {} && m * known == checked
    requires AllRulesHold(sv.colors, m)
    ensures RedsOk(sv, checked, u)
  {
    forall k | 0 <= k < |sv.redCells| ensures checked * Neighbors8(sv.redCells[k]) != {} || u * Neighbors8(sv.redCells[k]) != {} {
      var r := sv.redCells[k];
      assert CellRule(sv.colors[r], m, r);
      Between(known, u, checked, m, Neighbors8(r));
    }
  }

  lemma PurplesSound(sv: Solver, known: Mask, u: Mask, checked: Mask, m: Mask)
    requires Ok(sv) && m <= known + u && known * u == {} && m * known == checked
    requires AllRulesHold(sv.colors, m)
    ensures PurplesOk(sv, checked, u)
  {
    forall k | 0 <= k < |sv.purpleCells|
      ensures u * Neighbors8(sv.purpleCells[k]) != {} || |checked * Neighbors8(sv.purpleCells[k])| % 2 == 1
    {
      var p := sv.purpleCells[k];
      assert CellRule(sv.colors[p], m, p);
      Between(known, u, checked, m, Neighbors8(p));
    }
  }

  lemma OrangesSound(sv: Solver, known: Mask, u: Mask, checked: Mask, m: Mask)
    requires Ok(sv) && m <= known + u && known * u == {} && m * known == checked
    requires AllRulesHold(sv.colors, m)
    ensures OrangesOk(sv, checked, u)
  {
    forall k | 0 <= k < |sv.orangeCells|
      ensures u * Neighbors8(sv.orangeCells[k]) != {} || |checked * Neighbors8(sv.orangeCells[k])| % 2 == 0
    {
      var o := sv.orangeCells[k];
      assert CellRule(sv.colors[o], m, o);
      Between(known, u, checked, m, Neighbors8(o));
    }
  }

  lemma CyansSound(sv: Solver, known: Mask, u: Mask, checked: Mask, m: Mask)
    requires Ok(sv) && m <= known + u && known * u == {} && m * known == checked
    requires AllRulesHold(sv.colors, m)
    ensures CyansOk(sv, checked, u)
  {
    forall k | 0 <= k < |sv.cyanCells| ensures CyanFits(checked, u, sv.cyanCells[k]) {
      var c := sv.cyanCells[k];
      assert CellRule(sv.colors[c], m, c);
      Between(known, u, checked, m, Neighbors4(c));
    }
  }

  /** partial_prune never rejects a partial assignment that some solution extends. */
  lemma PruneSound(sv: Solver, checked: Mask, decided: Mask, t: Counts, m: Mask)
    requires Ok(sv) && Partial(sv, checked, decided) && Shaped(t) && Exact(sv, checked, decided, t)
    requires IsSolution(sv.colors, m) && Agrees(sv, checked, decided, m)
    ensures PartialPrune(sv, checked, decided, decided - checked, t)
  {
    LineOpenSound(sv, checked, decided, m);
    BluesSound(sv, checked, decided, t, m);
    GreensSound(sv, checked, decided, t, m);
    YellowsSound(sv, checked, decided, t, m);
    NeighboursSound(sv, checked, decided, m);
  }

  // ---------------------------------------------------------------------
  // backtrack returns exactly the solutions, each once

  /** Deciding one more cell: an extension of the wider state that matches the new cell extends the narrower one. */
  lemma AgreesStep(sv: Solver, checked: Mask, decided: Mask, cell: nat, m: Mask)
    requires Frame(sv) && Partial(sv, checked, decided) && cell in sv.variableMask - decided
    ensures Agrees(sv, checked, decided, m) && cell !in m ==> Agrees(sv, checked, decided + {cell}, m)
    ensures Agrees(sv, checked, decided, m) && cell in m ==> Agrees(sv, checked + {cell}, decided + {cell}, m)
    ensures Agrees(sv, checked, decided + {cell}, m) ==> Agrees(sv, checked, decided, m) && cell !in m
    ensures Agrees(sv, checked + {cell}, decided + {cell}, m) ==> Agrees(sv, checked, decided, m) && cell in m
  {
    var known := sv.blackMask + decided;
    assert sv.blackMask + (decided + {cell}) == known + {cell};
    assert m * (known + {cell}) == m * known + m * {cell};
    assert cell !in known;
    if Agrees(sv, checked + {cell}, decided + {cell}, m) {
      assert m * known == (m * (known + {cell})) * known;
    }
    if Agrees(sv, checked, decided + {cell}, m) {
      assert m * known == (m * (known + {cell})) * known;
    }
  }

  /** Once every variable cell is decided, the only extension is the checked mask itself. */
  lemma LeafAgrees(sv: Solver, checked: Mask, decided: Mask)
    requires Frame(sv) && Reached(sv, |sv.decisionOrder|, checked, decided)
    ensures decided == sv.variableMask && checked <= AllCells
    ensures forall m :: Agrees(sv, checked, decided, m) <==> m == checked
  {
    assert sv.variableMask - decided == Pending(sv.decisionOrder, |sv.decisionOrder|) == {};
    forall x | x in sv.variableMask ensures x in decided {
      assert x !in sv.variableMask - decided;
    }
    assert decided == sv.variableMask;
    assert sv.blackMask <= AllCells;
    assert sv.blackMask + decided == AllCells;
    forall m ensures Agrees(sv, checked, decided, m) <==> m == checked {
      if Agrees(sv, checked, decided, m) {
        assert m * AllCells == m;
      }
    }
  }

  /** Every mask backtrack appends is a solution extending the current state. */
  lemma {:induction false} BacktrackSound(sv: Solver, idx: nat, checked: Mask, decided: Mask, t: Counts, limit: nat, out: seq<Mask>)
    requires Frame(sv) && Reached(sv, idx, checked, decided) && Shaped(t)
    ensures forall m :: m in Backtrack(sv, idx, checked, decided, t, limit, out)[|out|..] ==>
      IsSolution(sv.colors, m) && Agrees(sv, checked, decided, m)
    decreases |sv.decisionOrder| - idx, 1
  {
    var res := Backtrack(sv, idx, checked, decided, t, limit, out);
    if limit != 0 && |out| >= limit {
      assert res[|out|..] == [];
    } else if idx >= |sv.decisionOrder| {
      LeafAgrees(sv, checked, decided);
      assert res[|out|..] == [] || res[|out|..] == [checked];
    } else {
      var cell := sv.decisionOrder[idx];
      StepReached(sv, idx, checked, decided, cell);
      var out1 := Branch(sv, idx, checked, decided + {cell}, Skip(t, cell), limit, out);
      BranchSound(sv, idx, checked, decided + {cell}, Skip(t, cell), limit, out);
      BranchSound(sv, idx, checked + {cell}, decided + {cell}, Take(t, cell, sv.blueImpactedByCell[cell]), limit, out1);
      assert res == Branch(sv, idx, checked + {cell}, decided + {cell}, Take(t, cell, sv.blueImpactedByCell[cell]), limit, out1);
      forall m | m in res[|out|..] ensures IsSolution(sv.colors, m) && Agrees(sv, checked, decided, m) {
        PrefixSplit(out, out1, res, m);
        AgreesStep(sv, checked, decided, cell, m);
      }
    }
  }

  lemma {:induction false} BranchSound(sv: Solver, idx: nat, checked: Mask, decided: Mask, t: Counts, limit: nat, out: seq<Mask>)
    requires Frame(sv) && idx < |sv.decisionOrder| && Reached(sv, idx + 1, checked, decided) && Shaped(t)
    ensures forall m :: m in Branch(sv, idx, checked, decided, t, limit, out)[|out|..] ==>
      IsSolution(sv.colors, m) && Agrees(sv, checked, decided, m)
    decreases |sv.decisionOrder| - idx, 0
  {
    if PartialPrune(sv, checked, decided, decided - checked, t) {
      BacktrackSound(sv, idx + 1, checked, decided, t, limit, out);
    } else {
      assert Branch(sv, idx, checked, decided, t, limit, out)[|out|..] == [];
    }
  }

  /** A new element of zs is a new element of ys or one added after ys. */
  lemma PrefixSplit<T>(xs: seq<T>, ys: seq<T>, zs: seq<T>, m: T)
    requires xs <= ys <= zs
    requires m in zs[|xs|..]
    ensures m in ys[|xs|..] || m in zs[|ys|..]
  {
    var j :| 0 <= j < |zs| - |xs| && zs[|xs|..][j] == m;
    if |xs| + j < |ys| {
      assert ys[|xs|..][j] == m;
    } else {
      assert zs[|ys|..][|xs| + j - |ys|] == m;
    }
  }

  /**
   * The path m takes through backtrack's decision tree from this state:
   * every branch it follows passes partial_prune and its leaf passes the
   * final checks.
   */
  ghost predicate OnPath(sv: Solver, idx: nat, checked: Mask, decided: Mask, t: Counts, m: Mask)
    requires Frame(sv) && idx <= |sv.decisionOrder| && Shaped(t)
    decreases |sv.decisionOrder| - idx
  {
    if idx >= |sv.decisionOrder| then
      m == checked && HasFiveInARow(checked) && CheckAllRules(sv.colors, checked)
    else
      var cell := sv.decisionOrder[idx];
      OrderCell(sv, idx);
      if cell in m then
        var t2 := Take(t, cell, sv.blueImpactedByCell[cell]);
        PartialPrune(sv, checked + {cell}, decided + {cell}, (decided + {cell}) - (checked + {cell}), t2)
        && OnPath(sv, idx + 1, checked + {cell}, decided + {cell}, t2, m)
      else
        var t1 := Skip(t, cell);
        PartialPrune(sv, checked, decided + {cell}, (decided + {cell}) - checked, t1)
        && OnPath(sv, idx + 1, checked, decided + {cell}, t1, m)
  }

  /** backtrack reaches the end of m's path, unless it stops at limit first. */
  lemma {:induction false} BacktrackComplete(sv: Solver, idx: nat, checked: Mask, decided: Mask, t: Counts, limit: nat, out: seq<Mask>, m: Mask)
    requires Frame(sv) && idx <= |sv.decisionOrder| && Shaped(t)
    requires OnPath(sv, idx, checked, decided, t, m)
    ensures limit == 0 || |Backtrack(sv, idx, checked, decided, t, limit, out)| < limit ==>
      m in Backtrack(sv, idx, checked, decided, t, limit, out)[|out|..]
    decreases |sv.decisionOrder| - idx
  {
    var res := Backtrack(sv, idx, checked, decided, t, limit, out);
    if limit != 0 && |out| >= limit {
    } else if idx >= |sv.decisionOrder| {
      assert res == out + [checked];
      assert res[|out|..] == [checked];
    } else {
      var cell := sv.decisionOrder[idx];
      OrderCell(sv, idx);
      var t1, t2 := Skip(t, cell), Take(t, cell, sv.blueImpactedByCell[cell]);
      var out1 := Branch(sv, idx, checked, decided + {cell}, t1, limit, out);
      assert res == Branch(sv, idx, checked + {cell}, decided + {cell}, t2, limit, out1);
      if cell !in m {
        BranchPasses(sv, idx, checked, decided + {cell}, t1, limit, out);
        BacktrackComplete(sv, idx + 1, checked, decided + {cell}, t1, limit, out, m);
        Search.PrefixMember(out, out1, res, m);
      } else {
        BranchPasses(sv, idx, checked + {cell}, decided + {cell}, t2, limit, out1);
        BacktrackComplete(sv, idx + 1, checked + {cell}, decided + {cell}, t2, limit, out1, m);
        Search.PrefixTail(out, out1, res, m);
      }
    }
  }

  /** Every solution extending a reached state with exact counters lies on a path backtrack follows. */
  lemma {:induction false} SolutionOnPath(sv: Solver, idx: nat, checked: Mask, decided: Mask, t: Counts, m: Mask)
    requires Ok(sv) && Reached(sv, idx, checked, decided) && Shaped(t) && Exact(sv, checked, decided, t)
    requires IsSolution(sv.colors, m) && Agrees(sv, checked, decided, m)
    ensures OnPath(sv, idx, checked, decided, t, m)
    decreases |sv.decisionOrder| - idx
  {
    if idx >= |sv.decisionOrder| {
      LeafAgrees(sv, checked, decided);
    } else {
      var cell := sv.decisionOrder[idx];
      StepReached(sv, idx, checked, decided, cell);
      AgreesStep(sv, checked, decided, cell, m);
      if cell !in m {
        SkipExact(sv, checked, decided, t, cell);
        PruneSound(sv, checked, decided + {cell}, Skip(t, cell), m);
        SolutionOnPath(sv, idx + 1, checked, decided + {cell}, Skip(t, cell), m);
      } else {
        var t2 := Take(t, cell, sv.blueImpactedByCell[cell]);
        TakeExact(sv, checked, decided, t, cell);
        PruneSound(sv, checked + {cell}, decided + {cell}, t2, m);
        SolutionOnPath(sv, idx + 1, checked + {cell}, decided + {cell}, t2, m);
      }
    }
  }

  /** A branch that partial_prune lets through is the search one cell further on. */
  lemma BranchPasses(sv: Solver, idx: nat, checked: Mask, decided: Mask, t: Counts, limit: nat, out: seq<Mask>)
    requires Frame(sv) && idx < |sv.decisionOrder| && Shaped(t)
    requires PartialPrune(sv, checked, decided, decided - checked, t)
    ensures Branch(sv, idx, checked, decided, t, limit, out) == Backtrack(sv, idx + 1, checked, decided, t, limit, out)
  {
  }

  /** backtrack never appends the same mask twice. */
  lemma {:induction false} BacktrackDistinct(sv: Solver, idx: nat, checked: Mask, decided: Mask, t: Counts, limit: nat, out: seq<Mask>)
    requires Frame(sv) && Reached(sv, idx, checked, decided) && Shaped(t)
    ensures forall i, j :: |out| <= i < j < |Backtrack(sv, idx, checked, decided, t, limit, out)| ==>
      Backtrack(sv, idx, checked, decided, t, limit, out)[i] != Backtrack(sv, idx, checked, decided, t, limit, out)[j]
    decreases |sv.decisionOrder| - idx, 1
  {
    var res := Backtrack(sv, idx, checked, decided, t, limit, out);
    if limit != 0 && |out| >= limit {
    } else if idx >= |sv.decisionOrder| {
    } else {
      var cell := sv.decisionOrder[idx];
      StepReached(sv, idx, checked, decided, cell);
      var t1, t2 := Skip(t, cell), Take(t, cell, sv.blueImpactedByCell[cell]);
      var out1 := Branch(sv, idx, checked, decided + {cell}, t1, limit, out);
      BranchDistinct(sv, idx, checked, decided + {cell}, t1, limit, out);
      BranchDistinct(sv, idx, checked + {cell}, decided + {cell}, t2, limit, out1);
      BranchSound(sv, idx, checked, decided + {cell}, t1, limit, out);
      BranchSound(sv, idx, checked + {cell}, decided + {cell}, t2, limit, out1);
      forall i, j | |out| <= i < |out1| <= j < |res| ensures res[i] != res[j] {
        assert res[i] == out1[i] && out1[i] in out1[|out|..];
        assert res[j] in res[|out1|..];
        AgreesStep(sv, checked, decided, cell, res[i]);
        AgreesStep(sv, checked, decided, cell, res[j]);
      }
    }
  }

  lemma {:induction false} BranchDistinct(sv: Solver, idx: nat, checked: Mask, decided: Mask, t: Counts, limit: nat, out: seq<Mask>)
    requires Frame(sv) && idx < |sv.decisionOrder| && Reached(sv, idx + 1, checked, decided) && Shaped(t)
    ensures forall i, j :: |out| <= i < j < |Branch(sv, idx, checked, decided, t, limit, out)| ==>
      Branch(sv, idx, checked, decided, t, limit, out)[i] != Branch(sv, idx, checked, decided, t, limit, out)[j]
    decreases |sv.decisionOrder| - idx, 0
  {
    if PartialPrune(sv, checked, decided, decided - checked, t) {
      BacktrackDistinct(sv, idx + 1, checked, decided, t, limit, out);
    }
  }

  // ---------------------------------------------------------------------
  // solve_masks_limit

  /** Every solution checks the Black cells, so it extends the starting state. */
  lemma InitialAgrees(sv: Solver, m: Mask)
    requires Ok(sv) && IsSolution(sv.colors, m)
    ensures Agrees(sv, sv.blackMask, {}, m)
  {
    forall i | i in sv.blackMask ensures i in m {
      assert CellRule(sv.colors[i], m, i);
    }
    assert sv.blackMask + {} == sv.blackMask;
  }

  /** The early exit of solve_masks_limit fires only on boards without solutions. */
  lemma OverloadedUnsolvable(sv: Solver, m: Mask)
    requires Ok(sv) && IsSolution(sv.colors, m)
    ensures !BlueOverloaded(sv, InitialCounts(sv))
  {
    InitialReached(sv);
    InitialAgrees(sv, m);
    BluesSound(sv, sv.blackMask, {}, InitialCounts(sv), m);
  }

  /**
   * solve_masks_limit returns solutions only, never the same one twice, and
   * every solution unless it stopped at the limit.
   */
  lemma SolveMasksLimitCorrect(sv: Solver, limit: nat)
    requires Ok(sv)
    ensures forall m :: m in SolveMasksLimit(sv, limit) ==> IsSolution(sv.colors, m)
    ensures forall i, j :: 0 <= i < j < |SolveMasksLimit(sv, limit)| ==>
      SolveMasksLimit(sv, limit)[i] != SolveMasksLimit(sv, limit)[j]
    ensures limit == 0 || |SolveMasksLimit(sv, limit)| < limit ==>
      forall m :: IsSolution(sv.colors, m) ==> m in SolveMasksLimit(sv, limit)
  {
    var t := InitialCounts(sv);
    if BlueOverloaded(sv, t) {
      forall m | IsSolution(sv.colors, m) ensures false {
        OverloadedUnsolvable(sv, m);
      }
    } else {
      var none: seq<Mask> := [];
      var res := Backtrack(sv, 0, sv.blackMask, {}, t, limit, none);
      assert res[|none|..] == res;
      InitialReached(sv);
      BacktrackSound(sv, 0, sv.blackMask, {}, t, limit, []);
      BacktrackDistinct(sv, 0, sv.blackMask, {}, t, limit, []);
      forall m | IsSolution(sv.colors, m) && (limit == 0 || |res| < limit) ensures m in res {
        InitialAgrees(sv, m);
        SolutionOnPath(sv, 0, sv.blackMask, {}, t, m);
        BacktrackComplete(sv, 0, sv.blackMask, {}, t, limit, [], m);
      }
    }
  }

  /** Solver::new(colors).solve_masks_limit(0) lists exactly the solutions of the colour grid, each once. */
  lemma SolveAllExact(colors: seq<Color>, m: Mask)
    requires |colors| == CellCount
    ensures m in SolveMasksLimit(New(colors), 0) <==> IsSolution(colors, m)
    ensures forall i, j :: 0 <= i < j < |SolveMasksLimit(New(colors), 0)| ==>
      SolveMasksLimit(New(colors), 0)[i] != SolveMasksLimit(New(colors), 0)[j]
  {
    SolveMasksLimitCorrect(New(colors), 0);
  }
}
