// The puzzle's colour rules on a fully checked 5x5 board, and the bitmask
// solver's final acceptance test (check_all_rules and has_five_in_a_row in
// crates/engine/src/solver.rs).
module Rules {
  import opened Colors
  import opened Masks

  /** The constraint a cell of colour c at index i puts on the set m of checked cells. */
  predicate CellRule(c: Color, m: Mask, i: nat)
    requires i < CellCount
  {
    match c
    case Black => i in m
    case White => true
    case Red => |m * Neighbors8(i)| >= 1
    case Blue => |m * Neighbors8(i)| <= 2
    case Green => |m * RowMask(Row(i))| == |m * ColMask(Col(i))|
    case Yellow => |m * DiagDownMask(DownId(Row(i), Col(i)))| == |m * DiagUpMask(UpId(Row(i), Col(i)))|
    case Purple => |m * Neighbors8(i)| % 2 == 1
    case Orange => |m * Neighbors8(i)| % 2 == 0
    case Cyan => i in m ==> |m * Neighbors4(i)| >= 1
  }

  predicate AllRulesHold(colors: seq<Color>, m: Mask)
    requires |colors| == CellCount
  {
    forall i :: 0 <= i < CellCount ==> CellRule(colors[i], m, i)
  }

  /** Some row, column or either diagonal is fully checked. */
  predicate Bingo(m: Mask)
  {
    exists k :: 0 <= k < LineCount && LineMasks()[k] <= m
  }

  /** A solution: a set of board cells that keeps every rule and completes a line. */
  predicate IsSolution(colors: seq<Color>, m: Mask)
    requires |colors| == CellCount
  {
    m <= AllCells && AllRulesHold(colors, m) && Bingo(m)
  }

  /** The popcount tables check_all_rules builds before scanning the cells. */
  datatype LineCounts = LineCounts(rows: seq<nat>, cols: seq<nat>, downs: seq<nat>, ups: seq<nat>)

  function CountLines(m: Mask): (t: LineCounts)
    ensures |t.rows| == GridSize && |t.cols| == GridSize && |t.downs| == DiagCount && |t.ups| == DiagCount
  {
    LineCounts(
      seq(GridSize, r requires 0 <= r < GridSize => |m * RowMask(r)|),
      seq(GridSize, c requires 0 <= c < GridSize => |m * ColMask(c)|),
      seq(DiagCount, d requires 0 <= d < DiagCount => |m * DiagDownMask(d)|),
      seq(DiagCount, d requires 0 <= d < DiagCount => |m * DiagUpMask(d)|))
  }

  /** One arm of check_all_rules' match: does cell i pass, given the popcount tables? */
  predicate CellPasses(c: Color, m: Mask, t: LineCounts, i: nat)
    requires i < CellCount
    requires t == CountLines(m)
  {
    var x, y := Row(i), Col(i);
    match c
    case Black => i in m
    case Red => m * Neighbors8(i) != {}
    case Blue => !(|m * Neighbors8(i)| > 2)
    case Green => t.rows[x] == t.cols[y]
    case Yellow => t.downs[x + (GridSize - 1) - y] == t.ups[x + y]
    case Purple => |m * Neighbors8(i)| % 2 == 1
    case Orange => |m * Neighbors8(i)| % 2 == 0
    case Cyan => !(i in m && m * Neighbors4(i) == {})
    case White => true
  }

  lemma CellPassesIsRule(c: Color, m: Mask, i: nat)
    requires i < CellCount
    ensures CellPasses(c, m, CountLines(m), i) <==> CellRule(c, m, i)
  {
    CellIndexOf(i);
    PartitionsCoverBoard(i);
  }

  /** The cell scan of check_all_rules from cell i on, stopping at the first failure. */
  function ScanCells(colors: seq<Color>, m: Mask, t: LineCounts, i: nat): (ok: bool)
    requires |colors| == CellCount && i <= CellCount
    requires t == CountLines(m)
    ensures ok <==> forall j :: i <= j < CellCount ==> CellRule(colors[j], m, j)
    decreases CellCount - i
  {
    if i == CellCount then true
    else
      CellPassesIsRule(colors[i], m, i);
      var rest := ScanCells(colors, m, t, i + 1);
      ScanStep(colors, m, i, rest);
      CellPasses(colors[i], m, t, i) && rest
  }

  /** The rules hold from cell i on exactly when cell i's does and they hold from i + 1 on. */
  lemma ScanStep(colors: seq<Color>, m: Mask, i: nat, rest: bool)
    requires |colors| == CellCount && i < CellCount
    requires rest <==> forall j :: i + 1 <= j < CellCount ==> CellRule(colors[j], m, j)
    ensures (CellRule(colors[i], m, i) && rest) <==> forall j :: i <= j < CellCount ==> CellRule(colors[j], m, j)
  {
  }

  /** check_all_rules: every colour rule holds for the checked mask. */
  function CheckAllRules(colors: seq<Color>, m: Mask): (ok: bool)
    requires |colors| == CellCount
    ensures ok <==> AllRulesHold(colors, m)
  {
    ScanCells(colors, m, CountLines(m), 0)
  }

  function AnyLineFull(m: Mask, k: nat): (found: bool)
    requires k <= LineCount
    ensures found <==> exists j :: k <= j < LineCount && LineMasks()[j] <= m
    decreases LineCount - k
  {
    if k == LineCount then false
    else if m * LineMasks()[k] == LineMasks()[k] then true
    else AnyLineFull(m, k + 1)
  }

  /** has_five_in_a_row: some winning line is a subset of the checked mask. */
  function HasFiveInARow(m: Mask): (found: bool)
    ensures found <==> Bingo(m)
  {
    AnyLineFull(m, 0)
  }
}
