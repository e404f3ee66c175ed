// Per-cell verdicts for a checked mask (crates/engine/src/validate.rs).
module Validate {
  import opened Results
  import opened Colors
  import opened Masks
  import opened Rules

  datatype ValidateError = BadGridLength(len: nat) | BadColor(index: nat, value: nat)

  /** Why a cell fails, with the numbers the source puts in its message. */
  datatype Violation =
    | BlackUnchecked
    | TooFewNeighbors(count: nat)
    | TooManyNeighbors(count: nat)
    | RowColMismatch(row: nat, col: nat)
    | DiagonalMismatch(down: nat, up: nat)
    | NotOdd(count: nat)
    | NotEven(count: nat)
    | LonelyCyan(count: nat)

  datatype ValidateResult = ValidateResult(
    isBingo: bool,
    isValid: bool,
    cellOk: seq<bool>,
    cellMessages: seq<Option<Violation>>)

  /** The verdict of one cell: ok, or the violation to report. */
  function CellVerdict(c: Color, m: Mask, t: LineCounts, i: nat): (msg: Option<Violation>)
    requires i < CellCount
    requires t == CountLines(m)
  {
    var x, y := Row(i), Col(i);
    match c
    case Black => if i in m then None else Some(BlackUnchecked)
    case White => None
    case Red =>
      var count := |m * Neighbors8(i)|;
      if count >= 1 then None else Some(TooFewNeighbors(count))
    case Blue =>
      var count := |m * Neighbors8(i)|;
      if count <= 2 then None else Some(TooManyNeighbors(count))
    case Green =>
      if t.rows[x] == t.cols[y] then None else Some(RowColMismatch(t.rows[x], t.cols[y]))
    case Yellow =>
      var d, u := t.downs[x + (GridSize - 1) - y], t.ups[x + y];
      if d == u then None else Some(DiagonalMismatch(d, u))
    case Purple =>
      var count := |m * Neighbors8(i)|;
      if count % 2 == 1 then None else Some(NotOdd(count))
    case Orange =>
      var count := |m * Neighbors8(i)|;
      if count % 2 == 0 then None else Some(NotEven(count))
    case Cyan =>
      if i !in m then None
      else
        var count := |m * Neighbors4(i)|;
        if count >= 1 then None else Some(LonelyCyan(count))
  }

  lemma CellVerdictIsRule(c: Color, m: Mask, i: nat)
    requires i < CellCount
    ensures CellVerdict(c, m, CountLines(m), i).None? <==> CellRule(c, m, i)
  {
    CellIndexOf(i);
    PartitionsCoverBoard(i);
  }

  /** validate_state: length and colour checks, then a verdict for every cell. */
  function ValidateState(m: Mask, grid: seq<nat>): (r: Result<ValidateResult, ValidateError>)
    requires forall i :: 0 <= i < |grid| ==> grid[i] < 256
    ensures |grid| != CellCount <==> r == Err(BadGridLength(|grid|))
    ensures r.Err? && r.error.BadColor? ==>
      |grid| == CellCount && r.error.index < CellCount && r.error.value == grid[r.error.index] &&
      r.error.value >= ColorCount &&
      forall j :: 0 <= j < r.error.index ==> grid[j] < ColorCount
    ensures r.Ok? <==> |grid| == CellCount && forall j :: 0 <= j < |grid| ==> grid[j] < ColorCount
    ensures r.Ok? ==>
      var colors := DecodeGrid(grid).value;
      |r.value.cellOk| == CellCount && |r.value.cellMessages| == CellCount &&
      (forall i :: 0 <= i < CellCount ==>
        (r.value.cellOk[i] <==> CellRule(colors[i], m, i)) &&
        (r.value.cellMessages[i].None? <==> r.value.cellOk[i])) &&
      (r.value.isValid <==> AllRulesHold(colors, m)) &&
      (r.value.isBingo <==> Bingo(m))
  {
    if |grid| != CellCount then Err(BadGridLength(|grid|))
    else match DecodeGrid(grid)
      case Err(k) => Err(BadColor(k, grid[k]))
      case Ok(colors) =>
        var t := CountLines(m);
        var messages := seq(CellCount, i requires 0 <= i < CellCount => CellVerdict(colors[i], m, t, i));
        var ok := seq(CellCount, i requires 0 <= i < CellCount => messages[i].None?);
        assert forall i :: 0 <= i < CellCount ==> (ok[i] <==> CellRule(colors[i], m, i)) by {
          forall i | 0 <= i < CellCount ensures ok[i] <==> CellRule(colors[i], m, i) {
            CellVerdictIsRule(colors[i], m, i);
          }
        }
        Ok(ValidateResult(HasFiveInARow(m), AllTrue(ok), ok, messages))
  }

  /** `cell_ok.iter().all(|&x| x)`. */
  function AllTrue(bs: seq<bool>): (all: bool)
    ensures all <==> forall i :: 0 <= i < |bs| ==> bs[i]
  {
    if |bs| == 0 then true else bs[0] && AllTrue(bs[1..])
  }

  /** validate_state's is_valid and the bitmask solver's final test agree on every mask. */
  lemma IsValidAgreesWithCheckAllRules(m: Mask, grid: seq<nat>)
    requires |grid| == CellCount && forall i :: 0 <= i < |grid| ==> grid[i] < ColorCount
    ensures ValidateState(m, grid).Ok?
    ensures ValidateState(m, grid).value.isValid == CheckAllRules(DecodeGrid(grid).value, m)
    ensures ValidateState(m, grid).value.isBingo == HasFiveInARow(m)
  {
  }
}
