// The integer parts of the difficulty report (crates/engine/src/difficulty.rs):
// rule weights, the logic-chain entry average over first-trigger counts, the
// input checks and the NoSolution path of difficulty_report, and the early
// return and final clamp of difficulty_score_human.
module Difficulty {
  import opened Results
  import Colors
  import Masks
  import RuleIndex
  import Puzzle
  import Search
  import Analysis
  import Board
  import Neighbors

  /** The rule a propagation step came from. */
  datatype RuleType = Green | Yellow | Red | Blue | Purple | Orange | Cyan | FiveInRow

  const U32Max: nat := 0xffff_ffff
  const U64Max: nat := 0xffff_ffff_ffff_ffff

  /** Local rules (Red, Blue, Cyan) weigh least, counting rules (Green, Yellow) more,
      and parity rules (Purple, Orange) most. */
  function HumanRuleWeight(rule: RuleType): (w: nat)
    ensures 2 <= w <= 7
  {
    match rule
    case Red => 2
    case Blue => 3
    case Cyan => 4
    case Green => 5
    case Yellow => 6
    case Purple => 7
    case Orange => 7
    case FiveInRow => 5
  }

  predicate IsLocal(rule: RuleType) { rule == Red || rule == Blue || rule == Cyan }
  predicate IsCounting(rule: RuleType) { rule == Green || rule == Yellow }
  predicate IsParity(rule: RuleType) { rule == Purple || rule == Orange }

  /** Every local rule is lighter than every counting rule, which is lighter than every parity rule. */
  lemma WeightTiers(a: RuleType, b: RuleType)
    ensures IsLocal(a) && IsCounting(b) ==> HumanRuleWeight(a) < HumanRuleWeight(b)
    ensures IsCounting(a) && IsParity(b) ==> HumanRuleWeight(a) < HumanRuleWeight(b)
    ensures IsParity(a) && IsParity(b) ==> HumanRuleWeight(a) == HumanRuleWeight(b)
  {
  }

  function Min(a: nat, b: nat): nat { if a <= b then a else b }

  /** u64::saturating_add on values already in range. */
  function SatAdd(a: nat, b: nat): (r: nat)
    ensures r <= U64Max
    ensures a + b <= U64Max ==> r == a + b
  {
    Min(a + b, U64Max)
  }

  /** u64::saturating_mul. */
  function SatMul(a: nat, b: nat): (r: nat)
    ensures r <= U64Max
    ensures a * b <= U64Max ==> r == a * b
  {
    Min(a * b, U64Max)
  }

  /** One entry of the first-trigger map: how often a rule was the first to fire. */
  datatype TriggerCount = TriggerCount(rule: RuleType, count: nat)

  predicate CountsInRange(es: seq<TriggerCount>) {
    forall k :: 0 <= k < |es| ==> es[k].count <= U64Max
  }

  /** The exact total count. */
  function CountSum(es: seq<TriggerCount>): nat {
    if |es| == 0 then 0 else CountSum(es[..|es| - 1]) + es[|es| - 1].count
  }

  /** The exact count-weighted sum of rule weights. */
  function WeightedSum(es: seq<TriggerCount>): nat {
    if |es| == 0 then 0
    else WeightedSum(es[..|es| - 1]) + es[|es| - 1].count * HumanRuleWeight(es[|es| - 1].rule)
  }

  /** The loop of calculate_logic_chain_start_difficulty: saturating totals of the
      counts and of the weighted counts, in map iteration order. */
  function Tally(es: seq<TriggerCount>): (t: (nat, nat))
    requires CountsInRange(es)
    ensures t.0 == Min(CountSum(es), U64Max)
    ensures t.1 <= U64Max && t.1 <= WeightedSum(es)
    ensures WeightedSum(es) <= U64Max ==> t.1 == WeightedSum(es)
  {
    if |es| == 0 then (0, 0)
    else
      var e := es[|es| - 1];
      var prev := Tally(es[..|es| - 1]);
      (SatAdd(prev.0, e.count), SatAdd(prev.1, SatMul(e.count, HumanRuleWeight(e.rule))))
  }

  /** calculate_logic_chain_start_difficulty. */
  function LogicChainStart(es: seq<TriggerCount>): (r: nat)
    requires CountsInRange(es)
    ensures CountSum(es) == 0 ==> r == 0
    ensures r <= U32Max
  {
    var t := Tally(es);
    if t.0 == 0 then 0 else Min(Quotient(t.1, t.0), U32Max)
  }

  /** Integer division of unsigned values, rounding down. */
  function Quotient(a: nat, b: nat): nat
    requires b > 0
  {
    a / b
  }

  /** Weights of the rules that fired lie in [lo, hi]. */
  predicate WeightsWithin(es: seq<TriggerCount>, lo: nat, hi: nat) {
    forall k :: 0 <= k < |es| && es[k].count > 0 ==> lo <= HumanRuleWeight(es[k].rule) <= hi
  }

  lemma {:induction false} WeightedSumBounds(es: seq<TriggerCount>, lo: nat, hi: nat)
    requires WeightsWithin(es, lo, hi)
    ensures lo * CountSum(es) <= WeightedSum(es) <= hi * CountSum(es)
  {
    if |es| > 0 {
      var p, e := es[..|es| - 1], es[|es| - 1];
      assert WeightsWithin(p, lo, hi) by {
        forall k | 0 <= k < |p| && p[k].count > 0 ensures lo <= HumanRuleWeight(p[k].rule) <= hi {
          assert p[k] == es[k];
        }
      }
      WeightedSumBounds(p, lo, hi);
      StepBounds(lo, hi, CountSum(p), WeightedSum(p), e.count, HumanRuleWeight(e.rule));
    }
  }

  /** Adding c entries of a weight within [lo, hi] keeps a weighted sum within the bounds. */
  lemma StepBounds(lo: nat, hi: nat, n: nat, sum: nat, c: nat, w: nat)
    requires lo * n <= sum <= hi * n
    requires c > 0 ==> lo <= w <= hi
    ensures lo * (n + c) <= sum + c * w <= hi * (n + c)
  {
    assert lo * (n + c) == lo * n + lo * c;
    assert hi * (n + c) == hi * n + hi * c;
    if c > 0 {
      MulMonotone(c, lo, w);
      MulMonotone(c, w, hi);
    }
  }

  lemma MulMonotone(c: nat, a: nat, b: nat)
    requires a <= b
    ensures c * a <= c * b
  {
  }

  /** a <= hi * b bounds the floor quotient by hi. */
  lemma QuotientAtMost(a: nat, b: nat, hi: nat)
    requires b > 0 && a <= hi * b
    ensures a / b <= hi
  {
    var q := a / b;
    assert a == b * q + a % b;
    if q > hi {
      MulMonotone(b, hi + 1, q);
    }
  }

  /** lo * b <= a bounds the floor quotient from below by lo. */
  lemma QuotientAtLeast(a: nat, b: nat, lo: nat)
    requires b > 0 && lo * b <= a
    ensures lo <= a / b
  {
    var q := a / b;
    assert a == b * q + a % b;
    if q < lo {
      MulMonotone(b, q + 1, lo);
    }
  }

  /** Even when the totals saturate, the result is at most the greatest weight of a rule that fired. */
  lemma LogicChainStartAtMost(es: seq<TriggerCount>, hi: nat)
    requires CountsInRange(es)
    requires hi >= 1 && WeightsWithin(es, 0, hi)
    ensures LogicChainStart(es) <= hi
  {
    var t := Tally(es);
    if t.0 > 0 {
      WeightedSumBounds(es, 0, hi);
      if CountSum(es) <= U64Max {
        QuotientAtMost(t.1, t.0, hi);
      } else {
        QuotientAtMost(t.1, t.0, 1);
      }
    }
  }

  /** Without saturation the result is the floor of the count-weighted mean weight,
      so it is at least the least weight of a rule that fired. */
  lemma LogicChainStartMean(es: seq<TriggerCount>, lo: nat)
    requires CountsInRange(es)
    requires CountSum(es) > 0 && WeightedSum(es) <= U64Max
    requires WeightsWithin(es, lo, 7)
    ensures LogicChainStart(es) == WeightedSum(es) / CountSum(es)
    ensures lo <= LogicChainStart(es)
  {
    WeightedSumBounds(es, 2, 7) by { WeightsAlwaysWithin(es); }
    WeightedSumBounds(es, lo, 7);
    var t := Tally(es);
    MeanOfTotals(t.0, t.1, CountSum(es), WeightedSum(es), lo);
  }

  /** Totals that did not saturate give the mean itself, below 7 and at least lo. */
  lemma MeanOfTotals(c: nat, w: nat, count: nat, weighted: nat, lo: nat)
    requires count > 0 && weighted <= U64Max && 2 * count <= weighted <= 7 * count
    requires lo * count <= weighted
    requires c == Min(count, U64Max) && w == weighted
    ensures c > 0 && Min(Quotient(w, c), U32Max) == weighted / count
    ensures lo <= weighted / count
  {
    QuotientAtMost(weighted, count, 7);
    QuotientAtLeast(weighted, count, lo);
  }

  lemma WeightsAlwaysWithin(es: seq<TriggerCount>)
    ensures WeightsWithin(es, 2, 7)
  {
  }

  /** difficulty_score_human around its floating-point core: an exhausted budget
      scores 100; otherwise the rounded total is clamped into 1..=100. */
  function Score(exhausted: bool, roundedTotal: int): (s: nat)
    ensures 1 <= s <= 100
    ensures exhausted ==> s == 100
    ensures !exhausted && 1 <= roundedTotal <= 100 ==> s == roundedTotal
  {
    if exhausted then 100
    else if roundedTotal < 1 then 1
    else if roundedTotal > 100 then 100
    else roundedTotal
  }

  /** The clamp picks the point of 1..=100 nearest to the rounded total. */
  lemma ScoreNearest(roundedTotal: int, v: int)
    requires 1 <= v <= 100
    ensures var s := Score(false, roundedTotal);
      (if s >= roundedTotal then s - roundedTotal else roundedTotal - s)
      <= (if v >= roundedTotal then v - roundedTotal else roundedTotal - v)
  {
  }

  datatype DifficultyError =
    | BadGridLength(expected: nat, actual: nat)
    | BadColor(index: nat, value: nat)
    | NoSolution

  /** The integer fields of a successful report. */
  datatype DifficultyReport = DifficultyReport(score: nat, logicChainStart: nat, exhaustedBudget: bool)

  /** difficulty_report. The floating-point total of difficulty_score_human
      (roundedTotal) and the first-trigger counts of the human-logic analysis
      (firstTriggers) come from parts this model leaves out and are parameters. */
  function Report(grid: seq<nat>, roundedTotal: int, firstTriggers: seq<TriggerCount>)
    : (r: Result<DifficultyReport, DifficultyError>)
    requires forall i :: 0 <= i < |grid| ==> grid[i] < 256
    requires CountsInRange(firstTriggers)
    ensures |grid| != Masks.CellCount ==> r == Err(BadGridLength(Masks.CellCount, |grid|))
    ensures |grid| == Masks.CellCount && Colors.DecodeGrid(grid).Err? ==>
      r == Err(BadColor(Colors.DecodeGrid(grid).error, grid[Colors.DecodeGrid(grid).error]))
    ensures |grid| == Masks.CellCount && Colors.DecodeGrid(grid).Ok? ==>
      (r == Err(NoSolution) <==> Search.SolveMasks(Colors.DecodeGrid(grid).value, 1) == [])
    ensures r.Ok? ==> 1 <= r.value.score <= 100 && (r.value.exhaustedBudget ==> r.value.score == 100)
  {
    if |grid| != Masks.CellCount then Err(BadGridLength(Masks.CellCount, |grid|))
    else match Colors.DecodeGrid(grid)
      case Err(i) => Err(BadColor(i, grid[i]))
      case Ok(colors) =>
        var human := Analysis.Analyze(RuleIndex.New(Masks.GridSize, colors));
        if Search.SolveMasks(colors, 1) == [] then Err(NoSolution)
        else Ok(DifficultyReport(Score(human.exhaustedBudget, roundedTotal),
          LogicChainStart(firstTriggers), human.exhaustedBudget))
  }

  /** NoSolution is reported exactly when the board has no solution at all. */
  lemma NoSolutionExact(grid: seq<nat>, roundedTotal: int, firstTriggers: seq<TriggerCount>)
    requires |grid| == Masks.CellCount && forall i :: 0 <= i < |grid| ==> grid[i] < Colors.ColorCount
    requires CountsInRange(firstTriggers)
    ensures Colors.DecodeGrid(grid).Ok?
    ensures Report(grid, roundedTotal, firstTriggers) == Err(NoSolution) <==>
      !exists m :: Puzzle.Solution(RuleIndex.New(Masks.GridSize, Colors.DecodeGrid(grid).value), m)
  {
    FirstSolution(Colors.DecodeGrid(grid).value);
  }

  /** A search for one solution comes back empty exactly when there is none. */
  lemma FirstSolution(colors: seq<Colors.Color>)
    requires |colors| == Masks.CellCount
    ensures Search.SolveMasks(colors, 1) == [] <==>
      !exists m :: Puzzle.Solution(RuleIndex.New(Masks.GridSize, colors), m)
  {
    var rs := RuleIndex.New(Masks.GridSize, colors);
    var res := Search.Solve(rs, 1);
    assert Search.SolveMasks(colors, 1) == res;
    Search.SolveCorrect(rs, 1);
    if res != [] {
      assert Puzzle.Solution(rs, res[0]);
    }
  }

  /** The grid of the source's unsat test: a Blue centre whose eight neighbours
      are all Black, on a White ground (codes: Blue 1, Black 2, White 6). */
  function BlueCentreGrid(): (g: seq<nat>)
    ensures |g| == Masks.CellCount
    ensures forall i :: 0 <= i < |g| ==> g[i] < Colors.ColorCount
  {
    [6, 6, 6, 6, 6,
     6, 2, 2, 2, 6,
     6, 2, 1, 2, 6,
     6, 2, 2, 2, 6,
     6, 6, 6, 6, 6]
  }

  /** The cells of the Black ring around the centre. */
  const Ring: seq<nat> := [6, 7, 8, 11, 13, 16, 17, 18]

  lemma CentreNeighbours()
    ensures Neighbors.Nbr8At(Masks.GridSize, 12) == Ring
  {
    assert 12 / 5 == 2 && 12 % 5 == 2;
    CentreScan(5, 2);
    assert Neighbors.Nbr8(5, 2, 2) == Neighbors.Nbr8From(5, 2, 2, 0);
  }

  /**
   * The scan around (2, 2) on the 5 x 5 board, offset by offset. The board
   * size and the centre are parameters pinned by the precondition rather
   * than literals, so that each step unfolds the scan once instead of the
   * solver evaluating the whole scan on constants at every assertion.
   */
  lemma CentreScan(n: nat, m: nat)
    requires n == 5 && m == 2
    ensures Neighbors.Nbr8From(n, m, m, 0) == Ring
  {
    CentreScanBelow(n, m);
    assert Neighbors.Nbr8From(n, m, m, 3) == [11, 13, 16, 17, 18];
    assert Neighbors.Nbr8From(n, m, m, 2) == [8, 11, 13, 16, 17, 18];
    assert Neighbors.Nbr8From(n, m, m, 1) == [7, 8, 11, 13, 16, 17, 18];
  }

  /** The second half of the scan: the cell itself and the row below. */
  lemma CentreScanBelow(n: nat, m: nat)
    requires n == 5 && m == 2
    ensures Neighbors.Nbr8From(n, m, m, 4) == [13, 16, 17, 18]
  {
    assert Neighbors.Nbr8From(n, m, m, 9) == [];
    assert Neighbors.Nbr8From(n, m, m, 8) == [18];
    assert Neighbors.Nbr8From(n, m, m, 7) == [17, 18];
    assert Neighbors.Nbr8From(n, m, m, 6) == [16, 17, 18];
    assert Neighbors.Nbr8From(n, m, m, 5) == [13, 16, 17, 18];
  }

  /** Every listed cell is in m: the count is the list's length. */
  lemma {:induction false} CountAllIn(m: set<nat>, ids: seq<nat>)
    requires forall j :: 0 <= j < |ids| ==> ids[j] in m
    ensures Board.CountIn(m, ids) == |ids|
  {
    if |ids| > 0 {
      CountAllIn(m, ids[1..]);
    }
  }

  /** No checked set keeps the Blue centre's rule once the Black ring is checked. */
  lemma RingDefeatsBlue(rs: RuleIndex.RuleSet, m: set<nat>)
    requires RuleIndex.WellFormed(rs) && rs.size == Masks.GridSize
    requires rs.neighbors8[12] == Ring && rs.colors[12] == Colors.Blue
    requires forall j :: 0 <= j < |Ring| ==> rs.colors[Ring[j]] == Colors.Black
    ensures !Puzzle.Solution(rs, m)
  {
    if Puzzle.Solution(rs, m) {
      assert Puzzle.CellHolds(rs, m, 12);
      forall j | 0 <= j < |Ring| ensures Ring[j] in m {
        assert Puzzle.CellHolds(rs, m, Ring[j]);
      }
      CountAllIn(m, Ring);
      assert false;
    }
  }

  /** Decoding a grid with code 1 at the centre and code 2 on the ring. */
  lemma RingedColors(grid: seq<nat>)
    requires |grid| == Masks.CellCount
    requires forall i :: 0 <= i < |grid| ==> grid[i] < Colors.ColorCount
    requires grid[12] == 1 && forall j :: 0 <= j < |Ring| ==> grid[Ring[j]] == 2
    ensures Colors.DecodeGrid(grid).Ok?
    ensures Colors.DecodeGrid(grid).value[12] == Colors.Blue
    ensures forall j :: 0 <= j < |Ring| ==> Colors.DecodeGrid(grid).value[Ring[j]] == Colors.Black
  {
    var cs := Colors.DecodeGrid(grid).value;
    CodeNames(cs[12]);
    RingNamed(cs, grid);
  }

  /** Colours whose codes are the grid's: the ring coded 2 is Black. */
  lemma RingNamed(cs: seq<Colors.Color>, grid: seq<nat>)
    requires |cs| == |grid| == Masks.CellCount
    requires forall i :: 0 <= i < |grid| ==> Colors.ToU8(cs[i]) == grid[i]
    requires forall j :: 0 <= j < |Ring| ==> grid[Ring[j]] == 2
    ensures forall j :: 0 <= j < |Ring| ==> cs[Ring[j]] == Colors.Black
  {
    forall j | 0 <= j < |Ring| ensures cs[Ring[j]] == Colors.Black {
      CodeNames(cs[Ring[j]]);
    }
  }

  /** Codes 1 and 2 name Blue and Black. */
  lemma CodeNames(c: Colors.Color)
    ensures Colors.ToU8(c) == 1 ==> c == Colors.Blue
    ensures Colors.ToU8(c) == 2 ==> c == Colors.Black
  {
  }

  /** A Blue centre ringed by Black leaves the board without a solution. */
  lemma RingedUnsolvable(colors: seq<Colors.Color>)
    requires |colors| == Masks.CellCount
    requires colors[12] == Colors.Blue && forall j :: 0 <= j < |Ring| ==> colors[Ring[j]] == Colors.Black
    ensures forall m :: !Puzzle.Solution(RuleIndex.New(Masks.GridSize, colors), m)
  {
    var rs := RuleIndex.New(Masks.GridSize, colors);
    RuleIndex.NeighborsAt(rs, 12);
    CentreNeighbours();
    forall m ensures !Puzzle.Solution(rs, m) {
      RingDefeatsBlue(rs, m);
    }
  }

  /** Any grid with a Blue (code 1) centre ringed by Black (code 2) is unsolvable,
      and the report says so. */
  lemma RingedBlueNoSolution(grid: seq<nat>, roundedTotal: int, firstTriggers: seq<TriggerCount>)
    requires |grid| == Masks.CellCount
    requires forall i :: 0 <= i < |grid| ==> grid[i] < Colors.ColorCount
    requires grid[12] == 1 && forall j :: 0 <= j < |Ring| ==> grid[Ring[j]] == 2
    requires CountsInRange(firstTriggers)
    ensures Report(grid, roundedTotal, firstTriggers) == Err(NoSolution)
  {
    NoSolutionExact(grid, roundedTotal, firstTriggers);
    RingedColors(grid);
    RingedUnsolvable(Colors.DecodeGrid(grid).value);
  }

  /** The source's unsat test: difficulty_report says NoSolution. */
  lemma BlueCentreNoSolution(roundedTotal: int, firstTriggers: seq<TriggerCount>)
    requires CountsInRange(firstTriggers)
    ensures Report(BlueCentreGrid(), roundedTotal, firstTriggers) == Err(NoSolution)
  {
    var grid := BlueCentreGrid();
    assert grid[12] == 1 && forall j :: 0 <= j < |Ring| ==> grid[Ring[j]] == 2;
    RingedBlueNoSolution(grid, roundedTotal, firstTriggers);
  }
}
