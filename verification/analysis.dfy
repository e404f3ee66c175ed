// The "human logic" analysis of the propagation engine
// (crates/engine/src/solver/mod.rs, analyze_human_difficulty and its
// helpers): propagation and single-step proofs by contradiction under a
// shared budget of propagation runs, with no guessing. The observers'
// statistics and the floating-point scarcity measure are not modelled;
// the integer counters that do not come from observers are.
module Analysis {
  import Results
  import opened Colors
  import opened Lines
  import opened RuleIndex
  import opened Board
  import opened Fill
  import opened Puzzle
  import opened Steps
  import opened Propagate
  import opened Search

  /** The number of propagation runs one analysis may spend. */
  const Budget: nat := 50_000

  const U32Max: nat := 0xFFFF_FFFF

  /** u32::saturating_add. */
  function SatAdd(a: nat, b: nat): nat
  {
    if a + b <= U32Max then a + b else U32Max
  }

  // ---------------------------------------------------------------------
  // count_unknown_decision_cells

  /** The cells of order still unknown. */
  function CountUnknown(s: State, order: seq<nat>): (k: nat)
    ensures k <= |order|
    ensures k == 0 <==> NextUnknown(s, order).None?
  {
    if |order| == 0 then 0
    else
      assert forall id :: id in order ==> id == order[0] || id in order[1..];
      (if GetId(s, order[0]) == Unknown then 1 else 0) + CountUnknown(s, order[1..])
  }

  // ---------------------------------------------------------------------
  // contradiction_proof

  /**
   * Assume the cell takes `assumeChecked` on a copy of the board. An
   * immediate conflict refutes the assumption for free; otherwise one unit
   * of budget buys a propagation run, and a contradiction refutes it. An
   * empty budget leaves the assumption unrefuted.
   */
  function Refute(rs: RuleSet, s: State, cell: nat, assumeChecked: bool, budget: nat): (r: (bool, nat))
    requires WellFormed(rs) && Valid(s) && s.size == rs.size && cell < s.size * s.size
    ensures r.1 <= budget <= r.1 + 1
    ensures GetId(s, cell) == TriOf(!assumeChecked) ==> r == (true, budget)
    ensures budget == 0 ==> r.1 == 0 && (r.0 <==> GetId(s, cell) == TriOf(!assumeChecked))
  {
    match SetOrFail(s, cell, assumeChecked)
    case Fail => (true, budget)
    case Ok(fork) =>
      if budget == 0 then (false, budget)
      else (Fixpoint(rs, fork).Fail?, budget - 1)
  }

  /** A refuted assumption is false in every admissible completion of the board. */
  lemma RefuteSound(rs: RuleSet, s: State, cell: nat, assumeChecked: bool, budget: nat, m: set<nat>)
    requires WellFormed(rs) && Valid(s) && s.size == rs.size && cell < s.size * s.size
    requires Sound(rs, s, m)
    ensures Refute(rs, s, cell, assumeChecked, budget).0 ==> (cell in m <==> !assumeChecked)
  {
    if cell in m <==> assumeChecked {
      SetKeeps(s, cell, assumeChecked, m);
      FixpointKeeps(rs, SetOrFail(s, cell, assumeChecked).state, m);
    }
  }

  // ---------------------------------------------------------------------
  // find_forced_by_contradiction

  /** A forced value: the cell and the value it must take. */
  datatype Forced = Forced(cell: nat, checked: bool)

  /**
   * The scan's running totals: unknown cells met, refuted assumptions, the
   * first forced value found, and the budget left.
   */
  datatype Tally = Tally(unknownCells: nat, candidates: nat, first: Results.Option<Forced>, budget: nat)

  /** The decision order lists cells of the board. */
  lemma OrderOnBoard(rs: RuleSet, i: nat)
    requires WellFormed(rs) && i < |rs.decisionOrder|
    ensures rs.decisionOrder[i] < rs.size * rs.size
  {
    assert rs.decisionOrder[i] in rs.decisionOrder;
  }

  /**
   * One unknown cell: it is tried unchecked and then checked, whatever was
   * found before; the first refutation met decides the forced value.
   */
  function Visit(rs: RuleSet, s: State, cell: nat, acc: Tally): (r: Tally)
    requires WellFormed(rs) && Valid(s) && s.size == rs.size && cell < s.size * s.size
    ensures r.budget <= acc.budget
    ensures r.unknownCells == SatAdd(acc.unknownCells, 1)
    ensures acc.first.Some? ==> r.first == acc.first
    ensures r.first.Some? && acc.first.None? ==> r.first.value.cell == cell
  {
    var (up, b1) := Refute(rs, s, cell, false, acc.budget);
    var (down, b2) := Refute(rs, s, cell, true, b1);
    var first :=
      if acc.first.Some? then acc.first
      else if up then Results.Some(Forced(cell, true))
      else if down then Results.Some(Forced(cell, false))
      else Results.None;
    var candidates := SatAdd(SatAdd(acc.candidates, if up then 1 else 0), if down then 1 else 0);
    Tally(SatAdd(acc.unknownCells, 1), candidates, first, b2)
  }

  /** The scan from position i of the decision order on. */
  function ScanFrom(rs: RuleSet, s: State, i: nat, acc: Tally): (r: Tally)
    requires WellFormed(rs) && Valid(s) && s.size == rs.size && i <= |rs.decisionOrder|
    ensures r.budget <= acc.budget
    ensures acc.first.Some? ==> r.first == acc.first
    ensures r.first.Some? && acc.first.None? ==> r.first.value.cell in rs.decisionOrder && GetId(s, r.first.value.cell) == Unknown
    ensures acc.unknownCells + (|rs.decisionOrder| - i) <= U32Max ==>
      r.unknownCells == acc.unknownCells + CountUnknown(s, rs.decisionOrder[i..])
    decreases |rs.decisionOrder| - i
  {
    if i == |rs.decisionOrder| then acc
    else
      var cell := rs.decisionOrder[i];
      assert rs.decisionOrder[i..][1..] == rs.decisionOrder[i + 1..];
      if GetId(s, cell) != Unknown then ScanFrom(rs, s, i + 1, acc)
      else
        OrderOnBoard(rs, i);
        ScanFrom(rs, s, i + 1, Visit(rs, s, cell, acc))
  }

  /** The scan's outcome: the forced value with the two counts, and the budget left. */
  datatype Found = Found(forced: Forced, unknownCells: nat, candidates: nat)

  function FindForced(rs: RuleSet, s: State, budget: nat): (r: (Results.Option<Found>, nat))
    requires WellFormed(rs) && Valid(s) && s.size == rs.size
    ensures r.1 <= budget
    ensures r.0.Some? ==> r.0.value.forced.cell in rs.decisionOrder && GetId(s, r.0.value.forced.cell) == Unknown
    ensures r.0.Some? ==> r.0.value.unknownCells == CountUnknown(s, rs.decisionOrder)
  {
    var t := ScanFrom(rs, s, 0, Tally(0, 0, Results.None, budget));
    assert rs.decisionOrder[0..] == rs.decisionOrder;
    MulMono(rs.size, 32, rs.size);
    MulMono(rs.size, 32, 32);
    match t.first
    case None => (Results.None, t.budget)
    case Some(f) => (Results.Some(Found(f, t.unknownCells, t.candidates)), t.budget)
  }

  /** A forced value is the value of its cell in every admissible completion. */
  ghost predicate Agrees(m: set<nat>, first: Results.Option<Forced>)
  {
    first.Some? ==> (first.value.cell in m <==> first.value.checked)
  }

  /**
   * Visiting a cell keeps the forced value agreeing with an admissible
   * completion; and since at most one of the cell's two assumptions is
   * refuted there, the refutations never outnumber the unknown cells.
   */
  lemma VisitSound(rs: RuleSet, s: State, cell: nat, acc: Tally, m: set<nat>)
    requires WellFormed(rs) && Valid(s) && s.size == rs.size && cell < s.size * s.size
    requires Sound(rs, s, m) && Agrees(m, acc.first)
    ensures Agrees(m, Visit(rs, s, cell, acc).first)
    ensures acc.candidates <= acc.unknownCells ==>
      Visit(rs, s, cell, acc).candidates <= Visit(rs, s, cell, acc).unknownCells
  {
    var b1 := Refute(rs, s, cell, false, acc.budget).1;
    RefuteSound(rs, s, cell, false, acc.budget, m);
    RefuteSound(rs, s, cell, true, b1, m);
  }

  lemma {:induction false} ScanSound(rs: RuleSet, s: State, i: nat, acc: Tally, m: set<nat>)
    requires WellFormed(rs) && Valid(s) && s.size == rs.size && i <= |rs.decisionOrder|
    requires Sound(rs, s, m) && Agrees(m, acc.first)
    ensures Agrees(m, ScanFrom(rs, s, i, acc).first)
    ensures acc.candidates <= acc.unknownCells ==>
      ScanFrom(rs, s, i, acc).candidates <= ScanFrom(rs, s, i, acc).unknownCells
    decreases |rs.decisionOrder| - i
  {
    if i < |rs.decisionOrder| {
      var cell := rs.decisionOrder[i];
      if GetId(s, cell) != Unknown {
        ScanSound(rs, s, i + 1, acc, m);
      } else {
        OrderOnBoard(rs, i);
        VisitSound(rs, s, cell, acc, m);
        ScanSound(rs, s, i + 1, Visit(rs, s, cell, acc), m);
      }
    }
  }

  /** The forced value agrees with every admissible completion, and with one the candidates are at most the unknown cells. */
  lemma FindForcedSound(rs: RuleSet, s: State, budget: nat, m: set<nat>)
    requires WellFormed(rs) && Valid(s) && s.size == rs.size && Sound(rs, s, m)
    ensures FindForced(rs, s, budget).0.Some? ==>
      var f := FindForced(rs, s, budget).0.value;
      (f.forced.cell in m <==> f.forced.checked) && f.candidates <= f.unknownCells
  {
    ScanSound(rs, s, 0, Tally(0, 0, Results.None, budget), m);
  }

  // ---------------------------------------------------------------------
  // propagate_logic_with_budget

  /** One unit of budget buys one propagation run; an empty budget or a contradiction gives None. */
  function Logic(rs: RuleSet, s: State, budget: nat): (r: (Results.Option<State>, nat))
    requires WellFormed(rs) && Valid(s) && s.size == rs.size
    ensures budget == 0 ==> r == (Results.None, 0)
    ensures budget > 0 ==> r.1 == budget - 1
    ensures r.0.Some? ==> Valid(r.0.value) && Extends(s, r.0.value)
  {
    if budget == 0 then (Results.None, 0)
    else match Fixpoint(rs, s)
      case Fail => (Results.None, budget - 1)
      case Ok(t) => (Results.Some(t), budget - 1)
  }

  /** Propagation with budget keeps every admissible completion, so with one it fails only for want of budget. */
  lemma LogicKeeps(rs: RuleSet, s: State, budget: nat, m: set<nat>)
    requires WellFormed(rs) && Valid(s) && s.size == rs.size && Sound(rs, s, m)
    ensures Logic(rs, s, budget).0.Some? <==> budget > 0
    ensures Logic(rs, s, budget).0.Some? ==> Sound(rs, Logic(rs, s, budget).0.value, m)
  {
    if budget > 0 {
      FixpointKeeps(rs, s, m);
    }
  }

  // ---------------------------------------------------------------------
  // analyze_human_difficulty

  /** The integer part of HumanDifficultyAnalysis. */
  datatype Report = Report(
    solved: bool,
    exhaustedBudget: bool,
    variableCells: nat,
    initialUnknownAfterLogic: nat,
    segments: SegmentStats,
    forcedByContradiction: nat,
    entryTotalAssumptions: nat,
    entryCandidateAssumptions: nat)

  /** The closing fields, read from the board the analysis stopped on. */
  function Close(s: State, budget: nat, acc: Report): (r: Report)
    requires Valid(s)
    ensures r.solved <==> Full(s)
    ensures r.exhaustedBudget <==> budget == 0
    ensures r.segments == Stats(s)
  {
    acc.(solved := IsFullyDecided(s), exhaustedBudget := budget == 0, segments := Stats(s))
  }

  /**
   * The board after logic: initial propagation, then rounds of "find a
   * forced value by contradiction, set it, propagate", until no value is
   * forced, the set conflicts or a propagation fails. The budget left is
   * returned beside the report.
   */
  function AnalyzeRun(rs: RuleSet): (r: (Report, nat))
    requires WellFormed(rs)
    ensures r.1 <= Budget
    ensures r.0.exhaustedBudget <==> r.1 == 0
    ensures r.0.variableCells == |rs.decisionOrder|
  {
    var s := Init(rs);
    var start := Report(false, false, |rs.decisionOrder|, 0, Stats(s), 0, 0, 0);
    match Logic(rs, s, Budget)
    case (None, b) => (Close(s, b, start).(solved := false), b)
    case (Some(t), b) => Rounds(rs, t, b, start.(initialUnknownAfterLogic := CountUnknown(t, rs.decisionOrder)))
  }

  /**
   * analyze: the report of the run. It counts the decision cells, and when
   * logic alone decided every cell the board has at most one solution.
   */
  function Analyze(rs: RuleSet): (r: Report)
    requires WellFormed(rs)
    ensures r.variableCells == |rs.decisionOrder|
    ensures r.solved ==> forall m1, m2 :: Solution(rs, m1) && Solution(rs, m2) ==> m1 == m2
  {
    SolvedUnique(rs);
    AnalyzeRun(rs).0
  }

  function Rounds(rs: RuleSet, s: State, budget: nat, acc: Report): (r: (Report, nat))
    requires WellFormed(rs) && Valid(s) && s.size == rs.size
    ensures r.1 <= budget
    ensures r.0.exhaustedBudget <==> r.1 == 0
    ensures r.0.variableCells == acc.variableCells
    ensures r.0.forcedByContradiction >= acc.forcedByContradiction
    decreases Unknowns(s), 1
  {
    var (found, b) := FindForced(rs, s, budget);
    match found
    case None => (Close(s, b, acc), b)
    case Some(f) => Apply(rs, s, f.forced, b, Tallied(acc, f))
  }

  /** The counters one forced value adds: the step itself and its total and refuted assumptions. */
  function Tallied(acc: Report, f: Found): (r: Report)
    ensures r.forcedByContradiction == acc.forcedByContradiction + 1
    ensures r.variableCells == acc.variableCells
  {
    acc.(
      forcedByContradiction := acc.forcedByContradiction + 1,
      entryTotalAssumptions := SatAdd(acc.entryTotalAssumptions, SatAdd(f.unknownCells, f.unknownCells)),
      entryCandidateAssumptions := SatAdd(acc.entryCandidateAssumptions, f.candidates))
  }

  /** Set the forced value and propagate; a contradiction ends the analysis on the board as set. */
  function Apply(rs: RuleSet, s: State, f: Forced, budget: nat, acc: Report): (r: (Report, nat))
    requires WellFormed(rs) && Valid(s) && s.size == rs.size
    requires f.cell < s.size * s.size && GetId(s, f.cell) == Unknown
    ensures r.1 <= budget
    ensures r.0.exhaustedBudget <==> r.1 == 0
    ensures r.0.variableCells == acc.variableCells
    ensures r.0.forcedByContradiction >= acc.forcedByContradiction
    decreases Unknowns(s), 0
  {
    match SetOrFail(s, f.cell, f.checked)
    case Fail =>
      // The cell is unknown, so setting it cannot conflict; the source would stop here.
      assert false; (acc, budget)
    case Ok(u) =>
      AssignShrinks(s, u, f.cell, TriOf(f.checked));
      match Logic(rs, u, budget)
      case (None, b) => (Close(u, b, acc), b)
      case (Some(t), b) =>
        ExtendsSubset(u, t);
        Rounds(rs, t, b, acc)
  }

  // ---------------------------------------------------------------------
  // What a solved analysis means

  /** A full board has at most one admissible completion. */
  lemma FullUnique(rs: RuleSet, s: State, m1: set<nat>, m2: set<nat>)
    requires WellFormed(rs) && Valid(s) && Full(s) && Sound(rs, s, m1) && Sound(rs, s, m2)
    ensures m1 == m2
  {
    FullChecks(s);
  }

  /** Every admissible completion of the board the rounds start from survives them, so a solved analysis leaves room for only one. */
  lemma {:induction false} RoundsUnique(rs: RuleSet, s: State, budget: nat, acc: Report, m1: set<nat>, m2: set<nat>)
    requires WellFormed(rs) && Valid(s) && s.size == rs.size
    requires Sound(rs, s, m1) && Sound(rs, s, m2)
    ensures Rounds(rs, s, budget, acc).0.solved ==> m1 == m2
    decreases Unknowns(s), 1
  {
    var (found, b) := FindForced(rs, s, budget);
    if found.None? {
      if IsFullyDecided(s) {
        FullUnique(rs, s, m1, m2);
      }
    } else {
      FindForcedSound(rs, s, budget, m1);
      FindForcedSound(rs, s, budget, m2);
      ApplyUnique(rs, s, found.value.forced, b, Tallied(acc, found.value), m1, m2);
    }
  }

  lemma {:induction false} ApplyUnique(rs: RuleSet, s: State, f: Forced, budget: nat, acc: Report, m1: set<nat>, m2: set<nat>)
    requires WellFormed(rs) && Valid(s) && s.size == rs.size
    requires f.cell < s.size * s.size && GetId(s, f.cell) == Unknown
    requires Sound(rs, s, m1) && Sound(rs, s, m2)
    requires (f.cell in m1 <==> f.checked) && (f.cell in m2 <==> f.checked)
    ensures Apply(rs, s, f, budget, acc).0.solved ==> m1 == m2
    decreases Unknowns(s), 0
  {
    SetKeeps(s, f.cell, f.checked, m1);
    SetKeeps(s, f.cell, f.checked, m2);
    var u := SetOrFail(s, f.cell, f.checked).state;
    AssignShrinks(s, u, f.cell, TriOf(f.checked));
    LogicKeeps(rs, u, budget, m1);
    LogicKeeps(rs, u, budget, m2);
    match Logic(rs, u, budget) {
      case (None, b) =>
        if IsFullyDecided(u) {
          FullUnique(rs, u, m1, m2);
        }
      case (Some(t), b) =>
        ExtendsSubset(u, t);
        RoundsUnique(rs, t, b, acc, m1, m2);
    }
  }

  /** When logic alone decides every cell, the board has at most one solution. */
  lemma AnalyzeUnique(rs: RuleSet, m1: set<nat>, m2: set<nat>)
    requires WellFormed(rs) && Solution(rs, m1) && Solution(rs, m2)
    ensures AnalyzeRun(rs).0.solved ==> m1 == m2
  {
    var s := Init(rs);
    InitSolutions(rs, m1);
    InitSolutions(rs, m2);
    LogicKeeps(rs, s, Budget, m1);
    LogicKeeps(rs, s, Budget, m2);
    var t := Logic(rs, s, Budget).0.value;
    RoundsUnique(rs, t, Logic(rs, s, Budget).1, Report(false, false, |rs.decisionOrder|, 0, Stats(s), 0, 0, 0).(initialUnknownAfterLogic := CountUnknown(t, rs.decisionOrder)), m1, m2);
  }

  lemma SolvedUnique(rs: RuleSet)
    requires WellFormed(rs)
    ensures AnalyzeRun(rs).0.solved ==> forall m1, m2 :: Solution(rs, m1) && Solution(rs, m2) ==> m1 == m2
  {
    forall m1, m2 | Solution(rs, m1) && Solution(rs, m2) ensures AnalyzeRun(rs).0.solved ==> m1 == m2 {
      AnalyzeUnique(rs, m1, m2);
    }
  }
}
