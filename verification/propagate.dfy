// propagate_to_fixpoint (crates/engine/src/solver/mod.rs): the per-colour
// passes over the index's cell lists in the source's order (green, yellow,
// blue, red, purple, orange, cyan, then the five-in-a-row check), repeated
// until a round changes nothing. The source detects "nothing changed" by
// comparing a 64-bit hash of the board before and after the round; here the
// boards themselves are compared.
module Propagate {
  import opened Colors
  import opened Lines
  import opened RuleIndex
  import opened Board
  import opened Fill
  import opened Puzzle
  import opened Steps

  /** `(id / size, id % size)`, the cell's row and column. */
  function Coords(n: nat, id: nat): (rc: (nat, nat))
    requires 0 < n && id < n * n
    ensures rc.0 < n && rc.1 < n && Id(n, rc.0, rc.1) == id
    ensures rc.0 == id / n && rc.1 == id % n
  {
    IdSplit(n, id);
    (id / n, id % n)
  }

  /** Every rule of the board except Black's holds for m. */
  ghost predicate RulesHold(rs: RuleSet, m: set<nat>)
    requires WellFormed(rs)
  {
    forall id: nat :: id < rs.size * rs.size && rs.colors[id] != Black ==> CellHolds(rs, m, id)
  }

  /** What propagation can refute: a completion keeping every non-Black rule and the line goal. */
  ghost predicate Admissible(rs: RuleSet, m: set<nat>)
    requires WellFormed(rs)
  {
    RulesHold(rs, m) && Bingo(rs.size, m)
  }

  /** The deduction for cell id under the rule of colour c. */
  function Step(rs: RuleSet, s: State, c: Color, id: nat): (o: Outcome)
    requires WellFormed(rs) && Valid(s) && s.size == rs.size && id < rs.size * rs.size
    ensures Grows(s, o)
  {
    var n := rs.size;
    var rc := Coords(n, id);
    var r, col := rc.0, rc.1;
    match c
    case Green => RowColStep(s, r, col)
    case Yellow => DiagonalsStep(s, r, col)
    case Red => AtLeastOne(s, rs.neighbors8[id])
    case Blue => AtMostTwo(s, rs.neighbors8[id])
    case Purple => Parity(s, rs.neighbors8[id], true)
    case Orange => Parity(s, rs.neighbors8[id], false)
    case Cyan => CyanRule(s, id, rs.neighbors4[id])
    case _ => Ok(s)
  }

  /** A step keeps every completion that obeys the cell's rule. */
  lemma StepKeeps(rs: RuleSet, s: State, id: nat, m: set<nat>)
    requires WellFormed(rs) && Valid(s) && s.size == rs.size && id < rs.size * rs.size
    requires rs.colors[id] != Black && Completes(s, m) && CellHolds(rs, m, id)
    ensures Keeps(Step(rs, s, rs.colors[id], id), m)
  {
    var c := rs.colors[id];
    if c == Green || c == Yellow {
      LineStepKeeps(rs, s, id, m);
    } else if c != White {
      CountStepKeeps(rs, s, id, m);
    }
  }

  lemma LineStepKeeps(rs: RuleSet, s: State, id: nat, m: set<nat>)
    requires WellFormed(rs) && Valid(s) && s.size == rs.size && id < rs.size * rs.size
    requires rs.colors[id] in {Green, Yellow} && Completes(s, m) && CellHolds(rs, m, id)
    ensures Keeps(Step(rs, s, rs.colors[id], id), m)
  {
    var n := rs.size;
    var rc := Coords(n, id);
    var r, col := rc.0, rc.1;
    if rs.colors[id] == Green {
      RowColKeeps(s, r, col, m);
    } else {
      DiagonalsKeeps(s, r, col, m);
    }
  }

  lemma CountStepKeeps(rs: RuleSet, s: State, id: nat, m: set<nat>)
    requires WellFormed(rs) && Valid(s) && s.size == rs.size && id < rs.size * rs.size
    requires rs.colors[id] in {Red, Blue, Purple, Orange, Cyan} && Completes(s, m) && CellHolds(rs, m, id)
    ensures Keeps(Step(rs, s, rs.colors[id], id), m)
  {
    match rs.colors[id]
    case Red => AtLeastOneKeeps(s, rs.neighbors8[id], m);
    case Blue => AtMostTwoKeeps(s, rs.neighbors8[id], m);
    case Purple => ParityKeeps(s, rs.neighbors8[id], true, m);
    case Orange => ParityKeeps(s, rs.neighbors8[id], false, m);
    case Cyan => CyanKeeps(s, id, rs.neighbors4[id], m);
  }

  /** On a full board a step passes, unchanged, exactly when the cell's rule holds. */
  lemma StepFull(rs: RuleSet, s: State, id: nat)
    requires WellFormed(rs) && Valid(s) && Full(s) && s.size == rs.size && id < rs.size * rs.size
    requires rs.colors[id] != Black
    ensures Step(rs, s, rs.colors[id], id) == if CellHolds(rs, Checks(s), id) then Ok(s) else Fail
  {
    var c := rs.colors[id];
    if c == Green || c == Yellow {
      LineStepFull(rs, s, id);
    } else if c != White {
      CountStepFull(rs, s, id);
    }
    var o := Step(rs, s, c, id);
    if o.Ok? {
      FullFixed(s, o.state);
    }
  }

  lemma LineStepFull(rs: RuleSet, s: State, id: nat)
    requires WellFormed(rs) && Valid(s) && Full(s) && s.size == rs.size && id < rs.size * rs.size
    requires rs.colors[id] in {Green, Yellow}
    ensures Step(rs, s, rs.colors[id], id).Ok? <==> CellHolds(rs, Checks(s), id)
  {
    var n := rs.size;
    var rc := Coords(n, id);
    var r, col := rc.0, rc.1;
    if rs.colors[id] == Green {
      RowColFull(s, r, col);
    } else {
      DiagonalsFull(s, r, col);
    }
  }

  lemma CountStepFull(rs: RuleSet, s: State, id: nat)
    requires WellFormed(rs) && Valid(s) && Full(s) && s.size == rs.size && id < rs.size * rs.size
    requires rs.colors[id] in {Red, Blue, Purple, Orange, Cyan}
    ensures Step(rs, s, rs.colors[id], id).Ok? <==> CellHolds(rs, Checks(s), id)
  {
    match rs.colors[id]
    case Red => AtLeastOneFull(s, rs.neighbors8[id]);
    case Blue => AtMostTwoFull(s, rs.neighbors8[id]);
    case Purple => ParityFull(s, rs.neighbors8[id], true);
    case Orange => ParityFull(s, rs.neighbors8[id], false);
    case Cyan => CyanFull(s, id, rs.neighbors4[id]);
  }

  // ---------------------------------------------------------------------
  // One pass per colour

  /** The deduction of colour c for each cell of ids in turn, stopping at the first failure. */
  function SweepFrom(rs: RuleSet, s: State, c: Color, ids: seq<nat>): (o: Outcome)
    requires WellFormed(rs) && Valid(s) && s.size == rs.size
    requires forall j :: 0 <= j < |ids| ==> ids[j] < rs.size * rs.size
    ensures Grows(s, o)
    decreases |ids|
  {
    if |ids| == 0 then Ok(s)
    else
      var t :- Step(rs, s, c, ids[0]);
      var o := SweepFrom(rs, t, c, ids[1..]);
      assert o.Ok? ==> Extends(s, o.state) by {
        if o.Ok? {
          ExtendsTrans(s, t, o.state);
        }
      }
      o
  }

  /** propagate_green, propagate_yellow, ...: the pass of colour c over the index's list of that colour. */
  function Sweep(rs: RuleSet, s: State, c: Color): (o: Outcome)
    requires WellFormed(rs) && Valid(s) && s.size == rs.size
    ensures Grows(s, o)
  {
    SweepFrom(rs, s, c, ColorCells(rs, c))
  }

  lemma {:induction false} SweepFromKeeps(rs: RuleSet, s: State, c: Color, ids: seq<nat>, m: set<nat>)
    requires WellFormed(rs) && Valid(s) && s.size == rs.size && c != Black
    requires forall j :: 0 <= j < |ids| ==> ids[j] < rs.size * rs.size && rs.colors[ids[j]] == c
    requires Completes(s, m) && forall j :: 0 <= j < |ids| ==> CellHolds(rs, m, ids[j])
    ensures Keeps(SweepFrom(rs, s, c, ids), m)
    decreases |ids|
  {
    if |ids| > 0 {
      StepKeeps(rs, s, ids[0], m);
      var t := Step(rs, s, c, ids[0]).state;
      assert forall j :: 0 <= j < |ids[1..]| ==> ids[1..][j] == ids[j + 1];
      SweepFromKeeps(rs, t, c, ids[1..], m);
    }
  }

  lemma {:induction false} SweepFromFull(rs: RuleSet, s: State, c: Color, ids: seq<nat>)
    requires WellFormed(rs) && Valid(s) && Full(s) && s.size == rs.size && c != Black
    requires forall j :: 0 <= j < |ids| ==> ids[j] < rs.size * rs.size && rs.colors[ids[j]] == c
    ensures SweepFrom(rs, s, c, ids) ==
      if forall j :: 0 <= j < |ids| ==> CellHolds(rs, Checks(s), ids[j]) then Ok(s) else Fail
    decreases |ids|
  {
    if |ids| > 0 {
      StepFull(rs, s, ids[0]);
      assert forall j :: 0 <= j < |ids[1..]| ==> ids[1..][j] == ids[j + 1];
      SweepFromFull(rs, s, c, ids[1..]);
    }
  }

  /** A pass keeps every completion that obeys the rule of each cell of its colour. */
  lemma SweepKeeps(rs: RuleSet, s: State, c: Color, m: set<nat>)
    requires WellFormed(rs) && Valid(s) && s.size == rs.size && c != Black
    requires Completes(s, m) && RulesHold(rs, m)
    ensures Keeps(Sweep(rs, s, c), m)
  {
    SweepFromKeeps(rs, s, c, ColorCells(rs, c), m);
  }

  /** Every cell of colour c keeps its rule in m. */
  ghost predicate ColorHolds(rs: RuleSet, m: set<nat>, c: Color)
    requires WellFormed(rs)
  {
    forall id: nat :: id < rs.size * rs.size && rs.colors[id] == c ==> CellHolds(rs, m, id)
  }

  /** The non-Black rules hold exactly when they hold colour by colour. */
  lemma RulesByColor(rs: RuleSet, m: set<nat>)
    requires WellFormed(rs)
    ensures RulesHold(rs, m) <==>
      ColorHolds(rs, m, Green) && ColorHolds(rs, m, Yellow) && ColorHolds(rs, m, Blue) &&
      ColorHolds(rs, m, Red) && ColorHolds(rs, m, Purple) && ColorHolds(rs, m, Orange) &&
      ColorHolds(rs, m, Cyan)
  {
  }

  /** On a full board a pass passes, unchanged, exactly when every cell of its colour keeps its rule. */
  lemma SweepFull(rs: RuleSet, s: State, c: Color)
    requires WellFormed(rs) && Valid(s) && Full(s) && s.size == rs.size && c != Black && c != White
    ensures Sweep(rs, s, c) == if ColorHolds(rs, Checks(s), c) then Ok(s) else Fail
  {
    var ids := ColorCells(rs, c);
    SweepFromFull(rs, s, c, ids);
    assert (forall j :: 0 <= j < |ids| ==> CellHolds(rs, Checks(s), ids[j])) <==> ColorHolds(rs, Checks(s), c) by {
      forall id: nat | id < rs.size * rs.size && rs.colors[id] == c
        ensures id in ids
      {
      }
    }
  }

  // ---------------------------------------------------------------------
  // propagate_to_fixpoint

  /** One round: the passes in the source's order, then the five-in-a-row check. */
  function Round(rs: RuleSet, s: State): (o: Outcome)
    requires WellFormed(rs) && Valid(s) && s.size == rs.size
    ensures Grows(s, o)
  {
    var s1 :- Sweep(rs, s, Green);
    var s2 :- Sweep(rs, s1, Yellow);
    var s3 :- Sweep(rs, s2, Blue);
    var s4 :- Sweep(rs, s3, Red);
    var s5 :- Sweep(rs, s4, Purple);
    var s6 :- Sweep(rs, s5, Orange);
    var s7 :- Sweep(rs, s6, Cyan);
    ExtendsTrans(s, s1, s2);
    ExtendsTrans(s, s2, s3);
    ExtendsTrans(s, s3, s4);
    ExtendsTrans(s, s4, s5);
    ExtendsTrans(s, s5, s6);
    ExtendsTrans(s, s6, s7);
    if FiveInARowPossible(s7) then Ok(s7) else Fail
  }

  /** A round keeps every admissible completion. */
  lemma RoundKeeps(rs: RuleSet, s: State, m: set<nat>)
    requires WellFormed(rs) && Valid(s) && s.size == rs.size
    requires Completes(s, m) && Admissible(rs, m)
    ensures Keeps(Round(rs, s), m)
  {
    SweepKeeps(rs, s, Green, m);
    var s1 := Sweep(rs, s, Green).state;
    SweepKeeps(rs, s1, Yellow, m);
    var s2 := Sweep(rs, s1, Yellow).state;
    SweepKeeps(rs, s2, Blue, m);
    var s3 := Sweep(rs, s2, Blue).state;
    SweepKeeps(rs, s3, Red, m);
    var s4 := Sweep(rs, s3, Red).state;
    SweepKeeps(rs, s4, Purple, m);
    var s5 := Sweep(rs, s4, Purple).state;
    SweepKeeps(rs, s5, Orange, m);
    var s6 := Sweep(rs, s5, Orange).state;
    SweepKeeps(rs, s6, Cyan, m);
    var s7 := Sweep(rs, s6, Cyan).state;
    FiveKeeps(s7, m);
  }

  /** On a full board a round passes, unchanged, exactly when the board's checked cells are admissible. */
  lemma RoundFull(rs: RuleSet, s: State)
    requires WellFormed(rs) && Valid(s) && Full(s) && s.size == rs.size
    ensures Round(rs, s) == if Admissible(rs, Checks(s)) then Ok(s) else Fail
  {
    SweepFull(rs, s, Green);
    SweepFull(rs, s, Yellow);
    SweepFull(rs, s, Blue);
    SweepFull(rs, s, Red);
    SweepFull(rs, s, Purple);
    SweepFull(rs, s, Orange);
    SweepFull(rs, s, Cyan);
    FiveFull(s);
    RulesByColor(rs, Checks(s));
  }

  /**
   * propagate_to_fixpoint: rounds until one changes nothing. A round that
   * does change the board decides at least one more cell, which bounds the
   * number of rounds.
   */
  function Fixpoint(rs: RuleSet, s: State): (o: Outcome)
    requires WellFormed(rs) && Valid(s) && s.size == rs.size
    ensures Grows(s, o)
    ensures o.Ok? ==> Round(rs, o.state) == Ok(o.state)
    decreases Unknowns(s)
  {
    var t :- Round(rs, s);
    if t == s then Ok(s)
    else
      ExtendsShrinks(s, t);
      var o := Fixpoint(rs, t);
      assert o.Ok? ==> Extends(s, o.state) by {
        if o.Ok? {
          ExtendsTrans(s, t, o.state);
        }
      }
      o
  }

  /** Propagation never loses an admissible completion: failure means there is none. */
  lemma {:induction false} FixpointKeeps(rs: RuleSet, s: State, m: set<nat>)
    requires WellFormed(rs) && Valid(s) && s.size == rs.size
    requires Completes(s, m) && Admissible(rs, m)
    ensures Keeps(Fixpoint(rs, s), m)
    decreases Unknowns(s)
  {
    RoundKeeps(rs, s, m);
    var t := Round(rs, s).state;
    if t != s {
      ExtendsShrinks(s, t);
      FixpointKeeps(rs, t, m);
    }
  }

  /** On a full board propagation is the solution check: it passes, unchanged, exactly on admissible boards. */
  lemma FixpointFull(rs: RuleSet, s: State)
    requires WellFormed(rs) && Valid(s) && Full(s) && s.size == rs.size
    ensures Fixpoint(rs, s) == if Admissible(rs, Checks(s)) then Ok(s) else Fail
  {
    RoundFull(rs, s);
  }

  /** Propagating a propagated board changes nothing. */
  lemma FixpointIdempotent(rs: RuleSet, s: State)
    requires WellFormed(rs) && Valid(s) && s.size == rs.size
    ensures Fixpoint(rs, s).Ok? ==> Fixpoint(rs, Fixpoint(rs, s).state) == Fixpoint(rs, s)
  {
  }
}
