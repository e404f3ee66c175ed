// The backtracking search of the propagation engine
// (crates/engine/src/solver/mod.rs, Solver::solve_masks_limit, search and
// find_next_unknown_cell). Every node propagates to a fixpoint; a full board
// is reported as its row-major mask; otherwise the first unknown cell of the
// decision order is tried unchecked, then checked. The result vector the
// source appends to is threaded through as `out`.
module Search {
  import Results
  import opened Colors
  import opened Lines
  import Masks
  import opened RuleIndex
  import opened Board
  import opened Fill
  import opened Puzzle
  import opened Steps
  import opened Propagate

  // ---------------------------------------------------------------------
  // find_next_unknown_cell

  /** The first position from i on whose cell is unknown, or |order| if there is none. */
  function FirstUnknown(s: State, order: seq<nat>, i: nat): (j: nat)
    requires i <= |order|
    ensures i <= j <= |order|
    ensures j < |order| ==> GetId(s, order[j]) == Unknown
    ensures forall k :: i <= k < j ==> GetId(s, order[k]) != Unknown
    decreases |order| - i
  {
    if i == |order| || GetId(s, order[i]) == Unknown then i
    else FirstUnknown(s, order, i + 1)
  }

  /** The first cell of the decision order still unknown; None when all of them are decided. */
  function NextUnknown(s: State, order: seq<nat>): (r: Results.Option<nat>)
    ensures r.Some? ==> r.value in order && GetId(s, r.value) == Unknown
    ensures r.None? <==> forall id :: id in order ==> GetId(s, id) != Unknown
  {
    var j := FirstUnknown(s, order, 0);
    if j < |order| then Results.Some(order[j]) else Results.None
  }

  /** Deciding an unknown cell leaves fewer unknown cells. */
  lemma AssignShrinks(t: State, u: State, cell: nat, v: Tri)
    requires Assigned(t, u, cell, v)
    requires cell < t.size * t.size && GetId(t, cell) == Unknown && v != Unknown
    ensures Unknowns(u) < Unknowns(t)
  {
    assert cell in Unknowns(t) - Unknowns(u);
  }

  /** An extension has no unknown cell its original had decided. */
  lemma ExtendsSubset(s: State, t: State)
    requires Extends(s, t)
    ensures Unknowns(t) <= Unknowns(s)
  {
  }

  // ---------------------------------------------------------------------
  // search

  /**
   * Search from s, appending solutions to out. A non-zero limit stops the
   * search as soon as out holds that many masks. A node propagates first;
   * a contradiction ends the branch.
   */
  function Search(rs: RuleSet, s: State, limit: nat, out: seq<set<nat>>): (res: seq<set<nat>>)
    requires WellFormed(rs) && Valid(s) && s.size == rs.size && rs.size * rs.size <= 32
    ensures out <= res
    ensures limit != 0 && |out| <= limit ==> |res| <= limit
    decreases Unknowns(s), 2
  {
    if limit != 0 && |out| >= limit then out
    else match Fixpoint(rs, s)
      case Fail => out
      case Ok(t) =>
        ExtendsSubset(s, t);
        Expand(rs, t, limit, out)
  }

  /**
   * A propagated board: a full one is reported as its row-major mask;
   * otherwise the first unknown cell of the decision order is tried
   * unchecked and then, unless the limit has been reached, checked.
   */
  function Expand(rs: RuleSet, t: State, limit: nat, out: seq<set<nat>>): (res: seq<set<nat>>)
    requires WellFormed(rs) && Valid(t) && t.size == rs.size && rs.size * rs.size <= 32
    ensures out <= res
    ensures limit != 0 && |out| < limit ==> |res| <= limit
    decreases Unknowns(t), 1
  {
    if IsFullyDecided(t) then out + [ToRowMajorMask(t)]
    else match NextUnknown(t, rs.decisionOrder)
      case None => out
      case Some(cell) =>
        var out1 := Try(rs, t, cell, false, limit, out);
        if limit != 0 && |out1| >= limit then out1
        else Try(rs, t, cell, true, limit, out1)
  }

  /** One branch: decide the cell and search on; a conflict is a dead end. */
  function Try(rs: RuleSet, t: State, cell: nat, checked: bool, limit: nat, out: seq<set<nat>>): (res: seq<set<nat>>)
    requires WellFormed(rs) && Valid(t) && t.size == rs.size && rs.size * rs.size <= 32
    requires cell < t.size * t.size && GetId(t, cell) == Unknown
    ensures out <= res
    ensures limit != 0 && |out| <= limit ==> |res| <= limit
    decreases Unknowns(t), 0
  {
    match SetOrFail(t, cell, checked)
    case Fail => out
    case Ok(u) =>
      AssignShrinks(t, u, cell, TriOf(checked));
      Search(rs, u, limit, out)
  }

  /** m is a full assignment the board s allows that keeps every non-Black rule and completes a line. */
  ghost predicate Sound(rs: RuleSet, s: State, m: set<nat>)
    requires WellFormed(rs)
  {
    Completes(s, m) && Admissible(rs, m)
  }

  /** Every mask the search appends is an admissible completion of its starting board. */
  lemma {:induction false} SearchSound(rs: RuleSet, s: State, limit: nat, out: seq<set<nat>>)
    requires WellFormed(rs) && Valid(s) && s.size == rs.size && rs.size * rs.size <= 32
    ensures forall j :: |out| <= j < |Search(rs, s, limit, out)| ==> Sound(rs, s, Search(rs, s, limit, out)[j])
    decreases Unknowns(s), 2
  {
    if !(limit != 0 && |out| >= limit) && Fixpoint(rs, s).Ok? {
      var t := Fixpoint(rs, s).state;
      ExtendsSubset(s, t);
      ExpandSound(rs, t, limit, out);
      var res := Expand(rs, t, limit, out);
      forall j | |out| <= j < |res| ensures Sound(rs, s, res[j]) {
        CompletesBack(s, t, res[j]);
      }
    }
  }

  lemma {:induction false} ExpandSound(rs: RuleSet, t: State, limit: nat, out: seq<set<nat>>)
    requires WellFormed(rs) && Valid(t) && t.size == rs.size && rs.size * rs.size <= 32
    requires Round(rs, t) == Ok(t)
    ensures forall j :: |out| <= j < |Expand(rs, t, limit, out)| ==> Sound(rs, t, Expand(rs, t, limit, out)[j])
    decreases Unknowns(t), 1
  {
    if IsFullyDecided(t) {
      var mask := ToRowMajorMask(t);
      RoundFull(rs, t);
      assert mask == Checks(t);
    } else {
      match NextUnknown(t, rs.decisionOrder) {
        case None =>
        case Some(cell) =>
          TrySound(rs, t, cell, false, limit, out);
          var out1 := Try(rs, t, cell, false, limit, out);
          if !(limit != 0 && |out1| >= limit) {
            TrySound(rs, t, cell, true, limit, out1);
          }
      }
    }
  }

  /** What a branch appends is sound for the board it branched from, and decides the cell the branch's way. */
  lemma {:induction false} TrySound(rs: RuleSet, t: State, cell: nat, checked: bool, limit: nat, out: seq<set<nat>>)
    requires WellFormed(rs) && Valid(t) && t.size == rs.size && rs.size * rs.size <= 32
    requires cell < t.size * t.size && GetId(t, cell) == Unknown
    ensures forall j :: |out| <= j < |Try(rs, t, cell, checked, limit, out)| ==>
      Sound(rs, t, Try(rs, t, cell, checked, limit, out)[j]) &&
      (cell in Try(rs, t, cell, checked, limit, out)[j] <==> checked)
    decreases Unknowns(t), 0
  {
    var o := SetOrFail(t, cell, checked);
    if o.Ok? {
      var u := o.state;
      AssignShrinks(t, u, cell, TriOf(checked));
      SearchSound(rs, u, limit, out);
      var res := Search(rs, u, limit, out);
      forall j | |out| <= j < |res| ensures Sound(rs, t, res[j]) && (cell in res[j] <==> checked) {
        CompletesBack(t, u, res[j]);
      }
    }
  }

  /** Every on-board cell outside the decision order is decided. */
  ghost predicate OrderCovers(rs: RuleSet, s: State)
  {
    forall id: nat :: id < s.size * s.size && id !in rs.decisionOrder ==> GetId(s, id) != Unknown
  }

  /**
   * Unless the limit cut it short, the search appends every admissible
   * completion of s, provided every cell outside the decision order is
   * already decided.
   */
  lemma {:induction false} SearchComplete(rs: RuleSet, s: State, limit: nat, out: seq<set<nat>>, m: set<nat>)
    requires WellFormed(rs) && Valid(s) && s.size == rs.size && rs.size * rs.size <= 32
    requires OrderCovers(rs, s) && Sound(rs, s, m)
    ensures limit == 0 || |Search(rs, s, limit, out)| < limit ==> m in Search(rs, s, limit, out)[|out|..]
    decreases Unknowns(s), 2
  {
    if !(limit != 0 && |out| >= limit) {
      FixpointKeeps(rs, s, m);
      var t := Fixpoint(rs, s).state;
      ExtendsSubset(s, t);
      ExpandComplete(rs, t, limit, out, m);
    }
  }

  lemma {:induction false} ExpandComplete(rs: RuleSet, t: State, limit: nat, out: seq<set<nat>>, m: set<nat>)
    requires WellFormed(rs) && Valid(t) && t.size == rs.size && rs.size * rs.size <= 32
    requires OrderCovers(rs, t) && Sound(rs, t, m)
    ensures limit == 0 || |Expand(rs, t, limit, out)| < limit ==> m in Expand(rs, t, limit, out)[|out|..]
    decreases Unknowns(t), 1
  {
    var res := Expand(rs, t, limit, out);
    if IsFullyDecided(t) {
      FullChecks(t);
      assert ToRowMajorMask(t) == m;
      assert res[|out|..] == [m];
    } else {
      match NextUnknown(t, rs.decisionOrder) {
        case None =>
          assert Full(t);
          assert false;
        case Some(cell) =>
          var out1 := Try(rs, t, cell, false, limit, out);
          if cell !in m {
            TryComplete(rs, t, cell, false, limit, out, m);
            PrefixMember(out, out1, res, m);
          } else if !(limit != 0 && |out1| >= limit) {
            TryComplete(rs, t, cell, true, limit, out1, m);
            PrefixMember(out, out, out1, m);
            PrefixTail(out, out1, res, m);
          }
      }
    }
  }

  lemma {:induction false} TryComplete(rs: RuleSet, t: State, cell: nat, checked: bool, limit: nat, out: seq<set<nat>>, m: set<nat>)
    requires WellFormed(rs) && Valid(t) && t.size == rs.size && rs.size * rs.size <= 32
    requires cell < t.size * t.size && GetId(t, cell) == Unknown
    requires OrderCovers(rs, t) && Sound(rs, t, m) && (cell in m <==> checked)
    ensures limit == 0 || |Try(rs, t, cell, checked, limit, out)| < limit ==>
      m in Try(rs, t, cell, checked, limit, out)[|out|..]
    decreases Unknowns(t), 0
  {
    SetKeeps(t, cell, checked, m);
    var u := SetOrFail(t, cell, checked).state;
    AssignShrinks(t, u, cell, TriOf(checked));
    SearchComplete(rs, u, limit, out, m);
  }

  /** A member of the part of ys past xs is one of the part of zs past xs, when ys is a prefix of zs. */
  lemma PrefixMember<T>(xs: seq<T>, ys: seq<T>, zs: seq<T>, m: T)
    requires xs <= ys <= zs
    ensures m in ys[|xs|..] ==> m in zs[|xs|..]
  {
    if m in ys[|xs|..] {
      var j :| 0 <= j < |ys| - |xs| && ys[|xs|..][j] == m;
      assert zs[|xs|..][j] == m;
    }
  }

  /** A member of the part of zs past ys is one of the part past xs, when xs is a prefix of ys. */
  lemma PrefixTail<T>(xs: seq<T>, ys: seq<T>, zs: seq<T>, m: T)
    requires xs <= ys <= zs
    ensures m in zs[|ys|..] ==> m in zs[|xs|..]
  {
    if m in zs[|ys|..] {
      var j :| 0 <= j < |zs| - |ys| && zs[|ys|..][j] == m;
      assert zs[|xs|..][j + |ys| - |xs|] == m;
    }
  }

  /** The masks the search appends are pairwise different. */
  lemma {:induction false} SearchDistinct(rs: RuleSet, s: State, limit: nat, out: seq<set<nat>>)
    requires WellFormed(rs) && Valid(s) && s.size == rs.size && rs.size * rs.size <= 32
    ensures forall i, j :: |out| <= i < j < |Search(rs, s, limit, out)| ==>
      Search(rs, s, limit, out)[i] != Search(rs, s, limit, out)[j]
    decreases Unknowns(s), 2
  {
    if !(limit != 0 && |out| >= limit) && Fixpoint(rs, s).Ok? {
      var t := Fixpoint(rs, s).state;
      ExtendsSubset(s, t);
      ExpandDistinct(rs, t, limit, out);
    }
  }

  lemma {:induction false} ExpandDistinct(rs: RuleSet, t: State, limit: nat, out: seq<set<nat>>)
    requires WellFormed(rs) && Valid(t) && t.size == rs.size && rs.size * rs.size <= 32
    ensures forall i, j :: |out| <= i < j < |Expand(rs, t, limit, out)| ==>
      Expand(rs, t, limit, out)[i] != Expand(rs, t, limit, out)[j]
    decreases Unknowns(t), 1
  {
    if !IsFullyDecided(t) {
      match NextUnknown(t, rs.decisionOrder) {
        case None =>
        case Some(cell) =>
          TryDistinct(rs, t, cell, false, limit, out);
          var out1 := Try(rs, t, cell, false, limit, out);
          if !(limit != 0 && |out1| >= limit) {
            TryDistinct(rs, t, cell, true, limit, out1);
            TrySound(rs, t, cell, false, limit, out);
            TrySound(rs, t, cell, true, limit, out1);
            var res := Try(rs, t, cell, true, limit, out1);
            forall i, j | |out| <= i < |out1| <= j < |res| ensures res[i] != res[j] {
              assert res[i] == out1[i];
              assert cell !in res[i] && cell in res[j];
            }
          }
      }
    }
  }

  lemma {:induction false} TryDistinct(rs: RuleSet, t: State, cell: nat, checked: bool, limit: nat, out: seq<set<nat>>)
    requires WellFormed(rs) && Valid(t) && t.size == rs.size && rs.size * rs.size <= 32
    requires cell < t.size * t.size && GetId(t, cell) == Unknown
    ensures forall i, j :: |out| <= i < j < |Try(rs, t, cell, checked, limit, out)| ==>
      Try(rs, t, cell, checked, limit, out)[i] != Try(rs, t, cell, checked, limit, out)[j]
    decreases Unknowns(t), 0
  {
    var o := SetOrFail(t, cell, checked);
    if o.Ok? {
      AssignShrinks(t, o.state, cell, TriOf(checked));
      SearchDistinct(rs, o.state, limit, out);
    }
  }

  // ---------------------------------------------------------------------
  // solve_masks_limit

  /** The empty board with every Black cell checked; a conflict would be left to propagation. */
  function Init(rs: RuleSet): (s: State)
    requires WellFormed(rs)
    ensures Valid(s) && s.size == rs.size
    ensures forall id: nat :: id < rs.size * rs.size ==>
      GetId(s, id) == if rs.colors[id] == Black then Checked else Unknown
  {
    var blank := Board.New(rs.size);
    assert forall j :: 0 <= j < |rs.blackCells| ==> rs.blackCells[j] < blank.size * blank.size by {
      assert ColorCells(rs, Black) == rs.blackCells;
    }
    var s := FillCells(blank, rs.blackCells, true).state;
    assert forall id: nat :: id < rs.size * rs.size ==> (id in rs.blackCells <==> rs.colors[id] == Black) by {
      assert ColorCells(rs, Black) == rs.blackCells;
    }
    s
  }

  /** The solutions of the board are exactly the admissible completions of the initial board. */
  lemma InitSolutions(rs: RuleSet, m: set<nat>)
    requires WellFormed(rs)
    ensures Solution(rs, m) <==> Sound(rs, Init(rs), m)
  {
    InitCompletes(rs, m);
    BlackHolds(rs, m);
  }

  /** The completions of the initial board are the on-board sets holding every Black cell. */
  lemma InitCompletes(rs: RuleSet, m: set<nat>)
    requires WellFormed(rs)
    ensures Completes(Init(rs), m) <==>
      (forall id :: id in m ==> id < rs.size * rs.size) &&
      (forall id: nat :: id < rs.size * rs.size && rs.colors[id] == Black ==> id in m)
  {
    var s := Init(rs);
    forall id: nat | id >= rs.size * rs.size ensures GetId(s, id) == Unknown {
    }
  }

  /** Every cell's rule holds exactly when the non-Black rules hold and every Black cell is checked. */
  lemma BlackHolds(rs: RuleSet, m: set<nat>)
    requires WellFormed(rs)
    ensures (forall id: nat :: id < rs.size * rs.size ==> CellHolds(rs, m, id)) <==>
      RulesHold(rs, m) && (forall id: nat :: id < rs.size * rs.size && rs.colors[id] == Black ==> id in m)
  {
    forall id: nat | id < rs.size * rs.size && rs.colors[id] == Black ensures CellHolds(rs, m, id) <==> id in m {
    }
  }

  /** Solutions of the board, at most `limit` of them unless limit is 0. */
  function Solve(rs: RuleSet, limit: nat): (res: seq<set<nat>>)
    requires WellFormed(rs) && rs.size * rs.size <= 32
    ensures limit != 0 ==> |res| <= limit
  {
    Search(rs, Init(rs), limit, [])
  }

  /** Every mask Solve returns is a solution, they are pairwise different, and unless the limit cut it short every solution is there. */
  lemma SolveCorrect(rs: RuleSet, limit: nat)
    requires WellFormed(rs) && rs.size * rs.size <= 32
    ensures forall j :: 0 <= j < |Solve(rs, limit)| ==> Solution(rs, Solve(rs, limit)[j])
    ensures forall i, j :: 0 <= i < j < |Solve(rs, limit)| ==> Solve(rs, limit)[i] != Solve(rs, limit)[j]
    ensures limit == 0 || |Solve(rs, limit)| < limit ==>
      forall m :: Solution(rs, m) ==> m in Solve(rs, limit)
  {
    var s, res := Init(rs), Solve(rs, limit);
    SearchSound(rs, s, limit, []);
    SearchDistinct(rs, s, limit, []);
    forall j | 0 <= j < |res| ensures Solution(rs, res[j]) {
      InitSolutions(rs, res[j]);
    }
    forall m | Solution(rs, m) && (limit == 0 || |res| < limit) ensures m in res {
      InitSolutions(rs, m);
      SearchComplete(rs, s, limit, [], m);
    }
  }

  /**
   * Solver::new(colors).solve_masks_limit(limit) on the 5x5 board: the
   * index is built for the grid size and the search runs from the board
   * with its Black cells checked.
   */
  function SolveMasks(colors: seq<Color>, limit: nat): (res: seq<set<nat>>)
    requires |colors| == Masks.CellCount
    ensures limit != 0 ==> |res| <= limit
  {
    Solve(RuleIndex.New(Masks.GridSize, colors), limit)
  }

  /** With no limit, SolveMasks lists exactly the solutions of the colour grid, each once. */
  lemma SolveMasksExact(colors: seq<Color>, m: set<nat>)
    requires |colors| == Masks.CellCount
    ensures m in SolveMasks(colors, 0) <==> Solution(RuleIndex.New(Masks.GridSize, colors), m)
    ensures forall i, j :: 0 <= i < j < |SolveMasks(colors, 0)| ==> SolveMasks(colors, 0)[i] != SolveMasks(colors, 0)[j]
  {
    SolveCorrect(RuleIndex.New(Masks.GridSize, colors), 0);
  }
}
