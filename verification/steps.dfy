// The per-cell deductions of the propagation engine
// (crates/engine/src/solver/mod.rs, propagate_green .. propagate_cyan), each
// stated over the lines or neighbour lists it reads. For every deduction two
// facts are proved: it keeps every completion that obeys the rule (so a
// failure means no such completion exists), and on a board with no unknown
// cell it passes exactly when the rule holds.
module Steps {
  import opened Lines
  import opened Board
  import opened Fill
  import opened Puzzle

  // ---------------------------------------------------------------------
  // Full boards

  /** The checked cells of a board; on a full board its only completion. */
  ghost function Checks(s: State): set<nat>
  {
    set id: nat | id < s.size * s.size && GetId(s, id) == Checked
  }

  lemma FullChecks(s: State)
    requires Valid(s) && Full(s)
    ensures Completes(s, Checks(s))
    ensures forall m :: Completes(s, m) ==> m == Checks(s)
  {
    FullCompletion(s, Checks(s));
  }

  /** A full board cannot be extended: a valid extension of it is the board itself. */
  lemma FullFixed(s: State, t: State)
    requires Valid(s) && Valid(t) && Full(s) && Extends(s, t)
    ensures t == s
  {
    forall id: nat ensures GetId(s, id) == GetId(t, id) {
    }
    Canonical(s, t);
  }

  /** On a full board no cell of an on-board list is unknown. */
  lemma FullNoUnknown(s: State, ids: seq<nat>)
    requires Full(s) && forall j :: 0 <= j < |ids| ==> ids[j] < s.size * s.size
    ensures Count(s, ids, Unknown) == 0
    ensures forall j :: 0 <= j < |ids| ==> GetId(s, ids[j]) != Unknown
  {
    CountAbsent(s, ids, Unknown);
  }

  /** On a full board a list counts, in its only completion, exactly its checked cells. */
  lemma FullCount(s: State, ids: seq<nat>)
    requires Valid(s) && Full(s) && forall j :: 0 <= j < |ids| ==> ids[j] < s.size * s.size
    ensures CountIn(Checks(s), ids) == Count(s, ids, Checked) == |ids| - Count(s, ids, Unchecked)
  {
    FullChecks(s);
    FullNoUnknown(s, ids);
    CountDecided(s, Checks(s), ids);
  }

  // ---------------------------------------------------------------------
  // Outcomes

  /** A passing outcome is a valid board that keeps every decided cell. */
  ghost predicate Grows(s: State, o: Outcome)
  {
    o.Ok? ==> Valid(o.state) && Extends(s, o.state)
  }

  /** The outcome passes and m still completes its board. */
  ghost predicate Keeps(o: Outcome, m: set<nat>)
  {
    o.Ok? && Completes(o.state, m)
  }

  /** Filling cells with v keeps a completion that gives every still-unknown one of them v. */
  lemma FillKeeps(s0: State, s: State, t: State, ids: seq<nat>, v: Tri, m: set<nat>)
    requires Extends(s0, s) && Completes(s, m) && Filled(s, t, ids, v) && v != Unknown
    requires forall j :: 0 <= j < |ids| && GetId(s0, ids[j]) == Unknown ==> (ids[j] in m <==> v == Checked)
    ensures Completes(t, m)
  {
    forall id | GetId(t, id) != GetId(s, id)
      ensures id in m <==> v == Checked
    {
      var j :| 0 <= j < |ids| && ids[j] == id;
    }
  }

  // ---------------------------------------------------------------------
  // try_set_checked_id / try_set_unchecked_id

  /** Decides one cell; a conflict with its known value fails the pass. */
  function SetOrFail(s: State, id: nat, checked: bool): (o: Outcome)
    requires Valid(s) && id < s.size * s.size
    ensures o.Fail? <==> GetId(s, id) == TriOf(!checked)
    ensures o.Ok? ==> Valid(o.state) && Assigned(s, o.state, id, TriOf(checked))
    ensures Grows(s, o)
  {
    match SetId(s, id, checked)
    case Conflict => Fail
    case Applied(_, t) => Ok(t)
  }

  /** Deciding a cell the way the completion m has it keeps m. */
  lemma SetKeeps(s: State, id: nat, checked: bool, m: set<nat>)
    requires Valid(s) && id < s.size * s.size && Completes(s, m)
    requires id in m <==> checked
    ensures Keeps(SetOrFail(s, id, checked), m)
  {
  }

  // ---------------------------------------------------------------------
  // Red (8 neighbours) and a checked Cyan cell (4 neighbours): at least one checked

  /**
   * No checked neighbour and no unknown one fails; no checked neighbour and
   * exactly one unknown one forces that one checked.
   */
  function AtLeastOne(s: State, nb: seq<nat>): (o: Outcome)
    requires Valid(s) && forall j :: 0 <= j < |nb| ==> nb[j] < s.size * s.size
    ensures Grows(s, o)
  {
    var sc := ScanIds(s, nb);
    if sc.checked > 0 then Ok(s)
    else if sc.unknown == 0 then Fail
    else if sc.unknown == 1 then SetOrFail(s, sc.last.value, true)
    else Ok(s)
  }

  lemma AtLeastOneKeeps(s: State, nb: seq<nat>, m: set<nat>)
    requires Valid(s) && forall j :: 0 <= j < |nb| ==> nb[j] < s.size * s.size
    requires Completes(s, m) && CountIn(m, nb) >= 1
    ensures Keeps(AtLeastOne(s, nb), m)
  {
    var sc := ScanIds(s, nb);
    if sc.checked == 0 {
      if sc.unknown == 0 {
        CountZero(s, nb, Unknown);
        CountDecided(s, m, nb);
        assert false;
      } else if sc.unknown == 1 {
        CountInOneUnknown(s, m, nb, sc.last.value);
        SetKeeps(s, sc.last.value, true, m);
      }
    }
  }

  lemma AtLeastOneFull(s: State, nb: seq<nat>)
    requires Valid(s) && Full(s) && forall j :: 0 <= j < |nb| ==> nb[j] < s.size * s.size
    ensures AtLeastOne(s, nb).Ok? <==> CountIn(Checks(s), nb) >= 1
  {
    FullNoUnknown(s, nb);
    FullCount(s, nb);
  }

  // ---------------------------------------------------------------------
  // Blue: at most two of the 8 neighbours checked

  /** More than two checked fails; exactly two forces every unknown neighbour unchecked. */
  function AtMostTwo(s: State, nb: seq<nat>): (o: Outcome)
    requires Valid(s) && forall j :: 0 <= j < |nb| ==> nb[j] < s.size * s.size
    ensures Grows(s, o)
  {
    var sc := ScanIds(s, nb);
    if sc.checked > 2 then Fail
    else if sc.checked == 2 then
      var o := FillCells(s, nb, false);
      FilledExtends(s, o.state, nb, Unchecked);
      o
    else Ok(s)
  }

  lemma AtMostTwoKeeps(s: State, nb: seq<nat>, m: set<nat>)
    requires Valid(s) && forall j :: 0 <= j < |nb| ==> nb[j] < s.size * s.size
    requires Completes(s, m) && CountIn(m, nb) <= 2
    ensures Keeps(AtMostTwo(s, nb), m)
  {
    CompletionCount(s, m, nb);
    var sc := ScanIds(s, nb);
    if sc.checked == 2 {
      var o := FillCells(s, nb, false);
      FillKeeps(s, s, o.state, nb, Unchecked, m);
    }
  }

  lemma AtMostTwoFull(s: State, nb: seq<nat>)
    requires Valid(s) && Full(s) && forall j :: 0 <= j < |nb| ==> nb[j] < s.size * s.size
    ensures AtMostTwo(s, nb).Ok? <==> CountIn(Checks(s), nb) <= 2
  {
    FullCount(s, nb);
  }

  // ---------------------------------------------------------------------
  // Purple (odd) and Orange (even): the parity of the checked 8 neighbours

  /**
   * With no unknown neighbour the parity must already be right; with one,
   * that neighbour is forced to whatever makes it right.
   */
  function Parity(s: State, nb: seq<nat>, odd: bool): (o: Outcome)
    requires Valid(s) && forall j :: 0 <= j < |nb| ==> nb[j] < s.size * s.size
    ensures Grows(s, o)
  {
    var sc := ScanIds(s, nb);
    if sc.unknown == 0 then
      if (sc.checked % 2 == 1) == odd then Ok(s) else Fail
    else if sc.unknown == 1 then SetOrFail(s, sc.last.value, (sc.checked % 2 == 0) == odd)
    else Ok(s)
  }

  lemma ParityKeeps(s: State, nb: seq<nat>, odd: bool, m: set<nat>)
    requires Valid(s) && forall j :: 0 <= j < |nb| ==> nb[j] < s.size * s.size
    requires Completes(s, m) && (CountIn(m, nb) % 2 == 1) == odd
    ensures Keeps(Parity(s, nb, odd), m)
  {
    var sc := ScanIds(s, nb);
    if sc.unknown == 0 {
      CountZero(s, nb, Unknown);
      CountDecided(s, m, nb);
    } else if sc.unknown == 1 {
      ParityForced(s, nb, odd, m);
    }
  }

  /** With exactly one unknown neighbour, the forced value is the one m has. */
  lemma ParityForced(s: State, nb: seq<nat>, odd: bool, m: set<nat>)
    requires Valid(s) && forall j :: 0 <= j < |nb| ==> nb[j] < s.size * s.size
    requires Completes(s, m) && (CountIn(m, nb) % 2 == 1) == odd
    requires ScanIds(s, nb).unknown == 1
    ensures Keeps(SetOrFail(s, ScanIds(s, nb).last.value, (ScanIds(s, nb).checked % 2 == 0) == odd), m)
  {
    var sc := ScanIds(s, nb);
    var x := sc.last.value;
    CountInOneUnknown(s, m, nb, x);
    ParityDecides(sc.checked, x in m, odd);
    SetKeeps(s, x, (sc.checked % 2 == 0) == odd, m);
  }

  /** If k checked cells plus possibly one more have the wanted parity, that
      one more is taken exactly when k alone has the other parity. */
  lemma ParityDecides(k: nat, taken: bool, odd: bool)
    requires ((k + (if taken then 1 else 0)) % 2 == 1) == odd
    ensures taken <==> (k % 2 == 0) == odd
  {
    OneMoreFlips(k);
  }

  /** One more checked cell flips the parity. */
  lemma OneMoreFlips(k: nat)
    ensures ((k + 1) % 2 == 1) <==> (k % 2 == 0)
  {
  }

  lemma ParityFull(s: State, nb: seq<nat>, odd: bool)
    requires Valid(s) && Full(s) && forall j :: 0 <= j < |nb| ==> nb[j] < s.size * s.size
    ensures Parity(s, nb, odd).Ok? <==> (CountIn(Checks(s), nb) % 2 == 1) == odd
  {
    FullCount(s, nb);
  }

  // ---------------------------------------------------------------------
  // Cyan: a checked cyan cell needs a checked 4-neighbour

  /** Every entry of ids is known unchecked (the source stops at the first that is not). */
  function AllUnchecked(s: State, ids: seq<nat>): (b: bool)
    ensures b <==> forall j :: 0 <= j < |ids| ==> GetId(s, ids[j]) == Unchecked
  {
    if |ids| == 0 then true
    else if GetId(s, ids[0]) != Unchecked then false
    else
      assert forall j :: 1 <= j < |ids| ==> ids[j] == ids[1..][j - 1];
      AllUnchecked(s, ids[1..])
  }

  /**
   * An unchecked cyan cell imposes nothing; a checked one is the at-least-one
   * rule over its 4 neighbours; an unknown one whose 4 neighbours are all
   * unchecked (vacuously so when it has none) is forced unchecked.
   */
  function CyanRule(s: State, id: nat, nb: seq<nat>): (o: Outcome)
    requires Valid(s) && id < s.size * s.size
    requires forall j :: 0 <= j < |nb| ==> nb[j] < s.size * s.size
    ensures Grows(s, o)
  {
    match GetId(s, id)
    case Unchecked => Ok(s)
    case Checked => AtLeastOne(s, nb)
    case Unknown => if AllUnchecked(s, nb) then SetOrFail(s, id, false) else Ok(s)
  }

  lemma CyanKeeps(s: State, id: nat, nb: seq<nat>, m: set<nat>)
    requires Valid(s) && id < s.size * s.size
    requires forall j :: 0 <= j < |nb| ==> nb[j] < s.size * s.size
    requires Completes(s, m) && (id in m ==> CountIn(m, nb) >= 1)
    ensures Keeps(CyanRule(s, id, nb), m)
  {
    match GetId(s, id)
    case Unchecked =>
    case Checked => AtLeastOneKeeps(s, nb, m);
    case Unknown =>
      if AllUnchecked(s, nb) {
        CountAbsent(s, nb, Checked);
        CountDecided(s, m, nb);
        SetKeeps(s, id, false, m);
      }
  }

  lemma CyanFull(s: State, id: nat, nb: seq<nat>)
    requires Valid(s) && Full(s) && id < s.size * s.size
    requires forall j :: 0 <= j < |nb| ==> nb[j] < s.size * s.size
    ensures CyanRule(s, id, nb).Ok? <==> (id in Checks(s) ==> CountIn(Checks(s), nb) >= 1)
  {
    FullChecks(s);
    match GetId(s, id)
    case Unchecked =>
      assert id !in Checks(s);
    case Checked =>
      assert id in Checks(s);
      AtLeastOneFull(s, nb);
  }

  // ---------------------------------------------------------------------
  // Green (row and column) and Yellow (the two diagonals): equal checked counts

  /**
   * fill_row_unknowns_as, fill_col_unknowns_as, or fill_cells_unknowns_as
   * over a diagonal bucket (the index's buckets are these lists).
   */
  function FillLine(s: State, kind: LineKind, k: nat, checked: bool): (o: Outcome)
    requires Valid(s) && k < NumLines(s.size, kind)
    ensures o.Ok? && Valid(o.state)
    ensures Filled(s, o.state, LineIds(s.size, kind, k), TriOf(checked))
  {
    match kind
    case RowLine => FillRow(s, k, checked)
    case ColLine => FillCol(s, k, checked)
    case _ =>
      LineWellFormed(s.size, kind, k);
      FillCells(s, LineIds(s.size, kind, k), checked)
  }

  /** Line a's unknown cells all checked, then line b's all unchecked. */
  function FillPair(s: State, ka: LineKind, a: nat, kb: LineKind, b: nat): (o: Outcome)
    requires Valid(s) && a < NumLines(s.size, ka) && b < NumLines(s.size, kb)
    ensures o.Ok? && Valid(o.state) && Extends(s, o.state)
  {
    var t := FillLine(s, ka, a, true).state;
    var o := FillLine(t, kb, b, false);
    FilledExtends(s, t, LineIds(s.size, ka, a), Checked);
    FilledExtends(t, o.state, LineIds(s.size, kb, b), Unchecked);
    o
  }

  /**
   * Lines a and b must end with as many checked cells. Both ranges are read
   * once. Disjoint ranges fail. When a's maximum meets b's minimum, a's
   * unknowns are all checked and b's all unchecked; then, with the ranges read
   * before, the same with the roles swapped when b's maximum meets a's minimum.
   */
  function Balance(s: State, ka: LineKind, a: nat, kb: LineKind, b: nat): (o: Outcome)
    requires Valid(s) && a < NumLines(s.size, ka) && b < NumLines(s.size, kb)
    ensures Grows(s, o)
  {
    Decide(s, MinMax(s, ka, a), MinMax(s, kb, b), ka, a, kb, b)
  }

  /** The body of Balance once the two ranges are read. */
  function Decide(s: State, ra: (int, int), rb: (int, int), ka: LineKind, a: nat, kb: LineKind, b: nat): (o: Outcome)
    requires Valid(s) && a < NumLines(s.size, ka) && b < NumLines(s.size, kb)
    ensures Grows(s, o)
  {
    if ra.1 < rb.0 || rb.1 < ra.0 then Fail
    else Ok(Settle(Settle(s, ra.1 == rb.0, ka, a, kb, b), rb.1 == ra.0, kb, b, ka, a))
  }

  /** FillPair when the ranges meet (`tight`), the board unchanged otherwise. */
  function Settle(s: State, tight: bool, ka: LineKind, a: nat, kb: LineKind, b: nat): (t: State)
    requires Valid(s) && a < NumLines(s.size, ka) && b < NumLines(s.size, kb)
    ensures Valid(t) && Extends(s, t)
  {
    if tight then FillPair(s, ka, a, kb, b).state else s
  }

  /** Settle keeps a completion that, when tight, puts a at its maximum and b at its minimum. */
  lemma SettleKeeps(s0: State, s: State, tight: bool, ka: LineKind, a: nat, kb: LineKind, b: nat, m: set<nat>)
    requires Valid(s) && a < NumLines(s.size, ka) && b < NumLines(s.size, kb)
    requires Extends(s0, s) && Completes(s, m)
    requires tight ==> CountIn(m, LineIds(s.size, ka, a)) == |LineIds(s.size, ka, a)| - Count(s0, LineIds(s.size, ka, a), Unchecked)
    requires tight ==> CountIn(m, LineIds(s.size, kb, b)) == Count(s0, LineIds(s.size, kb, b), Checked)
    ensures Completes(Settle(s, tight, ka, a, kb, b), m)
  {
    if tight {
      CompletesBack(s0, s, m);
      CompletionCount(s0, m, LineIds(s.size, ka, a));
      CompletionCount(s0, m, LineIds(s.size, kb, b));
      FillPairKeeps(s0, s, ka, a, kb, b, m);
    }
  }

  /** The count of a list in a completion lies between its checked count and its not-unchecked count. */
  lemma CompletionBounds(s: State, m: set<nat>, ids: seq<nat>)
    requires Completes(s, m)
    ensures Count(s, ids, Checked) <= CountIn(m, ids) <= |ids| - Count(s, ids, Unchecked)
  {
    CompletionCount(s, m, ids);
  }

  /** FillPair keeps a completion that checks a's unknowns and leaves b's unchecked. */
  lemma FillPairKeeps(s0: State, s: State, ka: LineKind, a: nat, kb: LineKind, b: nat, m: set<nat>)
    requires Valid(s) && a < NumLines(s.size, ka) && b < NumLines(s.size, kb)
    requires Extends(s0, s) && Completes(s, m)
    requires forall j :: 0 <= j < |LineIds(s.size, ka, a)| && GetId(s0, LineIds(s.size, ka, a)[j]) == Unknown ==>
      LineIds(s.size, ka, a)[j] in m
    requires forall j :: 0 <= j < |LineIds(s.size, kb, b)| && GetId(s0, LineIds(s.size, kb, b)[j]) == Unknown ==>
      LineIds(s.size, kb, b)[j] !in m
    ensures Keeps(FillPair(s, ka, a, kb, b), m)
  {
    var t := FillLine(s, ka, a, true).state;
    FillKeeps(s0, s, t, LineIds(s.size, ka, a), Checked, m);
    FilledExtends(s, t, LineIds(s.size, ka, a), Checked);
    ExtendsTrans(s0, s, t);
    var u := FillLine(t, kb, b, false).state;
    FillKeeps(s0, t, u, LineIds(s.size, kb, b), Unchecked, m);
  }

  lemma BalanceKeeps(s: State, ka: LineKind, a: nat, kb: LineKind, b: nat, m: set<nat>)
    requires Valid(s) && a < NumLines(s.size, ka) && b < NumLines(s.size, kb)
    requires Completes(s, m) && CountIn(m, LineIds(s.size, ka, a)) == CountIn(m, LineIds(s.size, kb, b))
    ensures Keeps(Balance(s, ka, a, kb, b), m)
  {
    DecideKeeps(s, MinMax(s, ka, a), MinMax(s, kb, b), ka, a, kb, b, m);
  }

  lemma DecideKeeps(s: State, ra: (int, int), rb: (int, int), ka: LineKind, a: nat, kb: LineKind, b: nat, m: set<nat>)
    requires Valid(s) && a < NumLines(s.size, ka) && b < NumLines(s.size, kb)
    requires Completes(s, m) && CountIn(m, LineIds(s.size, ka, a)) == CountIn(m, LineIds(s.size, kb, b))
    requires ra.0 == Count(s, LineIds(s.size, ka, a), Checked)
    requires ra.1 == |LineIds(s.size, ka, a)| - Count(s, LineIds(s.size, ka, a), Unchecked)
    requires rb.0 == Count(s, LineIds(s.size, kb, b), Checked)
    requires rb.1 == |LineIds(s.size, kb, b)| - Count(s, LineIds(s.size, kb, b), Unchecked)
    ensures Keeps(Decide(s, ra, rb, ka, a, kb, b), m)
  {
    var la, lb := LineIds(s.size, ka, a), LineIds(s.size, kb, b);
    CompletionBounds(s, m, la);
    CompletionBounds(s, m, lb);
    SettleKeeps(s, s, ra.1 == rb.0, ka, a, kb, b, m);
    var s1 := Settle(s, ra.1 == rb.0, ka, a, kb, b);
    SettleKeeps(s, s1, rb.1 == ra.0, kb, b, ka, a, m);
    assert !(ra.1 < rb.0 || rb.1 < ra.0);
    assert Decide(s, ra, rb, ka, a, kb, b) == Ok(Settle(s1, rb.1 == ra.0, kb, b, ka, a));
  }

  lemma BalanceFull(s: State, ka: LineKind, a: nat, kb: LineKind, b: nat)
    requires Valid(s) && Full(s) && a < NumLines(s.size, ka) && b < NumLines(s.size, kb)
    ensures Balance(s, ka, a, kb, b).Ok? <==>
      CountIn(Checks(s), LineIds(s.size, ka, a)) == CountIn(Checks(s), LineIds(s.size, kb, b))
  {
    LineWellFormed(s.size, ka, a);
    LineWellFormed(s.size, kb, b);
    FullCount(s, LineIds(s.size, ka, a));
    FullCount(s, LineIds(s.size, kb, b));
  }

  /** propagate_green at (r, c): the row and the column through the cell. */
  function RowColStep(s: State, r: nat, c: nat): (o: Outcome)
    requires Valid(s) && r < s.size && c < s.size
    ensures Grows(s, o)
  {
    Balance(s, RowLine, r, ColLine, c)
  }

  lemma RowColKeeps(s: State, r: nat, c: nat, m: set<nat>)
    requires Valid(s) && r < s.size && c < s.size
    requires Completes(s, m) && RowColBalanced(s.size, m, r, c)
    ensures Keeps(RowColStep(s, r, c), m)
  {
    BalanceKeeps(s, RowLine, r, ColLine, c, m);
  }

  lemma RowColFull(s: State, r: nat, c: nat)
    requires Valid(s) && Full(s) && r < s.size && c < s.size
    ensures RowColStep(s, r, c).Ok? <==> RowColBalanced(s.size, Checks(s), r, c)
  {
    BalanceFull(s, RowLine, r, ColLine, c);
  }

  /** The `\\` diagonal through (r, c): `r + (size - 1) - c`. */
  function DownIndex(n: nat, r: nat, c: nat): (d: nat)
    requires r < n && c < n
    ensures d == DownId(n, r, c) && d < NumLines(n, DownLine)
  {
    r + (n - 1) - c
  }

  /** propagate_yellow at (r, c): the `\\` diagonal and the `/` diagonal r + c through the cell. */
  function DiagonalsStep(s: State, r: nat, c: nat): (o: Outcome)
    requires Valid(s) && r < s.size && c < s.size
    ensures Grows(s, o)
  {
    Balance(s, DownLine, DownIndex(s.size, r, c), UpLine, UpId(r, c))
  }

  lemma DiagonalsKeeps(s: State, r: nat, c: nat, m: set<nat>)
    requires Valid(s) && r < s.size && c < s.size
    requires Completes(s, m) && DiagonalsBalanced(s.size, m, r, c)
    ensures Keeps(DiagonalsStep(s, r, c), m)
  {
    BalanceKeeps(s, DownLine, DownIndex(s.size, r, c), UpLine, UpId(r, c), m);
  }

  lemma DiagonalsFull(s: State, r: nat, c: nat)
    requires Valid(s) && Full(s) && r < s.size && c < s.size
    ensures DiagonalsStep(s, r, c).Ok? <==> DiagonalsBalanced(s.size, Checks(s), r, c)
  {
    BalanceFull(s, DownLine, DownIndex(s.size, r, c), UpLine, UpId(r, c));
  }

  // ---------------------------------------------------------------------
  // five_in_a_row_possible: some line of five may still be completed

  /** Cell d of an on-board segment reads the value of its id. */
  lemma SegGetId(s: State, seg: Segment, d: nat)
    requires OnBoard(s.size, seg) && d < Len
    ensures SegGet(s, seg, d) == GetId(s, SegCell(s.size, seg, d))
  {
    SegCellOnBoard(s.size, seg, d);
    GetIdAt(s, SegRow(seg, d), SegCol(seg, d));
  }

  /** A completion with a line of five leaves that segment open, so the check passes. */
  lemma FiveKeeps(s: State, m: set<nat>)
    requires Completes(s, m) && Bingo(s.size, m)
    ensures FiveInARowPossible(s)
  {
    var seg :| OnBoard(s.size, seg) && forall d: nat :: d < Len ==> SegCell(s.size, seg, d) in m;
    forall d: nat | d < Len ensures SegGet(s, seg, d) != Unchecked {
      SegGetId(s, seg, d);
    }
  }

  /** On a full board the check passes exactly when some line of five is checked. */
  lemma FiveFull(s: State)
    requires Valid(s) && Full(s)
    ensures FiveInARowPossible(s) <==> Bingo(s.size, Checks(s))
  {
    FullChecks(s);
    if FiveInARowPossible(s) {
      var seg :| OnBoard(s.size, seg) && Open(s, seg);
      forall d: nat | d < Len ensures SegCell(s.size, seg, d) in Checks(s) {
        SegGetId(s, seg, d);
        SegCellOnBoard(s.size, seg, d);
        IdBound(s.size, SegRow(seg, d), SegCol(seg, d));
      }
    } else if Bingo(s.size, Checks(s)) {
      FiveKeeps(s, Checks(s));
    }
  }
}
