// The assignment helpers the propagators share (crates/engine/src/solver/mod.rs):
// fill_row_unknowns_as, fill_col_unknowns_as, fill_cells_unknowns_as and the
// neighbour scan every counting rule starts with (checked count, unknown
// count, last unknown neighbour).
module Fill {
  import Results
  import opened Lines
  import opened Board

  /** A propagation pass either proves the state contradictory or yields the extended state. */
  datatype Outcome = Fail | Ok(state: State)
  {
    predicate IsFailure() { Fail? }

    function PropagateFailure(): Outcome
      requires Fail?
    {
      Fail
    }

    function Extract(): State
      requires Ok?
    {
      state
    }
  }

  /** t is s with every cell of ids that s leaves unknown set to v, and nothing else changed. */
  ghost predicate Filled(s: State, t: State, ids: seq<nat>, v: Tri)
  {
    t.size == s.size &&
    forall id :: GetId(t, id) == (if id in ids && GetId(s, id) == Unknown then v else GetId(s, id))
  }

  lemma FilledNothing(s: State, v: Tri)
    ensures Filled(s, s, [], v)
  {
  }

  /** Setting one unknown cell and then filling the rest fills the whole list. */
  lemma FilledSet(s: State, s1: State, t: State, x: nat, tail: seq<nat>, v: Tri)
    requires GetId(s, x) == Unknown && v != Unknown
    requires Assigned(s, s1, x, v) && Filled(s1, t, tail, v)
    ensures Filled(s, t, [x] + tail, v)
  {
  }

  /** A cell already decided is skipped. */
  lemma FilledSkip(s: State, t: State, x: nat, tail: seq<nat>, v: Tri)
    requires GetId(s, x) != Unknown && Filled(s, t, tail, v)
    ensures Filled(s, t, [x] + tail, v)
  {
  }

  /** Filling leaves every decided cell as it was. */
  lemma FilledExtends(s: State, t: State, ids: seq<nat>, v: Tri)
    requires Filled(s, t, ids, v)
    ensures Extends(s, t)
  {
  }

  /** The id of (r, c) reads back the value of (r, c). */
  lemma GetIdAt(s: State, r: nat, c: nat)
    requires 0 < s.size && c < s.size
    ensures GetId(s, Id(s.size, r, c)) == Get(s, r, c)
  {
    IdDecode(s.size, r, c);
  }

  // ---------------------------------------------------------------------
  // fill_cells_unknowns_as

  /** Sets every still-unknown cell of ids to `checked`, in list order. */
  function FillCells(s: State, ids: seq<nat>, checked: bool): (o: Outcome)
    requires Valid(s)
    requires forall j :: 0 <= j < |ids| ==> ids[j] < s.size * s.size
    ensures o.Ok? && Valid(o.state)
    ensures Filled(s, o.state, ids, TriOf(checked))
    decreases |ids|
  {
    if |ids| == 0 then Ok(s)
    else
      assert ids == [ids[0]] + ids[1..];
      if GetId(s, ids[0]) != Unknown then
        var o := FillCells(s, ids[1..], checked);
        FilledSkip(s, o.state, ids[0], ids[1..], TriOf(checked));
        o
      else
        match SetId(s, ids[0], checked)
        case Conflict => Fail
        case Applied(_, s1) =>
          var o := FillCells(s1, ids[1..], checked);
          FilledSet(s, s1, o.state, ids[0], ids[1..], TriOf(checked));
          o
  }

  // ---------------------------------------------------------------------
  // fill_row_unknowns_as / fill_col_unknowns_as

  /** The cell j steps right of (r, c) (across) or below it (down). */
  function Shifted(n: nat, r: nat, c: nat, j: nat, across: bool): nat
  {
    if across then Id(n, r, c + j) else Id(n, r + j, c)
  }

  /** The cells of row r from column c on, left to right. */
  function RowFrom(n: nat, r: nat, c: nat): (ids: seq<nat>)
    requires c <= n
    ensures |ids| == n - c
  {
    seq(n - c, j requires 0 <= j < n - c => Shifted(n, r, c, j, true))
  }

  /** The cells of column c from row r on, top to bottom. */
  function ColFrom(n: nat, c: nat, r: nat): (ids: seq<nat>)
    requires r <= n
    ensures |ids| == n - r
  {
    seq(n - r, j requires 0 <= j < n - r => Shifted(n, r, c, j, false))
  }

  /**
   * Sets every unknown cell of row r to `checked`. The source takes the
   * unknown-column mask once and walks its set bits from the lowest up.
   */
  function FillRow(s: State, r: nat, checked: bool): (o: Outcome)
    requires Valid(s) && r < s.size
    ensures o.Ok? && Valid(o.state)
    ensures Filled(s, o.state, LineIds(s.size, RowLine, r), TriOf(checked))
  {
    var o := FillRowFrom(s, r, UnknownColsInRow(s, r), 0, checked);
    assert RowFrom(s.size, r, 0) == LineIds(s.size, RowLine, r);
    o
  }

  function FillRowFrom(s: State, r: nat, mask: set<nat>, c: nat, checked: bool): (o: Outcome)
    requires Valid(s) && r < s.size && c <= s.size
    requires forall c2: nat :: c <= c2 < s.size ==> (c2 in mask <==> Get(s, r, c2) == Unknown)
    ensures o.Ok? && Valid(o.state)
    ensures Filled(s, o.state, RowFrom(s.size, r, c), TriOf(checked))
    decreases s.size - c
  {
    var n := s.size;
    if c == n then Ok(s)
    else
      assert RowFrom(n, r, c) == [Id(n, r, c)] + RowFrom(n, r, c + 1);
      GetIdAt(s, r, c);
      var u := if checked then SetChecked(s, r, c) else SetUnchecked(s, r, c);
      if c !in mask then
        var o := FillRowFrom(s, r, mask, c + 1, checked);
        FilledSkip(s, o.state, Id(n, r, c), RowFrom(n, r, c + 1), TriOf(checked));
        o
      else if u.Conflict? then Fail
      else
        var s1 := u.state;
        RowUnchangedBeyond(s, s1, r, c, TriOf(checked));
        var o := FillRowFrom(s1, r, mask, c + 1, checked);
        FilledSet(s, s1, o.state, Id(n, r, c), RowFrom(n, r, c + 1), TriOf(checked));
        o
  }

  lemma RowUnchangedBeyond(s: State, s1: State, r: nat, c: nat, v: Tri)
    requires 0 < s.size && r < s.size && c < s.size
    requires Assigned(s, s1, Id(s.size, r, c), v)
    ensures forall c2: nat :: c < c2 < s.size ==> Get(s1, r, c2) == Get(s, r, c2)
  {
    forall c2: nat | c < c2 < s.size ensures Get(s1, r, c2) == Get(s, r, c2) {
      GetIdAt(s, r, c2);
      GetIdAt(s1, r, c2);
      IdInjective(s.size, r, c, r, c2);
    }
  }

  /** Sets every unknown cell of column c to `checked`, walking the unknown-row mask upwards. */
  function FillCol(s: State, c: nat, checked: bool): (o: Outcome)
    requires Valid(s) && c < s.size
    ensures o.Ok? && Valid(o.state)
    ensures Filled(s, o.state, LineIds(s.size, ColLine, c), TriOf(checked))
  {
    var o := FillColFrom(s, c, UnknownRowsInCol(s, c), 0, checked);
    assert ColFrom(s.size, c, 0) == LineIds(s.size, ColLine, c);
    o
  }

  function FillColFrom(s: State, c: nat, mask: set<nat>, r: nat, checked: bool): (o: Outcome)
    requires Valid(s) && c < s.size && r <= s.size
    requires forall r2: nat :: r <= r2 < s.size ==> (r2 in mask <==> Get(s, r2, c) == Unknown)
    ensures o.Ok? && Valid(o.state)
    ensures Filled(s, o.state, ColFrom(s.size, c, r), TriOf(checked))
    decreases s.size - r
  {
    var n := s.size;
    if r == n then Ok(s)
    else
      assert ColFrom(n, c, r) == [Id(n, r, c)] + ColFrom(n, c, r + 1);
      GetIdAt(s, r, c);
      var u := if checked then SetChecked(s, r, c) else SetUnchecked(s, r, c);
      if r !in mask then
        var o := FillColFrom(s, c, mask, r + 1, checked);
        FilledSkip(s, o.state, Id(n, r, c), ColFrom(n, c, r + 1), TriOf(checked));
        o
      else if u.Conflict? then Fail
      else
        var s1 := u.state;
        ColUnchangedBeyond(s, s1, r, c, TriOf(checked));
        var o := FillColFrom(s1, c, mask, r + 1, checked);
        FilledSet(s, s1, o.state, Id(n, r, c), ColFrom(n, c, r + 1), TriOf(checked));
        o
  }

  lemma ColUnchangedBeyond(s: State, s1: State, r: nat, c: nat, v: Tri)
    requires 0 < s.size && r < s.size && c < s.size
    requires Assigned(s, s1, Id(s.size, r, c), v)
    ensures forall r2: nat :: r < r2 < s.size ==> Get(s1, r2, c) == Get(s, r2, c)
  {
    forall r2: nat | r < r2 < s.size ensures Get(s1, r2, c) == Get(s, r2, c) {
      GetIdAt(s, r2, c);
      GetIdAt(s1, r2, c);
      IdInjective(s.size, r, c, r2, c);
    }
  }

  // ---------------------------------------------------------------------
  // The neighbour scan of the counting rules

  /** What one pass over a neighbour list sees: checked count, unknown count, last unknown. */
  datatype Scan = Scan(checked: nat, unknown: nat, last: Results.Option<nat>)

  function ScanIds(s: State, ids: seq<nat>): (sc: Scan)
    ensures sc.checked == Count(s, ids, Checked) && sc.unknown == Count(s, ids, Unknown)
    ensures sc.last.Some? <==> sc.unknown > 0
    ensures sc.last.Some? ==> sc.last.value in ids && GetId(s, sc.last.value) == Unknown
    ensures sc.unknown == 1 ==>
      forall j :: 0 <= j < |ids| && GetId(s, ids[j]) == Unknown ==> ids[j] == sc.last.value
  {
    if |ids| == 0 then Scan(0, 0, Results.None)
    else
      var rest := ScanIds(s, ids[1..]);
      assert forall j :: 1 <= j < |ids| ==> ids[j] == ids[1..][j - 1];
      match GetId(s, ids[0])
      case Checked => rest.(checked := rest.checked + 1)
      case Unchecked => rest
      case Unknown =>
        CountZero(s, ids[1..], Unknown);
        Scan(rest.checked, rest.unknown + 1, if rest.last.Some? then rest.last else Results.Some(ids[0]))
  }

  /** A value counted zero times does not occur. */
  lemma {:induction false} CountZero(s: State, ids: seq<nat>, v: Tri)
    ensures Count(s, ids, v) == 0 ==> forall j :: 0 <= j < |ids| ==> GetId(s, ids[j]) != v
  {
    if |ids| > 0 {
      CountZero(s, ids[1..], v);
      assert forall j :: 1 <= j < |ids| ==> ids[j] == ids[1..][j - 1];
    }
  }

  /** With a single unknown entry x, a completion counts the checked entries plus x if it takes x. */
  lemma {:induction false} CountInOneUnknown(s: State, m: set<nat>, ids: seq<nat>, x: nat)
    requires Completes(s, m)
    requires Count(s, ids, Unknown) == 1
    requires forall j :: 0 <= j < |ids| && GetId(s, ids[j]) == Unknown ==> ids[j] == x
    ensures CountIn(m, ids) == Count(s, ids, Checked) + (if x in m then 1 else 0)
  {
    if GetId(s, ids[0]) == Unknown {
      assert forall j :: 1 <= j < |ids| ==> ids[1..][j - 1] == ids[j];
      CountZero(s, ids[1..], Unknown);
      CountDecided(s, m, ids[1..]);
    } else {
      assert forall j :: 0 <= j < |ids[1..]| ==> ids[1..][j] == ids[j + 1];
      CountInOneUnknown(s, m, ids[1..], x);
    }
  }
}
