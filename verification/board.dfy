// SolverState: the ternary board of the propagation engine, held as row and
// column bit views plus per-line counters (crates/engine/src/solver/state.rs).
// The state is an immutable value; each setter returns the updated state.
module Board {
  import opened Lines

  datatype Tri = Unknown | Checked | Unchecked

  /**
   * pos_rows[r] / neg_rows[r]: columns of row r known checked / unchecked;
   * pos_cols[c] / neg_cols[c]: the same facts seen by column. Each u32 view is
   * the set of its set bit positions. The counters cache, per line, how many of
   * its cells are checked or unchecked.
   */
  datatype State = State(
    size: nat,
    posRows: seq<set<nat>>, negRows: seq<set<nat>>,
    posCols: seq<set<nat>>, negCols: seq<set<nat>>,
    rowChecked: seq<nat>, rowUnchecked: seq<nat>,
    colChecked: seq<nat>, colUnchecked: seq<nat>,
    downChecked: seq<nat>, downUnchecked: seq<nat>,
    upChecked: seq<nat>, upUnchecked: seq<nat>,
    downLen: seq<nat>, upLen: seq<nat>)

  // ---------------------------------------------------------------------
  // Reading cells

  /**
   * is_checked / is_unchecked / is_unknown, read from the row views. On a
   * valid state the column views say the same. The source indexes the row
   * vector and shifts a 32-bit mask, so a row off the board panics there; the
   * model reads every cell off the board as unknown instead.
   */
  function Get(s: State, r: nat, c: nat): (t: Tri)
    ensures Shape(s) && ViewsAgree(s) && r < s.size && c < s.size ==>
      (t == Checked <==> r in s.posCols[c]) && (t == Unchecked <==> r in s.negCols[c])
    ensures Shape(s) && ViewsAgree(s) && (r >= s.size || c >= s.size) ==> t == Unknown
  {
    if r < |s.posRows| && c in s.posRows[r] then Checked
    else if r < |s.negRows| && c in s.negRows[r] then Unchecked
    else Unknown
  }

  /**
   * The `_id` variants: `id_to_rc` then the (row, col) reader. An id on the
   * board reads what the column views hold for its row and column; an id past
   * the last cell, where the source panics, reads as unknown.
   */
  function GetId(s: State, id: nat): (t: Tri)
    ensures Shape(s) && ViewsAgree(s) && 0 < s.size && id < s.size * s.size ==>
      (t == Checked <==> id / s.size in s.posCols[id % s.size])
      && (t == Unchecked <==> id / s.size in s.negCols[id % s.size])
    ensures Shape(s) && ViewsAgree(s) && id >= s.size * s.size ==> t == Unknown
  {
    if s.size == 0 then Unknown
    else
      RowPastBoard(s.size, id);
      Get(s, id / s.size, id % s.size)
  }

  /** An id's row is on the board exactly when the id is below size * size. */
  lemma RowPastBoard(n: nat, id: nat)
    requires 0 < n
    ensures id / n < n <==> id < n * n
  {
    if id / n < n {
      MulMono(id / n + 1, n, n);
    } else {
      MulMono(n, id / n, n);
    }
  }

  /** Number of cells of `ids` whose value is v. */
  function Count(s: State, ids: seq<nat>, v: Tri): nat
  {
    if |ids| == 0 then 0
    else (if GetId(s, ids[0]) == v then 1 else 0) + Count(s, ids[1..], v)
  }

  /** The cached counters of one family of lines, checked or unchecked. */
  function Counters(s: State, kind: LineKind, checked: bool): seq<nat>
  {
    match kind
    case RowLine => if checked then s.rowChecked else s.rowUnchecked
    case ColLine => if checked then s.colChecked else s.colUnchecked
    case DownLine => if checked then s.downChecked else s.downUnchecked
    case UpLine => if checked then s.upChecked else s.upUnchecked
  }

  function TriOf(checked: bool): Tri { if checked then Checked else Unchecked }

  // ---------------------------------------------------------------------
  // The representation invariant

  ghost predicate Shape(s: State)
  {
    var n := s.size;
    1 <= n <= 32 &&
    |s.posRows| == n && |s.negRows| == n && |s.posCols| == n && |s.negCols| == n &&
    |s.rowChecked| == n && |s.rowUnchecked| == n && |s.colChecked| == n && |s.colUnchecked| == n &&
    |s.downChecked| == 2 * n - 1 && |s.downUnchecked| == 2 * n - 1 &&
    |s.upChecked| == 2 * n - 1 && |s.upUnchecked| == 2 * n - 1 &&
    |s.downLen| == 2 * n - 1 && |s.upLen| == 2 * n - 1
  }

  /** No bit outside the board, no cell both checked and unchecked, and the two views agree. */
  ghost predicate ViewsAgree(s: State)
    requires Shape(s)
  {
    var n := s.size;
    (forall r, c :: 0 <= r < n && c in s.posRows[r] ==> c < n && c !in s.negRows[r]) &&
    (forall r, c :: 0 <= r < n && c in s.negRows[r] ==> c < n) &&
    (forall c, r :: 0 <= c < n && r in s.posCols[c] ==> r < n) &&
    (forall c, r :: 0 <= c < n && r in s.negCols[c] ==> r < n) &&
    (forall r, c :: 0 <= r < n && 0 <= c < n ==>
      (c in s.posRows[r] <==> r in s.posCols[c]) && (c in s.negRows[r] <==> r in s.negCols[c]))
  }

  /** Every counter equals the number of cells of its line holding that value. */
  ghost predicate CountersExact(s: State)
    requires Shape(s)
  {
    forall kind: LineKind, k: nat, checked: bool :: k < NumLines(s.size, kind) ==>
      Counters(s, kind, checked)[k] == Count(s, LineIds(s.size, kind, k), TriOf(checked))
  }

  ghost predicate LengthsExact(s: State)
    requires Shape(s)
  {
    forall d :: 0 <= d < 2 * s.size - 1 ==>
      s.downLen[d] == |LineIds(s.size, DownLine, d)| && s.upLen[d] == |LineIds(s.size, UpLine, d)|
  }

  ghost predicate Valid(s: State)
  {
    Shape(s) && ViewsAgree(s) && CountersExact(s) && LengthsExact(s)
  }

  /** Number of decided cells, read from the row counters. */
  function DecidedCount(s: State): nat
  {
    Sum(s.rowChecked) + Sum(s.rowUnchecked)
  }

  function Sum(xs: seq<nat>): nat
  {
    if |xs| == 0 then 0 else xs[0] + Sum(xs[1..])
  }

  /** s2 keeps every value s had decided. */
  ghost predicate Extends(s: State, s2: State)
  {
    s2.size == s.size &&
    forall id :: GetId(s, id) != Unknown ==> GetId(s2, id) == GetId(s, id)
  }

  /** s2 is s with cell x set to v and nothing else changed. */
  ghost predicate Assigned(s: State, s2: State, x: nat, v: Tri)
  {
    s2.size == s.size &&
    forall id :: GetId(s2, id) == (if id == x then v else GetId(s, id))
  }

  // ---------------------------------------------------------------------
  // Construction

  /** `size - |id - (size - 1)|`, the length SolverState::new records for diagonal id. */
  function DiagLength(n: nat, d: nat): nat
    requires d < 2 * n - 1
  {
    n - Abs(d - (n - 1))
  }

  /** SolverState::new: every cell unknown, diagonal d of length size - |d - (size - 1)|. */
  function New(n: nat): (s: State)
    requires 1 <= n <= 32
    ensures Valid(s) && s.size == n
    ensures forall id :: GetId(s, id) == Unknown
    ensures DecidedCount(s) == 0
  {
    var lens := seq(2 * n - 1, d requires 0 <= d < 2 * n - 1 => DiagLength(n, d));
    var empty := seq(n, _ => {});
    var zeros := seq(n, _ => 0);
    var dzeros := seq(2 * n - 1, _ => 0);
    var s := State(n, empty, empty, empty, empty, zeros, zeros, zeros, zeros,
      dzeros, dzeros, dzeros, dzeros, lens, lens);
    BlankIsValid(s);
    SumZeros(zeros);
    s
  }

  lemma BlankIsValid(s: State)
    requires Shape(s)
    requires forall r :: 0 <= r < s.size ==>
      s.posRows[r] == {} && s.negRows[r] == {} && s.posCols[r] == {} && s.negCols[r] == {}
    requires forall kind: LineKind, k: nat, checked: bool :: k < NumLines(s.size, kind) ==>
      Counters(s, kind, checked)[k] == 0
    requires forall d :: 0 <= d < 2 * s.size - 1 ==>
      s.downLen[d] == DiagLength(s.size, d) && s.upLen[d] == DiagLength(s.size, d)
    ensures Valid(s)
    ensures forall id :: GetId(s, id) == Unknown
  {
    var n := s.size;
    BlankUnknown(s);
    forall kind: LineKind, k: nat, checked: bool | k < NumLines(n, kind)
      ensures Counters(s, kind, checked)[k] == Count(s, LineIds(n, kind, k), TriOf(checked))
    {
      CountAbsent(s, LineIds(n, kind, k), TriOf(checked));
    }
    forall d | 0 <= d < 2 * n - 1
      ensures s.downLen[d] == |LineIds(n, DownLine, d)| && s.upLen[d] == |LineIds(n, UpLine, d)|
    {
      LineLength(n, DownLine, d);
      LineLength(n, UpLine, d);
    }
  }

  /** A board with no bit set reads Unknown everywhere. */
  lemma BlankUnknown(s: State)
    requires forall r :: 0 <= r < |s.posRows| ==> s.posRows[r] == {}
    requires forall r :: 0 <= r < |s.negRows| ==> s.negRows[r] == {}
    ensures forall id :: GetId(s, id) == Unknown
  {
  }

  lemma {:induction false} CountAbsent(s: State, ids: seq<nat>, v: Tri)
    requires forall j :: 0 <= j < |ids| ==> GetId(s, ids[j]) != v
    ensures Count(s, ids, v) == 0
  {
    if |ids| > 0 {
      CountAbsent(s, ids[1..], v);
    }
  }

  lemma {:induction false} SumZeros(xs: seq<nat>)
    requires forall i :: 0 <= i < |xs| ==> xs[i] == 0
    ensures Sum(xs) == 0
  {
    if |xs| > 0 {
      SumZeros(xs[1..]);
    }
  }

  // ---------------------------------------------------------------------
  // Setting a cell

  /** Result of set_checked / set_unchecked: Err(()) or Ok(changed) with the new state. */
  datatype Update = Conflict | Applied(changed: bool, state: State)

  /** Writes value v into an unknown cell: both views and the four counters through it. */
  function Assign(s: State, r: nat, c: nat, checked: bool): (s2: State)
    requires Valid(s) && r < s.size && c < s.size
    requires Get(s, r, c) == Unknown
    ensures Valid(s2)
    ensures Assigned(s, s2, Id(s.size, r, c), TriOf(checked))
    ensures DecidedCount(s2) == DecidedCount(s) + 1
  {
    var n := s.size;
    var down, up := DownId(n, r, c), UpId(r, c);
    var s2 :=
      if checked then
        s.(posRows := s.posRows[r := s.posRows[r] + {c}],
           posCols := s.posCols[c := s.posCols[c] + {r}],
           rowChecked := Bump(s.rowChecked, r),
           colChecked := Bump(s.colChecked, c),
           downChecked := Bump(s.downChecked, down),
           upChecked := Bump(s.upChecked, up))
      else
        s.(negRows := s.negRows[r := s.negRows[r] + {c}],
           negCols := s.negCols[c := s.negCols[c] + {r}],
           rowUnchecked := Bump(s.rowUnchecked, r),
           colUnchecked := Bump(s.colUnchecked, c),
           downUnchecked := Bump(s.downUnchecked, down),
           upUnchecked := Bump(s.upUnchecked, up));
    AssignPointwise(s, s2, r, c, checked);
    AssignCounters(s, s2, r, c, checked);
    SumBump(if checked then s.rowChecked else s.rowUnchecked, r);
    s2
  }

  function Bump(xs: seq<nat>, k: nat): (ys: seq<nat>)
    requires k < |xs|
    ensures |ys| == |xs|
  {
    xs[k := xs[k] + 1]
  }

  lemma {:induction false} SumBump(xs: seq<nat>, k: nat)
    requires k < |xs|
    ensures Sum(Bump(xs, k)) == Sum(xs) + 1
  {
    if k > 0 {
      assert Bump(xs, k)[1..] == Bump(xs[1..], k - 1);
      SumBump(xs[1..], k - 1);
    } else {
      assert Bump(xs, k)[1..] == xs[1..];
    }
  }

  /** The new state differs from the old one in cell (r, c) only. */
  lemma AssignPointwise(s: State, s2: State, r: nat, c: nat, checked: bool)
    requires r < s.size == |s.posRows| == |s.negRows| && c < s.size && Get(s, r, c) == Unknown
    requires s2.size == s.size
    requires checked ==> s2.negRows == s.negRows && s2.posRows == s.posRows[r := s.posRows[r] + {c}]
    requires !checked ==> s2.posRows == s.posRows && s2.negRows == s.negRows[r := s.negRows[r] + {c}]
    ensures Assigned(s, s2, Id(s.size, r, c), TriOf(checked))
  {
    var n := s.size;
    IdDecode(n, r, c);
    forall id ensures GetId(s2, id) == (if id == Id(n, r, c) then TriOf(checked) else GetId(s, id)) {
      IdMatch(n, id, r, c);
      GetAfterAssign(s, s2, r, c, checked, id / n, id % n);
    }
  }

  lemma GetAfterAssign(s: State, s2: State, r: nat, c: nat, checked: bool, r2: nat, c2: nat)
    requires r < |s.posRows| && r < |s.negRows| && Get(s, r, c) == Unknown
    requires checked ==> s2.negRows == s.negRows && s2.posRows == s.posRows[r := s.posRows[r] + {c}]
    requires !checked ==> s2.posRows == s.posRows && s2.negRows == s.negRows[r := s.negRows[r] + {c}]
    ensures Get(s2, r2, c2) == if r2 == r && c2 == c then TriOf(checked) else Get(s, r2, c2)
  {
  }

  /** Every counter still equals its line's count after Assign. */
  lemma AssignCounters(s: State, s2: State, r: nat, c: nat, checked: bool)
    requires Valid(s) && r < s.size && c < s.size && Get(s, r, c) == Unknown
    requires Shape(s2) && s2.size == s.size
    requires Assigned(s, s2, Id(s.size, r, c), TriOf(checked))
    requires s2.downLen == s.downLen && s2.upLen == s.upLen
    requires forall kind: LineKind, flag: bool ::
      Counters(s2, kind, flag) == (if flag == checked then Bump(Counters(s, kind, flag), LineOf(s.size, kind, r, c))
       else Counters(s, kind, flag))
    requires checked ==> (s2.negRows == s.negRows && s2.negCols == s.negCols &&
      s2.posRows == s.posRows[r := s.posRows[r] + {c}] && s2.posCols == s.posCols[c := s.posCols[c] + {r}])
    requires !checked ==> (s2.posRows == s.posRows && s2.posCols == s.posCols &&
      s2.negRows == s.negRows[r := s.negRows[r] + {c}] && s2.negCols == s.negCols[c := s.negCols[c] + {r}])
    ensures Valid(s2)
  {
    var n := s.size;
    IdDecode(n, r, c);
    IdBound(n, r, c);
    forall kind: LineKind, k: nat, flag: bool | k < NumLines(n, kind)
      ensures Counters(s2, kind, flag)[k] == Count(s2, LineIds(n, kind, k), TriOf(flag))
    {
      InLine(n, kind, k, r, c);
      LineWellFormed(n, kind, k);
      CountAfterAssign(s, s2, Id(n, r, c), TriOf(checked), LineIds(n, kind, k), TriOf(flag));
    }
    AssignViews(s, s2, r, c, checked);
  }

  /** The row and column views still agree after the write. */
  lemma AssignViews(s: State, s2: State, r: nat, c: nat, checked: bool)
    requires Shape(s) && ViewsAgree(s) && r < s.size && c < s.size && Get(s, r, c) == Unknown
    requires Shape(s2) && s2.size == s.size
    requires checked ==> (s2.negRows == s.negRows && s2.negCols == s.negCols &&
      s2.posRows == s.posRows[r := s.posRows[r] + {c}] && s2.posCols == s.posCols[c := s.posCols[c] + {r}])
    requires !checked ==> (s2.posRows == s.posRows && s2.posCols == s.posCols &&
      s2.negRows == s.negRows[r := s.negRows[r] + {c}] && s2.negCols == s.negCols[c := s.negCols[c] + {r}])
    ensures ViewsAgree(s2)
  {
  }

  /** Writing v into unknown cell x moves one unit of x's line from Unknown to v. */
  lemma {:induction false} CountAfterAssign(s: State, s2: State, x: nat, v: Tri, ids: seq<nat>, w: Tri)
    requires Assigned(s, s2, x, v) && GetId(s, x) == Unknown && v != Unknown
    requires Distinct(ids)
    ensures Count(s2, ids, w) ==
      Count(s, ids, w) + (if x in ids && w == v then 1 else 0) - (if x in ids && w == Unknown then 1 else 0)
  {
    if |ids| > 0 {
      assert Distinct(ids[1..]);
      CountAfterAssign(s, s2, x, v, ids[1..], w);
      assert x in ids <==> x == ids[0] || x in ids[1..];
      if x == ids[0] {
        assert x !in ids[1..];
      }
    }
  }

  /** set_checked: Err(()) on an unchecked cell, Ok(false) if already checked, else Ok(true). */
  function SetChecked(s: State, r: nat, c: nat): (u: Update)
    requires Valid(s) && r < s.size && c < s.size
    ensures u.Conflict? <==> Get(s, r, c) == Unchecked
    ensures u.Applied? ==> Valid(u.state) && (u.changed <==> Get(s, r, c) == Unknown)
    ensures u.Applied? ==> Assigned(s, u.state, Id(s.size, r, c), Checked)
    ensures u.Applied? && !u.changed ==> u.state == s
    ensures u.Applied? && u.changed ==> DecidedCount(u.state) == DecidedCount(s) + 1
  {
    if c in s.negRows[r] then Conflict
    else if c in s.posRows[r] then
      IdDecode(s.size, r, c);
      Applied(false, s)
    else Applied(true, Assign(s, r, c, true))
  }

  /** set_unchecked: Err(()) on a checked cell, Ok(false) if already unchecked, else Ok(true). */
  function SetUnchecked(s: State, r: nat, c: nat): (u: Update)
    requires Valid(s) && r < s.size && c < s.size
    ensures u.Conflict? <==> Get(s, r, c) == Checked
    ensures u.Applied? ==> Valid(u.state) && (u.changed <==> Get(s, r, c) == Unknown)
    ensures u.Applied? ==> Assigned(s, u.state, Id(s.size, r, c), Unchecked)
    ensures u.Applied? && !u.changed ==> u.state == s
    ensures u.Applied? && u.changed ==> DecidedCount(u.state) == DecidedCount(s) + 1
  {
    if c in s.posRows[r] then Conflict
    else if c in s.negRows[r] then
      IdDecode(s.size, r, c);
      Applied(false, s)
    else Applied(true, Assign(s, r, c, false))
  }

  /** set_checked_id / set_unchecked_id: the (row, col) setter at `id_to_rc(id)`. */
  function SetId(s: State, id: nat, checked: bool): (u: Update)
    requires Valid(s) && id < s.size * s.size
    ensures u.Conflict? <==> GetId(s, id) == TriOf(!checked)
    ensures u.Applied? ==> Valid(u.state) && Assigned(s, u.state, id, TriOf(checked))
    ensures u.Applied? ==> (u.changed <==> GetId(s, id) == Unknown)
    ensures u.Applied? && !u.changed ==> u.state == s
  {
    var rc := IdToRc(s.size, id);
    SetAt(s, id, rc.0, rc.1, checked)
  }

  /** The setter for `checked` at cell id, which is (r, c). */
  function SetAt(s: State, id: nat, r: nat, c: nat, checked: bool): (u: Update)
    requires Valid(s) && r < s.size && c < s.size && id == Id(s.size, r, c)
    ensures u.Conflict? <==> GetId(s, id) == TriOf(!checked)
    ensures u.Applied? ==> Valid(u.state) && Assigned(s, u.state, id, TriOf(checked))
    ensures u.Applied? ==> (u.changed <==> GetId(s, id) == Unknown)
    ensures u.Applied? && !u.changed ==> u.state == s
  {
    IdDecode(s.size, r, c);
    if checked then SetChecked(s, r, c) else SetUnchecked(s, r, c)
  }

  // ---------------------------------------------------------------------
  // Completions: the full assignments a partial board still allows

  /** m (the set of checked ids) decides every cell and agrees with every decided cell of s. */
  ghost predicate Completes(s: State, m: set<nat>)
  {
    (forall id :: id in m ==> id < s.size * s.size) &&
    (forall id :: GetId(s, id) == Checked ==> id in m) &&
    (forall id :: GetId(s, id) == Unchecked ==> id !in m)
  }

  /** Number of positions of `ids` that are checked in m. */
  function CountIn(m: set<nat>, ids: seq<nat>): nat
  {
    if |ids| == 0 then 0 else (if ids[0] in m then 1 else 0) + CountIn(m, ids[1..])
  }

  /** The three counts of a list partition it. */
  lemma {:induction false} CountSplit(s: State, ids: seq<nat>)
    ensures Count(s, ids, Checked) + Count(s, ids, Unchecked) + Count(s, ids, Unknown) == |ids|
  {
    if |ids| > 0 {
      CountSplit(s, ids[1..]);
    }
  }

  /**
   * In every completion, a list holds at least its confirmed-checked cells and
   * at most all but its confirmed-unchecked ones; the bounds are met exactly
   * when all of its unknown cells go the same way.
   */
  lemma {:induction false} CompletionCount(s: State, m: set<nat>, ids: seq<nat>)
    requires Completes(s, m)
    ensures Count(s, ids, Checked) <= CountIn(m, ids) <= |ids| - Count(s, ids, Unchecked)
    ensures CountIn(m, ids) == Count(s, ids, Checked) ==>
      forall j :: 0 <= j < |ids| && GetId(s, ids[j]) == Unknown ==> ids[j] !in m
    ensures CountIn(m, ids) == |ids| - Count(s, ids, Unchecked) ==>
      forall j :: 0 <= j < |ids| && GetId(s, ids[j]) == Unknown ==> ids[j] in m
  {
    if |ids| > 0 {
      CompletionCount(s, m, ids[1..]);
      CountSplit(s, ids[1..]);
      assert forall j :: 1 <= j < |ids| ==> ids[j] == ids[1..][j - 1];
    }
  }

  /** On a board with no unknown cell of the list, the confirmed count is the count. */
  lemma {:induction false} CountDecided(s: State, m: set<nat>, ids: seq<nat>)
    requires Completes(s, m)
    requires forall j :: 0 <= j < |ids| ==> GetId(s, ids[j]) != Unknown
    ensures CountIn(m, ids) == Count(s, ids, Checked) == |ids| - Count(s, ids, Unchecked)
  {
    if |ids| > 0 {
      CountDecided(s, m, ids[1..]);
    }
  }

  // ---------------------------------------------------------------------
  // Line ranges

  /** The counted cells of line k of a family. */
  function LineLen(s: State, kind: LineKind, k: nat): nat
    requires Shape(s) && k < NumLines(s.size, kind)
  {
    match kind
    case RowLine => s.size
    case ColLine => s.size
    case DownLine => s.downLen[k]
    case UpLine => s.upLen[k]
  }

  /**
   * row_min_max / col_min_max / diag_down_min_max / diag_up_min_max: the range
   * of the number of checked cells of a line over all completions.
   */
  function MinMax(s: State, kind: LineKind, k: nat): (range: (int, int))
    requires Valid(s) && k < NumLines(s.size, kind)
    ensures range.0 == Count(s, LineIds(s.size, kind, k), Checked)
    ensures range.1 == |LineIds(s.size, kind, k)| - Count(s, LineIds(s.size, kind, k), Unchecked)
    ensures range.0 <= range.1
    ensures forall m :: Completes(s, m) ==> range.0 <= CountIn(m, LineIds(s.size, kind, k)) <= range.1
  {
    LineLength(s.size, kind, k);
    CountSplit(s, LineIds(s.size, kind, k));
    forall m | Completes(s, m)
      ensures Count(s, LineIds(s.size, kind, k), Checked) <= CountIn(m, LineIds(s.size, kind, k))
      ensures CountIn(m, LineIds(s.size, kind, k)) <= |LineIds(s.size, kind, k)| - Count(s, LineIds(s.size, kind, k), Unchecked)
    {
      CompletionCount(s, m, LineIds(s.size, kind, k));
    }
    (Counters(s, kind, true)[k], LineLen(s, kind, k) - Counters(s, kind, false)[k])
  }

  // ---------------------------------------------------------------------
  // Unknown masks, full decision and the row-major mask

  /** `valid_mask()`: the bit positions below `size`. */
  function LowBits(n: nat): (bits: set<nat>)
    ensures forall c: nat :: c in bits <==> c < n
  {
    if n == 0 then {} else LowBits(n - 1) + {n - 1}
  }

  /** unknown_cols_mask_in_row: the columns of row r not set in either row view. */
  function UnknownColsInRow(s: State, r: nat): (cols: set<nat>)
    requires Valid(s) && r < s.size
    ensures forall c: nat :: c in cols <==> c < s.size && Get(s, r, c) == Unknown
  {
    LowBits(s.size) - (s.posRows[r] + s.negRows[r])
  }

  /** unknown_rows_mask_in_col: the rows of column c not set in either column view. */
  function UnknownRowsInCol(s: State, c: nat): (rows: set<nat>)
    requires Valid(s) && c < s.size
    ensures forall r: nat :: r in rows <==> r < s.size && Get(s, r, c) == Unknown
  {
    LowBits(s.size) - (s.posCols[c] + s.negCols[c])
  }

  /** No cell of the board is unknown. */
  ghost predicate Full(s: State)
  {
    forall id: nat :: id < s.size * s.size ==> GetId(s, id) != Unknown
  }

  /** is_fully_decided: every row has all `size` low bits set in pos | neg. */
  function IsFullyDecided(s: State): (b: bool)
    requires Valid(s)
    ensures b <==> Full(s)
  {
    var b := RowsDecidedFrom(s, 0);
    assert b <==> forall r: nat, c: nat :: r < s.size && c < s.size ==> Get(s, r, c) != Unknown;
    FullByRows(s, b);
    b
  }

  function RowsDecidedFrom(s: State, r: nat): (b: bool)
    requires Valid(s) && r <= s.size
    ensures b <==> forall r2: nat, c: nat :: r <= r2 < s.size && c < s.size ==> Get(s, r2, c) != Unknown
    decreases s.size - r
  {
    if r == s.size then true
    else
      var here := LowBits(s.size) <= s.posRows[r] + s.negRows[r];
      RowDecided(s, r);
      here && RowsDecidedFrom(s, r + 1)
  }

  lemma RowDecided(s: State, r: nat)
    requires Shape(s) && r < s.size
    ensures (LowBits(s.size) <= s.posRows[r] + s.negRows[r]) <==>
      forall c: nat :: c < s.size ==> Get(s, r, c) != Unknown
  {
    if forall c: nat :: c < s.size ==> Get(s, r, c) != Unknown {
      forall c: nat | c in LowBits(s.size) ensures c in s.posRows[r] + s.negRows[r] {
        assert Get(s, r, c) != Unknown;
      }
    }
    if LowBits(s.size) <= s.posRows[r] + s.negRows[r] {
      forall c: nat | c < s.size ensures Get(s, r, c) != Unknown {
        assert c in LowBits(s.size);
      }
    }
  }

  lemma FullByRows(s: State, b: bool)
    requires Valid(s)
    requires b <==> forall r: nat, c: nat :: r < s.size && c < s.size ==> Get(s, r, c) != Unknown
    ensures b <==> Full(s)
  {
    if b {
      FullFromCells(s);
    }
    if Full(s) {
      CellsFromFull(s);
    }
  }

  lemma FullFromCells(s: State)
    requires 1 <= s.size
    requires forall r: nat, c: nat :: r < s.size && c < s.size ==> Get(s, r, c) != Unknown
    ensures Full(s)
  {
    var n := s.size;
    forall id: nat | id < n * n ensures GetId(s, id) != Unknown {
      var r, c := id / n, id % n;
      IdSplit(n, id);
      assert GetId(s, id) == Get(s, r, c);
    }
  }

  lemma CellsFromFull(s: State)
    requires Full(s)
    ensures forall r: nat, c: nat :: r < s.size && c < s.size ==> Get(s, r, c) != Unknown
  {
    var n := s.size;
    forall r: nat, c: nat | r < n && c < n ensures Get(s, r, c) != Unknown {
      IdBound(n, r, c);
      IdDecode(n, r, c);
      assert GetId(s, Id(n, r, c)) != Unknown;
    }
  }

  /** to_row_major_u32_mask: bit `row * size + col` for every checked cell (size * size <= 32). */
  function ToRowMajorMask(s: State): (m: set<nat>)
    requires Valid(s) && s.size * s.size <= 32
    ensures forall id: nat :: id in m <==> id < s.size * s.size && GetId(s, id) == Checked
    ensures Full(s) ==> Completes(s, m)
    ensures Full(s) ==> forall m2 :: Completes(s, m2) ==> m2 == m
  {
    var m := RowMajorFrom(s, 0);
    RowMajorExact(s);
    FullCompletion(s, m);
    m
  }

  /** On a full board, the set of checked cells is its one and only completion. */
  lemma FullCompletion(s: State, m: set<nat>)
    requires Valid(s)
    requires forall id: nat :: id in m <==> id < s.size * s.size && GetId(s, id) == Checked
    ensures Full(s) ==> Completes(s, m)
    ensures Full(s) ==> forall m2 :: Completes(s, m2) ==> m2 == m
  {
    if !Full(s) {
      return;
    }
    forall id: nat | GetId(s, id) != Unknown ensures id < s.size * s.size {
    }
    forall m2 | Completes(s, m2) ensures m2 == m {
      assert forall id: nat :: id in m2 <==> id in m;
    }
  }

  /** The checked cells of rows r.., row by row. */
  function RowMajorFrom(s: State, r: nat): set<nat>
    requires Shape(s) && r <= s.size
    decreases s.size - r
  {
    if r == s.size then {} else RowBits(s, r) + RowMajorFrom(s, r + 1)
  }

  /** Bits `row * size + col` of the checked columns of row r. */
  function RowBits(s: State, r: nat): set<nat>
    requires Shape(s) && r < s.size
  {
    set c | c in s.posRows[r] * LowBits(s.size) :: Id(s.size, r, c)
  }

  lemma RowMajorExact(s: State)
    requires Shape(s)
    ensures forall id: nat :: id in RowMajorFrom(s, 0) <==> id < s.size * s.size && GetId(s, id) == Checked
  {
    forall id: nat ensures id in RowMajorFrom(s, 0) <==> id < s.size * s.size && GetId(s, id) == Checked {
      RowMajorMember(s, 0, id);
      DivNonneg(id, s.size);
    }
  }

  lemma DivNonneg(a: nat, n: nat)
    requires 0 < n
    ensures a / n >= 0
  {
    if a / n < 0 {
      MulMono(a / n, -1, n);
    }
  }

  lemma RowBitsMember(s: State, r: nat, id: nat)
    requires Shape(s) && r < s.size
    ensures id in RowBits(s, r) <==> id < s.size * s.size && id / s.size == r && GetId(s, id) == Checked
  {
    var n := s.size;
    if id in RowBits(s, r) {
      var c :| c in s.posRows[r] * LowBits(n) && id == Id(n, r, c);
      IdDecode(n, r, c);
      IdBound(n, r, c);
    }
    if id < n * n && id / n == r && GetId(s, id) == Checked {
      IdSplit(n, id);
      assert id % n in s.posRows[r] * LowBits(n);
    }
  }

  lemma {:induction false} RowMajorMember(s: State, r: nat, id: nat)
    requires Shape(s) && r <= s.size
    ensures id in RowMajorFrom(s, r) <==>
      id < s.size * s.size && id / s.size >= r && GetId(s, id) == Checked
    decreases s.size - r
  {
    var n := s.size;
    if r < n {
      RowMajorMember(s, r + 1, id);
      RowBitsMember(s, r, id);
    } else if id < n * n {
      IdSplit(n, id);
    }
  }

  // ---------------------------------------------------------------------
  // The unknown cells, the measure the fixpoint and the search decrease

  ghost function Unknowns(s: State): set<nat>
  {
    set id: nat | id < s.size * s.size && GetId(s, id) == Unknown
  }

  /** A valid state is determined by its size and the value of every cell. */
  lemma Canonical(s: State, t: State)
    requires Valid(s) && Valid(t) && s.size == t.size
    requires forall id :: GetId(s, id) == GetId(t, id)
    ensures s == t
  {
    var n := s.size;
    forall r: nat, c: nat | r < n && c < n ensures Get(s, r, c) == Get(t, r, c) {
      IdDecode(n, r, c);
      assert GetId(s, Id(n, r, c)) == GetId(t, Id(n, r, c));
    }
    forall r | 0 <= r < n
      ensures s.posRows[r] == t.posRows[r] && s.negRows[r] == t.negRows[r]
      ensures s.posCols[r] == t.posCols[r] && s.negCols[r] == t.negCols[r]
    {
      forall c: nat
        ensures c in s.posRows[r] <==> c in t.posRows[r]
        ensures c in s.negRows[r] <==> c in t.negRows[r]
      {
        if c < n {
          assert Get(s, r, c) == Get(t, r, c);
        }
      }
      assert forall c: nat :: c in s.posCols[r] <==> c < n && Get(s, c, r) == Checked;
      assert forall c: nat :: c in t.posCols[r] <==> c < n && Get(t, c, r) == Checked;
      assert forall c: nat :: c in s.negCols[r] <==> c < n && Get(s, c, r) == Unchecked;
      assert forall c: nat :: c in t.negCols[r] <==> c < n && Get(t, c, r) == Unchecked;
    }
    forall kind: LineKind, k: nat, flag: bool | k < NumLines(n, kind)
      ensures Counters(s, kind, flag)[k] == Counters(t, kind, flag)[k]
    {
      CountSame(s, t, LineIds(n, kind, k), TriOf(flag));
    }
    CountersEqual(s, t);
  }

  lemma CountersEqual(s: State, t: State)
    requires Valid(s) && Valid(t) && s.size == t.size
    requires forall kind: LineKind, k: nat, flag: bool :: k < NumLines(s.size, kind) ==>
      Counters(s, kind, flag)[k] == Counters(t, kind, flag)[k]
    requires forall r | 0 <= r < s.size :: s.posRows[r] == t.posRows[r] && s.negRows[r] == t.negRows[r]
    requires forall r | 0 <= r < s.size :: s.posCols[r] == t.posCols[r] && s.negCols[r] == t.negCols[r]
    ensures s == t
  {
    var n := s.size;
    assert forall k :: 0 <= k < n ==> s.rowChecked[k] == Counters(s, RowLine, true)[k];
    assert forall k :: 0 <= k < n ==> s.rowUnchecked[k] == Counters(s, RowLine, false)[k];
    assert forall k :: 0 <= k < n ==> s.colChecked[k] == Counters(s, ColLine, true)[k];
    assert forall k :: 0 <= k < n ==> s.colUnchecked[k] == Counters(s, ColLine, false)[k];
    assert forall k :: 0 <= k < 2 * n - 1 ==> s.downChecked[k] == Counters(s, DownLine, true)[k];
    assert forall k :: 0 <= k < 2 * n - 1 ==> s.downUnchecked[k] == Counters(s, DownLine, false)[k];
    assert forall k :: 0 <= k < 2 * n - 1 ==> s.upChecked[k] == Counters(s, UpLine, true)[k];
    assert forall k :: 0 <= k < 2 * n - 1 ==> s.upUnchecked[k] == Counters(s, UpLine, false)[k];
    assert s.rowChecked == t.rowChecked && s.rowUnchecked == t.rowUnchecked;
    assert s.colChecked == t.colChecked && s.colUnchecked == t.colUnchecked;
    assert s.downChecked == t.downChecked && s.downUnchecked == t.downUnchecked;
    assert s.upChecked == t.upChecked && s.upUnchecked == t.upUnchecked;
    assert s.posRows == t.posRows && s.negRows == t.negRows;
    assert s.posCols == t.posCols && s.negCols == t.negCols;
    assert s.downLen == t.downLen && s.upLen == t.upLen;
  }

  lemma {:induction false} CountSame(s: State, t: State, ids: seq<nat>, v: Tri)
    requires forall id :: GetId(s, id) == GetId(t, id)
    ensures Count(s, ids, v) == Count(t, ids, v)
  {
    if |ids| > 0 {
      CountSame(s, t, ids[1..], v);
    }
  }

  /** A state that extends s and differs from it has strictly fewer unknown cells. */
  lemma ExtendsShrinks(s: State, t: State)
    requires Valid(s) && Valid(t) && Extends(s, t) && s != t
    ensures Unknowns(t) < Unknowns(s)
  {
    var n := s.size;
    forall id: nat | id in Unknowns(t) ensures id in Unknowns(s) {
    }
    if Unknowns(t) == Unknowns(s) {
      forall id: nat ensures GetId(s, id) == GetId(t, id) {
        if id < n * n {
          assert id in Unknowns(s) <==> id in Unknowns(t);
        }
      }
      Canonical(s, t);
    }
  }

  /** Extending is a preorder. */
  lemma ExtendsTrans(s: State, t: State, u: State)
    requires Extends(s, t) && Extends(t, u)
    ensures Extends(s, u)
  {
  }

  /** A completion of an extension is a completion of the original. */
  lemma CompletesBack(s: State, t: State, m: set<nat>)
    requires Extends(s, t) && Completes(t, m)
    ensures Completes(s, m)
  {
  }
}
