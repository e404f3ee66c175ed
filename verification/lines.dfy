// Board geometry for a square board of any size n: cell ids `row * n + col`
// and the four families of counted lines (rows, columns and the two diagonal
// directions) that SolverState and RuleSet index (crates/engine/src/solver/state.rs,
// crates/engine/src/solver/mod.rs).
module Lines {
  /** No element occurs twice. */
  ghost predicate Distinct<T>(xs: seq<T>)
  {
    forall i, j :: 0 <= i < j < |xs| ==> xs[i] != xs[j]
  }

  /** `row * size + col`. */
  function Id(n: nat, r: nat, c: nat): nat { r * n + c }

  lemma MulMono(a: int, b: int, n: nat)
    requires a <= b
    ensures a * n <= b * n
  {
    assert b * n - a * n == (b - a) * n;
  }

  /** `id_to_rc` undoes `Id`. */
  lemma IdDecode(n: nat, r: nat, c: nat)
    requires c < n
    ensures Id(n, r, c) / n == r && Id(n, r, c) % n == c
  {
    var id := r * n + c;
    var q, m := id / n, id % n;
    assert id == q * n + m;
    if q > r {
      MulMono(r + 1, q, n);
      assert false;
    } else if q < r {
      MulMono(q + 1, r, n);
      assert false;
    }
  }

  lemma IdBound(n: nat, r: nat, c: nat)
    requires r < n && c < n
    ensures Id(n, r, c) < n * n
  {
    MulMono(r, n - 1, n);
  }

  /** An id is Id(n, r, c) exactly when it splits into row r and column c. */
  lemma IdMatch(n: nat, id: nat, r: nat, c: nat)
    requires 0 < n && c < n
    ensures id == Id(n, r, c) <==> id / n == r && id % n == c
  {
    IdDecode(n, r, c);
    if id / n == r && id % n == c {
      assert id == (id / n) * n + id % n;
    }
  }

  /** `id_to_rc`: the row and column of a cell id. */
  function IdToRc(n: nat, id: nat): (rc: (nat, nat))
    requires 0 < n && id < n * n
    ensures rc.0 < n && rc.1 < n && Id(n, rc.0, rc.1) == id
  {
    IdSplit(n, id);
    (id / n, id % n)
  }

  lemma IdSplit(n: nat, id: nat)
    requires 0 < n && id < n * n
    ensures id / n < n && id % n < n && Id(n, id / n, id % n) == id
  {
    if id / n >= n {
      MulMono(n, id / n, n);
      assert false;
    }
  }

  lemma IdInjective(n: nat, r: nat, c: nat, r2: nat, c2: nat)
    requires c < n && c2 < n
    ensures Id(n, r, c) == Id(n, r2, c2) <==> r == r2 && c == c2
  {
    IdDecode(n, r, c);
    IdDecode(n, r2, c2);
  }

  function Abs(x: int): nat { if x < 0 then -x else x }
  function Max(a: int, b: int): int { if a < b then b else a }
  function Min(a: int, b: int): int { if a < b then a else b }

  /** `row + (size - 1) - col`. */
  function DownId(n: nat, r: nat, c: nat): int { r + (n - 1) - c }

  /** `row + col`. */
  function UpId(r: nat, c: nat): nat { r + c }

  /** The four families of lines whose checked/unchecked cells SolverState counts. */
  datatype LineKind = RowLine | ColLine | DownLine | UpLine

  /** Number of lines of a family: n rows, n columns, 2n - 1 diagonals. */
  function NumLines(n: nat, kind: LineKind): nat
  {
    match kind
    case RowLine => n
    case ColLine => n
    case DownLine => if n == 0 then 0 else 2 * n - 1
    case UpLine => if n == 0 then 0 else 2 * n - 1
  }

  /** The index of the line of family `kind` through (r, c). */
  function LineOf(n: nat, kind: LineKind, r: nat, c: nat): int
  {
    match kind
    case RowLine => r
    case ColLine => c
    case DownLine => DownId(n, r, c)
    case UpLine => UpId(r, c)
  }

  /** First and last row a diagonal of index d crosses. */
  function DiagLo(n: nat, d: nat): nat { Max(0, d - (n - 1)) }
  function DiagHi(n: nat, d: nat): int { Min(n - 1, d) }

  function DiagLen(n: nat, d: nat): nat
  {
    if DiagLo(n, d) <= DiagHi(n, d) then DiagHi(n, d) - DiagLo(n, d) + 1 else 0
  }

  /** The column at which the diagonal of index d crosses row r. */
  function DiagCol(n: nat, kind: LineKind, d: nat, r: nat): int
  {
    if kind == DownLine then r + (n - 1) - d else d - r
  }

  /** Cell ids of line k of a family, in increasing row (then column) order. */
  function LineIds(n: nat, kind: LineKind, k: nat): (ids: seq<nat>)
    requires k < NumLines(n, kind)
  {
    match kind
    case RowLine => seq(n, c requires 0 <= c < n => Id(n, k, c))
    case ColLine => seq(n, r requires 0 <= r < n => Id(n, r, k))
    case _ => seq(DiagLen(n, k), j requires 0 <= j < DiagLen(n, k) => DiagCell(n, kind, k, j))
  }

  /** The j-th cell of diagonal k, counted from its top row. */
  function DiagCell(n: nat, kind: LineKind, k: nat, j: nat): nat
  {
    var r := DiagLo(n, k) + j;
    var c := DiagCol(n, kind, k, r);
    if c < 0 then 0 else Id(n, r, c)
  }

  /** Diagonal d has `n - |d - (n - 1)|` cells, as SolverState::new records. */
  lemma LineLength(n: nat, kind: LineKind, k: nat)
    requires k < NumLines(n, kind)
    ensures |LineIds(n, kind, k)| ==
      if kind == RowLine || kind == ColLine then n else n - Abs(k - (n - 1))
  {
  }

  /** Membership: a board cell lies on exactly the line of each family that LineOf names. */
  lemma InLine(n: nat, kind: LineKind, k: nat, r: nat, c: nat)
    requires k < NumLines(n, kind) && r < n && c < n
    ensures 0 <= LineOf(n, kind, r, c) < NumLines(n, kind)
    ensures Id(n, r, c) in LineIds(n, kind, k) <==> LineOf(n, kind, r, c) == k
  {
    match kind
    case RowLine => InStraightLine(n, kind, k, r, c);
    case ColLine => InStraightLine(n, kind, k, r, c);
    case DownLine => InDiagonal(n, kind, k, r, c);
    case UpLine => InDiagonal(n, kind, k, r, c);
  }

  lemma InStraightLine(n: nat, kind: LineKind, k: nat, r: nat, c: nat)
    requires kind == RowLine || kind == ColLine
    requires k < NumLines(n, kind) && r < n && c < n
    ensures Id(n, r, c) in LineIds(n, kind, k) <==> LineOf(n, kind, r, c) == k
  {
    var ids := LineIds(n, kind, k);
    if Id(n, r, c) in ids {
      var j :| 0 <= j < |ids| && ids[j] == Id(n, r, c);
      if kind == RowLine {
        IdInjective(n, r, c, k, j);
      } else {
        IdInjective(n, r, c, j, k);
      }
    }
    if LineOf(n, kind, r, c) == k {
      if kind == RowLine {
        assert ids[c] == Id(n, r, c);
      } else {
        assert ids[r] == Id(n, r, c);
      }
    }
  }

  lemma InDiagonal(n: nat, kind: LineKind, k: nat, r: nat, c: nat)
    requires kind == DownLine || kind == UpLine
    requires k < NumLines(n, kind) && r < n && c < n
    ensures 0 <= LineOf(n, kind, r, c) < NumLines(n, kind)
    ensures Id(n, r, c) in LineIds(n, kind, k) <==> LineOf(n, kind, r, c) == k
  {
    var ids := LineIds(n, kind, k);
    if Id(n, r, c) in ids {
      var j :| 0 <= j < |ids| && ids[j] == Id(n, r, c);
      var r2 := DiagLo(n, k) + j;
      assert ids[j] == DiagCell(n, kind, k, j);
      IdInjective(n, r, c, r2, DiagCol(n, kind, k, r2));
    }
    if LineOf(n, kind, r, c) == k {
      var j := r - DiagLo(n, k);
      assert 0 <= j < |ids|;
      assert ids[j] == DiagCell(n, kind, k, j);
    }
  }

  /** Every id on a line is a board cell, and a line lists no cell twice. */
  lemma LineWellFormed(n: nat, kind: LineKind, k: nat)
    requires k < NumLines(n, kind)
    ensures forall j :: 0 <= j < |LineIds(n, kind, k)| ==> LineIds(n, kind, k)[j] < n * n
    ensures forall i, j :: 0 <= i < j < |LineIds(n, kind, k)| ==> LineIds(n, kind, k)[i] != LineIds(n, kind, k)[j]
  {
    var ids := LineIds(n, kind, k);
    forall j | 0 <= j < |ids| ensures ids[j] < n * n {
      match kind
      case RowLine => IdBound(n, k, j);
      case ColLine => IdBound(n, j, k);
      case _ =>
        var r := DiagLo(n, k) + j;
        IdBound(n, r, DiagCol(n, kind, k, r));
    }
    forall i, j | 0 <= i < j < |ids| ensures ids[i] != ids[j] {
      match kind
      case RowLine => IdInjective(n, k, i, k, j);
      case ColLine => IdInjective(n, i, k, j, k);
      case _ =>
        var ri, rj := DiagLo(n, k) + i, DiagLo(n, k) + j;
        IdInjective(n, ri, DiagCol(n, kind, k, ri), rj, DiagCol(n, kind, k, rj));
    }
  }
}
