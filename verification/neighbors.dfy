// Cell adjacency on a size x size board with row-major ids: the 8- and
// 4-neighbour lists RuleSet::new builds (crates/engine/src/solver/mod.rs).
module Neighbors {
  import opened Lines

  /** (r2, c2) is one king move from (r, c). */
  predicate Adjacent8(r: nat, c: nat, r2: nat, c2: nat)
  {
    (r, c) != (r2, c2) && -1 <= r2 - r <= 1 && -1 <= c2 - c <= 1
  }

  /** (r2, c2) is one rook step from (r, c). */
  predicate Adjacent4(r: nat, c: nat, r2: nat, c2: nat)
  {
    (r2 == r && (c2 + 1 == c || c + 1 == c2)) || (c2 == c && (r2 + 1 == r || r + 1 == r2))
  }

  /** Position of offset (r2 - r, c2 - c) in the dr-major scan over -1..=1 x -1..=1. */
  function OffsetIndex(r: nat, c: nat, r2: nat, c2: nat): int
  {
    (r2 - r + 1) * 3 + (c2 - c + 1)
  }

  /**
   * The in-bounds 8-neighbours of (r, c), in the scan order of RuleSet::new:
   * for an on-board cell, exactly its on-board king moves, each once.
   */
  function Nbr8(n: nat, r: nat, c: nat): (ns: seq<nat>)
    ensures r < n && c < n ==>
      forall r2: nat, c2: nat :: r2 < n && c2 < n ==> (Id(n, r2, c2) in ns <==> Adjacent8(r, c, r2, c2))
    ensures r < n && c < n ==> (forall j :: 0 <= j < |ns| ==> ns[j] < n * n) && Distinct(ns)
  {
    if r < n && c < n then
      Nbr8Exact(n, r, c);
      Nbr8From(n, r, c, 0)
    else
      Nbr8From(n, r, c, 0)
  }

  /** Scan offsets k.. (offset k is (k / 3 - 1, k % 3 - 1); offset 4 is the cell itself). */
  function Nbr8From(n: nat, r: nat, c: nat, k: nat): seq<nat>
    requires k <= 9
    decreases 9 - k
  {
    if k == 9 then []
    else
      var nr, nc := r + k / 3 - 1, c + k % 3 - 1;
      (if k != 4 && 0 <= nr < n && 0 <= nc < n then [Id(n, nr, nc)] else []) + Nbr8From(n, r, c, k + 1)
  }

  /**
   * The in-bounds 4-neighbours of (r, c): up, down, left, right. For an
   * on-board cell, exactly its on-board rook steps, each once.
   */
  function Nbr4(n: nat, r: nat, c: nat): (ns: seq<nat>)
    ensures r < n && c < n ==>
      forall r2: nat, c2: nat :: r2 < n && c2 < n ==> (Id(n, r2, c2) in ns <==> Adjacent4(r, c, r2, c2))
    ensures r < n && c < n ==> (forall j :: 0 <= j < |ns| ==> ns[j] < n * n) && Distinct(ns)
  {
    if r < n && c < n then
      Nbr4Exact(n, r, c);
      Steps4(n, r, c)
    else
      Steps4(n, r, c)
  }

  /** The four guarded rook steps, in the order of RuleSet::new. */
  function Steps4(n: nat, r: nat, c: nat): seq<nat>
  {
    (if r > 0 then [Id(n, r - 1, c)] else []) +
    (if r + 1 < n then [Id(n, r + 1, c)] else []) +
    (if c > 0 then [Id(n, r, c - 1)] else []) +
    (if c + 1 < n then [Id(n, r, c + 1)] else [])
  }

  lemma {:induction false} Nbr8FromMembers(n: nat, r: nat, c: nat, k: nat, r2: nat, c2: nat)
    requires k <= 9 && r < n && c < n && r2 < n && c2 < n
    ensures Id(n, r2, c2) in Nbr8From(n, r, c, k) <==> Adjacent8(r, c, r2, c2) && k <= OffsetIndex(r, c, r2, c2)
    ensures forall j :: 0 <= j < |Nbr8From(n, r, c, k)| ==> Nbr8From(n, r, c, k)[j] < n * n
    decreases 9 - k
  {
    if k < 9 {
      Nbr8FromMembers(n, r, c, k + 1, r2, c2);
      var nr, nc := r + k / 3 - 1, c + k % 3 - 1;
      if k != 4 && 0 <= nr < n && 0 <= nc < n {
        IdInjective(n, r2, c2, nr, nc);
        IdBound(n, nr, nc);
      }
    }
  }

  /** The 8-neighbour list holds exactly the on-board king moves, each once. */
  lemma Nbr8Exact(n: nat, r: nat, c: nat)
    requires r < n && c < n
    ensures forall r2: nat, c2: nat :: r2 < n && c2 < n ==>
      (Id(n, r2, c2) in Nbr8From(n, r, c, 0) <==> Adjacent8(r, c, r2, c2))
    ensures forall j :: 0 <= j < |Nbr8From(n, r, c, 0)| ==> Nbr8From(n, r, c, 0)[j] < n * n
    ensures Distinct(Nbr8From(n, r, c, 0))
  {
    forall r2: nat, c2: nat | r2 < n && c2 < n
      ensures Id(n, r2, c2) in Nbr8From(n, r, c, 0) <==> Adjacent8(r, c, r2, c2)
    {
      Nbr8FromMembers(n, r, c, 0, r2, c2);
    }
    Nbr8FromMembers(n, r, c, 0, 0, 0);
    Nbr8FromDistinct(n, r, c, 0);
  }

  lemma {:induction false} Nbr8FromDistinct(n: nat, r: nat, c: nat, k: nat)
    requires k <= 9 && r < n && c < n
    ensures Distinct(Nbr8From(n, r, c, k))
    decreases 9 - k
  {
    if k < 9 {
      Nbr8FromDistinct(n, r, c, k + 1);
      var nr, nc := r + k / 3 - 1, c + k % 3 - 1;
      if k != 4 && 0 <= nr < n && 0 <= nc < n {
        Nbr8FromMembers(n, r, c, k + 1, nr, nc);
        var ids := Nbr8From(n, r, c, k);
        assert ids == [Id(n, nr, nc)] + Nbr8From(n, r, c, k + 1);
      }
    }
  }

  /** A king move, read back from its scan-order point of view, is a king move. */
  lemma Adjacent8Symmetric(r: nat, c: nat, r2: nat, c2: nat)
    ensures Adjacent8(r, c, r2, c2) <==> Adjacent8(r2, c2, r, c)
  {
  }

  /** Membership in the 8-neighbour list of (r, c), for one cell. */
  lemma Nbr8Member(n: nat, r: nat, c: nat, r2: nat, c2: nat)
    requires r < n && c < n && r2 < n && c2 < n
    ensures Id(n, r2, c2) in Nbr8From(n, r, c, 0) <==> Adjacent8(r, c, r2, c2)
  {
    Nbr8FromMembers(n, r, c, 0, r2, c2);
  }

  /** Membership in the 4-neighbour list of (r, c), for one cell. */
  lemma Nbr4Member(n: nat, r: nat, c: nat, r2: nat, c2: nat)
    requires r < n && c < n && r2 < n && c2 < n
    ensures Id(n, r2, c2) in Steps4(n, r, c) <==> Adjacent4(r, c, r2, c2)
  {
    var up := if r > 0 then [Id(n, r - 1, c)] else [];
    var down := if r + 1 < n then [Id(n, r + 1, c)] else [];
    var left := if c > 0 then [Id(n, r, c - 1)] else [];
    var right := if c + 1 < n then [Id(n, r, c + 1)] else [];
    assert Steps4(n, r, c) == up + down + left + right;
    if r > 0 { IdInjective(n, r2, c2, r - 1, c); }
    if r + 1 < n { IdInjective(n, r2, c2, r + 1, c); }
    if c > 0 { IdInjective(n, r2, c2, r, c - 1); }
    if c + 1 < n { IdInjective(n, r2, c2, r, c + 1); }
  }

  /** The 4-neighbour list holds exactly the on-board rook steps, each once. */
  lemma Nbr4Exact(n: nat, r: nat, c: nat)
    requires r < n && c < n
    ensures forall r2: nat, c2: nat :: r2 < n && c2 < n ==>
      (Id(n, r2, c2) in Steps4(n, r, c) <==> Adjacent4(r, c, r2, c2))
    ensures forall j :: 0 <= j < |Steps4(n, r, c)| ==> Steps4(n, r, c)[j] < n * n
    ensures Distinct(Steps4(n, r, c))
  {
    forall r2: nat, c2: nat | r2 < n && c2 < n
      ensures Id(n, r2, c2) in Steps4(n, r, c) <==> Adjacent4(r, c, r2, c2)
    {
      Nbr4Member(n, r, c, r2, c2);
    }
    Nbr4Bounded(n, r, c);
    Nbr4Distinct(n, r, c);
  }

  lemma Nbr4Bounded(n: nat, r: nat, c: nat)
    requires r < n && c < n
    ensures forall j :: 0 <= j < |Steps4(n, r, c)| ==> Steps4(n, r, c)[j] < n * n
  {
    if r > 0 { IdBound(n, r - 1, c); }
    if r + 1 < n { IdBound(n, r + 1, c); }
    if c > 0 { IdBound(n, r, c - 1); }
    if c + 1 < n { IdBound(n, r, c + 1); }
  }

  lemma Nbr4Distinct(n: nat, r: nat, c: nat)
    requires r < n && c < n
    ensures Distinct(Steps4(n, r, c))
  {
    // The candidates are id - n, id + n, id - 1 and id + 1; the first and third
    // could only meet when n == 1, where neither exists.
    var id := Id(n, r, c);
    if r > 0 { assert Id(n, r - 1, c) == id - n; }
    if r + 1 < n { assert Id(n, r + 1, c) == id + n; }
    assert c > 0 ==> Id(n, r, c - 1) == id - 1;
    assert c + 1 < n ==> Id(n, r, c + 1) == id + 1;
  }

  /** The 8-neighbour list of cell id. */
  function Nbr8At(n: nat, id: nat): seq<nat>
    requires 0 < n
  {
    Nbr8(n, id / n, id % n)
  }

  /** The 4-neighbour list of cell id. */
  function Nbr4At(n: nat, id: nat): seq<nat>
    requires 0 < n
  {
    Nbr4(n, id / n, id % n)
  }

  function Table8(n: nat): (t: seq<seq<nat>>)
    requires 0 < n
    ensures |t| == n * n
  {
    seq(n * n, id requires 0 <= id < n * n => Nbr8At(n, id))
  }

  function Table4(n: nat): (t: seq<seq<nat>>)
    requires 0 < n
    ensures |t| == n * n
  {
    seq(n * n, id requires 0 <= id < n * n => Nbr4At(n, id))
  }
}
