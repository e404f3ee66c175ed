// RuleSet: the per-board index the propagation engine reads — the cells of
// each colour, the 8- and 4-neighbour lists, the two diagonal buckets and the
// decision order (crates/engine/src/solver/mod.rs, `RuleSet::new`).
module RuleIndex {
  import opened Colors
  import opened Lines
  import opened Ordering
  import opened Neighbors

  /**
   * The index for a board of side `size`. The colour grid itself is kept too,
   * so that the rules the engine enforces can be stated over it.
   */
  datatype RuleSet = RuleSet(
    size: nat,
    colors: seq<Color>,
    blackCells: seq<nat>, blueCells: seq<nat>, redCells: seq<nat>, greenCells: seq<nat>,
    yellowCells: seq<nat>, purpleCells: seq<nat>, orangeCells: seq<nat>, cyanCells: seq<nat>,
    decisionOrder: seq<nat>,
    neighbors8: seq<seq<nat>>,
    neighbors4: seq<seq<nat>>,
    diagDownCells: seq<seq<nat>>,
    diagUpCells: seq<seq<nat>>)

  // ---------------------------------------------------------------------
  // Cell lists by colour

  /** Ids lo.. whose colour is c (want) or is not c (!want), ascending. */
  function CellsOf(colors: seq<Color>, c: Color, want: bool, lo: nat): (ids: seq<nat>)
    requires lo <= |colors|
    ensures forall j :: 0 <= j < |ids| ==> lo <= ids[j] < |colors| && (colors[ids[j]] == c) == want
    ensures forall id :: lo <= id < |colors| && (colors[id] == c) == want ==> id in ids
    ensures Ascending(ids)
    ensures |ids| <= |colors| - lo
    decreases |colors| - lo
  {
    if lo == |colors| then []
    else if (colors[lo] == c) == want then [lo] + CellsOf(colors, c, want, lo + 1)
    else CellsOf(colors, c, want, lo + 1)
  }

  // ---------------------------------------------------------------------
  // Building the index

  /** `-(colour weight + 8-neighbour degree)`, the decision sort key of each id. */
  function DecisionKeys(colors: seq<Color>, nbrs: seq<seq<nat>>): (keys: seq<int>)
    requires |nbrs| == |colors|
    ensures |keys| == |colors|
  {
    seq(|colors|, id requires 0 <= id < |colors| => -(ColorWeight(colors[id]) + |nbrs[id]|))
  }

  /** The diagonal buckets of one direction: bucket d lists the cells of diagonal d by row. */
  function DiagTable(n: nat, kind: LineKind): (t: seq<seq<nat>>)
    requires 0 < n && (kind == DownLine || kind == UpLine)
    ensures |t| == 2 * n - 1
  {
    seq(2 * n - 1, d requires 0 <= d < 2 * n - 1 => LineIds(n, kind, d))
  }

  /**
   * The non-Black cells, stably sorted by decision key: every non-Black cell
   * once, ordered by key and then by ascending id.
   */
  function DecisionOrder(colors: seq<Color>, nbr8: seq<seq<nat>>): (order: seq<nat>)
    requires |nbr8| == |colors|
    ensures Keyed(order, DecisionKeys(colors, nbr8)) && KeySorted(order, DecisionKeys(colors, nbr8))
    ensures multiset(order) == multiset(CellsOf(colors, Black, false, 0))
    ensures forall id: nat :: id in order <==> id < |colors| && colors[id] != Black
  {
    var nonBlack := CellsOf(colors, Black, false, 0);
    SortByKeySorted(nonBlack, DecisionKeys(colors, nbr8));
    var order := SortByKey(nonBlack, DecisionKeys(colors, nbr8));
    SameMembers(colors, order);
    order
  }

  /** RuleSet::new(size, colors); the source asserts 1 <= size <= 32 and size * size colours. */
  function New(n: nat, colors: seq<Color>): (rs: RuleSet)
    requires 1 <= n <= 32 && |colors| == n * n
    ensures rs.size == n && rs.colors == colors
    ensures |rs.neighbors8| == |rs.neighbors4| == n * n
    ensures |rs.diagDownCells| == |rs.diagUpCells| == 2 * n - 1
    ensures Built(rs) && WellFormed(rs)
  {
    var rs := RuleSet(n, colors,
      CellsOf(colors, Black, true, 0), CellsOf(colors, Blue, true, 0),
      CellsOf(colors, Red, true, 0), CellsOf(colors, Green, true, 0),
      CellsOf(colors, Yellow, true, 0), CellsOf(colors, Purple, true, 0),
      CellsOf(colors, Orange, true, 0), CellsOf(colors, Cyan, true, 0),
      DecisionOrder(colors, Table8(n)),
      Table8(n), Table4(n),
      DiagTable(n, DownLine), DiagTable(n, UpLine));
    BuiltWellFormed(rs);
    rs
  }

  /** The cell lists, neighbour lists and diagonal buckets are the ones RuleSet::new builds. */
  ghost predicate Indexed(rs: RuleSet)
  {
    var n, colors := rs.size, rs.colors;
    && 1 <= n <= 32 && |colors| == n * n
    && rs.blackCells == CellsOf(colors, Black, true, 0)
    && rs.blueCells == CellsOf(colors, Blue, true, 0)
    && rs.redCells == CellsOf(colors, Red, true, 0)
    && rs.greenCells == CellsOf(colors, Green, true, 0)
    && rs.yellowCells == CellsOf(colors, Yellow, true, 0)
    && rs.purpleCells == CellsOf(colors, Purple, true, 0)
    && rs.orangeCells == CellsOf(colors, Orange, true, 0)
    && rs.cyanCells == CellsOf(colors, Cyan, true, 0)
    && rs.neighbors8 == Table8(n) && rs.neighbors4 == Table4(n)
    && rs.diagDownCells == DiagTable(n, DownLine) && rs.diagUpCells == DiagTable(n, UpLine)
  }

  /** The whole index, decision order included, is what RuleSet::new builds. */
  ghost predicate Built(rs: RuleSet)
  {
    Indexed(rs) && rs.decisionOrder == DecisionOrder(rs.colors, rs.neighbors8)
  }

  /** The cells the index lists under colour c. */
  function ColorCells(rs: RuleSet, c: Color): seq<nat>
  {
    match c
    case Black => rs.blackCells
    case Blue => rs.blueCells
    case Red => rs.redCells
    case Green => rs.greenCells
    case Yellow => rs.yellowCells
    case Purple => rs.purpleCells
    case Orange => rs.orangeCells
    case Cyan => rs.cyanCells
    case White => []
  }

  /** Each colour list holds exactly the cells of that colour, ascending; White has none. */
  lemma ColorCellsExact(rs: RuleSet, c: Color)
    requires Indexed(rs)
    ensures forall j :: 0 <= j < |ColorCells(rs, c)| ==>
      ColorCells(rs, c)[j] < rs.size * rs.size && rs.colors[ColorCells(rs, c)[j]] == c
    ensures c != White ==> forall id :: 0 <= id < rs.size * rs.size && rs.colors[id] == c ==> id in ColorCells(rs, c)
    ensures Ascending(ColorCells(rs, c))
  {
  }

  /**
   * The facts about an index that the propagators rely on: the sizes, every
   * neighbour id on the board, the diagonal buckets, and each colour list
   * holding exactly the cells of its colour.
   */
  ghost predicate WellFormed(rs: RuleSet)
  {
    var n := rs.size;
    && 1 <= n <= 32 && |rs.colors| == n * n
    && |rs.neighbors8| == n * n && |rs.neighbors4| == n * n
    && |rs.diagDownCells| == 2 * n - 1 && |rs.diagUpCells| == 2 * n - 1
    && (forall id, j :: 0 <= id < n * n && 0 <= j < |rs.neighbors8[id]| ==> rs.neighbors8[id][j] < n * n)
    && (forall id, j :: 0 <= id < n * n && 0 <= j < |rs.neighbors4[id]| ==> rs.neighbors4[id][j] < n * n)
    && (forall id :: 0 <= id < n * n ==> Distinct(rs.neighbors8[id]) && Distinct(rs.neighbors4[id]))
    && (forall d :: 0 <= d < 2 * n - 1 ==> rs.diagDownCells[d] == LineIds(n, DownLine, d))
    && (forall d :: 0 <= d < 2 * n - 1 ==> rs.diagUpCells[d] == LineIds(n, UpLine, d))
    && (forall c, j :: 0 <= j < |ColorCells(rs, c)| ==>
          ColorCells(rs, c)[j] < n * n && rs.colors[ColorCells(rs, c)[j]] == c)
    && (forall c, id :: c != White && 0 <= id < n * n && rs.colors[id] == c ==> id in ColorCells(rs, c))
    && (forall id: nat :: id in rs.decisionOrder <==> id < n * n && rs.colors[id] != Black)
    && |rs.decisionOrder| <= n * n
  }

  /** The index RuleSet::new builds is well formed. */
  lemma BuiltWellFormed(rs: RuleSet)
    requires Built(rs)
    ensures WellFormed(rs)
  {
    DecisionOrderExact(rs);
    IndexedWellFormed(rs);
  }

  lemma IndexedWellFormed(rs: RuleSet)
    requires Indexed(rs)
    requires forall id: nat :: id in rs.decisionOrder <==> id < rs.size * rs.size && rs.colors[id] != Black
    requires |rs.decisionOrder| <= rs.size * rs.size
    ensures WellFormed(rs)
  {
    IndexedNeighbours(rs);
    IndexedColors(rs);
  }

  lemma IndexedNeighbours(rs: RuleSet)
    requires Indexed(rs)
    ensures forall id, j :: 0 <= id < rs.size * rs.size && 0 <= j < |rs.neighbors8[id]| ==>
      rs.neighbors8[id][j] < rs.size * rs.size
    ensures forall id, j :: 0 <= id < rs.size * rs.size && 0 <= j < |rs.neighbors4[id]| ==>
      rs.neighbors4[id][j] < rs.size * rs.size
    ensures forall id :: 0 <= id < rs.size * rs.size ==> Distinct(rs.neighbors8[id]) && Distinct(rs.neighbors4[id])
  {
    var n := rs.size;
    forall id | 0 <= id < n * n
      ensures forall j :: 0 <= j < |rs.neighbors8[id]| ==> rs.neighbors8[id][j] < n * n
      ensures forall j :: 0 <= j < |rs.neighbors4[id]| ==> rs.neighbors4[id][j] < n * n
      ensures Distinct(rs.neighbors8[id]) && Distinct(rs.neighbors4[id])
    {
      NeighborsAt(rs, id);
      var r, c := Coordinates(n, id);
      assert r < n && c < n;
    }
  }

  lemma IndexedColors(rs: RuleSet)
    requires Indexed(rs)
    ensures forall c, j :: 0 <= j < |ColorCells(rs, c)| ==>
      ColorCells(rs, c)[j] < rs.size * rs.size && rs.colors[ColorCells(rs, c)[j]] == c
    ensures forall c, id :: c != White && 0 <= id < rs.size * rs.size && rs.colors[id] == c ==> id in ColorCells(rs, c)
  {
    forall c: Color
      ensures forall j :: 0 <= j < |ColorCells(rs, c)| ==>
        ColorCells(rs, c)[j] < rs.size * rs.size && rs.colors[ColorCells(rs, c)[j]] == c
      ensures c != White ==> forall id :: 0 <= id < rs.size * rs.size && rs.colors[id] == c ==> id in ColorCells(rs, c)
    {
      ColorCellsExact(rs, c);
    }
  }

  /** neighbors8[id] / neighbors4[id] are the geometric neighbour lists of cell id. */
  lemma NeighborsAt(rs: RuleSet, id: nat)
    requires Indexed(rs) && id < rs.size * rs.size
    ensures rs.neighbors8[id] == Nbr8At(rs.size, id)
    ensures rs.neighbors4[id] == Nbr4At(rs.size, id)
  {
  }

  lemma Nbr8SymmetricAt(n: nat, ar: nat, ac: nat, br: nat, bc: nat)
    requires ar < n && ac < n && br < n && bc < n
    ensures Id(n, br, bc) in Nbr8(n, ar, ac) <==> Id(n, ar, ac) in Nbr8(n, br, bc)
  {
    Nbr8Member(n, ar, ac, br, bc);
    Nbr8Member(n, br, bc, ar, ac);
  }

  /** The coordinates of an id, and its neighbour lists in those terms. */
  lemma Coordinates(n: nat, a: nat) returns (ar: nat, ac: nat)
    requires 0 < n && a < n * n
    ensures ar < n && ac < n && a == Id(n, ar, ac)
    ensures Nbr8At(n, a) == Nbr8(n, ar, ac) && Nbr4At(n, a) == Nbr4(n, ar, ac)
  {
    IdSplit(n, a);
    ar, ac := a / n, a % n;
  }

  /** 8-adjacency between ids is symmetric. */
  lemma Nbr8AtSymmetric(n: nat, a: nat, b: nat)
    requires 0 < n && a < n * n && b < n * n
    ensures b in Nbr8At(n, a) <==> a in Nbr8At(n, b)
  {
    var ar, ac := Coordinates(n, a);
    var br, bc := Coordinates(n, b);
    Nbr8SymmetricAt(n, ar, ac, br, bc);
  }

  /** No cell is its own 8-neighbour. */
  lemma Nbr8AtIrreflexive(n: nat, a: nat)
    requires 0 < n && a < n * n
    ensures a !in Nbr8At(n, a)
  {
    var ar, ac := Coordinates(n, a);
    Nbr8Member(n, ar, ac, ar, ac);
  }

  /** An entry of the 4-neighbour list is one of the four rook steps. */
  lemma Nbr4Cases(n: nat, r: nat, c: nat, b: nat) returns (r2: nat, c2: nat)
    requires r < n && c < n && b in Nbr4(n, r, c)
    ensures r2 < n && c2 < n && Adjacent4(r, c, r2, c2) && b == Id(n, r2, c2)
  {
    if r > 0 && b == Id(n, r - 1, c) {
      r2, c2 := r - 1, c;
    } else if r + 1 < n && b == Id(n, r + 1, c) {
      r2, c2 := r + 1, c;
    } else if c > 0 && b == Id(n, r, c - 1) {
      r2, c2 := r, c - 1;
    } else {
      r2, c2 := r, c + 1;
    }
  }

  lemma Nbr4Within8At(n: nat, r: nat, c: nat, b: nat)
    requires r < n && c < n && b in Nbr4(n, r, c)
    ensures b in Nbr8(n, r, c)
  {
    var r2, c2 := Nbr4Cases(n, r, c, b);
    Nbr8Member(n, r, c, r2, c2);
  }

  /** Every 4-neighbour is an 8-neighbour. */
  lemma Nbr4AtWithin8(n: nat, a: nat, b: nat)
    requires 0 < n && a < n * n && b in Nbr4At(n, a)
    ensures b in Nbr8At(n, a)
  {
    var ar, ac := Coordinates(n, a);
    Nbr4Within8At(n, ar, ac, b);
  }

  lemma Neighbors8Symmetric(rs: RuleSet, a: nat, b: nat)
    requires Indexed(rs) && a < rs.size * rs.size && b < rs.size * rs.size
    ensures b in rs.neighbors8[a] <==> a in rs.neighbors8[b]
    ensures a !in rs.neighbors8[a]
  {
    NeighborsAt(rs, a);
    NeighborsAt(rs, b);
    Nbr8AtSymmetric(rs.size, a, b);
    Nbr8AtIrreflexive(rs.size, a);
  }

  lemma Neighbors4Within8(rs: RuleSet, a: nat, b: nat)
    requires Indexed(rs) && a < rs.size * rs.size && b in rs.neighbors4[a]
    ensures b in rs.neighbors8[a]
  {
    NeighborsAt(rs, a);
    Nbr4AtWithin8(rs.size, a, b);
  }

  /** Cell (r, c) lies in down bucket r + (size - 1) - c and up bucket r + c, and in no other. */
  lemma DiagBuckets(rs: RuleSet, r: nat, c: nat, d: nat)
    requires Indexed(rs) && r < rs.size && c < rs.size && d < 2 * rs.size - 1
    ensures Id(rs.size, r, c) in rs.diagDownCells[d] <==> d == DownId(rs.size, r, c)
    ensures Id(rs.size, r, c) in rs.diagUpCells[d] <==> d == UpId(r, c)
  {
    InLine(rs.size, DownLine, d, r, c);
    InLine(rs.size, UpLine, d, r, c);
  }

  /** A reordering of the non-Black cells holds exactly the non-Black cells. */
  lemma SameMembers(colors: seq<Color>, order: seq<nat>)
    requires multiset(order) == multiset(CellsOf(colors, Black, false, 0))
    ensures forall id: nat :: id in order <==> id < |colors| && colors[id] != Black
  {
    var nonBlack := CellsOf(colors, Black, false, 0);
    forall id: nat ensures id in order <==> id < |colors| && colors[id] != Black {
      assert id in order <==> id in multiset(order);
      assert id in nonBlack <==> id in multiset(nonBlack);
      if id in nonBlack {
        var j :| 0 <= j < |nonBlack| && nonBlack[j] == id;
      }
    }
  }

  /** The decision order lists every non-Black cell once, by key and then ascending id. */
  lemma DecisionOrderExact(rs: RuleSet)
    requires Built(rs)
    ensures Keyed(rs.decisionOrder, DecisionKeys(rs.colors, rs.neighbors8))
    ensures KeySorted(rs.decisionOrder, DecisionKeys(rs.colors, rs.neighbors8))
    ensures multiset(rs.decisionOrder) == multiset(CellsOf(rs.colors, Black, false, 0))
    ensures forall id: nat :: id in rs.decisionOrder <==> id < rs.size * rs.size && rs.colors[id] != Black
    ensures |rs.decisionOrder| <= rs.size * rs.size
  {
    assert rs.decisionOrder == DecisionOrder(rs.colors, rs.neighbors8);
    assert |rs.decisionOrder| == |multiset(rs.decisionOrder)|;
  }
}
