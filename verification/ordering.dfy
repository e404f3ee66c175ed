// The decision order shared by both solvers: the non-Black cells in ascending
// id order, stably sorted by the key `-(colour weight + 8-neighbour degree)`
// (crates/engine/src/solver/mod.rs `RuleSet::new`, crates/engine/src/solver.rs
// `Solver::new`). A stable sort of an ascending list is the unique ordering by
// (key, id), which is what the lemmas below establish.
module Ordering {
  import opened Colors

  /** The colour weight of the decision key: cells with stronger rules are decided first. */
  function ColorWeight(c: Color): (w: int)
    ensures 10 <= w <= 100
    ensures w == 10 <==> c == Black || c == White
  {
    match c
    case Blue => 100
    case Green => 90
    case Yellow => 80
    case Cyan => 70
    case Red => 60
    case Purple => 50
    case Orange => 50
    case _ => 10
  }

  /** Strictly increasing ids. */
  ghost predicate Ascending(xs: seq<nat>)
  {
    forall i, j :: 0 <= i < j < |xs| ==> xs[i] < xs[j]
  }

  /** Every id of xs has a key. */
  ghost predicate Keyed(xs: seq<nat>, key: seq<int>)
  {
    forall i :: 0 <= i < |xs| ==> xs[i] < |key|
  }

  /** Ordered by key, ties by ascending id. */
  ghost predicate KeySorted(xs: seq<nat>, key: seq<int>)
    requires Keyed(xs, key)
  {
    forall i, j :: 0 <= i < j < |xs| ==>
      key[xs[i]] < key[xs[j]] || (key[xs[i]] == key[xs[j]] && xs[i] < xs[j])
  }

  /** Places x after every element whose key is not greater than x's. */
  function Insert(x: nat, xs: seq<nat>, key: seq<int>): (r: seq<nat>)
    requires x < |key| && Keyed(xs, key)
    ensures multiset(r) == multiset(xs) + multiset{x}
    ensures Keyed(r, key)
  {
    if |xs| == 0 then [x]
    else if key[xs[0]] <= key[x] then
      assert xs == [xs[0]] + xs[1..];
      [xs[0]] + Insert(x, xs[1..], key)
    else [x] + xs
  }

  lemma {:induction false} InsertSorted(x: nat, xs: seq<nat>, key: seq<int>)
    requires x < |key| && Keyed(xs, key) && KeySorted(xs, key)
    requires forall i :: 0 <= i < |xs| ==> xs[i] < x
    ensures KeySorted(Insert(x, xs, key), key)
  {
    if |xs| > 0 && key[xs[0]] <= key[x] {
      InsertSorted(x, xs[1..], key);
      var r := Insert(x, xs, key);
      var t := Insert(x, xs[1..], key);
      assert r == [xs[0]] + t;
      forall j | 0 < j < |r| ensures key[r[0]] < key[r[j]] || (key[r[0]] == key[r[j]] && r[0] < r[j]) {
        assert r[j] in multiset(t);
        assert r[j] in multiset(xs[1..]) + multiset{x};
        if r[j] != x {
          var k :| 0 <= k < |xs[1..]| && xs[1..][k] == r[j];
          assert xs[k + 1] == r[j];
        }
      }
    }
  }

  /** sort_by_key on an ascending list: insertion of each element in turn (a stable sort). */
  function SortByKey(xs: seq<nat>, key: seq<int>): (r: seq<nat>)
    requires Keyed(xs, key)
    ensures multiset(r) == multiset(xs)
    ensures Keyed(r, key)
  {
    SortInto(xs, [], key)
  }

  function SortInto(xs: seq<nat>, acc: seq<nat>, key: seq<int>): (r: seq<nat>)
    requires Keyed(xs, key) && Keyed(acc, key)
    ensures multiset(r) == multiset(acc) + multiset(xs)
    ensures Keyed(r, key)
  {
    if |xs| == 0 then acc
    else
      assert xs == [xs[0]] + xs[1..];
      SortInto(xs[1..], Insert(xs[0], acc, key), key)
  }

  /** A stable sort of an ascending list lists it by key, ties by ascending id. */
  lemma SortByKeySorted(xs: seq<nat>, key: seq<int>)
    requires Keyed(xs, key) && Ascending(xs)
    ensures KeySorted(SortByKey(xs, key), key)
  {
    SortIntoSorted(xs, [], key);
  }

  lemma {:induction false} SortIntoSorted(xs: seq<nat>, acc: seq<nat>, key: seq<int>)
    requires Keyed(xs, key) && Keyed(acc, key) && Ascending(xs) && KeySorted(acc, key)
    requires forall i, j :: 0 <= i < |acc| && 0 <= j < |xs| ==> acc[i] < xs[j]
    ensures KeySorted(SortInto(xs, acc, key), key)
    decreases |xs|
  {
    if |xs| > 0 {
      InsertSorted(xs[0], acc, key);
      var acc2 := Insert(xs[0], acc, key);
      forall i, j | 0 <= i < |acc2| && 0 <= j < |xs[1..]| ensures acc2[i] < xs[1..][j] {
        assert acc2[i] in multiset(acc) + multiset{xs[0]};
        assert xs[1..][j] == xs[j + 1];
        if acc2[i] != xs[0] {
          var k :| 0 <= k < |acc| && acc[k] == acc2[i];
        }
      }
      SortIntoSorted(xs[1..], acc2, key);
    }
  }

  /** Two key-sorted lists with the same elements are equal: the order is fully determined. */
  lemma {:induction false} KeySortedUnique(xs: seq<nat>, ys: seq<nat>, key: seq<int>)
    requires Keyed(xs, key) && Keyed(ys, key) && KeySorted(xs, key) && KeySorted(ys, key)
    requires multiset(xs) == multiset(ys)
    ensures xs == ys
  {
    assert |ys| == |xs| by {
      assert |ys| == |multiset(ys)| == |multiset(xs)| == |xs|;
    }
    if |xs| > 0 {
      var xt, yt := xs[1..], ys[1..];
      SortedHeadsAgree(xs, ys, key);
      TailSorted(xs, key);
      TailSorted(ys, key);
      TailMultiset(xs, ys);
      KeySortedUnique(xt, yt, key);
      assert xs == [xs[0]] + xt && ys == [ys[0]] + yt;
    }
  }

  lemma SortedHeadsAgree(xs: seq<nat>, ys: seq<nat>, key: seq<int>)
    requires Keyed(xs, key) && Keyed(ys, key) && KeySorted(xs, key) && KeySorted(ys, key)
    requires multiset(xs) == multiset(ys) && |xs| > 0 && |ys| > 0
    ensures xs[0] == ys[0]
  {
    var x, y := xs[0], ys[0];
    assert y in multiset(xs) && x in multiset(ys);
    var i :| 0 <= i < |xs| && xs[i] == y;
    var j :| 0 <= j < |ys| && ys[j] == x;
    HeadFirst(xs, key, i);
    HeadFirst(ys, key, j);
  }

  /** `a` comes before `b`: by key, ties by id. */
  predicate Precedes(a: nat, b: nat, key: seq<int>)
  {
    a < |key| && b < |key| && (key[a] < key[b] || (key[a] == key[b] && a < b))
  }

  /** The head of a key-sorted list comes before every other element of it. */
  lemma HeadFirst(xs: seq<nat>, key: seq<int>, k: nat)
    requires Keyed(xs, key) && KeySorted(xs, key) && k < |xs|
    ensures xs[k] == xs[0] || Precedes(xs[0], xs[k], key)
  {
    if k > 0 {
      assert key[xs[0]] < key[xs[k]] || (key[xs[0]] == key[xs[k]] && xs[0] < xs[k]);
    }
  }

  /** The tail of a key-sorted list is key-sorted. */
  lemma TailSorted(xs: seq<nat>, key: seq<int>)
    requires Keyed(xs, key) && KeySorted(xs, key) && |xs| > 0
    ensures Keyed(xs[1..], key) && KeySorted(xs[1..], key)
  {
    assert Keyed(xs[1..], key) by {
      forall i | 0 <= i < |xs[1..]| ensures xs[1..][i] < |key| {
        assert xs[1..][i] == xs[i + 1];
      }
    }
    forall i, j | 0 <= i < j < |xs[1..]|
      ensures key[xs[1..][i]] < key[xs[1..][j]] || (key[xs[1..][i]] == key[xs[1..][j]] && xs[1..][i] < xs[1..][j])
    {
      assert xs[1..][i] == xs[i + 1] && xs[1..][j] == xs[j + 1];
    }
  }

  /** Lists with the same elements and the same head have tails with the same elements. */
  lemma TailMultiset(xs: seq<nat>, ys: seq<nat>)
    requires multiset(xs) == multiset(ys) && |xs| > 0 && |ys| > 0 && xs[0] == ys[0]
    ensures multiset(xs[1..]) == multiset(ys[1..])
  {
    assert xs == [xs[0]] + xs[1..] && ys == [ys[0]] + ys[1..];
    assert multiset(xs) == multiset{xs[0]} + multiset(xs[1..]);
    assert multiset(ys) == multiset{ys[0]} + multiset(ys[1..]);
    assert multiset(xs[1..]) == multiset(xs) - multiset{xs[0]};
    assert multiset(ys[1..]) == multiset(ys) - multiset{ys[0]};
  }
}
