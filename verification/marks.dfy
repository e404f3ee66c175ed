// Per-cell marks of the board view (apps/web/src/lib/marks.js): every cell holds
// one of three states, none, excluded or questioned, which a click cycles through.
module Marks {
  import opened Results

  const MarkNone: int := 0
  const MarkExclude: int := 1
  const MarkQuestion: int := 2
  const DefaultLength: int := 25

  /** A value read from stored marks: a number, or anything else (a string, null,
      an array hole or an index past the end). */
  datatype Value = Num(n: int) | Other

  predicate IsMark(v: int) { v == MarkNone || v == MarkExclude || v == MarkQuestion }

  predicate AllMarks(ms: seq<int>) { forall i :: 0 <= i < |ms| ==> IsMark(ms[i]) }

  /** The length of an array of `length` elements; a negative length gives none. */
  function Size(length: int): nat { if length > 0 then length else 0 }

  /** createMarks: `length` cells, all unmarked. */
  function CreateMarks(length: int): (r: seq<int>)
    ensures |r| == Size(length)
    ensures forall i :: 0 <= i < |r| ==> r[i] == MarkNone
  {
    seq(Size(length), _ => MarkNone)
  }

  /** `raw[i]`, undefined past the end. */
  function At(raw: seq<Value>, i: int): Value {
    if 0 <= i < |raw| then raw[i] else Other
  }

  /** normalizeMarks: `length` cells; a stored array keeps each of its valid
      marks at its index, everything else becomes unmarked. A stored value that
      is not an array gives all cells unmarked. */
  function NormalizeMarks(raw: Option<seq<Value>>, length: int): (r: seq<int>)
    ensures |r| == Size(length)
    ensures AllMarks(r)
    ensures raw.None? ==> r == CreateMarks(length)
    ensures raw.Some? ==> forall i :: 0 <= i < |r| ==>
      (At(raw.value, i).Num? && IsMark(At(raw.value, i).n) ==> r[i] == At(raw.value, i).n)
    ensures raw.Some? ==> forall i :: 0 <= i < |r| ==>
      (!(At(raw.value, i).Num? && IsMark(At(raw.value, i).n)) ==> r[i] == MarkNone)
  {
    if raw.None? then CreateMarks(length)
    else
      var out := CreateMarks(length);
      seq(|out|, i requires 0 <= i < |out| =>
        var v := At(raw.value, i);
        if v.Num? && IsMark(v.n) then v.n else out[i])
  }

  /** Marks as the stored array that holds them. */
  function Stored(ms: seq<int>): (vs: seq<Value>)
    ensures |vs| == |ms|
    ensures forall i :: 0 <= i < |ms| ==> vs[i] == Num(ms[i])
  {
    seq(|ms|, i requires 0 <= i < |ms| => Num(ms[i]))
  }

  /** Stored marks of at least the asked length read back as their first cells. */
  lemma NormalizeStored(ms: seq<int>, length: int)
    requires AllMarks(ms) && Size(length) <= |ms|
    ensures NormalizeMarks(Some(Stored(ms)), length) == ms[..Size(length)]
  {
  }

  /** Normalizing normalized marks changes nothing. */
  lemma NormalizeIdempotent(raw: Option<seq<Value>>, length: int)
    ensures var ms := NormalizeMarks(raw, length);
      NormalizeMarks(Some(Stored(ms)), length) == ms
  {
    var ms := NormalizeMarks(raw, length);
    NormalizeStored(ms, length);
    assert ms[..Size(length)] == ms;
  }

  /** cycleMarkValue: the state after a click. */
  function CycleMarkValue(v: Value): (r: int)
    ensures IsMark(r)
  {
    if v == Num(MarkNone) then MarkExclude
    else if v == Num(MarkExclude) then MarkQuestion
    else MarkNone
  }

  /** The cycle visits none, excluded and questioned in that order, and any other
      value restarts it. */
  lemma CycleOrder(v: Value)
    ensures v == Num(MarkNone) ==> CycleMarkValue(v) == MarkExclude
    ensures v == Num(MarkExclude) ==> CycleMarkValue(v) == MarkQuestion
    ensures v == Num(MarkQuestion) ==> CycleMarkValue(v) == MarkNone
    ensures !(v.Num? && IsMark(v.n)) ==> CycleMarkValue(v) == MarkNone
  {
  }

  /** Three clicks bring a mark back; one or two never do. */
  lemma CyclePeriod(m: int)
    requires IsMark(m)
    ensures CycleMarkValue(Num(m)) != m
    ensures CycleMarkValue(Num(CycleMarkValue(Num(m)))) != m
    ensures CycleMarkValue(Num(CycleMarkValue(Num(CycleMarkValue(Num(m)))))) == m
  {
  }

  /** The source's normalizeMarks test: thirty stored values cycling 0, 1, 2
      with the second replaced by 999. */
  lemma NormalizeExample(raw: seq<Value>)
    requires |raw| == 30
    requires forall i :: 0 <= i < 30 ==> raw[i] == (if i == 1 then Num(999) else Num(i % 3))
    ensures var m := NormalizeMarks(Some(raw), DefaultLength);
      |m| == 25 && m[0] == MarkNone && m[1] == MarkNone && m[2] == MarkQuestion
  {
    assert raw[0] == Num(0) && raw[1] == Num(999) && raw[2] == Num(2);
  }
}
