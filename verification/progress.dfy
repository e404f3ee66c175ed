// The save-progress helpers of the web app (apps/web/src/lib/progress.js): puzzle keys
// and the bounded undo/redo history of checked-cell masks.
module Progress {
  import opened Results
  import Text

  const HistoryLimit: nat := 200
  const U32Range: nat := 0x1_0000_0000

  // ---------------------------------------------------------------------
  // makePuzzleKey

  /** The identifying field of a puzzle, as given to makePuzzleKey; a field that is
      absent, null or the empty string is missing. */
  datatype KeyInfo = KeyInfo(dateYmd: Option<string>, seed: Option<string>, levelCode: Option<string>)

  datatype KeyError = MissingField(kind: string) | UnknownKind(kind: string)

  predicate Present(f: Option<string>) { f.Some? && f.value != "" }

  /** The field a kind of puzzle is keyed by, and the prefix of its key. */
  function FieldOf(kind: string, info: KeyInfo): Option<string> {
    if kind == "daily" then info.dateYmd
    else if kind == "seed" then info.seed
    else info.levelCode
  }

  function PrefixOf(kind: string): string {
    if kind == "daily" then "daily" else if kind == "seed" then "seed" else "level"
  }

  predicate KnownKind(kind: string) { kind == "daily" || kind == "seed" || kind == "custom" }

  /** The storage key of a daily, seeded or custom puzzle. */
  function MakeKey(kind: string, info: KeyInfo): (r: Result<string, KeyError>)
    ensures !KnownKind(kind) <==> r == Err(UnknownKind(kind))
    ensures KnownKind(kind) && !Present(FieldOf(kind, info)) <==> r == Err(MissingField(kind))
    ensures r.Ok? ==>
      KnownKind(kind) && Present(FieldOf(kind, info)) && r.value == PrefixOf(kind) + ":" + FieldOf(kind, info).value
  {
    if kind == "daily" then
      if !Present(info.dateYmd) then Err(MissingField(kind)) else Ok("daily:" + info.dateYmd.value)
    else if kind == "seed" then
      if !Present(info.seed) then Err(MissingField(kind)) else Ok("seed:" + info.seed.value)
    else if kind == "custom" then
      if !Present(info.levelCode) then Err(MissingField(kind)) else Ok("level:" + info.levelCode.value)
    else Err(UnknownKind(kind))
  }

  /** Reads a key back: the kind before the first ':' and the field after it. */
  function ParseKey(key: string): (r: Option<(string, string)>)
    ensures r.Some? ==> KnownKind(r.value.0)
  {
    var k := Text.IndexOf(key, ':');
    if k == |key| then None
    else if key[..k] == "daily" then Some(("daily", key[k + 1..]))
    else if key[..k] == "seed" then Some(("seed", key[k + 1..]))
    else if key[..k] == "level" then Some(("custom", key[k + 1..]))
    else None
  }

  /** A key names its kind and field: ParseKey undoes MakeKey. Different puzzles
      therefore never share a key. */
  lemma KeyRoundTrip(kind: string, info: KeyInfo)
    requires MakeKey(kind, info).Ok?
    ensures ParseKey(MakeKey(kind, info).value) == Some((kind, FieldOf(kind, info).value))
  {
    var key := MakeKey(kind, info).value;
    var p := PrefixOf(kind);
    assert key == p + ":" + FieldOf(kind, info).value;
    assert Text.IndexOf(key, ':') == |p| by {
      assert forall i :: 0 <= i < |p| ==> key[i] == p[i];
      assert key[|p|] == ':';
    }
    assert key[..|p|] == p;
    assert key[|p| + 1..] == FieldOf(kind, info).value;
  }

  lemma KeyInjective(k1: string, i1: KeyInfo, k2: string, i2: KeyInfo)
    requires MakeKey(k1, i1).Ok? && MakeKey(k2, i2).Ok?
    requires MakeKey(k1, i1).value == MakeKey(k2, i2).value
    ensures k1 == k2 && FieldOf(k1, i1) == FieldOf(k2, i2)
  {
    KeyRoundTrip(k1, i1);
    KeyRoundTrip(k2, i2);
  }

  // ---------------------------------------------------------------------
  // normalizeMaskU32 and the history

  /** JavaScript's `m >>> 0` on an integral number: m modulo 2^32. */
  function MaskU32(m: int): (r: nat)
    ensures r < U32Range
    ensures (m - r) % U32Range == 0
    ensures 0 <= m < U32Range ==> r == m
  {
    m % U32Range
  }

  function MasksU32(xs: seq<int>): (ys: seq<nat>)
    ensures |ys| == |xs| && forall i :: 0 <= i < |xs| ==> ys[i] == MaskU32(xs[i])
    ensures AllU32(ys)
  {
    if |xs| == 0 then [] else [MaskU32(xs[0])] + MasksU32(xs[1..])
  }

  /** Masks already in range are left alone. */
  lemma MasksInRange(xs: seq<nat>)
    requires AllU32(xs)
    ensures MasksU32(xs) == xs
  {
  }

  lemma KeepLastInRange(xs: seq<nat>, limit: int)
    requires AllU32(xs)
    ensures AllU32(KeepLast(xs, limit))
  {
    var r := KeepLast(xs, limit);
    forall i | 0 <= i < |r| ensures r[i] < U32Range {
      assert r[i] == xs[|xs| - |r| + i];
    }
  }

  /** The last `limit` elements of xs, as `xs.slice(Math.max(0, xs.length - limit))`. */
  function KeepLast<T>(xs: seq<T>, limit: int): (r: seq<T>)
    ensures |r| == if limit <= 0 then 0 else if limit < |xs| then limit else |xs|
    ensures r == xs[|xs| - |r|..]
  {
    var start := if |xs| - limit > 0 then |xs| - limit else 0;
    if start > |xs| then [] else xs[start..]
  }

  /** Nothing is dropped from a stack within the limit. */
  lemma KeepAll<T>(xs: seq<T>, limit: int)
    requires |xs| <= limit
    ensures KeepLast(xs, limit) == xs
  {
  }

  /** A history as stored: undo and redo stacks are absent when not arrays. */
  datatype RawHistory = RawHistory(undo: Option<seq<int>>, redo: Option<seq<int>>, present: int)

  /** A normalised history: top of each stack last. */
  datatype History = History(undo: seq<nat>, redo: seq<nat>, present: nat)

  function Raw(h: History): RawHistory {
    RawHistory(Some(h.undo), Some(h.redo), h.present)
  }

  predicate AllU32(xs: seq<nat>) { forall i :: 0 <= i < |xs| ==> xs[i] < U32Range }

  /** The shape every normalised history has. */
  predicate Normal(h: History) {
    AllU32(h.undo) && AllU32(h.redo) && h.present < U32Range
    && |h.undo| <= HistoryLimit && |h.redo| <= HistoryLimit
  }

  function Stack(xs: Option<seq<int>>): seq<int> {
    if xs.Some? then xs.value else []
  }

  function NormalizeHistory(h: RawHistory, limit: int): (r: History)
    ensures r.present == MaskU32(h.present)
    ensures r.undo == KeepLast(MasksU32(Stack(h.undo)), limit)
    ensures r.redo == KeepLast(MasksU32(Stack(h.redo)), limit)
    ensures AllU32(r.undo) && AllU32(r.redo)
    ensures 0 <= limit <= HistoryLimit ==> Normal(r)
  {
    var undo := MasksU32(Stack(h.undo));
    var redo := MasksU32(Stack(h.redo));
    KeepLastInRange(undo, limit);
    KeepLastInRange(redo, limit);
    History(KeepLast(undo, limit), KeepLast(redo, limit), MaskU32(h.present))
  }

  function Normalize(h: RawHistory): History {
    NormalizeHistory(h, HistoryLimit)
  }

  /** Normalising a normal history changes nothing. */
  lemma NormalizeNormal(h: History)
    requires Normal(h)
    ensures Normalize(Raw(h)) == h
  {
    MasksInRange(h.undo);
    MasksInRange(h.redo);
  }

  /** Normalising stacks whose masks are in range only trims them. */
  lemma NormalizeInRange(undo: seq<nat>, redo: seq<nat>, present: nat)
    requires AllU32(undo) && AllU32(redo) && present < U32Range
    ensures Normalize(RawHistory(Some(undo), Some(redo), present))
      == History(KeepLast(undo, HistoryLimit), KeepLast(redo, HistoryLimit), present)
  {
    MasksInRange(undo);
    MasksInRange(redo);
  }

  /** Normalising is idempotent. */
  lemma NormalizeIdempotent(h: RawHistory)
    ensures Normalize(Raw(Normalize(h))) == Normalize(h)
  {
    NormalizeNormal(Normalize(h));
  }

  function CreateHistory(initial: int): (h: History)
    ensures Normal(h) && h.undo == [] && h.redo == [] && h.present == MaskU32(initial)
  {
    Normalize(RawHistory(Some([]), Some([]), initial))
  }

  /** The history after a move: normalising stacks of in-range masks only trims them
      to the limit, so the result is normal. */
  function Move(undo: seq<nat>, redo: seq<nat>, present: nat): (r: History)
    requires AllU32(undo) && AllU32(redo) && present < U32Range
    ensures r == History(KeepLast(undo, HistoryLimit), KeepLast(redo, HistoryLimit), present)
    ensures Normal(r)
  {
    NormalizeInRange(undo, redo, present);
    Normalize(RawHistory(Some(undo), Some(redo), present))
  }

  lemma AppendU32(xs: seq<nat>, x: nat)
    requires AllU32(xs) && x < U32Range
    ensures AllU32(xs + [x])
  {
    assert forall i :: 0 <= i < |xs| ==> (xs + [x])[i] == xs[i];
  }

  lemma PrefixU32(xs: seq<nat>, k: nat)
    requires AllU32(xs) && k <= |xs|
    ensures AllU32(xs[..k])
  {
    assert forall i :: 0 <= i < k ==> xs[..k][i] == xs[i];
  }

  /** Records a new mask: the old present goes on top of undo and redo is cleared,
      unless the mask is the present one. */
  function Push(h: RawHistory, next: int): (r: History)
    ensures Normal(r)
    ensures MaskU32(next) == Normalize(h).present ==> r == Normalize(h)
    ensures MaskU32(next) != Normalize(h).present ==>
      r.present == MaskU32(next) && r.redo == []
      && r.undo == KeepLast(Normalize(h).undo + [Normalize(h).present], HistoryLimit)
  {
    var n := Normalize(h);
    var m := MaskU32(next);
    if n.present == m then n
    else
      AppendU32(n.undo, n.present);
      Move(n.undo + [n.present], [], m)
  }

  /** Steps back: the top of undo becomes present and the old present goes on redo. */
  function Undo(h: RawHistory): (r: History)
    ensures Normal(r)
    ensures Normalize(h).undo == [] ==> r == Normalize(h)
    ensures Normalize(h).undo != [] ==>
      var n := Normalize(h);
      r.present == n.undo[|n.undo| - 1] && r.undo == n.undo[..|n.undo| - 1]
      && r.redo == KeepLast(n.redo + [n.present], HistoryLimit)
  {
    var n := Normalize(h);
    if |n.undo| == 0 then n
    else
      AppendU32(n.redo, n.present);
      PrefixU32(n.undo, |n.undo| - 1);
      Move(n.undo[..|n.undo| - 1], n.redo + [n.present], n.undo[|n.undo| - 1])
  }

  /** Steps forward: the mirror of Undo. */
  function Redo(h: RawHistory): (r: History)
    ensures Normal(r)
    ensures Normalize(h).redo == [] ==> r == Normalize(h)
    ensures Normalize(h).redo != [] ==>
      var n := Normalize(h);
      r.present == n.redo[|n.redo| - 1] && r.redo == n.redo[..|n.redo| - 1]
      && r.undo == KeepLast(n.undo + [n.present], HistoryLimit)
  {
    var n := Normalize(h);
    if |n.redo| == 0 then n
    else
      AppendU32(n.undo, n.present);
      PrefixU32(n.redo, |n.redo| - 1);
      Move(n.undo + [n.present], n.redo[..|n.redo| - 1], n.redo[|n.redo| - 1])
  }

  /** Redo undoes an Undo, provided the redo stack had room for the old present. */
  lemma RedoAfterUndo(h: History)
    requires Normal(h) && h.undo != [] && |h.redo| < HistoryLimit
    ensures Redo(Raw(Undo(Raw(h)))) == h
  {
    NormalizeNormal(h);
    var u := Undo(Raw(h));
    KeepAll(h.redo + [h.present], HistoryLimit);
    assert u.redo == h.redo + [h.present];
    NormalizeNormal(u);
    assert u.undo + [u.present] == h.undo;
    KeepAll(h.undo, HistoryLimit);
    assert u.redo[..|u.redo| - 1] == h.redo;
  }

  /** Undo undoes a Redo, provided the undo stack had room for the old present. */
  lemma UndoAfterRedo(h: History)
    requires Normal(h) && h.redo != [] && |h.undo| < HistoryLimit
    ensures Undo(Raw(Redo(Raw(h)))) == h
  {
    NormalizeNormal(h);
    var r := Redo(Raw(h));
    KeepAll(h.undo + [h.present], HistoryLimit);
    assert r.undo == h.undo + [h.present];
    NormalizeNormal(r);
    assert r.redo + [r.present] == h.redo;
    KeepAll(h.redo, HistoryLimit);
    assert r.undo[..|r.undo| - 1] == h.undo;
  }

  /** Undo right after a Push returns to the state before it, less any redo
      entries the push discarded. */
  lemma UndoAfterPush(h: History, next: int)
    requires Normal(h) && |h.undo| < HistoryLimit && MaskU32(next) != h.present
    ensures Undo(Raw(Push(Raw(h), next))) == History(h.undo, [MaskU32(next)], h.present)
  {
    NormalizeNormal(h);
    var p := Push(Raw(h), next);
    KeepAll(h.undo + [h.present], HistoryLimit);
    assert p.undo == h.undo + [h.present];
    NormalizeNormal(p);
    KeepAll([h.present], HistoryLimit);
    assert p.undo[..|p.undo| - 1] == h.undo;
  }

  /** Push on a normal history with room on the undo stack. */
  lemma PushStep(h: History, next: nat)
    requires Normal(h) && |h.undo| < HistoryLimit && next < U32Range && next != h.present
    ensures Push(Raw(h), next) == History(h.undo + [h.present], [], next)
  {
    NormalizeNormal(h);
    KeepAll(h.undo + [h.present], HistoryLimit);
  }

  /** Undo on a normal history with room on the redo stack. */
  lemma UndoStep(h: History)
    requires Normal(h) && h.undo != [] && |h.redo| < HistoryLimit
    ensures Undo(Raw(h)) == History(h.undo[..|h.undo| - 1], h.redo + [h.present], h.undo[|h.undo| - 1])
  {
    NormalizeNormal(h);
    KeepAll(h.redo + [h.present], HistoryLimit);
  }

  /** Redo on a normal history with room on the undo stack. */
  lemma RedoStep(h: History)
    requires Normal(h) && h.redo != [] && |h.undo| < HistoryLimit
    ensures Redo(Raw(h)) == History(h.undo + [h.present], h.redo[..|h.redo| - 1], h.redo[|h.redo| - 1])
  {
    NormalizeNormal(h);
    KeepAll(h.undo + [h.present], HistoryLimit);
  }

  // The source's history test: pushes of 1 and 3 onto a fresh history, then an
  // undo and a redo.

  lemma ExamplePushes(first: int, second: int)
    requires first == 1 && second == 3
    ensures Push(Raw(Push(Raw(CreateHistory(0)), first)), second) == History([0, 1], [], 3)
  {
    FirstPush(first);
    SecondPush(second);
  }

  lemma FirstPush(first: int)
    requires first == 1
    ensures Push(Raw(CreateHistory(0)), first) == History([0], [], 1)
  {
    var h0 := CreateHistory(0);
    assert h0 == History([], [], 0);
    PushStep(h0, first);
  }

  lemma SecondPush(second: int)
    requires second == 3
    ensures Push(Raw(History([0], [], 1)), second) == History([0, 1], [], 3)
  {
    var h1 := History([0], [], 1);
    assert Normal(h1) by {
      assert AllU32(h1.undo) && AllU32(h1.redo);
    }
    PushStep(h1, second);
  }

  lemma ExampleUndo()
    ensures Undo(Raw(History([0, 1], [], 3))) == History([0], [3], 1)
  {
    UndoStep(History([0, 1], [], 3));
  }

  lemma ExampleRedo()
    ensures Redo(Raw(History([0], [3], 1))) == History([0, 1], [], 3)
  {
    RedoStep(History([0], [3], 1));
  }
}
