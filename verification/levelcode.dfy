// The shareable level code of the web app (apps/web/src/lib/level-code.js): the
// 25 colour codes of a level packed two to a byte behind a version byte, carried
// in the URL-safe base64 of RFC 4648 section 5, and the JSON import format.
module LevelCode {
  import opened Results
  import Text
  import Base64

  const LevelVersion: nat := 1
  const CellCount: nat := 25
  /** One version byte and ceil(25 / 2) bytes of cells. */
  const ByteCount: nat := 14

  datatype Level = Level(version: nat, grid: seq<nat>)

  datatype LevelError =
    | BadGridLength(actual: nat)
    | BadCell(index: nat, value: int)
    | NoBytes
    | BadVersion(version: nat)
    | BadByteLength(actual: nat)
    | EmptyCode
    | BadCodeLength
    | BadBase64

  predicate IsNibble(v: int) { 0 <= v <= 15 }

  /** The value stored for cell i: the low nibble of byte 1 + i / 2 when i is even
      and its high nibble when i is odd. */
  function Nibble(bytes: seq<nat>, i: nat): (v: nat)
    requires 1 + i / 2 < |bytes|
    ensures v < 16
  {
    var b := bytes[1 + i / 2];
    if i % 2 == 0 then b % 16 else b / 16 % 16
  }

  /** The index of the first cell from i on that is not a nibble, or |grid|. */
  function FirstBadCell(grid: seq<int>, i: nat): (k: nat)
    requires i <= |grid|
    ensures i <= k <= |grid|
    ensures k < |grid| ==> !IsNibble(grid[k])
    ensures forall j :: i <= j < k ==> IsNibble(grid[j])
    decreases |grid| - i
  {
    if i == |grid| || !IsNibble(grid[i]) then i else FirstBadCell(grid, i + 1)
  }

  /** The byte holding cells 2k and 2k + 1; the high nibble of the last byte is zero. */
  function PackedByte(grid: seq<int>, k: nat): (b: nat)
    requires |grid| == CellCount && k < 13
    requires forall i :: 0 <= i < |grid| ==> IsNibble(grid[i])
    ensures b < 256
  {
    assert IsNibble(grid[2 * k]);
    assert 2 * k + 1 < CellCount ==> IsNibble(grid[2 * k + 1]);
    grid[2 * k] + 16 * (if 2 * k + 1 < CellCount then grid[2 * k + 1] else 0)
  }

  /** packLevelBytes: cells are checked in order and the first bad one is reported. */
  function PackLevelBytes(grid: seq<int>): (r: Result<seq<nat>, LevelError>)
    ensures |grid| != CellCount <==> r == Err(BadGridLength(|grid|))
    ensures r.Ok? <==> |grid| == CellCount && forall i :: 0 <= i < |grid| ==> IsNibble(grid[i])
    ensures r.Err? && |grid| == CellCount ==>
      r.error.BadCell? && r.error.index < |grid| && r.error.value == grid[r.error.index]
      && !IsNibble(grid[r.error.index])
      && forall j :: 0 <= j < r.error.index ==> IsNibble(grid[j])
    ensures r.Ok? ==>
      |r.value| == ByteCount && r.value[0] == LevelVersion && Base64.IsBytes(r.value)
      && (forall i :: 0 <= i < CellCount ==> Nibble(r.value, i) == grid[i])
      && r.value[ByteCount - 1] < 16
  {
    if |grid| != CellCount then Err(BadGridLength(|grid|))
    else
      var k := FirstBadCell(grid, 0);
      if k < |grid| then Err(BadCell(k, grid[k]))
      else
        Ok(Packed(grid))
  }

  /** The version byte, then the cells two to a byte. */
  function Packed(grid: seq<int>): (bytes: seq<nat>)
    requires |grid| == CellCount && forall i :: 0 <= i < |grid| ==> IsNibble(grid[i])
    ensures |bytes| == ByteCount && bytes[0] == LevelVersion && Base64.IsBytes(bytes)
    ensures forall i :: 0 <= i < CellCount ==> Nibble(bytes, i) == grid[i]
    ensures bytes[ByteCount - 1] < 16
  {
    var bytes := [LevelVersion] + seq(13, j requires 0 <= j < 13 => PackedByte(grid, j));
    forall i | 0 <= i < CellCount ensures Nibble(bytes, i) == grid[i] {
      assert bytes[1 + i / 2] == PackedByte(grid, i / 2);
      NibbleOfPacked(grid, i);
    }
    bytes
  }

  /** Each cell comes back out of the byte it was packed into. */
  lemma NibbleOfPacked(grid: seq<int>, i: nat)
    requires |grid| == CellCount && forall j :: 0 <= j < |grid| ==> IsNibble(grid[j])
    requires i < CellCount
    ensures var b := PackedByte(grid, i / 2);
      (if i % 2 == 0 then b % 16 else b / 16 % 16) == grid[i]
  {
    var k := i / 2;
    var hi := if 2 * k + 1 < CellCount then grid[2 * k + 1] else 0;
    SplitNibbles(grid[2 * k], hi);
  }

  lemma SplitNibbles(lo: nat, hi: nat)
    requires lo < 16 && hi < 16
    ensures (lo + 16 * hi) % 16 == lo && (lo + 16 * hi) / 16 % 16 == hi
  {
  }

  /** unpackLevelBytes. The source's further check that each cell's byte exists
      cannot fail once the length is 14. */
  function UnpackLevelBytes(bytes: seq<nat>): (r: Result<Level, LevelError>)
    requires Base64.IsBytes(bytes)
    ensures |bytes| == 0 <==> r == Err(NoBytes)
    ensures |bytes| > 0 ==> (bytes[0] != LevelVersion <==> r == Err(BadVersion(bytes[0])))
    ensures r.Ok? <==> |bytes| == ByteCount && bytes[0] == LevelVersion
    ensures r.Ok? ==>
      r.value.version == LevelVersion && |r.value.grid| == CellCount
      && forall i :: 0 <= i < CellCount ==> r.value.grid[i] == Nibble(bytes, i)
  {
    if |bytes| < 1 then Err(NoBytes)
    else if bytes[0] != LevelVersion then Err(BadVersion(bytes[0]))
    else if |bytes| != ByteCount then Err(BadByteLength(|bytes|))
    else Ok(Level(bytes[0], seq(CellCount, i requires 0 <= i < CellCount => Nibble(bytes, i))))
  }

  /** Unpacking a packed grid gives the grid back. */
  lemma UnpackPack(grid: seq<int>)
    requires PackLevelBytes(grid).Ok?
    ensures forall i :: 0 <= i < |grid| ==> grid[i] >= 0
    ensures UnpackLevelBytes(PackLevelBytes(grid).value) == Ok(Level(LevelVersion, grid))
  {
    var bytes := PackLevelBytes(grid).value;
    var level := UnpackLevelBytes(bytes).value;
    assert forall i :: 0 <= i < CellCount ==> level.grid[i] == grid[i];
    assert level.grid == grid;
  }

  /** Packing an unpacked level gives the bytes back, when the unused high nibble
      of the last byte is zero. */
  lemma PackUnpack(bytes: seq<nat>)
    requires Base64.IsBytes(bytes)
    requires UnpackLevelBytes(bytes).Ok? && bytes[ByteCount - 1] < 16
    ensures PackLevelBytes(UnpackLevelBytes(bytes).value.grid) == Ok(bytes)
  {
    var grid := UnpackLevelBytes(bytes).value.grid;
    var packed := PackLevelBytes(grid).value;
    forall k | 0 <= k < ByteCount ensures packed[k] == bytes[k] {
      if k > 0 {
        assert packed[k] == PackedByte(grid, k - 1);
        RepackByte(bytes, grid, k - 1);
      }
    }
    assert packed == bytes;
  }

  /** Packing the two nibbles read from a byte rebuilds it. */
  lemma RepackByte(bytes: seq<nat>, grid: seq<nat>, k: nat)
    requires Base64.IsBytes(bytes) && |bytes| == ByteCount && bytes[ByteCount - 1] < 16
    requires |grid| == CellCount && forall i :: 0 <= i < CellCount ==> grid[i] == Nibble(bytes, i)
    requires forall i :: 0 <= i < |grid| ==> IsNibble(grid[i])
    requires k < 13
    ensures PackedByte(grid, k) == bytes[k + 1]
  {
    ByteNibbles(bytes[k + 1]);
    assert grid[2 * k] == Nibble(bytes, 2 * k);
    if 2 * k + 1 < CellCount {
      assert grid[2 * k + 1] == Nibble(bytes, 2 * k + 1);
    }
  }

  /** A byte is its low nibble plus 16 times its high nibble. */
  lemma ByteNibbles(b: nat)
    requires b < 256
    ensures b == b % 16 + 16 * (b / 16 % 16)
  {
  }

  // ---------------------------------------------------------------------
  // The code string

  /** bytesToBase64Url. */
  function BytesToBase64Url(bytes: seq<nat>): (s: string)
    requires Base64.IsBytes(bytes)
    ensures forall k :: 0 <= k < |s| ==> Base64.IsUrlChar(s[k])
  {
    Base64.ToUrlShape(bytes);
    Base64.ToUrl(bytes)
  }

  /** The '=' characters the decoder appends for a length of 2 or 3 modulo 4. */
  function Repad(n: nat): string {
    if n % 4 == 2 then "==" else if n % 4 == 3 then "=" else ""
  }

  /** base64UrlToBytes: blank input and a length of 1 modulo 4 are rejected before
      the standard padding is restored and the text decoded. */
  function Base64UrlToBytes(s: string): (r: Result<seq<nat>, LevelError>)
    ensures r == Err(EmptyCode) <==> Text.AllSpace(Text.Js, s)
    ensures r == Err(BadCodeLength) <==> !Text.AllSpace(Text.Js, s) && |s| % 4 == 1
    ensures r.Ok? ==> Base64.IsBytes(r.value)
    ensures r.Err? ==> r.error in {EmptyCode, BadCodeLength, BadBase64}
  {
    if Text.Trim(Text.Js, s) == [] then Err(EmptyCode)
    else
      var b64 := Base64.ReplaceAll(Base64.ReplaceAll(s, '-', '+'), '_', '/');
      if |b64| % 4 == 1 then Err(BadCodeLength)
      else
        match Base64.Atob(b64 + Repad(|b64|))
        case None => Err(BadBase64)
        case Some(bytes) => Ok(bytes)
  }

  /** The decoder appends the padding the encoder dropped. */
  lemma RepadRestores(m: nat, n: nat)
    requires m % 4 == (if n % 3 == 0 then 0 else n % 3 + 1)
    ensures Repad(m) == Base64.Padding(n)
  {
  }

  /** The code of any non-empty byte string decodes to it. */
  lemma Base64UrlRoundTrip(bytes: seq<nat>)
    requires Base64.IsBytes(bytes) && |bytes| > 0
    ensures Base64UrlToBytes(BytesToBase64Url(bytes)) == Ok(bytes)
  {
    var s := BytesToBase64Url(bytes);
    Base64.ToUrlShape(bytes);
    assert !Text.IsSpace(Text.Js, s[0]);
    var b64 := Base64.ReplaceAll(Base64.ReplaceAll(s, '-', '+'), '_', '/');
    Base64.FromUrlOfToUrl(bytes);
    assert b64 == Base64.Unpadded(bytes);
    RepadRestores(|b64|, |bytes|);
    assert b64 + Repad(|b64|) == Base64.Encode(bytes);
    Base64.AtobEncode(bytes);
  }

  /** encodeLevel. */
  function EncodeLevel(grid: seq<int>): (r: Result<string, LevelError>)
    ensures r.Err? <==> PackLevelBytes(grid).Err?
    ensures r.Err? ==> r.error == PackLevelBytes(grid).error
    ensures r.Ok? ==> forall k :: 0 <= k < |r.value| ==> Base64.IsUrlChar(r.value[k])
  {
    match PackLevelBytes(grid)
    case Err(e) => Err(e)
    case Ok(bytes) => Ok(BytesToBase64Url(bytes))
  }

  /** decodeLevel. */
  function DecodeLevel(code: string): (r: Result<Level, LevelError>)
    ensures r.Ok? ==>
      r.value.version == LevelVersion && |r.value.grid| == CellCount
      && forall i :: 0 <= i < CellCount ==> IsNibble(r.value.grid[i])
  {
    match Base64UrlToBytes(code)
    case Err(e) => Err(e)
    case Ok(bytes) => UnpackLevelBytes(bytes)
  }

  /** Every encodable grid decodes back from its code. */
  lemma LevelRoundTrip(grid: seq<int>)
    requires EncodeLevel(grid).Ok?
    ensures DecodeLevel(EncodeLevel(grid).value) == Ok(Level(LevelVersion, grid))
  {
    var bytes := PackLevelBytes(grid).value;
    Base64UrlRoundTrip(bytes);
    UnpackPack(grid);
  }

  // ---------------------------------------------------------------------
  // The JSON form

  /** A JSON value as JSON.parse yields it; Frac is a number that is not an integer,
      and an object is reduced to the two fields the importer reads. */
  datatype Json =
    | Null
    | Bool(b: bool)
    | Int(i: int)
    | Frac
    | Str(s: string)
    | Arr(items: seq<Json>)
    | Obj(version: Option<Json>, grid: Option<Json>)

  datatype JsonError = NotObject | WrongVersion | MissingGrid | NotSquare | NotInteger | BadShape

  /** JavaScript truthiness; NaN is not modelled. */
  predicate Truthy(v: Json) {
    match v
    case Null => false
    case Bool(b) => b
    case Int(i) => i != 0
    case Str(s) => s != ""
    case _ => true
  }

  predicate AllInts(items: seq<Json>) { forall k :: 0 <= k < |items| ==> items[k].Int? }

  function Ints(items: seq<Json>): (xs: seq<int>)
    requires AllInts(items)
    ensures |xs| == |items| && forall k :: 0 <= k < |items| ==> xs[k] == items[k].i
  {
    seq(|items|, k requires 0 <= k < |items| => items[k].i)
  }

  function Square(k: nat): nat { k * k }

  /** Math.sqrt(n) is an integer. */
  predicate IsSquare(n: nat) { exists k :: 0 <= k <= n && Square(k) == n }

  /** levelToJson. */
  function LevelToJson(grid: seq<int>): (j: Json)
    ensures j.Obj? && j.version == Some(Int(LevelVersion)) && j.grid.Some? && j.grid.value.Arr?
    ensures AllInts(j.grid.value.items) && Ints(j.grid.value.items) == grid
  {
    Obj(Some(Int(LevelVersion)), Some(Arr(seq(|grid|, k requires 0 <= k < |grid| => Int(grid[k])))))
  }

  /** Rows of a square 2D grid, flattened row-major; rows are checked in order,
      each first for its length and then for integer cells. */
  function Flatten(rows: seq<Json>, n: nat): (r: Result<seq<int>, JsonError>)
    ensures r.Ok? <==> forall k :: 0 <= k < |rows| ==>
      rows[k].Arr? && |rows[k].items| == n && AllInts(rows[k].items)
    ensures r.Err? ==> r.error in {NotSquare, NotInteger}
    ensures r.Ok? ==> |r.value| == |rows| * n
    decreases |rows|
  {
    if |rows| == 0 then Ok([])
    else if !rows[0].Arr? || |rows[0].items| != n then Err(NotSquare)
    else if !AllInts(rows[0].items) then Err(NotInteger)
    else
      match Flatten(rows[1..], n)
      case Err(e) => Err(e)
      case Ok(rest) =>
        assert forall k :: 1 <= k < |rows| ==> rows[k] == rows[1..][k - 1];
        Ok(Ints(rows[0].items) + rest)
  }

  /** Cell c of row r lands at r * n + c. */
  lemma {:induction false} FlattenAt(rows: seq<Json>, n: nat, r: nat, c: nat)
    requires Flatten(rows, n).Ok? && r < |rows| && c < n
    ensures r * n + c < |Flatten(rows, n).value|
    ensures Flatten(rows, n).value[r * n + c] == rows[r].items[c].i
    decreases r
  {
    var rest := Flatten(rows[1..], n).value;
    assert Flatten(rows, n).value == Ints(rows[0].items) + rest;
    if r > 0 {
      FlattenAt(rows[1..], n, r - 1, c);
      assert r * n + c == n + ((r - 1) * n + c);
    }
  }

  /** normalizeLevelJson. An array is an object to the source's first check, but
      has no version. */
  function NormalizeLevelJson(value: Json): (r: Result<seq<int>, JsonError>)
    ensures !value.Obj? && !value.Arr? <==> r == Err(NotObject)
    ensures value.Arr? ==> r == Err(WrongVersion)
    ensures value.Obj? && value.version != Some(Int(LevelVersion)) ==> r == Err(WrongVersion)
    ensures r.Ok? ==>
      value.Obj? && value.version == Some(Int(LevelVersion))
      && value.grid.Some? && value.grid.value.Arr?
    ensures value.Obj? && value.version == Some(Int(LevelVersion)) ==>
      ((value.grid.None? || !Truthy(value.grid.value)) <==> r == Err(MissingGrid))
  {
    if !value.Obj? && !value.Arr? then Err(NotObject)
    else if !value.Obj? || value.version != Some(Int(LevelVersion)) then Err(WrongVersion)
    else if value.grid.None? || !Truthy(value.grid.value) then Err(MissingGrid)
    else
      var grid := value.grid.value;
      if grid.Arr? && AllInts(grid.items) && IsSquare(|grid.items|) then Ok(Ints(grid.items))
      else if grid.Arr? && |grid.items| > 0 && grid.items[0].Arr? then Flatten(grid.items, |grid.items|)
      else Err(BadShape)
  }

  /** A flat list of integers of square length is taken as it is: the export
      re-imports to the same grid. */
  lemma JsonRoundTrip(grid: seq<int>)
    requires IsSquare(|grid|)
    ensures NormalizeLevelJson(LevelToJson(grid)) == Ok(grid)
  {
  }

  /** A square 2D array is flattened row-major, and every cell keeps its place:
      cell j of row i is element i * n + j of the level's n * n cells. */
  lemma Json2D(rows: seq<Json>, i: nat, j: nat)
    requires |rows| > 0 && rows[0].Arr?
    requires forall k :: 0 <= k < |rows| ==> rows[k].Arr? && |rows[k].items| == |rows| && AllInts(rows[k].items)
    requires i < |rows| && j < |rows|
    ensures var r := NormalizeLevelJson(Obj(Some(Int(LevelVersion)), Some(Arr(rows))));
      r.Ok? && |r.value| == |rows| * |rows|
      && i * |rows| + j < |r.value| && r.value[i * |rows| + j] == rows[i].items[j].i
  {
    NestedIsFlattened(rows);
    FlattenAt(rows, |rows|, i, j);
  }

  /** A grid whose first element is an array is not a flat list: it goes to Flatten. */
  lemma NestedIsFlattened(rows: seq<Json>)
    requires |rows| > 0 && rows[0].Arr?
    ensures NormalizeLevelJson(Obj(Some(Int(LevelVersion)), Some(Arr(rows)))) == Flatten(rows, |rows|)
  {
    assert !AllInts(rows);
  }

  /** A 2D array with a row of the wrong length, and integer rows before it, is
      refused as not square. */
  lemma Json2DNotSquare(rows: seq<Json>, bad: nat)
    requires |rows| > 0 && rows[0].Arr? && bad < |rows|
    requires forall k :: 0 <= k < bad ==> rows[k].Arr? && |rows[k].items| == |rows| && AllInts(rows[k].items)
    requires rows[bad].Arr? && |rows[bad].items| != |rows|
    ensures NormalizeLevelJson(Obj(Some(Int(LevelVersion)), Some(Arr(rows)))) == Err(NotSquare)
  {
    assert !rows[0].Int?;
    FlattenFirstBad(rows, |rows|, bad);
  }

  /** Flatten reports the first bad row's defect. */
  lemma {:induction false} FlattenFirstBad(rows: seq<Json>, n: nat, bad: nat)
    requires bad < |rows|
    requires forall k :: 0 <= k < bad ==> rows[k].Arr? && |rows[k].items| == n && AllInts(rows[k].items)
    requires !rows[bad].Arr? || |rows[bad].items| != n
    ensures Flatten(rows, n) == Err(NotSquare)
    decreases bad
  {
    if bad > 0 {
      FlattenFirstBad(rows[1..], n, bad - 1);
    }
  }
}
