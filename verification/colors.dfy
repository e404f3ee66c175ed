// The nine cell colours and their one-byte encoding (crates/engine/src/colors.rs).
module Colors {
  import opened Results

  const ColorCount: nat := 9

  datatype Color = Red | Blue | Black | Green | Yellow | Purple | White | Orange | Cyan

  /** Every colour once, in encoding order. */
  const AllColors: seq<Color> := [Red, Blue, Black, Green, Yellow, Purple, White, Orange, Cyan]

  /** Colours used by the random generator: every colour except White. */
  const NonWhiteColors: seq<Color> := [Red, Blue, Black, Green, Yellow, Purple, Orange, Cyan]

  function ToU8(c: Color): (v: nat)
    ensures v < ColorCount
    ensures AllColors[v] == c
  {
    match c
    case Red => 0
    case Blue => 1
    case Black => 2
    case Green => 3
    case Yellow => 4
    case Purple => 5
    case White => 6
    case Orange => 7
    case Cyan => 8
  }

  /** Decodes a byte; only 0..=8 name a colour. */
  function FromU8(v: nat): (r: Option<Color>)
    requires v < 256
    ensures r.Some? <==> v < ColorCount
    ensures r.Some? ==> r.value == AllColors[v]
  {
    if v == 0 then Some(Red)
    else if v == 1 then Some(Blue)
    else if v == 2 then Some(Black)
    else if v == 3 then Some(Green)
    else if v == 4 then Some(Yellow)
    else if v == 5 then Some(Purple)
    else if v == 6 then Some(White)
    else if v == 7 then Some(Orange)
    else if v == 8 then Some(Cyan)
    else None
  }

  lemma FromToU8(c: Color)
    ensures FromU8(ToU8(c)) == Some(c)
  {
  }

  lemma ToFromU8(v: nat)
    requires v < 256
    ensures FromU8(v).Some? ==> ToU8(FromU8(v).value) == v
  {
  }

  /** The encoding is a bijection between the colours and 0..=8. */
  lemma ColorCodesDistinct(a: Color, b: Color)
    ensures ToU8(a) == ToU8(b) <==> a == b
  {
  }

  /** NON_WHITE_COLORS lists eight distinct colours: all of them except White. */
  lemma NonWhiteColorsExact(c: Color)
    ensures |NonWhiteColors| == ColorCount - 1
    ensures c in NonWhiteColors <==> c != White
    ensures forall i, j :: 0 <= i < j < |NonWhiteColors| ==> NonWhiteColors[i] != NonWhiteColors[j]
  {
  }

  /** Decodes a grid of colour codes; the error is the index of the first byte that is not a colour. */
  function DecodeGrid(grid: seq<nat>): (r: Result<seq<Color>, nat>)
    requires forall i :: 0 <= i < |grid| ==> grid[i] < 256
    ensures r.Ok? <==> forall i :: 0 <= i < |grid| ==> grid[i] < ColorCount
    ensures r.Ok? ==> |r.value| == |grid| && forall i :: 0 <= i < |grid| ==> ToU8(r.value[i]) == grid[i]
    ensures r.Err? ==> r.error < |grid| && grid[r.error] >= ColorCount
    ensures r.Err? ==> forall i :: 0 <= i < r.error ==> grid[i] < ColorCount
  {
    if |grid| == 0 then Ok([])
    else match FromU8(grid[0])
      case None => Err(0)
      case Some(c) =>
        match DecodeGrid(grid[1..])
        case Ok(rest) => Ok([c] + rest)
        case Err(k) => Err(k + 1)
  }
}
