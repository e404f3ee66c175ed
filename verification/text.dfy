// String helpers shared by the date, tutorial and statistics parsers: white-space
// trimming as JavaScript's String.prototype.trim and Rust's str::trim define it,
// splitting on a separator character, and ASCII decimal digits.
module Text {
  /** Whose definition of white space a trim follows. */
  datatype Host = Js | Rust

  /** The WhiteSpace and LineTerminator code points of ECMA-262 (sections 12.2 and 12.3). */
  predicate IsJsSpace(c: char) {
    c == '\U{0009}' || c == '\U{000B}' || c == '\U{000C}' || c == ' ' || c == '\U{00A0}'
    || c == '\U{FEFF}' || c == '\U{1680}' || ('\U{2000}' <= c <= '\U{200A}') || c == '\U{202F}'
    || c == '\U{205F}' || c == '\U{3000}'
    || c == '\n' || c == '\r' || c == '\U{2028}' || c == '\U{2029}'
  }

  /** The Unicode White_Space property, which Rust's char::is_whitespace tests. */
  predicate IsRustSpace(c: char) {
    ('\U{0009}' <= c <= '\U{000D}') || c == ' ' || c == '\U{0085}' || c == '\U{00A0}'
    || c == '\U{1680}' || ('\U{2000}' <= c <= '\U{200A}') || c == '\U{2028}' || c == '\U{2029}'
    || c == '\U{202F}' || c == '\U{205F}' || c == '\U{3000}'
  }

  predicate IsSpace(h: Host, c: char) {
    match h
    case Js => IsJsSpace(c)
    case Rust => IsRustSpace(c)
  }

  predicate AllSpace(h: Host, s: string) {
    forall k :: 0 <= k < |s| ==> IsSpace(h, s[k])
  }

  /** The number of white-space characters at the start of s. */
  function LeadingSpace(h: Host, s: string): (n: nat)
    ensures n <= |s|
    ensures AllSpace(h, s[..n])
    ensures n == |s| || !IsSpace(h, s[n])
  {
    if |s| == 0 || !IsSpace(h, s[0]) then 0
    else
      var n := 1 + LeadingSpace(h, s[1..]);
      assert s[1..][..n - 1] == s[1..n];
      n
  }

  /** The number of white-space characters at the end of s. */
  function TrailingSpace(h: Host, s: string): (n: nat)
    ensures n <= |s|
    ensures AllSpace(h, s[|s| - n..])
    ensures n == |s| || !IsSpace(h, s[|s| - n - 1])
  {
    if |s| == 0 || !IsSpace(h, s[|s| - 1]) then 0
    else
      var n := 1 + TrailingSpace(h, s[..|s| - 1]);
      assert s[..|s| - 1][|s| - n..] == s[|s| - n..|s| - 1];
      n
  }

  /** s without its leading and trailing white space. */
  function Trim(h: Host, s: string): (r: string)
    ensures |r| <= |s|
    ensures r == [] || (!IsSpace(h, r[0]) && !IsSpace(h, r[|r| - 1]))
    ensures r == [] <==> AllSpace(h, s)
    ensures r != [] ==> s == s[..LeadingSpace(h, s)] + r + s[|s| - TrailingSpace(h, s)..]
  {
    var i := LeadingSpace(h, s);
    if i == |s| then [] else
      var j := |s| - TrailingSpace(h, s);
      assert s == s[..i] + s[i..j] + s[j..];
      s[i..j]
  }

  /** Trimming twice is trimming once. */
  lemma TrimIdempotent(h: Host, s: string)
    ensures Trim(h, Trim(h, s)) == Trim(h, s)
  {
    var r := Trim(h, s);
    if r != [] {
      assert LeadingSpace(h, r) == 0;
      assert TrailingSpace(h, r) == 0;
    }
  }

  /** A string that neither starts nor ends with white space is its own trim. */
  lemma TrimUnchanged(h: Host, s: string)
    requires |s| > 0 && !IsSpace(h, s[0]) && !IsSpace(h, s[|s| - 1])
    ensures Trim(h, s) == s
  {
    assert LeadingSpace(h, s) == 0 && TrailingSpace(h, s) == 0;
  }

  predicate IsDigit(c: char) { '0' <= c <= '9' }

  predicate AllDigits(s: string) {
    forall k :: 0 <= k < |s| ==> IsDigit(s[k])
  }

  function DigitValue(c: char): (v: nat)
    requires IsDigit(c)
    ensures v < 10
  {
    (c as int) - ('0' as int)
  }

  function DigitChar(v: nat): (c: char)
    requires v < 10
    ensures IsDigit(c) && DigitValue(c) == v
  {
    (('0' as int) + v) as char
  }

  /** The value of a string of decimal digits, most significant first. */
  function DecimalValue(s: string): (v: nat)
    requires AllDigits(s)
    decreases |s|
  {
    if |s| == 0 then 0 else DecimalValue(s[..|s| - 1]) * 10 + DigitValue(s[|s| - 1])
  }

  /** The shortest decimal rendering of n, as String(n) and Rust's Display write it. */
  function Decimal(n: nat): (s: string)
    ensures |s| >= 1 && AllDigits(s)
    ensures |s| > 1 ==> s[0] != '0'
  {
    if n < 10 then [DigitChar(n)] else Decimal(n / 10) + [DigitChar(n % 10)]
  }

  /** Reading back a rendered number gives the number. */
  lemma {:induction false} DecimalRoundTrip(n: nat)
    ensures DecimalValue(Decimal(n)) == n
  {
    if n >= 10 {
      DecimalRoundTrip(n / 10);
      var s := Decimal(n);
      assert s[..|s| - 1] == Decimal(n / 10);
    }
  }

  /** A value below 10^k needs no more than k digits. */
  lemma {:induction false} DecimalValueBound(s: string)
    requires AllDigits(s)
    ensures DecimalValue(s) < Pow10(|s|)
  {
    if |s| > 0 {
      DecimalValueBound(s[..|s| - 1]);
    }
  }

  function Pow10(k: nat): (p: nat)
    ensures p >= 1
  {
    if k == 0 then 1 else 10 * Pow10(k - 1)
  }

  /** Whether c occurs in s. */
  predicate Contains(s: string, c: char) {
    exists k :: 0 <= k < |s| && s[k] == c
  }

  /** The index of the first occurrence of c in s, or |s| when there is none. */
  function IndexOf(s: string, c: char): (k: nat)
    ensures k <= |s|
    ensures k < |s| ==> s[k] == c
    ensures forall i :: 0 <= i < k ==> s[i] != c
  {
    if |s| == 0 then 0
    else if s[0] == c then 0
    else 1 + IndexOf(s[1..], c)
  }

  /** The pieces of s between occurrences of sep, as Rust's str::split and String.prototype.split give them. */
  function Split(s: string, sep: char): (parts: seq<string>)
    ensures |parts| >= 1
    ensures forall p :: p in parts ==> !Contains(p, sep)
    ensures Join(parts, sep) == s
    decreases |s|
  {
    var k := IndexOf(s, sep);
    if k == |s| then [s]
    else
      var rest := Split(s[k + 1..], sep);
      assert Join([s[..k]] + rest, sep) == s[..k] + [sep] + Join(rest, sep) by {
        assert ([s[..k]] + rest)[1..] == rest;
      }
      assert s == s[..k] + [sep] + s[k + 1..];
      [s[..k]] + rest
  }

  /** The pieces glued back together with sep between neighbours. */
  function Join(parts: seq<string>, sep: char): string
    requires |parts| >= 1
  {
    if |parts| == 1 then parts[0] else parts[0] + [sep] + Join(parts[1..], sep)
  }

  /** Three pieces joined. */
  lemma Join3(a: string, b: string, c: string, sep: char)
    ensures Join([a, b, c], sep) == a + [sep] + b + [sep] + c
  {
    assert [a, b, c][1..] == [b, c];
    assert [b, c][1..] == [c];
    assert Join([b, c], sep) == b + [sep] + c;
    assert Join([a, b, c], sep) == a + [sep] + Join([b, c], sep);
  }

  /** A digit string holds no other character. */
  lemma DigitsExclude(s: string, c: char)
    requires AllDigits(s) && !IsDigit(c)
    ensures !Contains(s, c)
  {
  }

  /** Splitting a join of separator-free pieces gives the pieces back. */
  lemma {:induction false} SplitJoin(parts: seq<string>, sep: char)
    requires |parts| >= 1
    requires forall p :: p in parts ==> !Contains(p, sep)
    ensures Split(Join(parts, sep), sep) == parts
    decreases |parts|
  {
    var s := Join(parts, sep);
    if |parts| == 1 {
      assert !Contains(parts[0], sep);
      assert IndexOf(s, sep) == |s|;
    } else {
      var p := parts[0];
      assert !Contains(p, sep);
      assert s == p + [sep] + Join(parts[1..], sep);
      assert IndexOf(s, sep) == |p| by {
        assert forall k :: 0 <= k < |p| ==> s[k] == p[k];
        assert s[|p|] == sep;
      }
      assert s[|p| + 1..] == Join(parts[1..], sep);
      assert s[..|p|] == p;
      SplitJoin(parts[1..], sep);
      assert [p] + parts[1..] == parts;
    }
  }

  /** s starts with the string prefix. */
  predicate StartsWith(s: string, prefix: string) {
    |prefix| <= |s| && s[..|prefix|] == prefix
  }

  /** JavaScript's String.prototype.padStart(2, '0') applied to a rendered number. */
  function Pad2(n: nat): (s: string)
    ensures |s| >= 2 && AllDigits(s)
    ensures DecimalValue(s) == n
  {
    DecimalRoundTrip(n);
    var d := Decimal(n);
    if |d| < 2 then
      assert DecimalValue(['0'] + d) == DecimalValue(d) by {
        assert (['0'] + d)[..1] == ['0'];
      }
      ['0'] + d
    else d
  }

  /** A number of at least 10^(k-1) and below 10^k is written with k digits. */
  lemma {:induction false} DecimalLength(n: nat, k: nat)
    requires 1 <= k && (k == 1 || Pow10(k - 1) <= n) && n < Pow10(k)
    ensures |Decimal(n)| == k
  {
    if k > 1 {
      assert Pow10(k) == 10 * Pow10(k - 1);
      assert k - 1 == 1 || Pow10(k - 1) == 10 * Pow10(k - 2);
      DecimalLength(n / 10, k - 1);
    }
  }

  /** A digit string that does not start with '0' has a positive value. */
  lemma {:induction false} LeadingDigitValue(s: string)
    requires AllDigits(s) && |s| >= 1 && s[0] != '0'
    ensures DecimalValue(s) >= 1
    decreases |s|
  {
    if |s| > 1 {
      LeadingDigitValue(s[..|s| - 1]);
    }
  }

  /** A digit string without a leading zero is the rendering of its value. */
  lemma {:induction false} DecimalOfValue(s: string)
    requires AllDigits(s) && |s| >= 1 && (|s| == 1 || s[0] != '0')
    ensures Decimal(DecimalValue(s)) == s
    decreases |s|
  {
    if |s| > 1 {
      var p := s[..|s| - 1];
      LeadingDigitValue(p);
      DecimalOfValue(p);
      assert s == p + [s[|s| - 1]];
    }
  }

  /** Two digits read and padded back are the same two digits. */
  lemma Pad2OfValue(s: string)
    requires AllDigits(s) && |s| == 2
    ensures Pad2(DecimalValue(s)) == s
  {
    if s[0] == '0' {
      assert DecimalValue(s[..1]) == 0 by {
        assert s[..1][..0] == [];
      }
      assert ['0'] + [s[1]] == s;
    } else {
      DecimalOfValue(s);
    }
  }

  /** Numbers below 100 pad to exactly two digits. */
  lemma Pad2Length(n: nat)
    requires n < 100
    ensures |Pad2(n)| == 2
  {
    if n >= 10 {
      DecimalLength(n, 2);
    }
  }

  /** The characters of the ten digits. */
  lemma DigitChars()
    ensures DigitChar(0) == '0' && DigitChar(1) == '1' && DigitChar(2) == '2' && DigitChar(3) == '3'
      && DigitChar(4) == '4' && DigitChar(5) == '5' && DigitChar(6) == '6' && DigitChar(7) == '7'
      && DigitChar(8) == '8' && DigitChar(9) == '9'
  {
  }

  /** The two digits of a number below 100, tens first. */
  function Digits2(n: nat): (s: string)
    requires n < 100
  {
    [DigitChar(n / 10), DigitChar(n % 10)]
  }

  /** A number below 100 pads to its two digits. */
  lemma Pad2Digits(n: nat)
    requires n < 100
    ensures Pad2(n) == Digits2(n)
  {
    if n < 10 {
      assert Decimal(n) == [DigitChar(n)];
    } else {
      assert Decimal(n / 10) == [DigitChar(n / 10)];
    }
  }

  /** A four-digit number is written as its four digits. */
  lemma DecimalFour(n: nat)
    requires 1000 <= n <= 9999
    ensures Decimal(n) == [DigitChar(n / 1000), DigitChar(n / 100 % 10), DigitChar(n / 10 % 10), DigitChar(n % 10)]
  {
    var a, b, c := n / 10, n / 100, n / 1000;
    assert a / 10 == b && b / 10 == c && 10 <= b && 1 <= c < 10;
    assert Decimal(c) == [DigitChar(c)];
    assert Decimal(b) == [DigitChar(c), DigitChar(b % 10)];
    assert Decimal(a) == [DigitChar(c), DigitChar(b % 10), DigitChar(a % 10)];
  }
}
