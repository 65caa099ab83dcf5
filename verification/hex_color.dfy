/**
 * `hex_to_rgb` and `rgb_to_hex` of the tone-interpolation script. Parsing follows Python:
 * every leading '#' is stripped, the slices [0:2], [2:4] and [4:6] are read (a slice past
 * the end is cut short or empty), and each is read by `int(slice, 16)`, which raises a
 * ValueError for an empty slice or a character that is not a hex digit. Formatting follows
 * `'{:02x}'`: lower-case hex, at least two characters, a '-' before a negative value.
 */
module HexColor {
  import opened Types

  /** The ValueError `int(text, 16)` raises, with the text it was given. */
  datatype HexError = InvalidLiteral(text: string)

  predicate IsHexDigit(c: char)
  {
    '0' <= c <= '9' || 'a' <= c <= 'f' || 'A' <= c <= 'F'
  }

  predicate IsLowerHexDigit(c: char)
  {
    '0' <= c <= '9' || 'a' <= c <= 'f'
  }

  predicate AllHex(t: string)
  {
    forall i :: 0 <= i < |t| ==> IsHexDigit(t[i])
  }

  function DigitValue(c: char): (v: nat)
    requires IsHexDigit(c)
    ensures v < 16
  {
    if '0' <= c <= '9' then c as int - '0' as int
    else if 'a' <= c <= 'f' then c as int - 'a' as int + 10
    else c as int - 'A' as int + 10
  }

  /** The lower-case digit that `'{:x}'` writes for v. */
  function Digit(v: nat): (c: char)
    requires v < 16
    ensures IsLowerHexDigit(c) && IsHexDigit(c) && DigitValue(c) == v
  {
    if v < 10 then ('0' as int + v) as char else ('a' as int + v - 10) as char
  }

  /** The value of a string of hex digits, most significant first. */
  function HexValue(t: string): nat
    requires AllHex(t)
  {
    if t == [] then 0 else HexValue(t[..|t| - 1]) * 16 + DigitValue(t[|t| - 1])
  }

  /** `int(t, 16)` for texts without sign, spaces or underscores. */
  function ParseHex(t: string): (r: Result<nat, HexError>)
    ensures r.Ok? <==> t != [] && AllHex(t)
    ensures r.Err? ==> r.error == InvalidLiteral(t)
    ensures r.Ok? && |t| <= 2 ==> r.value < 256
  {
    if |t| > 0 && AllHex(t) then
      (if |t| <= 2 then HexValueBound(t); Ok(HexValue(t)) else Ok(HexValue(t)))
    else Err(InvalidLiteral(t))
  }

  /** `s.lstrip('#')`. */
  function LStripHash(s: string): (r: string)
    ensures r == [] || r[0] != '#'
  {
    if |s| > 0 && s[0] == '#' then LStripHash(s[1..]) else s
  }

  /** The Python slice `s[i:j]` for 0 <= i <= j. */
  function Slice(s: string, i: nat, j: nat): (r: string)
    requires i <= j
    ensures |r| == (if j <= |s| then j - i else if i <= |s| then |s| - i else 0)
  {
    if j <= |s| then s[i..j] else if i <= |s| then s[i..] else []
  }

  /** `hex_to_rgb`: the three channels are parsed in order and the first failure is raised. */
  function HexToRgb(hexColor: string): (r: Result<Rgb, HexError>)
    ensures r.Ok? ==> InByteRange(r.value)
  {
    var h := LStripHash(hexColor);
    match ParseHex(Slice(h, 0, 2))
    case Err(e) => Err(e)
    case Ok(red) =>
      match ParseHex(Slice(h, 2, 4))
      case Err(e) => Err(e)
      case Ok(green) =>
        match ParseHex(Slice(h, 4, 6))
        case Err(e) => Err(e)
        case Ok(blue) => Ok(Rgb(red, green, blue))
  }

  lemma {:induction false} HexValueBound(t: string)
    requires AllHex(t) && |t| <= 2
    ensures HexValue(t) < if |t| == 0 then 1 else if |t| == 1 then 16 else 256
  {
    if t != [] {
      HexValueBound(t[..|t| - 1]);
    }
  }

  /** The digits `'{:x}'` writes for a non-negative value: no leading zeros. */
  function HexDigits(n: nat): (s: string)
    ensures |s| >= 1
    ensures forall i :: 0 <= i < |s| ==> IsLowerHexDigit(s[i])
  {
    if n < 16 then [Digit(n)] else HexDigits(n / 16) + [Digit(n % 16)]
  }

  /** `'{:02x}'.format(v)`: zero-padded to two characters; a negative value keeps its sign. */
  function Format02x(v: int): (s: string)
    ensures |s| >= 2
    ensures v >= 0 ==> forall i :: 0 <= i < |s| ==> IsLowerHexDigit(s[i])
    ensures v < 0 ==> s[0] == '-'
  {
    if v < 0 then "-" + HexDigits(-v)
    else if v < 16 then "0" + HexDigits(v)
    else HexDigits(v)
  }

  /** `rgb_to_hex`. */
  function RgbToHex(c: Rgb): (s: string)
    ensures |s| >= 7 && s[0] == '#'
  {
    "#" + Format02x(c.r) + Format02x(c.g) + Format02x(c.b)
  }

  /** A byte is written as exactly two lower-case digits, high nibble first. */
  lemma Format02xByte(v: int)
    requires IsByte(v)
    ensures Format02x(v) == [Digit(v / 16), Digit(v % 16)]
  {
    if v >= 16 {
      assert HexDigits(v / 16) == [Digit(v / 16)];
    }
  }

  /** For channels in [0, 255] the result is '#' and six lower-case hex digits. */
  lemma RgbToHexShape(c: Rgb)
    requires InByteRange(c)
    ensures |RgbToHex(c)| == 7 && RgbToHex(c)[0] == '#'
    ensures forall i :: 1 <= i < 7 ==> IsLowerHexDigit(RgbToHex(c)[i])
    ensures RgbToHex(c) == ['#', Digit(c.r / 16), Digit(c.r % 16), Digit(c.g / 16), Digit(c.g % 16),
                            Digit(c.b / 16), Digit(c.b % 16)]
  {
    Format02xByte(c.r);
    Format02xByte(c.g);
    Format02xByte(c.b);
  }

  /** Reading two hex digits gives 16 times the first plus the second. */
  lemma TwoDigits(a: char, b: char)
    requires IsHexDigit(a) && IsHexDigit(b)
    ensures ParseHex([a, b]) == Ok(16 * DigitValue(a) + DigitValue(b))
  {
    assert [a, b][..1] == [a];
    assert [a][..0] == [];
    assert HexValue([a]) == DigitValue(a);
    assert HexValue([a, b]) == HexValue([a]) * 16 + DigitValue(b);
  }

  /**
   * Six hex digits, after any number of leading '#': the channels are the three digit
   * pairs, and whatever follows the sixth character is never read.
   */
  lemma HexToRgbSixDigits(hexColor: string)
    requires var h := LStripHash(hexColor); |h| >= 6 && AllHex(h[..6])
    ensures var h := LStripHash(hexColor);
      HexToRgb(hexColor) == Ok(Rgb(16 * DigitValue(h[0]) + DigitValue(h[1]),
                                   16 * DigitValue(h[2]) + DigitValue(h[3]),
                                   16 * DigitValue(h[4]) + DigitValue(h[5])))
  {
    var h := LStripHash(hexColor);
    assert Slice(h, 0, 2) == [h[0], h[1]];
    assert Slice(h, 2, 4) == [h[2], h[3]];
    assert Slice(h, 4, 6) == [h[4], h[5]];
    TwoDigits(h[0], h[1]);
    TwoDigits(h[2], h[3]);
    TwoDigits(h[4], h[5]);
  }

  /**
   * Which texts parse: after the leading '#', at least five characters, and the first six
   * (or five) all hex digits. A five-character text parses, its last slice being one digit.
   */
  lemma HexToRgbAccepts(hexColor: string)
    ensures var h := LStripHash(hexColor);
      HexToRgb(hexColor).Ok? <==> |h| >= 5 && AllHex(Slice(h, 0, 6))
  {
    var h := LStripHash(hexColor);
    assert HexToRgb(hexColor).Ok? <==>
      ParseHex(Slice(h, 0, 2)).Ok? && ParseHex(Slice(h, 2, 4)).Ok? && ParseHex(Slice(h, 4, 6)).Ok?;
    if |h| >= 5 {
      SlicesAllHex(h);
    }
  }

  lemma SlicesAllHex(h: string)
    requires |h| >= 5
    ensures AllHex(Slice(h, 0, 6)) <==> AllHex(Slice(h, 0, 2)) && AllHex(Slice(h, 2, 4)) && AllHex(Slice(h, 4, 6))
  {
    var a, b, c, all := Slice(h, 0, 2), Slice(h, 2, 4), Slice(h, 4, 6), Slice(h, 0, 6);
    assert all == a + b + c;
    assert forall i :: 0 <= i < |b| ==> b[i] == all[2 + i];
    assert forall i :: 0 <= i < |c| ==> c[i] == all[4 + i];
    assert forall i :: 0 <= i < |all| ==> all[i] == if i < 2 then a[i] else if i < 4 then b[i - 2] else c[i - 4];
  }

  /** `hex_to_rgb(rgb_to_hex(c)) == c` for every colour with channels in [0, 255]. */
  lemma HexRoundTrip(c: Rgb)
    requires InByteRange(c)
    ensures HexToRgb(RgbToHex(c)) == Ok(c)
  {
    RgbToHexShape(c);
    var s := RgbToHex(c);
    assert LStripHash(s) == s[1..];
    HexToRgbSixDigits(s);
  }

  /** And back: '#' and six lower-case hex digits are reproduced exactly. */
  lemma HexRoundTripText(t: string)
    requires |t| == 6 && forall i :: 0 <= i < 6 ==> IsLowerHexDigit(t[i])
    ensures HexToRgb("#" + t).Ok? && RgbToHex(HexToRgb("#" + t).value) == "#" + t
  {
    var s := "#" + t;
    assert LStripHash(s) == t by {
      assert s[1..] == t;
    }
    assert t[..6] == t;
    HexToRgbSixDigits(s);
    assert HexToRgb(s) == Ok(PairsRgb(t));
    FormatPairs(t);
  }

  /** The colour whose channels are the three digit pairs of `t`. */
  function PairsRgb(t: string): (c: Rgb)
    requires |t| == 6 && AllHex(t)
    ensures InByteRange(c)
  {
    Rgb(16 * DigitValue(t[0]) + DigitValue(t[1]),
        16 * DigitValue(t[2]) + DigitValue(t[3]),
        16 * DigitValue(t[4]) + DigitValue(t[5]))
  }

  /** Writing the colour of three lower-case digit pairs gives back '#' and those pairs. */
  lemma FormatPairs(t: string)
    requires |t| == 6 && AllHex(t) && forall i :: 0 <= i < 6 ==> IsLowerHexDigit(t[i])
    ensures RgbToHex(PairsRgb(t)) == "#" + t
  {
    PairInverse(t[0], t[1]);
    PairInverse(t[2], t[3]);
    PairInverse(t[4], t[5]);
    assert "#" + t == "#" + [t[0], t[1]] + [t[2], t[3]] + [t[4], t[5]];
  }

  /** `'{:02x}'` writes the value of a lower-case digit pair as that pair. */
  lemma PairInverse(a: char, b: char)
    requires IsLowerHexDigit(a) && IsLowerHexDigit(b)
    ensures Format02x(16 * DigitValue(a) + DigitValue(b)) == [a, b]
  {
    var v := 16 * DigitValue(a) + DigitValue(b);
    assert v / 16 == DigitValue(a) && v % 16 == DigitValue(b);
    Format02xByte(v);
  }
}
