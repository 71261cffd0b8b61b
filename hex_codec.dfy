/**
 * The RGB hex codecs of src/utils/gradientMesh.js: `hexToRgb`, which parses an
 * optional `#` and six case-insensitive hex digits and falls back to white,
 * and `rgbToHex`, which rounds each channel, prints it in base 16 and pads a
 * single digit with a leading zero. The channel formatting is shared with the
 * colour picker's `hslToHex` and with the marker's own copy of `rgbToHex`.
 */
module HexCodec {
  import opened Wrappers
  import opened GradientMesh

  /** The digits JavaScript's toString(16) prints, in order of value. */
  const LowerDigits := "0123456789abcdef"

  predicate IsHexDigit(c: char) {
    '0' <= c <= '9' || 'a' <= c <= 'f' || 'A' <= c <= 'F'
  }

  predicate IsLowerHexDigit(c: char) {
    '0' <= c <= '9' || 'a' <= c <= 'f'
  }

  /** The value of one hex digit, as parseInt(.., 16) reads it. */
  function DigitValue(c: char): (v: int)
    requires IsHexDigit(c)
    ensures 0 <= v < 16
  {
    if '0' <= c <= '9' then c as int - '0' as int
    else if 'a' <= c <= 'f' then c as int - 'a' as int + 10
    else c as int - 'A' as int + 10
  }

  /** The lower-case digit for a value below 16. */
  function Digit(d: int): (c: char)
    requires 0 <= d < 16
    ensures IsLowerHexDigit(c) && DigitValue(c) == d
  {
    LowerDigits[d]
  }

  /** Printing a lower-case digit's value gives the digit back. */
  lemma DigitOfValue(c: char)
    requires IsLowerHexDigit(c)
    ensures Digit(DigitValue(c)) == c
  {
  }

  /** parseInt of a two-digit hex string. */
  function ParseByte(pair: string): (v: int)
    requires |pair| == 2 && IsHexDigit(pair[0]) && IsHexDigit(pair[1])
    ensures IsChannel(v)
  {
    16 * DigitValue(pair[0]) + DigitValue(pair[1])
  }

  /** Every character is a hex digit, checked one character at a time. */
  function AllHexDigits(s: string): bool
  {
    |s| == 0 || (IsHexDigit(s[0]) && AllHexDigits(s[1..]))
  }

  lemma {:induction false} AllHexDigitsAt(s: string)
    ensures AllHexDigits(s) <==> forall i :: 0 <= i < |s| ==> IsHexDigit(s[i])
  {
    if |s| > 0 {
      AllHexDigitsAt(s[1..]);
      assert forall i :: 1 <= i < |s| ==> s[1..][i - 1] == s[i];
    }
  }

  /**
   * The match of /^#?([a-f\d]{2})([a-f\d]{2})([a-f\d]{2})$/i: drop one
   * leading `#` if present, then demand exactly six hex digits.
   */
  function MatchHexColor(s: string): Option<string>
  {
    var body := if |s| > 0 && s[0] == '#' then s[1..] else s;
    if |body| == 6 && AllHexDigits(body) then Some(body) else None
  }

  /** The strings the pattern accepts, stated position by position. */
  predicate HexColorPattern(s: string)
  {
    || (|s| == 6 && forall i :: 0 <= i < 6 ==> IsHexDigit(s[i]))
    || (|s| == 7 && s[0] == '#' && forall i :: 1 <= i < 7 ==> IsHexDigit(s[i]))
  }

  /** The digits the pattern captures, once it has matched. */
  function Captured(s: string): (d: string)
    requires HexColorPattern(s)
    ensures |d| == 6 && forall i :: 0 <= i < 6 ==> IsHexDigit(d[i])
  {
    if |s| == 7 then s[1..] else s
  }

  /** The matcher succeeds exactly on the pattern, and then yields the captured digits. */
  lemma MatchIffPattern(s: string)
    ensures MatchHexColor(s).Some? <==> HexColorPattern(s)
    ensures HexColorPattern(s) ==> MatchHexColor(s) == Some(Captured(s))
  {
    AllHexDigitsAt(s);
    if |s| > 0 {
      AllHexDigitsAt(s[1..]);
      assert forall i :: 1 <= i < |s| ==> s[1..][i - 1] == s[i];
    }
  }

  /** hexToRgb: the three parsed pairs, or white when the pattern does not match. */
  function HexToRgb(hex: string): (c: Rgb)
    ensures IsColor(c)
  {
    match MatchHexColor(hex)
    case Some(d) =>
      AllHexDigitsAt(d);
      Rgb(ParseByte(d[0..2]), ParseByte(d[2..4]), ParseByte(d[4..6]))
    case None => White
  }

  /** Accepted strings decode their three digit pairs; everything else decodes to white. */
  lemma HexToRgbAcceptsExactly(s: string)
    ensures HexColorPattern(s) ==>
      var d := Captured(s);
      HexToRgb(s) == Rgb(ParseByte(d[0..2]), ParseByte(d[2..4]), ParseByte(d[4..6]))
    ensures !HexColorPattern(s) ==> HexToRgb(s) == White
  {
    MatchIffPattern(s);
  }

  /** Number.prototype.toString(16) of a non-negative integer: no leading zeros. */
  function NatToHex(n: nat): (s: string)
    ensures |s| >= 1
    ensures forall i :: 0 <= i < |s| ==> IsLowerHexDigit(s[i])
  {
    if n < 16 then [Digit(n)] else NatToHex(n / 16) + [Digit(n % 16)]
  }

  /** toString(16) of any integer: a minus sign before the digits of a negative one. */
  function IntToHex(n: int): (s: string)
    ensures |s| >= 1 && (s[0] == '-' <==> n < 0)
  {
    if n < 0 then "-" + NatToHex(-n) else NatToHex(n)
  }

  /** One channel as `rgbToHex` prints it: base 16, a single digit padded with "0". */
  function ChannelHex(n: int): (s: string)
    ensures |s| >= 2
  {
    var digits := IntToHex(n);
    if |digits| == 1 then "0" + digits else digits
  }

  /** rgbToHex: "#" followed by each rounded channel in padded base 16. */
  function RgbToHex(r: real, g: real, b: real): (s: string)
    ensures |s| >= 7 && s[0] == '#'
  {
    "#" + ChannelHex(Round(r)) + ChannelHex(Round(g)) + ChannelHex(Round(b))
  }

  /** A channel in [0, 255] prints as exactly two lower-case digits: its high and low nibble. */
  lemma ChannelHexOfByte(n: int)
    requires IsChannel(n)
    ensures ChannelHex(n) == [Digit(n / 16), Digit(n % 16)]
    ensures n < 16 ==> ChannelHex(n)[0] == '0'
  {
    if n >= 16 {
      assert NatToHex(n / 16) == [Digit(n / 16)];
    }
  }

  /** The form of a hex colour as rgbToHex prints it. */
  predicate IsLowerHexColor(s: string)
  {
    |s| == 7 && s[0] == '#' && forall i :: 1 <= i < 7 ==> IsLowerHexDigit(s[i])
  }

  /** A channel in [0, 255], given as a real, rounds to itself and prints as its two nibbles. */
  lemma ChannelHexOfRounded(n: int)
    requires IsChannel(n)
    ensures ChannelHex(Round(n as real)) == [Digit(n / 16), Digit(n % 16)]
  {
    RoundInteger(n);
    ChannelHexOfByte(n);
  }

  /** For integer channels in [0, 255], rgbToHex prints "#" and six lower-case digits, two per channel. */
  lemma RgbToHexShape(r: int, g: int, b: int)
    requires IsChannel(r) && IsChannel(g) && IsChannel(b)
    ensures RgbToHex(r as real, g as real, b as real) ==
      "#" + [Digit(r / 16), Digit(r % 16), Digit(g / 16), Digit(g % 16), Digit(b / 16), Digit(b % 16)]
    ensures IsLowerHexColor(RgbToHex(r as real, g as real, b as real))
  {
    ChannelHexOfRounded(r);
    ChannelHexOfRounded(g);
    ChannelHexOfRounded(b);
  }

  /** Parsing the two nibbles of a channel in [0, 255] gives the channel back. */
  lemma ParseByteOfNibbles(n: int)
    requires IsChannel(n)
    ensures ParseByte([Digit(n / 16), Digit(n % 16)]) == n
  {
    var pair := [Digit(n / 16), Digit(n % 16)];
    assert DigitValue(pair[0]) == n / 16 && DigitValue(pair[1]) == n % 16;
  }

  /** The six nibbles of three channels, after "#", decode to those channels. */
  lemma DecodeNibbles(r: int, g: int, b: int)
    requires IsChannel(r) && IsChannel(g) && IsChannel(b)
    ensures HexToRgb("#" + [Digit(r / 16), Digit(r % 16), Digit(g / 16), Digit(g % 16), Digit(b / 16), Digit(b % 16)])
      == Rgb(r, g, b)
  {
    var digits := [Digit(r / 16), Digit(r % 16), Digit(g / 16), Digit(g % 16), Digit(b / 16), Digit(b % 16)];
    var s := "#" + digits;
    assert HexColorPattern(s);
    HexToRgbAcceptsExactly(s);
    assert Captured(s) == digits;
    assert digits[0..2] == [Digit(r / 16), Digit(r % 16)];
    assert digits[2..4] == [Digit(g / 16), Digit(g % 16)];
    assert digits[4..6] == [Digit(b / 16), Digit(b % 16)];
    ParseByteOfNibbles(r);
    ParseByteOfNibbles(g);
    ParseByteOfNibbles(b);
  }

  /** Encoding then decoding gives the channels back. */
  lemma HexRoundTrip(r: int, g: int, b: int)
    requires IsChannel(r) && IsChannel(g) && IsChannel(b)
    ensures HexToRgb(RgbToHex(r as real, g as real, b as real)) == Rgb(r, g, b)
  {
    RgbToHexShape(r, g, b);
    DecodeNibbles(r, g, b);
  }

  /** A lower-case digit pair prints back unchanged from its parsed value. */
  lemma ChannelHexOfParsed(pair: string)
    requires |pair| == 2 && IsLowerHexDigit(pair[0]) && IsLowerHexDigit(pair[1])
    ensures ChannelHex(ParseByte(pair)) == pair
  {
    var v := ParseByte(pair);
    assert v / 16 == DigitValue(pair[0]) && v % 16 == DigitValue(pair[1]);
    DigitOfValue(pair[0]);
    DigitOfValue(pair[1]);
    ChannelHexOfByte(v);
  }

  /** Decoding a lower-case "#rrggbb" string then encoding it gives the string back. */
  lemma HexRoundTripFromString(s: string)
    requires IsLowerHexColor(s)
    ensures var c := HexToRgb(s); RgbToHex(c.r as real, c.g as real, c.b as real) == s
  {
    assert HexColorPattern(s);
    var d := Captured(s);
    var c := HexToRgb(s);
    assert c == Rgb(ParseByte(d[0..2]), ParseByte(d[2..4]), ParseByte(d[4..6])) by {
      HexToRgbAcceptsExactly(s);
    }
    RoundInteger(c.r);
    RoundInteger(c.g);
    RoundInteger(c.b);
    assert ChannelHex(c.r) == d[0..2] by {
      assert d[0..2][0] == s[1] && d[0..2][1] == s[2];
      ChannelHexOfParsed(d[0..2]);
    }
    assert ChannelHex(c.g) == d[2..4] by {
      assert d[2..4][0] == s[3] && d[2..4][1] == s[4];
      ChannelHexOfParsed(d[2..4]);
    }
    assert ChannelHex(c.b) == d[4..6] by {
      assert d[4..6][0] == s[5] && d[4..6][1] == s[6];
      ChannelHexOfParsed(d[4..6]);
    }
    assert s == "#" + d[0..2] + d[2..4] + d[4..6] by {
      assert s == "#" + d;
      assert d == d[0..2] + d[2..4] + d[4..6];
    }
  }
}
