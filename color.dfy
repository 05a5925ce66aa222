/** The hex colour parser `hexToFloatColor` (common/color.js).

    A colour string such as `"#ff8000"` loses one optional leading `#`; characters
    0-1, 2-3 and 4-5 are read as base-16 bytes and each byte is scaled by `1/255`.
    JavaScript's `parseInt(_, 16)` is modelled only on two hex digits, so inputs are
    restricted to strings whose stripped form starts with six hex digits.
 */
module Color {

  predicate IsHexDigit(ch: char)
  {
    '0' <= ch <= '9' || 'a' <= ch <= 'f' || 'A' <= ch <= 'F'
  }

  /** The value of one base-16 digit; upper and lower case letters agree. */
  function DigitValue(ch: char): (d: nat)
    requires IsHexDigit(ch)
    ensures d < 16
    ensures d < 10 <==> '0' <= ch <= '9'
  {
    if '0' <= ch <= '9' then ch as nat - '0' as nat
    else if 'a' <= ch <= 'f' then ch as nat - 'a' as nat + 10
    else ch as nat - 'A' as nat + 10
  }

  /** The lower-case digit for `d`, the inverse of `DigitValue`. */
  function HexChar(d: nat): (ch: char)
    requires d < 16
    ensures IsHexDigit(ch) && DigitValue(ch) == d
    ensures !('A' <= ch <= 'Z')
  {
    if d < 10 then ('0' as nat + d) as char else ('a' as nat + d - 10) as char
  }

  /** ASCII lower-casing of one character. */
  function Lower(ch: char): (l: char)
    ensures 'A' <= ch <= 'Z' ==> l as int == ch as int + 32
    ensures !('A' <= ch <= 'Z') ==> l == ch
  {
    if 'A' <= ch <= 'Z' then (ch as nat + 32) as char else ch
  }

  function LowerString(s: string): (l: string)
    ensures |l| == |s| && forall i :: 0 <= i < |s| ==> l[i] == Lower(s[i])
  {
    seq(|s|, i requires 0 <= i < |s| => Lower(s[i]))
  }

  /** `hex.replace(/^#/, "")`: drops one leading `#`, if there is one. */
  function StripHash(hex: string): (s: string)
    ensures |hex| > 0 && hex[0] == '#' ==> hex == ['#'] + s
    ensures !(|hex| > 0 && hex[0] == '#') ==> s == hex
  {
    if |hex| > 0 && hex[0] == '#' then hex[1..] else hex
  }

  /** The inputs the model covers: after the optional `#`, six hex digits (anything
      after them is ignored by `substring`, as in the source). */
  predicate ValidHex(hex: string)
  {
    var s := StripHash(hex);
    |s| >= 6 && forall i :: 0 <= i < 6 ==> IsHexDigit(s[i])
  }

  /** `parseInt(s, 16)` on a two-digit string. */
  function ParseByte(s: string): (v: nat)
    requires |s| == 2 && IsHexDigit(s[0]) && IsHexDigit(s[1])
    ensures v < 256
  {
    16 * DigitValue(s[0]) + DigitValue(s[1])
  }

  /** Byte `i` (0 red, 1 green, 2 blue) of a colour string: characters `2i` and `2i+1`
      of the stripped string. */
  function Channel(hex: string, i: nat): (v: nat)
    requires ValidHex(hex) && i < 3
    ensures v < 256
  {
    var s := StripHash(hex);
    assert IsHexDigit(s[2 * i]) && IsHexDigit(s[2 * i + 1]);
    ParseByte(s[2 * i .. 2 * i + 2])
  }

  /** `hexToFloatColor`: three components, each a byte of the string over 255, so
      each lies in `[0, 1]`. */
  function HexToFloatColor(hex: string): (rgb: seq<real>)
    requires ValidHex(hex)
    ensures |rgb| == 3
    ensures forall i :: 0 <= i < 3 ==> rgb[i] == Channel(hex, i) as real / 255.0
    ensures forall i :: 0 <= i < 3 ==> 0.0 <= rgb[i] <= 1.0
  {
    var r := Channel(hex, 0);
    var g := Channel(hex, 1);
    var b := Channel(hex, 2);
    [r as real / 255.0, g as real / 255.0, b as real / 255.0]
  }

  /** The leading `#` is optional, and only one is removed: after `"##"` the second
      `#` is not a digit, so such a string is outside the parser's domain. */
  lemma HashIsOptional(s: string)
    requires ValidHex(s) && s[0] != '#'
    ensures ValidHex("#" + s) && HexToFloatColor("#" + s) == HexToFloatColor(s)
    ensures StripHash("##" + s) == "#" + s && !ValidHex("##" + s)
  {
    assert StripHash("#" + s) == s;
    assert Channel("#" + s, 0) == Channel(s, 0);
    assert Channel("#" + s, 1) == Channel(s, 1);
    assert Channel("#" + s, 2) == Channel(s, 2);
    assert ("##" + s)[1..] == "#" + s;
  }

  /** Component `i` depends only on characters `2i` and `2i+1` of the stripped string:
      changing the other digits (say, the blue ones) leaves it unchanged. */
  lemma ChannelsAreIndependent(hex: string, hex': string, i: nat)
    requires ValidHex(hex) && ValidHex(hex') && i < 3
    requires StripHash(hex)[2 * i] == StripHash(hex')[2 * i]
    requires StripHash(hex)[2 * i + 1] == StripHash(hex')[2 * i + 1]
    ensures HexToFloatColor(hex)[i] == HexToFloatColor(hex')[i]
  {
    var s, s' := StripHash(hex), StripHash(hex');
    assert s[2 * i .. 2 * i + 2] == s'[2 * i .. 2 * i + 2];
  }

  /** `"#000000"` is black. */
  lemma Black()
    ensures ValidHex("#000000") && HexToFloatColor("#000000") == [0.0, 0.0, 0.0]
  {
    var s := StripHash("#000000");
    assert s == "000000";
    assert s[0..2] == "00" && s[2..4] == "00" && s[4..6] == "00";
    assert ParseByte("00") == 0;
  }

  /** `"#ffffff"` is white. */
  lemma White()
    ensures ValidHex("#ffffff") && HexToFloatColor("#ffffff") == [1.0, 1.0, 1.0]
  {
    var s := StripHash("#ffffff");
    assert s == "ffffff";
    assert s[0..2] == "ff" && s[2..4] == "ff" && s[4..6] == "ff";
    assert ParseByte("ff") == 255;
  }

  lemma DigitValueLower(ch: char)
    requires IsHexDigit(ch)
    ensures IsHexDigit(Lower(ch)) && DigitValue(Lower(ch)) == DigitValue(ch)
  {
  }

  /** Lower-casing two digits does not change the byte they spell. */
  lemma ParseByteLower(s: string)
    requires |s| == 2 && IsHexDigit(s[0]) && IsHexDigit(s[1])
    ensures IsHexDigit(Lower(s[0])) && IsHexDigit(Lower(s[1]))
    ensures ParseByte(LowerString(s)) == ParseByte(s)
  {
    DigitValueLower(s[0]);
    DigitValueLower(s[1]);
  }

  /** Lower-casing keeps a colour string inside the parser's domain. */
  lemma LowerStaysValid(hex: string)
    requires ValidHex(hex)
    ensures ValidHex(LowerString(hex))
    ensures StripHash(LowerString(hex)) == LowerString(StripHash(hex))
  {
    var s, t := StripHash(hex), StripHash(LowerString(hex));
    assert t == LowerString(s);
    forall i | 0 <= i < 6 ensures IsHexDigit(t[i]) {
      DigitValueLower(s[i]);
    }
  }

  /** Lower-casing leaves byte `i` of a colour string unchanged. */
  lemma ChannelLower(hex: string, i: nat)
    requires ValidHex(hex) && ValidHex(LowerString(hex)) && i < 3
    requires StripHash(LowerString(hex)) == LowerString(StripHash(hex))
    ensures Channel(LowerString(hex), i) == Channel(hex, i)
  {
    var s, t := StripHash(hex), StripHash(LowerString(hex));
    var d := s[2 * i .. 2 * i + 2];
    assert d[0] == s[2 * i] && d[1] == s[2 * i + 1];
    assert t[2 * i .. 2 * i + 2] == LowerString(d);
    ParseByteLower(d);
  }

  /** Lower-casing a colour string does not change what it parses to. */
  lemma LowerCaseParsesEqually(hex: string)
    requires ValidHex(hex)
    ensures ValidHex(LowerString(hex))
    ensures HexToFloatColor(LowerString(hex)) == HexToFloatColor(hex)
  {
    LowerStaysValid(hex);
    ChannelLower(hex, 0);
    ChannelLower(hex, 1);
    ChannelLower(hex, 2);
  }

  /** Hex digits are case-insensitive: two spellings of one colour that differ only
      in letter case parse to the same components. */
  lemma CaseInsensitive(hex: string, hex': string)
    requires ValidHex(hex) && ValidHex(hex')
    requires LowerString(hex) == LowerString(hex')
    ensures HexToFloatColor(hex) == HexToFloatColor(hex')
  {
    LowerCaseParsesEqually(hex);
    LowerCaseParsesEqually(hex');
  }

  /** Byte `v` written as two lower-case hex digits. */
  function ByteToHex(v: nat): (s: string)
    requires v < 256
    ensures |s| == 2 && IsHexDigit(s[0]) && IsHexDigit(s[1])
  {
    [HexChar(v / 16), HexChar(v % 16)]
  }

  /** `"#rrggbb"`: the format of the colour strings the parser reads. */
  function FormatColor(r: nat, g: nat, b: nat): (hex: string)
    requires r < 256 && g < 256 && b < 256
    ensures |hex| == 7 && hex[0] == '#'
  {
    "#" + ByteToHex(r) + ByteToHex(g) + ByteToHex(b)
  }

  /** Writing a byte as two digits and parsing it back yields the byte. */
  lemma ParseByteToHex(v: nat)
    requires v < 256
    ensures ParseByte(ByteToHex(v)) == v
  {
    var s := ByteToHex(v);
    assert DigitValue(s[0]) == v / 16 && DigitValue(s[1]) == v % 16;
  }

  /** Parsing two digits and writing the byte back yields the digits, lower-cased. */
  lemma ByteToHexOfParse(s: string)
    requires |s| == 2 && IsHexDigit(s[0]) && IsHexDigit(s[1])
    ensures ByteToHex(ParseByte(s)) == LowerString(s)
  {
    var hi, lo := DigitValue(s[0]), DigitValue(s[1]);
    assert (16 * hi + lo) / 16 == hi && (16 * hi + lo) % 16 == lo;
    assert HexChar(hi) == Lower(s[0]) && HexChar(lo) == Lower(s[1]);
  }

  /** Round trip from bytes: a formatted colour parses to each byte over 255. */
  lemma ParseFormattedColor(r: nat, g: nat, b: nat)
    requires r < 256 && g < 256 && b < 256
    ensures ValidHex(FormatColor(r, g, b))
    ensures HexToFloatColor(FormatColor(r, g, b)) == [r as real / 255.0, g as real / 255.0, b as real / 255.0]
  {
    var hex := FormatColor(r, g, b);
    var s := StripHash(hex);
    assert s == ByteToHex(r) + ByteToHex(g) + ByteToHex(b);
    assert s[0..2] == ByteToHex(r) && s[2..4] == ByteToHex(g) && s[4..6] == ByteToHex(b);
    ParseByteToHex(r);
    ParseByteToHex(g);
    ParseByteToHex(b);
  }

  /** Round trip from strings: formatting the three bytes a string parses to gives
      back its six digits, lower-cased, behind one `#`. */
  lemma FormatParsedColor(hex: string)
    requires ValidHex(hex)
    ensures FormatColor(Channel(hex, 0), Channel(hex, 1), Channel(hex, 2)) ==
            "#" + LowerString(StripHash(hex)[..6])
  {
    var s := StripHash(hex);
    ByteToHexOfParse(s[0..2]);
    ByteToHexOfParse(s[2..4]);
    ByteToHexOfParse(s[4..6]);
    assert LowerString(s[..6]) == LowerString(s[0..2]) + LowerString(s[2..4]) + LowerString(s[4..6]);
  }
}
