/** `describeColor`: the word the image prompt uses for the background colour chosen in the
    colour picker. */
module ColorWords {
  import opened Numeric

  /** The value of a lower-case hexadecimal digit. */
  function HexDigit(c: char): (v: int)
    requires c in "0123456789abcdef"
    ensures 0 <= v < 16
  {
    if '0' <= c <= '9' then c as int - '0' as int else c as int - 'a' as int + 10
  }

  /** The lower-case digit of a value below 16. */
  function DigitChar(v: int): (c: char)
    requires 0 <= v < 16
    ensures c in "0123456789abcdef" && HexDigit(c) == v
  {
    "0123456789abcdef"[v]
  }

  /** A colour picker value: `#` followed by six lower-case hexadecimal digits. */
  predicate IsColorValue(hex: string)
  {
    |hex| == 7 && hex[0] == '#' && forall i | 1 <= i < 7 :: hex[i] in "0123456789abcdef"
  }

  /** `parseInt(hex.slice(k, k + 2), 16)`: the byte written by two digits. */
  function ByteAt(hex: string, k: int): (b: Byte)
    requires IsColorValue(hex) && 1 <= k <= 5
  {
    HexDigit(hex[k]) * 16 + HexDigit(hex[k + 1])
  }

  /** The picker value of a colour. */
  function ColorValue(r: Byte, g: Byte, b: Byte): (hex: string)
    ensures IsColorValue(hex)
  {
    ['#', DigitChar(r / 16), DigitChar(r % 16), DigitChar(g / 16), DigitChar(g % 16),
     DigitChar(b / 16), DigitChar(b % 16)]
  }

  /** Reading the channels back from a picker value gives the colour that was written. */
  lemma ColorValueRoundTrip(r: Byte, g: Byte, b: Byte)
    ensures var hex := ColorValue(r, g, b);
      ByteAt(hex, 1) == r && ByteAt(hex, 3) == g && ByteAt(hex, 5) == b
  {
  }

  /** Perceived brightness, 0 to 255: the channels weighted 0.299, 0.587 and 0.114. */
  function Brightness(r: Byte, g: Byte, b: Byte): real
  {
    (r * 299 + g * 587 + b * 114) as real / 1000.0
  }

  /** The words `describeColor` can answer. */
  const Words: set<string> := {"white", "black", "red", "yellow/gold", "blue", "green", "light-colored", "dark-colored"}

  /** The word for a colour: very bright and very dark colours first, then four strong
      hues, then light or dark by brightness. */
  function Describe(r: Byte, g: Byte, b: Byte): (w: string)
    ensures w in Words
    ensures w == "white" <==> Brightness(r, g, b) > 220.0
    ensures w == "black" <==> Brightness(r, g, b) < 35.0
    ensures w == "red" <==> 35.0 <= Brightness(r, g, b) <= 220.0 && r > 180 && g < 100 && b < 100
    ensures w == "yellow/gold" <==> 35.0 <= Brightness(r, g, b) <= 220.0 && r > 180 && g > 150 && b < 80
    ensures w == "blue" <==> 35.0 <= Brightness(r, g, b) <= 220.0 && r < 80 && g < 80 && b > 150
    ensures w == "green" <==> 35.0 <= Brightness(r, g, b) <= 220.0 && r < 80 && g > 150 && b < 80
    ensures w == "light-colored" ==> 160.0 < Brightness(r, g, b) <= 220.0
    ensures w == "dark-colored" ==> 35.0 <= Brightness(r, g, b) <= 160.0
    ensures 35.0 <= Brightness(r, g, b) <= 220.0 && !(w in {"red", "yellow/gold", "blue", "green"}) ==>
      w == (if Brightness(r, g, b) > 160.0 then "light-colored" else "dark-colored")
  {
    var brightness := Brightness(r, g, b);
    if brightness > 220.0 then "white"
    else if brightness < 35.0 then "black"
    else if r > 180 && g < 100 && b < 100 then "red"
    else if r > 180 && g > 150 && b < 80 then "yellow/gold"
    else if r < 80 && g < 80 && b > 150 then "blue"
    else if r < 80 && g > 150 && b < 80 then "green"
    else if brightness > 160.0 then "light-colored"
    else "dark-colored"
  }

  /** `describeColor(hex)` for a picker value. */
  function DescribeColor(hex: string): (w: string)
    requires IsColorValue(hex)
    ensures w in Words
    ensures forall r: Byte, g: Byte, b: Byte | ColorValue(r, g, b) == hex :: w == Describe(r, g, b)
  {
    forall r: Byte, g: Byte, b: Byte | ColorValue(r, g, b) == hex
      ensures ByteAt(hex, 1) == r && ByteAt(hex, 3) == g && ByteAt(hex, 5) == b
    {
      ColorValueRoundTrip(r, g, b);
    }
    Describe(ByteAt(hex, 1), ByteAt(hex, 3), ByteAt(hex, 5))
  }

  /** Each lower-case hexadecimal digit is the digit of its own value. */
  lemma DigitOfValue(c: char)
    requires c in "0123456789abcdef"
    ensures DigitChar(HexDigit(c)) == c
  {
    var i :| 0 <= i < 16 && "0123456789abcdef"[i] == c;
    assert HexDigit(c) == i;
  }

  /** The two digits written for a channel read from a picker value are the digits read. */
  lemma ChannelDigits(hex: string, k: int)
    requires IsColorValue(hex) && 1 <= k <= 5
    ensures DigitChar(ByteAt(hex, k) / 16) == hex[k] && DigitChar(ByteAt(hex, k) % 16) == hex[k + 1]
  {
    DigitPair(hex[k], hex[k + 1]);
  }

  /** A byte written as the two digits `c` and `d` is written back as `c` and `d`. */
  lemma DigitPair(c: char, d: char)
    requires c in "0123456789abcdef" && d in "0123456789abcdef"
    ensures var v := HexDigit(c) * 16 + HexDigit(d); DigitChar(v / 16) == c && DigitChar(v % 16) == d
  {
    var x, y := HexDigit(c), HexDigit(d);
    DivModOf(16, x, y);
    assert (x * 16 + y) / 16 == x && (x * 16 + y) % 16 == y;
    DigitOfValue(c);
    DigitOfValue(d);
  }

  /** Every picker value is the value written for the channels read from it. */
  lemma ColorValueParsed(hex: string)
    requires IsColorValue(hex)
    ensures ColorValue(ByteAt(hex, 1), ByteAt(hex, 3), ByteAt(hex, 5)) == hex
  {
    ChannelDigits(hex, 1);
    ChannelDigits(hex, 3);
    ChannelDigits(hex, 5);
    var v := ColorValue(ByteAt(hex, 1), ByteAt(hex, 3), ByteAt(hex, 5));
    assert forall i | 0 <= i < 7 :: v[i] == hex[i];
  }

  /** `describeColor` of a colour's picker value names that colour. Together with
      `ColorValueParsed` this makes `DescribeColor` the word `Describe` gives for the one
      colour each picker value writes. */
  lemma DescribeColorOfValue(r: Byte, g: Byte, b: Byte)
    ensures DescribeColor(ColorValue(r, g, b)) == Describe(r, g, b)
  {
    ColorValueRoundTrip(r, g, b);
  }

  /** A grey is never named by a hue: it is white, black, light or dark by its level. */
  lemma GreyHasNoHue(v: Byte)
    ensures Brightness(v, v, v) == v as real
    ensures Describe(v, v, v) ==
      (if v > 220 then "white" else if v < 35 then "black" else if v > 160 then "light-colored" else "dark-colored")
  {
  }

  /** A pure red above level 180, read from its picker value, is named red: its brightness
      lies between 54 and 77, clear of both brightness thresholds. */
  lemma StrongRed(r: Byte)
    requires r > 180
    ensures DescribeColor(ColorValue(r, 0, 0)) == "red"
  {
    ColorValueRoundTrip(r, 0, 0);
  }
}
