/** `Colors.get_opaque_hex_from_transparency` (src/colors.py): the opaque
    colour that a `#rrggbb` colour drawn with a given opacity shows over
    white. */
module Colors {
  import opened Wrappers
  import opened Numerals

  datatype Rgb = Rgb(r: int, g: int, b: int)

  predicate IsChannel(c: int)
  {
    0 <= c <= 255
  }

  /** `hex.lstrip("#")`: every leading '#' goes. */
  function StripHashes(s: string): (r: string)
    ensures r == [] || r[0] != '#'
    ensures |r| <= |s| && r == s[|s| - |r|..]
    ensures forall i :: 0 <= i < |s| - |r| ==> s[i] == '#'
  {
    if s != [] && s[0] == '#' then StripHashes(s[1..]) else s
  }

  /** Python's `s[i:j]` for 0 <= i <= j: cut off at the end of the string. */
  function Slice(s: string, i: nat, j: nat): (r: string)
    requires i <= j
    ensures |r| <= j - i
    ensures i >= |s| ==> r == []
    ensures i < |s| ==> |r| == (if j <= |s| then j else |s|) - i
    ensures forall k :: 0 <= k < |r| ==> i + k < |s| && r[k] == s[i + k]
  {
    var hi := if j <= |s| then j else |s|;
    var lo := if i <= hi then i else hi;
    s[lo..hi]
  }

  /** `int(hex[i:i + 2], 16)`; None where Python raises ValueError (an empty
      slice or a non-hex character). */
  function ParseChannel(s: string, i: nat): Option<int>
  {
    match ParseInt(Slice(s, i, i + 2), 16)
    case None => None
    case Some(v) => Some(v)
  }

  /** The first line pair of the method: strip, then read the channels at
      offsets 0, 2 and 4. */
  function ParseColor(hex: string): Option<Rgb>
  {
    var s := StripHashes(hex);
    match (ParseChannel(s, 0), ParseChannel(s, 2), ParseChannel(s, 4))
    case (Some(r), Some(g), Some(b)) => Some(Rgb(r, g, b))
    case _ => None
  }

  /** Python's `int(x)` on a float: truncation toward zero. */
  function Trunc(x: real): (n: int)
    ensures x >= 0.0 ==> n as real <= x < n as real + 1.0
    ensures x < 0.0 ==> n as real - 1.0 < x <= n as real
  {
    if x >= 0.0 then x.Floor else -((-x).Floor)
  }

  /** `int(255 - transparency * (255 - c))`. */
  function Blend(c: int, transparency: real): int
  {
    Trunc(255.0 - transparency * (255 - c) as real)
  }

  /** `"{:02x}".format(n)`: lower-case hex, zero-padded to two characters,
      with a leading '-' for a negative number. */
  function Hex02(n: int): string
  {
    if n < 0 then "-" + ToDigits(-n, 16)
    else if n < 16 then "0" + ToDigits(n, 16)
    else ToDigits(n, 16)
  }

  function FormatColor(c: Rgb): string
  {
    "#" + Hex02(c.r) + Hex02(c.g) + Hex02(c.b)
  }

  /** `get_opaque_hex_from_transparency(hex, transparency)`. */
  function GetOpaqueHexFromTransparency(hex: string, transparency: real): Option<string>
  {
    match ParseColor(hex)
    case None => None
    case Some(c) =>
      Some(FormatColor(Rgb(Blend(c.r, transparency), Blend(c.g, transparency), Blend(c.b, transparency))))
  }

  // ------------------------------------------------------------ properties

  /** Reading two given hex digits at an offset. */
  lemma ReadPair(s: string, i: nat, hi: nat, lo: nat)
    requires i + 2 <= |s| && IsDigit(s[i], 16) && IsDigit(s[i + 1], 16)
    requires DigitValue(s[i]) == Some(hi) && DigitValue(s[i + 1]) == Some(lo)
    ensures ParseChannel(s, i) == Some(hi * 16 + lo)
  {
    var pair := Slice(s, i, i + 2);
    assert pair == [s[i], s[i + 1]];
    ParseTwoDigits(pair, 16);
  }

  /** Writing a two-digit number. */
  lemma WritePair(n: int, hi: nat, lo: nat)
    requires 1 <= hi < 16 && lo < 16 && n == hi * 16 + lo
    ensures Hex02(n) == [DigitChar(hi), DigitChar(lo)]
  {
    assert n / 16 == hi && n % 16 == lo;
    assert ToDigits(hi, 16) == [DigitChar(hi)];
  }

  /** A channel written and read back: two lower-case hex digits. */
  lemma Hex02Channel(n: int)
    requires IsChannel(n)
    ensures Hex02(n) == [DigitChar(n / 16), DigitChar(n % 16)]
  {
    if n < 16 {
      assert ToDigits(n, 16) == [DigitChar(n)];
      assert DigitChar(0) == '0';
    } else {
      WritePair(n, n / 16, n % 16);
    }
  }

  lemma ReadHex02(n: int)
    requires IsChannel(n)
    ensures |Hex02(n)| == 2 && ParseInt(Hex02(n), 16) == Some(n)
    ensures forall k :: 0 <= k < 2 ==> IsDigit(Hex02(n)[k], 16) && !('A' <= Hex02(n)[k] <= 'Z')
  {
    Hex02Channel(n);
    ParseTwoDigits(Hex02(n), 16);
  }

  /** Whatever two (or fewer) hex digits are read, the channel fits a byte. */
  lemma ChannelBounds(s: string, i: nat)
    requires ParseChannel(s, i).Some?
    ensures IsChannel(ParseChannel(s, i).value)
  {
    var p := Slice(s, i, i + 2);
    if |p| == 2 {
      ParseTwoDigits(p, 16);
    }
  }

  /** The hex characters a parsed channel came from, lower-cased, are what
      `{:02x}` writes for it. */
  lemma PairWrittenBack(s: string, i: nat, v: int)
    requires i + 2 <= |s| && ParseChannel(s, i) == Some(v)
    ensures Hex02(v) == [LowerChar(s[i]), LowerChar(s[i + 1])]
  {
    var p := Slice(s, i, i + 2);
    assert p == [s[i], s[i + 1]];
    ParseTwoDigits(p, 16);
    var hi, lo := DigitValue(s[i]).value, DigitValue(s[i + 1]).value;
    assert v / 16 == hi && v % 16 == lo;
    ChannelBounds(s, i);
    Hex02Channel(v);
    DigitCharOfValue(s[i], 16);
    DigitCharOfValue(s[i + 1], 16);
  }

  /** One channel is read exactly when its slice is non-empty and all hex. */
  lemma ChannelDefined(s: string, i: nat)
    ensures ParseChannel(s, i).Some? <==>
      i < |s| && forall k :: i <= k < |s| && k < i + 2 ==> IsDigit(s[k], 16)
  {
    var p := Slice(s, i, i + 2);
    if i < |s| {
      var hi := if i + 2 <= |s| then i + 2 else |s|;
      assert p == s[i..hi];
      if forall j :: 0 <= j < |p| ==> IsDigit(p[j], 16) {
        forall k | i <= k < |s| && k < i + 2
          ensures IsDigit(s[k], 16)
        {
          assert s[k] == p[k - i];
        }
      }
      if forall k :: i <= k < |s| && k < i + 2 ==> IsDigit(s[k], 16) {
        forall j | 0 <= j < |p|
          ensures IsDigit(p[j], 16)
        {
          assert p[j] == s[i + j];
        }
      }
    } else {
      assert p == [];
    }
  }

  /** The colour is read exactly when, after the leading '#'s, at least five
      characters remain and the first six of them (or all five) are hex
      digits; anything past the sixth is ignored. */
  lemma ParseColorDefined(hex: string)
    ensures ParseColor(hex).Some? <==>
      var s := StripHashes(hex);
      |s| >= 5 && forall k :: 0 <= k < |s| && k < 6 ==> IsDigit(s[k], 16)
  {
    var s := StripHashes(hex);
    ChannelDefined(s, 0);
    ChannelDefined(s, 2);
    ChannelDefined(s, 4);
    Channels(hex);
  }

  /** Writing a colour and reading it back gives the colour. */
  lemma FormatParseRoundTrip(c: Rgb)
    requires IsChannel(c.r) && IsChannel(c.g) && IsChannel(c.b)
    ensures ParseColor(FormatColor(c)) == Some(c)
  {
    var a, b, d := Hex02(c.r), Hex02(c.g), Hex02(c.b);
    ReadHex02(c.r);
    ReadHex02(c.g);
    ReadHex02(c.b);
    var x := a + b + d;
    SlicesOfSix(a, b, d);
    assert ParseChannel(x, 0) == Some(c.r) && ParseChannel(x, 2) == Some(c.g) && ParseChannel(x, 4) == Some(c.b);
    assert FormatColor(c) == "#" + x;
    StripOne("#" + x);
    assert ("#" + x)[1..] == x;
    ReadColor(FormatColor(c), c.r, c.g, c.b);
  }

  /** The three two-character pieces of a six-character string. */
  lemma SlicesOfSix(a: string, b: string, d: string)
    requires |a| == 2 && |b| == 2 && |d| == 2
    ensures Slice(a + b + d, 0, 2) == a && Slice(a + b + d, 2, 4) == b && Slice(a + b + d, 4, 6) == d
  {
    var x := a + b + d;
    assert x[0..2] == a && x[2..4] == b && x[4..6] == d;
  }

  /** Reading a colour of six or more hex digits and writing it again gives
      its first six digits in lower case. */
  lemma ParseFormatRoundTrip(hex: string)
    requires ParseColor(hex).Some? && |StripHashes(hex)| >= 6
    ensures FormatColor(ParseColor(hex).value) == "#" + Lower(StripHashes(hex)[..6])
  {
    var s, c := StripHashes(hex), ParseColor(hex).value;
    Channels(hex);
    PairsWritten(s, c);
    WrittenSix(c, s);
  }

  /** Each channel of a parsed colour is written as its two source
      characters, lower-cased. */
  lemma PairsWritten(s: string, c: Rgb)
    requires |s| >= 6
    requires ParseChannel(s, 0) == Some(c.r) && ParseChannel(s, 2) == Some(c.g) && ParseChannel(s, 4) == Some(c.b)
    ensures Hex02(c.r) == [LowerChar(s[0]), LowerChar(s[1])]
    ensures Hex02(c.g) == [LowerChar(s[2]), LowerChar(s[3])]
    ensures Hex02(c.b) == [LowerChar(s[4]), LowerChar(s[5])]
  {
    PairWrittenBack(s, 0, c.r);
    PairWrittenBack(s, 2, c.g);
    PairWrittenBack(s, 4, c.b);
  }

  lemma WrittenSix(c: Rgb, s: string)
    requires |s| >= 6
    requires Hex02(c.r) == [LowerChar(s[0]), LowerChar(s[1])]
    requires Hex02(c.g) == [LowerChar(s[2]), LowerChar(s[3])]
    requires Hex02(c.b) == [LowerChar(s[4]), LowerChar(s[5])]
    ensures FormatColor(c) == "#" + Lower(s[..6])
  {
    LowerSix(s);
    assert FormatColor(c) == "#" + (Hex02(c.r) + Hex02(c.g) + Hex02(c.b));
  }

  lemma LowerSix(s: string)
    requires |s| >= 6
    ensures Lower(s[..6]) == [LowerChar(s[0]), LowerChar(s[1])] + [LowerChar(s[2]), LowerChar(s[3])]
      + [LowerChar(s[4]), LowerChar(s[5])]
  {
    var l := Lower(s[..6]);
    assert forall k :: 0 <= k < 6 ==> l[k] == LowerChar(s[k]);
  }

  /** Truncation keeps a non-negative value between two integer bounds. */
  lemma TruncWithin(x: real, lo: int, hi: int)
    requires 0 <= lo && lo as real <= x <= hi as real
    ensures lo <= Trunc(x) <= hi
  {
  }

  /** A blend whose exact value lies in [n, n + 1) truncates to n. */
  lemma BlendValue(c: int, t: real, n: nat)
    requires n as real <= 255.0 - t * (255 - c) as real < n as real + 1.0
    ensures Blend(c, t) == n
  {
  }

  /** Truncation is monotone on non-negative values. */
  lemma TruncMonotone(x: real, y: real)
    requires 0.0 <= x <= y
    ensures Trunc(x) <= Trunc(y)
  {
  }

  /** The amount an opacity t in [0, 1] takes off white: at most the
      channel's distance to white. */
  lemma Part(c: int, t: real) returns (p: real)
    requires IsChannel(c) && 0.0 <= t <= 1.0
    ensures p == t * (255 - c) as real
    ensures 0.0 <= p <= (255 - c) as real
    ensures Blend(c, t) == Trunc(255.0 - p)
  {
    p := Fraction(t, (255 - c) as real);
    BlendOf(c, t, p);
  }

  lemma BlendOf(c: int, t: real, p: real)
    requires p == t * (255 - c) as real
    ensures Blend(c, t) == Trunc(255.0 - p)
  {
  }

  /** A fraction t in [0, 1] of a non-negative amount is at most the amount. */
  lemma Fraction(t: real, d: real) returns (p: real)
    requires 0.0 <= t <= 1.0 && 0.0 <= d
    ensures p == t * d && 0.0 <= p <= d
  {
    p := t * d;
    assert 0.0 <= p by { Product(t, d); }
    assert 0.0 <= (1.0 - t) * d == d - p by { Product(1.0 - t, d); }
  }

  lemma Product(x: real, y: real)
    requires 0.0 <= x && 0.0 <= y
    ensures 0.0 <= x * y
  {
  }

  /** A larger opacity takes more off white. */
  lemma PartOrder(t1: real, t2: real, d: real)
    requires t1 <= t2 && 0.0 <= d
    ensures t1 * d <= t2 * d
  {
    Product(t2 - t1, d);
    assert (t2 - t1) * d == t2 * d - t1 * d;
  }

  /** The amounts two opacities take off white, in order. */
  lemma Blended(c: int, t1: real, t2: real) returns (p1: real, p2: real)
    requires IsChannel(c) && 0.0 <= t1 <= t2 <= 1.0
    ensures 0.0 <= p1 <= p2 <= (255 - c) as real
    ensures Blend(c, t1) == Trunc(255.0 - p1) && Blend(c, t2) == Trunc(255.0 - p2)
  {
    p1 := Part(c, t1);
    p2 := Part(c, t2);
    PartOrder(t1, t2, (255 - c) as real);
  }

  /** Blending a channel with an opacity in [0, 1] lands between the channel
      and white. */
  lemma BlendBounds(c: int, t: real)
    requires IsChannel(c) && 0.0 <= t <= 1.0
    ensures c <= Blend(c, t) <= 255
  {
    var p, _ := Blended(c, t, t);
    TruncWithin(255.0 - p, c, 255);
  }

  /** More opacity never gives a lighter channel. */
  lemma BlendMonotone(c: int, t1: real, t2: real)
    requires IsChannel(c) && 0.0 <= t1 <= t2 <= 1.0
    ensures Blend(c, t2) <= Blend(c, t1)
  {
    var p1, p2 := Blended(c, t1, t2);
    TruncMonotone(255.0 - p2, 255.0 - p1);
  }

  /** A formatted colour is "#" and six lower-case hex digits. */
  lemma FormatShape(o: Rgb)
    requires IsChannel(o.r) && IsChannel(o.g) && IsChannel(o.b)
    ensures var out := FormatColor(o);
      |out| == 7 && out[0] == '#'
      && forall k :: 1 <= k < 7 ==> IsDigit(out[k], 16) && !('A' <= out[k] <= 'Z')
  {
    ReadHex02(o.r);
    ReadHex02(o.g);
    ReadHex02(o.b);
    var out := FormatColor(o);
    assert out == "#" + Hex02(o.r) + Hex02(o.g) + Hex02(o.b);
    forall k | 1 <= k < 7
      ensures IsDigit(out[k], 16) && !('A' <= out[k] <= 'Z')
    {
      if k < 3 {
        assert out[k] == Hex02(o.r)[k - 1];
      } else if k < 5 {
        assert out[k] == Hex02(o.g)[k - 3];
      } else {
        assert out[k] == Hex02(o.b)[k - 5];
      }
    }
  }

  /** With an opacity in [0, 1] the result is a well-formed `#rrggbb` of
      lower-case digits whose channels lie between the input's and white. */
  lemma OpaqueShape(hex: string, t: real)
    requires ParseColor(hex).Some? && 0.0 <= t <= 1.0
    ensures var r := GetOpaqueHexFromTransparency(hex, t);
      var c := ParseColor(hex).value;
      r.Some? && |r.value| == 7 && r.value[0] == '#'
      && (forall k :: 1 <= k < 7 ==> IsDigit(r.value[k], 16) && !('A' <= r.value[k] <= 'Z'))
      && ParseColor(r.value).Some?
      && var o := ParseColor(r.value).value;
      c.r <= o.r <= 255 && c.g <= o.g <= 255 && c.b <= o.b <= 255
  {
    var s := StripHashes(hex);
    var c := ParseColor(hex).value;
    Channels(hex);
    ChannelBounds(s, 0);
    ChannelBounds(s, 2);
    ChannelBounds(s, 4);
    var o := Rgb(Blend(c.r, t), Blend(c.g, t), Blend(c.b, t));
    BlendBounds(c.r, t);
    BlendBounds(c.g, t);
    BlendBounds(c.b, t);
    Opaque(hex, t);
    FormatParseRoundTrip(o);
    FormatShape(o);
  }

  /** Fully opaque: the colour itself, lower-cased. */
  lemma FullyOpaque(hex: string)
    requires ParseColor(hex).Some? && |StripHashes(hex)| >= 6
    ensures GetOpaqueHexFromTransparency(hex, 1.0) == Some("#" + Lower(StripHashes(hex)[..6]))
  {
    var s := StripHashes(hex);
    var c := ParseColor(hex).value;
    Channels(hex);
    Opaque(hex, 1.0);
    ChannelBounds(s, 0);
    ChannelBounds(s, 2);
    ChannelBounds(s, 4);
    BlendFull(c.r);
    BlendFull(c.g);
    BlendFull(c.b);
    assert Rgb(Blend(c.r, 1.0), Blend(c.g, 1.0), Blend(c.b, 1.0)) == c;
    ParseFormatRoundTrip(hex);
  }

  lemma BlendFull(x: int)
    requires IsChannel(x)
    ensures Blend(x, 1.0) == x
  {
    assert 255.0 - 1.0 * (255 - x) as real == x as real;
  }

  /** Fully transparent: white. */
  lemma FullyTransparent(hex: string)
    requires ParseColor(hex).Some?
    ensures GetOpaqueHexFromTransparency(hex, 0.0) == Some("#ffffff")
  {
    var c := ParseColor(hex).value;
    Opaque(hex, 0.0);
    assert Rgb(Blend(c.r, 0.0), Blend(c.g, 0.0), Blend(c.b, 0.0)) == Rgb(255, 255, 255);
    WritePair(255, 15, 15);
    assert DigitChar(15) == 'f';
    assert Hex02(255) == "ff";
    assert FormatColor(Rgb(255, 255, 255)) == "#ffffff";
  }

  /** The colour read, channel by channel. */
  lemma Channels(hex: string)
    ensures var s := StripHashes(hex);
      ParseColor(hex).Some? <==>
        ParseChannel(s, 0).Some? && ParseChannel(s, 2).Some? && ParseChannel(s, 4).Some?
    ensures var s := StripHashes(hex);
      ParseColor(hex).Some? ==>
        ParseColor(hex).value == Rgb(ParseChannel(s, 0).value, ParseChannel(s, 2).value, ParseChannel(s, 4).value)
  {
  }

  /** The result, for a colour that is read. */
  lemma Opaque(hex: string, t: real)
    requires ParseColor(hex).Some?
    ensures var c := ParseColor(hex).value;
      GetOpaqueHexFromTransparency(hex, t) == Some(FormatColor(Rgb(Blend(c.r, t), Blend(c.g, t), Blend(c.b, t))))
  {
  }

  /** A colour whose three channels read as given. */
  lemma ReadColor(hex: string, r: int, g: int, b: int)
    requires ParseChannel(StripHashes(hex), 0) == Some(r)
    requires ParseChannel(StripHashes(hex), 2) == Some(g)
    requires ParseChannel(StripHashes(hex), 4) == Some(b)
    ensures ParseColor(hex) == Some(Rgb(r, g, b))
  {
  }

  /** A single leading '#' is stripped. */
  lemma StripOne(hex: string)
    requires 2 <= |hex| && hex[0] == '#' && hex[1] != '#'
    ensures StripHashes(hex) == hex[1..]
  {
    assert StripHashes(hex) == StripHashes(hex[1..]);
  }

  /** Six given hex digits read as three channels. */
  lemma ReadSix(s: string, d: seq<nat>)
    requires |s| == 6 && |d| == 6
    requires forall k :: 0 <= k < 6 ==> d[k] < 16 && DigitValue(s[k]) == Some(d[k])
    ensures ParseChannel(s, 0) == Some(d[0] * 16 + d[1])
    ensures ParseChannel(s, 2) == Some(d[2] * 16 + d[3])
    ensures ParseChannel(s, 4) == Some(d[4] * 16 + d[5])
  {
    ReadPair(s, 0, d[0], d[1]);
    ReadPair(s, 2, d[2], d[3]);
    ReadPair(s, 4, d[4], d[5]);
  }

  /** The two colours the unit tests check, each read, blended and written
      in turn. */
  lemma BlueParsed()
    ensures ParseColor("#1f77b4") == Some(Rgb(31, 119, 180))
  {
    var s := "1f77b4";
    StripOne("#1f77b4");
    assert "#1f77b4"[1..] == s;
    ReadSix(s, [1, 15, 7, 7, 11, 4]);
    ReadColor("#1f77b4", 31, 119, 180);
  }

  lemma BlueWritten()
    ensures FormatColor(Rgb(210, 227, 240)) == "#d2e3f0"
  {
    WritePair(210, 13, 2);
    WritePair(227, 14, 3);
    WritePair(240, 15, 0);
    assert DigitChar(13) == 'd' && DigitChar(2) == '2' && DigitChar(14) == 'e';
    assert DigitChar(3) == '3' && DigitChar(15) == 'f' && DigitChar(0) == '0';
  }

  lemma BlueExample()
    ensures GetOpaqueHexFromTransparency("#1f77b4", 0.2) == Some("#d2e3f0")
  {
    BlueParsed();
    Opaque("#1f77b4", 0.2);
    BlendValue(31, 0.2, 210);
    BlendValue(119, 0.2, 227);
    BlendValue(180, 0.2, 240);
    BlueWritten();
  }

  lemma OrangeParsed()
    ensures ParseColor("#ff7f0e") == Some(Rgb(255, 127, 14))
  {
    var s := "ff7f0e";
    StripOne("#ff7f0e");
    assert "#ff7f0e"[1..] == s;
    ReadSix(s, [15, 15, 7, 15, 0, 14]);
    ReadColor("#ff7f0e", 255, 127, 14);
  }

  lemma OrangeWritten()
    ensures FormatColor(Rgb(255, 229, 206)) == "#ffe5ce"
  {
    WritePair(255, 15, 15);
    WritePair(229, 14, 5);
    WritePair(206, 12, 14);
    assert DigitChar(15) == 'f' && DigitChar(14) == 'e' && DigitChar(5) == '5';
    assert DigitChar(12) == 'c';
  }

  lemma OrangeExample()
    ensures GetOpaqueHexFromTransparency("#ff7f0e", 0.2) == Some("#ffe5ce")
  {
    OrangeParsed();
    Opaque("#ff7f0e", 0.2);
    BlendValue(255, 0.2, 255);
    BlendValue(127, 0.2, 229);
    BlendValue(14, 0.2, 206);
    OrangeWritten();
  }
}
