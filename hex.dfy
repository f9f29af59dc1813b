/** The hexadecimal codec of the library: `Colourizr.Hex2RGB` and
    `Colourizr.RGB2Hex`, together with the two pieces of JavaScript they rest
    on, `parseInt(s, 16)` and `Number.prototype.toString(16)`. */
module Hex {
  import opened Js

  predicate IsHexDigit(c: char) {
    '0' <= c <= '9' || 'a' <= c <= 'f' || 'A' <= c <= 'F'
  }

  predicate AllHexDigits(s: string) {
    forall i :: 0 <= i < |s| ==> IsHexDigit(s[i])
  }

  /** A lower-case hexadecimal digit, as `toString(16)` writes them. */
  predicate IsLowerHexDigit(c: char) {
    '0' <= c <= '9' || 'a' <= c <= 'f'
  }

  predicate AllLowerHexDigits(s: string) {
    forall i :: 0 <= i < |s| ==> IsLowerHexDigit(s[i])
  }

  function HexDigitValue(c: char): (d: nat)
    requires IsHexDigit(c)
    ensures d < 16
  {
    if '0' <= c <= '9' then c as int - '0' as int
    else if 'a' <= c <= 'f' then c as int - 'a' as int + 10
    else c as int - 'A' as int + 10
  }

  /** The longest leading run of hexadecimal digits of s, read in base 16
      after the digits already read, whose value is acc. */
  function HexRun(s: string, acc: nat): nat {
    if s == [] || !IsHexDigit(s[0]) then acc else HexRun(s[1..], acc * 16 + HexDigitValue(s[0]))
  }

  /** The string without its leading white space. */
  function TrimStart(s: string): string {
    if s != [] && IsSpace(s[0]) then TrimStart(s[1..]) else s
  }

  /** `parseInt(s, 16)`: leading white space, one sign and one `0x`/`0X` prefix
      are skipped, then the longest run of hexadecimal digits is read; with no
      digit the result is NaN. */
  function ParseInt16(s: string): (n: Num)
    ensures s != [] && !IsHexDigit(s[0]) && !IsSpace(s[0]) && s[0] != '+' && s[0] != '-' ==> n == NaN
  {
    ParseSigned(TrimStart(s))
  }

  /** An optional sign, then the unsigned part. */
  function ParseSigned(t: string): Num {
    if t != [] && t[0] == '-' then Negate(ParseUnsigned(t[1..]))
    else if t != [] && t[0] == '+' then ParseUnsigned(t[1..])
    else ParseUnsigned(t)
  }

  function Negate(n: Num): Num {
    if n.NaN? then NaN else Int(-n.v)
  }

  /** An optional `0x`/`0X` prefix, then the digit run. */
  function ParseUnsigned(u: string): Num {
    if |u| >= 2 && u[0] == '0' && (u[1] == 'x' || u[1] == 'X') then ParseDigits(u[2..])
    else ParseDigits(u)
  }

  /** The longest leading run of hexadecimal digits, NaN when it is empty. */
  function ParseDigits(w: string): Num {
    if w == [] || !IsHexDigit(w[0]) then NaN else Int(HexRun(w, 0))
  }

  /** Two hexadecimal digits are read as one base-16 byte. */
  lemma ParseHexPair(s: string)
    requires |s| == 2 && AllHexDigits(s)
    ensures ParseInt16(s) == Int(16 * HexDigitValue(s[0]) + HexDigitValue(s[1]))
    ensures 0 <= ParseInt16(s).v < 256
  {
    HexDigitIsNotSpace(s[0]);
    assert TrimStart(s) == s;
    assert s[1..][1..] == [];
    assert HexRun(s, 0) == HexRun(s[1..], HexDigitValue(s[0]));
  }

  lemma HexDigitIsNotSpace(c: char)
    requires IsHexDigit(c)
    ensures !IsSpace(c)
  {
  }

  /** `hex.substr(1)` when the string starts with `#`. */
  function StripHash(hex: string): string {
    if |hex| > 0 && hex[0] == '#' then hex[1..] else hex
  }

  /** The 3-digit shorthand with each digit doubled; other lengths unchanged. */
  function ExpandShorthand(h: string): string {
    if |h| == 3 then [h[0], h[0], h[1], h[1], h[2], h[2]] else h
  }

  /** `Colourizr.Hex2RGB`: one leading `#` is dropped, a 3-character string is
      expanded, and then, when at least 6 characters remain, the first three
      pairs are each read by `parseInt(pair, 16)`; otherwise there is no result. */
  function Hex2RGB(hex: string): (c: Option<Rgb>)
    ensures c.Some? <==> |StripHash(hex)| == 3 || |StripHash(hex)| >= 6
  {
    var h := ExpandShorthand(StripHash(hex));
    if |h| > 5 then Some(Rgb(ParseInt16(h[0..2]), ParseInt16(h[2..4]), ParseInt16(h[4..6])))
    else None
  }

  /** One leading `#` is ignored. */
  lemma HashIgnored(s: string)
    requires s == [] || s[0] != '#'
    ensures Hex2RGB("#" + s) == Hex2RGB(s)
  {
    assert ("#" + s)[1..] == s;
  }

  /** A 3-digit string means the same as its digit-doubled 6-digit form. */
  lemma ShorthandDoubles(s: string)
    requires |s| == 3 && s[0] != '#'
    ensures Hex2RGB(s) == Hex2RGB([s[0], s[0], s[1], s[1], s[2], s[2]])
  {
  }

  /** Characters after the sixth are never read. */
  lemma TrailingIgnored(s: string, t: string)
    requires |s| >= 6 && s[0] != '#'
    ensures Hex2RGB(s + t) == Hex2RGB(s)
  {
    var st := s + t;
    assert st[0..2] == s[0..2] && st[2..4] == s[2..4] && st[4..6] == s[4..6];
  }

  /** The first six characters of h are hexadecimal digits. */
  predicate SixHexDigits(h: string) {
    |h| >= 6 && IsHexDigit(h[0]) && IsHexDigit(h[1]) && IsHexDigit(h[2]) &&
    IsHexDigit(h[3]) && IsHexDigit(h[4]) && IsHexDigit(h[5])
  }

  /** When there is a result and the expanded string starts with six
      hexadecimal digits, each component is the base-16 value of its pair:
      sixteen times the first digit plus the second. */
  lemma Hex2RGBPairs(hex: string)
    requires Hex2RGB(hex).Some?
    ensures var h := ExpandShorthand(StripHash(hex));
      |h| >= 6 &&
      (SixHexDigits(h) ==> Hex2RGB(hex).value == Rgb(
        Int(16 * HexDigitValue(h[0]) + HexDigitValue(h[1])),
        Int(16 * HexDigitValue(h[2]) + HexDigitValue(h[3])),
        Int(16 * HexDigitValue(h[4]) + HexDigitValue(h[5]))))
  {
    var h := ExpandShorthand(StripHash(hex));
    if SixHexDigits(h) {
      ParseHexPair(h[0..2]);
      ParseHexPair(h[2..4]);
      ParseHexPair(h[4..6]);
    }
  }

  /** On hexadecimal digits every component is a byte. */
  lemma ComponentsAreBytes(hex: string)
    requires AllHexDigits(StripHash(hex))
    requires Hex2RGB(hex).Some?
    ensures Hex2RGB(hex).value.r.Int? && 0 <= Hex2RGB(hex).value.r.v < 256
    ensures Hex2RGB(hex).value.g.Int? && 0 <= Hex2RGB(hex).value.g.v < 256
    ensures Hex2RGB(hex).value.b.Int? && 0 <= Hex2RGB(hex).value.b.v < 256
  {
    var h := ExpandShorthand(StripHash(hex));
    ExpandKeepsHexDigits(StripHash(hex));
    Hex2RGBPairs(hex);
    assert SixHexDigits(h);
  }

  lemma ExpandKeepsHexDigits(h: string)
    requires AllHexDigits(h)
    ensures AllHexDigits(ExpandShorthand(h))
  {
  }

  /** The worked example `Hex2RGB('00f')`. */
  lemma ShorthandExample()
    ensures Hex2RGB("00f") == Some(Rgb(Int(0), Int(0), Int(255)))
  {
    var h := ExpandShorthand(StripHash("00f"));
    assert h == "0000ff";
    assert h[0..2] == "00" && h[2..4] == "00" && h[4..6] == "ff";
    ParseHexPair("00");
    ParseHexPair("ff");
  }

  function HexChar(d: nat): (c: char)
    requires d < 16
    ensures IsHexDigit(c) && HexDigitValue(c) == d
    ensures '0' <= c <= '9' || 'a' <= c <= 'f'
  {
    if d < 10 then ('0' as int + d) as char else ('a' as int + d - 10) as char
  }

  /** `n.toString(16)` for a natural number: lower-case digits, no leading zero. */
  function Radix16(n: nat): (s: string)
    ensures |s| >= 1 && AllLowerHexDigits(s)
  {
    if n < 16 then [HexChar(n)] else Radix16(n / 16) + [HexChar(n % 16)]
  }

  /** `i.toString(16)` for an integer. */
  function IntToString16(i: int): string {
    if i < 0 then "-" + Radix16(-i) else Radix16(i)
  }

  /** One channel of `RGB2Hex`: `(x < 16 ? '0' : '') + (x|0).toString(16)`.
      A comparison with NaN is false. */
  function Channel(x: Num): string {
    var pad := if x.Int? && x.v < 16 then "0" else "";
    pad + IntToString16(BitOrZero(x))
  }

  /** `Colourizr.RGB2Hex`: a `#` followed by the three channels. */
  function RGB2Hex(r: Num, g: Num, b: Num): (s: string)
    ensures |s| >= 4 && s[0] == '#'
  {
    "#" + Channel(r) + Channel(g) + Channel(b)
  }

  /** A byte is written as exactly two lower-case digits, high nibble first;
      the first is `0` exactly when the byte is below 16. */
  lemma ChannelOfByte(x: int)
    requires 0 <= x < 256
    ensures Channel(Int(x)) == [HexChar(x / 16), HexChar(x % 16)]
    ensures Channel(Int(x))[0] == '0' <==> x < 16
  {
    if x >= 16 {
      assert Radix16(x) == Radix16(x / 16) + [HexChar(x % 16)];
      assert Radix16(x / 16) == [HexChar(x / 16)];
    }
  }

  /** The two digits written for a byte read back as the byte. */
  lemma NibblesRoundTrip(x: int)
    requires 0 <= x < 256
    ensures ParseInt16([HexChar(x / 16), HexChar(x % 16)]) == Int(x)
  {
    var hi, lo := HexChar(x / 16), HexChar(x % 16);
    PairValue([hi, lo], x);
  }

  lemma PairValue(s: string, x: int)
    requires |s| == 2 && AllHexDigits(s) && 16 * HexDigitValue(s[0]) + HexDigitValue(s[1]) == x
    ensures ParseInt16(s) == Int(x)
  {
    ParseHexPair(s);
  }

  /** A byte written by `Channel` reads back as itself. */
  lemma ChannelRoundTrip(x: int)
    requires 0 <= x < 256
    ensures ParseInt16(Channel(Int(x))) == Int(x)
  {
    ChannelOfByte(x);
    NibblesRoundTrip(x);
  }

  lemma PairsOfHash(c1: string, c2: string, c3: string)
    requires |c1| == 2 && |c2| == 2 && |c3| == 2
    ensures var s := "#" + c1 + c2 + c3;
      |s| == 7 && s[1..3] == c1 && s[3..5] == c2 && s[5..7] == c3 && s[1..] == c1 + c2 + c3
  {
  }

  /** The seven characters `RGB2Hex` writes for three bytes. */
  function ByteHexText(r: int, g: int, b: int): (s: string)
    requires 0 <= r < 256 && 0 <= g < 256 && 0 <= b < 256
    ensures |s| == 7 && s[0] == '#' && AllLowerHexDigits(s[1..])
  {
    ['#', HexChar(r / 16), HexChar(r % 16), HexChar(g / 16), HexChar(g % 16),
     HexChar(b / 16), HexChar(b % 16)]
  }

  lemma RGB2HexLayout(r: int, g: int, b: int)
    requires 0 <= r < 256 && 0 <= g < 256 && 0 <= b < 256
    ensures RGB2Hex(Int(r), Int(g), Int(b)) == ByteHexText(r, g, b)
  {
    ChannelOfByte(r);
    ChannelOfByte(g);
    ChannelOfByte(b);
  }

  /** For bytes, `RGB2Hex` yields `#` and exactly six lower-case hexadecimal
      digits, high nibble first, two per channel; a channel's first digit is
      the zero pad exactly when the channel is below 16. */
  lemma RGB2HexOfBytes(r: int, g: int, b: int)
    requires 0 <= r < 256 && 0 <= g < 256 && 0 <= b < 256
    ensures var s := RGB2Hex(Int(r), Int(g), Int(b));
      s == ByteHexText(r, g, b) && |s| == 7 && s[0] == '#' && AllLowerHexDigits(s[1..]) &&
      HexDigitValue(s[1]) * 16 + HexDigitValue(s[2]) == r &&
      HexDigitValue(s[3]) * 16 + HexDigitValue(s[4]) == g &&
      HexDigitValue(s[5]) * 16 + HexDigitValue(s[6]) == b &&
      (s[1] == '0' <==> r < 16) && (s[3] == '0' <==> g < 16) && (s[5] == '0' <==> b < 16)
  {
    RGB2HexLayout(r, g, b);
    ChannelOfByte(r);
    ChannelOfByte(g);
    ChannelOfByte(b);
  }

  /** Hex round trip: reading back what `RGB2Hex` writes for three bytes gives
      the bytes. */
  lemma HexRoundTrip(r: int, g: int, b: int)
    requires 0 <= r < 256 && 0 <= g < 256 && 0 <= b < 256
    ensures Hex2RGB(RGB2Hex(Int(r), Int(g), Int(b))) == Some(Rgb(Int(r), Int(g), Int(b)))
  {
    ChannelOfByte(r);
    ChannelOfByte(g);
    ChannelOfByte(b);
    ReadsPairs(Channel(Int(r)), Channel(Int(g)), Channel(Int(b)));
    ChannelRoundTrip(r);
    ChannelRoundTrip(g);
    ChannelRoundTrip(b);
  }

  /** `#` and three pairs read back as the pairs' values. */
  lemma ReadsPairs(c1: string, c2: string, c3: string)
    requires |c1| == 2 && |c2| == 2 && |c3| == 2
    ensures Hex2RGB("#" + c1 + c2 + c3) == Some(Rgb(ParseInt16(c1), ParseInt16(c2), ParseInt16(c3)))
  {
    PairsOfHash(c1, c2, c3);
    var h := c1 + c2 + c3;
    assert StripHash("#" + c1 + c2 + c3) == h;
    assert h[0..2] == c1 && h[2..4] == c2 && h[4..6] == c3;
  }
}
