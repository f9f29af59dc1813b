/** Packed colour integers: `Colourizr.RGB2Bin24Bit` and
    `Colourizr.Bin24BitToRGB`, with JavaScript's `&` written out over natural
    numbers and the facts about the masks the unpacker uses. The red channel
    is the low byte, green the middle byte and blue bits 16 to 23. */
module Packed {
  import opened Js

  /** The bitwise AND of two natural numbers, lowest bit first. */
  function BitAnd(x: nat, y: nat): (z: nat)
    ensures z <= x && z <= y
  {
    if x == 0 || y == 0 then 0
    else 2 * BitAnd(x / 2, y / 2) + (if x % 2 == 1 && y % 2 == 1 then 1 else 0)
  }

  /** `x & mask` for a mask whose sign bit is clear: the low 31 bits of
      `ToInt32(x)` are those of `ToUint32(x)`, and the mask keeps no other. */
  function JsAnd(x: int, mask: nat): (z: nat)
    requires mask < TWO_31
    ensures z <= mask
  {
    BitAnd(ToUint32(x), mask)
  }

  /** `y` shifted left by k bits. */
  function Shl(y: nat, k: nat): nat {
    if k == 0 then y else 2 * Shl(y, k - 1)
  }

  /** `x` shifted right by k bits. */
  function Shr(x: nat, k: nat): nat {
    if k == 0 then x else Shr(x / 2, k - 1)
  }

  /** k one bits. */
  function Ones(k: nat): nat {
    if k == 0 then 0 else 2 * Ones(k - 1) + 1
  }

  lemma EvenMaskStep(x: nat, m: nat)
    ensures BitAnd(x, 2 * m) == 2 * BitAnd(x / 2, m)
  {
    if x != 0 && m != 0 {
      assert (2 * m) / 2 == m && (2 * m) % 2 == 0;
    }
  }

  lemma OddMaskStep(x: nat, m: nat)
    ensures BitAnd(x, 2 * m + 1) == 2 * BitAnd(x / 2, m) + x % 2
  {
    assert (2 * m + 1) / 2 == m && (2 * m + 1) % 2 == 1;
  }

  /** A mask of k low one bits clears everything above bit k - 1. */
  lemma {:induction false} LowMask(x: nat, k: nat)
    ensures BitAnd(x, Ones(k)) == x - Shl(Shr(x, k), k)
  {
    if k > 0 {
      LowMask(x / 2, k - 1);
      OddMaskStep(x, Ones(k - 1));
    }
  }

  /** A mask shifted left by k bits selects from x shifted right by k bits. */
  lemma {:induction false} ShiftedMask(x: nat, k: nat, y: nat)
    ensures BitAnd(x, Shl(y, k)) == Shl(BitAnd(Shr(x, k), y), k)
  {
    if k > 0 {
      ShiftedMask(x / 2, k - 1, y);
      EvenMaskStep(x, Shl(y, k - 1));
    }
  }

  lemma ShrByte(x: nat)
    ensures Shr(x, 8) == x / 256
  {
    calc {
      Shr(x, 8);
      Shr(x / 2, 7);
      Shr(x / 2 / 2, 6);
      Shr(x / 2 / 2 / 2, 5);
      Shr(x / 2 / 2 / 2 / 2, 4);
      Shr(x / 2 / 2 / 2 / 2 / 2, 3);
      Shr(x / 2 / 2 / 2 / 2 / 2 / 2, 2);
      Shr(x / 2 / 2 / 2 / 2 / 2 / 2 / 2, 1);
      x / 2 / 2 / 2 / 2 / 2 / 2 / 2 / 2;
    }
  }

  lemma ShlByte(y: nat)
    ensures Shl(y, 8) == 256 * y
  {
    calc {
      Shl(y, 8);
      2 * Shl(y, 7);
      4 * Shl(y, 6);
      8 * Shl(y, 5);
      16 * Shl(y, 4);
      32 * Shl(y, 3);
      64 * Shl(y, 2);
      128 * Shl(y, 1);
      128 * (2 * Shl(y, 0));
      256 * y;
    }
  }

  lemma {:induction false} ShrAdd(x: nat, a: nat, b: nat)
    ensures Shr(x, a + b) == Shr(Shr(x, a), b)
  {
    if a > 0 {
      ShrAdd(x / 2, a - 1, b);
    }
  }

  lemma {:induction false} ShlAdd(y: nat, a: nat, b: nat)
    ensures Shl(y, a + b) == Shl(Shl(y, a), b)
  {
    if b > 0 {
      ShlAdd(y, a, b - 1);
    }
  }

  /** The low byte mask keeps the remainder modulo 256. */
  lemma LowByte(x: nat)
    ensures BitAnd(x, 255) == x % 256
  {
    assert Ones(8) == 255;
    LowMask(x, 8);
    ShrByte(x);
    ShlByte(x / 256);
  }

  /** The mask `0xFF00` keeps the middle byte in place. */
  lemma MiddleByte(x: nat)
    ensures BitAnd(x, 0xFF00) == 256 * (x / 256 % 256)
  {
    assert Shl(255, 8) == 0xFF00;
    ShiftedMask(x, 8, 255);
    ShrByte(x);
    LowByte(x / 256);
    ShlByte(x / 256 % 256);
  }

  lemma ShrTwoBytes(x: nat)
    ensures Shr(x, 16) == x / 65536
  {
    ShrAdd(x, 8, 8);
    ShrByte(x);
    ShrByte(x / 256);
    assert x / 256 / 256 == x / 65536;
  }

  lemma ShlTwoBytes(y: nat)
    ensures Shl(y, 16) == 65536 * y
  {
    ShlAdd(y, 8, 8);
    ShlByte(y);
    ShlByte(256 * y);
  }

  /** The mask `0xFF0000` keeps the third byte in place. */
  lemma ThirdByte(x: nat)
    ensures BitAnd(x, 0xFF0000) == 65536 * (x / 65536 % 256)
  {
    ShlTwoBytes(255);
    ShiftedMask(x, 16, 255);
    ShrTwoBytes(x);
    LowByte(x / 65536);
    ShlTwoBytes(x / 65536 % 256);
  }

  /** The unpacker's middle mask `65281` is `0xFF01`, not `0xFF00`: it also keeps
      bit 0. After division by 256 and truncation that bit is gone, so the
      middle byte comes out as `0xFF00` would give it. */
  lemma MaskedMiddleByte(n: int)
    ensures JsAnd(n, 65281) / 256 == ToUint32(n) / 256 % 256
    ensures JsAnd(n, 0xFF00) / 256 == ToUint32(n) / 256 % 256
  {
    var u: nat := ToUint32(n);
    assert Shl(255, 7) == 0x7F80;
    OddMaskStep(u, 0x7F80);
    ShiftedMask(u / 2, 7, 255);
    assert Shr(u, 8) == Shr(u / 2, 7);
    ShrByte(u);
    LowByte(u / 256);
    var w := u / 256 % 256;
    assert Shl(w, 8) == 2 * Shl(w, 7);
    ShlByte(w);
    assert JsAnd(n, 65281) == 256 * w + u % 2;
    MiddleByte(u);
  }

  /** `Colourizr.RGB2Bin24Bit`: `(b << 16) + (g << 8) + r`. The shifts turn
      NaN into 0, so only a NaN red makes the sum NaN; otherwise the sum is red
      plus the shifted part, a signed 32-bit integer. */
  function RGB2Bin24Bit(r: Num, g: Num, b: Num): (n: Num)
    ensures n.NaN? <==> r.NaN?
    ensures n.Int? ==> -TWO_32 <= n.v - r.v < TWO_32
  {
    Add(Int(ShiftLeft(b, 16) + ShiftLeft(g, 8)), r)
  }

  /** For bytes the packed value is r + 256 g + 65536 b, below 2^24. */
  lemma PackBytes(r: int, g: int, b: int)
    requires 0 <= r < 256 && 0 <= g < 256 && 0 <= b < 256
    ensures RGB2Bin24Bit(Int(r), Int(g), Int(b)) == Int(r + 256 * g + 65536 * b)
    ensures 0 <= r + 256 * g + 65536 * b < 0x100_0000
  {
    assert Pow2(8) == 256 && Pow2(16) == 65536;
    ShiftLeftSmall(b, 16);
    ShiftLeftSmall(g, 8);
  }

  /** `Colourizr.Bin24BitToRGB`, over its parameter `n` as evidently intended:
      `[n & 255, ((n & 65281) / 256)|0, ((n & 16711680) / 65536)|0]`. The
      quotients are of non-negative numbers, so `|0` truncates like `/`. */
  function Bin24BitToRGB(n: int): (c: Rgb)
    ensures c.r.Int? && 0 <= c.r.v < 256
    ensures c.g.Int? && 0 <= c.g.v < 256
    ensures c.b.Int? && 0 <= c.b.v < 256
  {
    Rgb(Int(JsAnd(n, 255)), Int(ToInt32(JsAnd(n, 65281) / 256)), Int(ToInt32(JsAnd(n, 16711680) / 65536)))
  }

  /** The unpacker reads the low, middle and third byte of the number's 32-bit pattern. */
  lemma UnpackBytes(n: int)
    ensures var u := ToUint32(n);
      Bin24BitToRGB(n) == Rgb(Int(u % 256), Int(u / 256 % 256), Int(u / 65536 % 256))
  {
    var u: nat := ToUint32(n);
    LowByte(u);
    MaskedMiddleByte(n);
    ThirdByte(u);
    var mid, high := JsAnd(n, 65281) / 256, JsAnd(n, 16711680) / 65536;
    assert mid == u / 256 % 256;
    assert high == u / 65536 % 256;
    assert ToInt32(mid) == mid && ToInt32(high) == high;
  }

  /** Unpacking a packed triple of bytes gives the triple back. */
  lemma UnpackPack(r: int, g: int, b: int)
    requires 0 <= r < 256 && 0 <= g < 256 && 0 <= b < 256
    ensures Bin24BitToRGB(r + 256 * g + 65536 * b) == Rgb(Int(r), Int(g), Int(b))
  {
    var n := r + 256 * g + 65536 * b;
    BaseDigits(r, g, b, 0, n);
    UnpackWord(n, n);
  }

  /** The base-256 digits of r + 256 g + 65536 b + 16777216 a, for bytes. */
  lemma BaseDigits(r: int, g: int, b: int, a: int, n: int)
    requires 0 <= r < 256 && 0 <= g < 256 && 0 <= b < 256 && 0 <= a < 256
    requires n == r + 256 * g + 65536 * b + 0x100_0000 * a
    ensures n % 256 == r && n / 256 % 256 == g && n / 65536 % 256 == b && ToUint32(n) == n
  {
    assert n == 256 * (g + 256 * b + 65536 * a) + r;
    assert n / 256 == g + 256 * (b + 256 * a);
    assert n == 65536 * (b + 256 * a) + (r + 256 * g);
    assert n / 65536 == b + 256 * a;
  }


  /** Packing the unpacked bytes of a 24-bit value gives the value back. */
  lemma PackUnpack(n: int)
    requires 0 <= n < 0x100_0000
    ensures var c := Bin24BitToRGB(n); RGB2Bin24Bit(c.r, c.g, c.b) == Int(n)
  {
    UnpackBytes(n);
    assert ToUint32(n) == n;
    var r, g, b := n % 256, n / 256 % 256, n / 65536 % 256;
    assert Bin24BitToRGB(n) == Rgb(Int(r), Int(g), Int(b));
    assert n / 256 / 256 == n / 65536 && n / 65536 < 256;
    assert r + 256 * g + 65536 * b == n;
    PackBytes(r, g, b);
  }

  /** `a << 24` for a byte: the byte moved to the top of a signed 32-bit word,
      which is negative exactly when the byte is 128 or more. */
  lemma AlphaShift(a: int)
    requires 0 <= a < 256
    ensures ShiftLeft(Int(a), 24) == if a < 128 then a * 0x100_0000 else a * 0x100_0000 - TWO_32
    ensures ShiftLeft(Int(a), 24) < 0 <==> a >= 128
  {
    assert Pow2(8) == 256;
    assert Pow2(16) == 65536;
    assert Pow2(24) == 0x100_0000;
  }

  /** An alpha byte shifted to the top of the word, plus a 24-bit value: as
      an unsigned 32-bit word, the byte sits above the value. */
  lemma AlphaWord(p: int, a: int)
    requires 0 <= p < 0x100_0000 && 0 <= a < 256
    ensures ToUint32(ShiftLeft(Int(a), 24) + p) == p + 0x100_0000 * a
  {
    AlphaShift(a);
  }

  /** `(a << 24) + RGB2Bin24Bit(r, g, b)` for bytes: the integer whose 32-bit
      pattern has a above the packed colour, negative exactly when a is 128
      or more. */
  lemma AlphaPackLayout(r: int, g: int, b: int, a: int, p: int)
    requires 0 <= r < 256 && 0 <= g < 256 && 0 <= b < 256 && 0 <= a < 256
    requires p == r + 256 * g + 65536 * b
    ensures Add(Int(ShiftLeft(Int(a), 24)), RGB2Bin24Bit(Int(r), Int(g), Int(b))) == Int(ShiftLeft(Int(a), 24) + p)
    ensures ToUint32(ShiftLeft(Int(a), 24) + p) == p + 0x100_0000 * a
    ensures ShiftLeft(Int(a), 24) + p < 0 <==> a >= 128
  {
    PackBytes(r, g, b);
    AlphaShift(a);
    AlphaWord(p, a);
  }


  /** The unpacker reads past an alpha byte shifted into the top of the
      word: what `to32Bit()` packs unpacks to its colour. */
  lemma UnpackIgnoresAlpha(r: int, g: int, b: int, a: int, p: int)
    requires 0 <= r < 256 && 0 <= g < 256 && 0 <= b < 256 && 0 <= a < 256
    requires p == r + 256 * g + 65536 * b
    ensures Bin24BitToRGB(ShiftLeft(Int(a), 24) + p) == Rgb(Int(r), Int(g), Int(b))
  {
    var u := p + 0x100_0000 * a;
    AlphaWord(p, a);
    BaseDigits(r, g, b, a, u);
    UnpackWord(ShiftLeft(Int(a), 24) + p, u);
  }


  /** The unpacker over a number whose 32-bit pattern is u. */
  lemma UnpackWord(n: int, u: int)
    requires ToUint32(n) == u
    ensures Bin24BitToRGB(n) == Rgb(Int(u % 256), Int(u / 256 % 256), Int(u / 65536 % 256))
  {
    UnpackBytes(n);
  }

  /** What `to32Bit()` packs for bytes unpacks to the colour. */
  lemma Pack32ReadBack(r: int, g: int, b: int, a: int, x: Num)
    requires 0 <= r < 256 && 0 <= g < 256 && 0 <= b < 256 && 0 <= a < 256
    requires x == Add(Int(ShiftLeft(Int(a), 24)), RGB2Bin24Bit(Int(r), Int(g), Int(b)))
    ensures x.Int? && Bin24BitToRGB(x.v) == Rgb(Int(r), Int(g), Int(b))
  {
    var p := r + 256 * g + 65536 * b;
    AlphaPackLayout(r, g, b, a, p);
    var n := ShiftLeft(Int(a), 24) + p;
    assert x == Int(n);
    UnpackIgnoresAlpha(r, g, b, a, p);
  }


  /** Errors a JavaScript call can throw on the paths modelled here. */
  datatype Thrown = ReferenceError | TypeError

  /** `Colourizr.Bin24BitToRGB` as written: its body reads `r`, which is
      neither its parameter (that is `n`) nor a local, so the name is looked up
      through the scope chain. Assuming no global `r` exists, every call throws
      a ReferenceError before any mask is applied. */
  function Bin24BitToRGBAsWritten(n: int): (t: Thrown)
    ensures t == ReferenceError
  {
    ReferenceError
  }

  /** The number `16711680` that the documentation constructs blue from: the
      unpacker as written throws on it, the unpacker over `n` gives blue. */
  lemma UnpackerReadsItsParameter(n: int)
    requires n == 16711680
    ensures Bin24BitToRGBAsWritten(n) == ReferenceError
    ensures Bin24BitToRGB(n) == Rgb(Int(0), Int(0), Int(255))
  {
    UnpackAt(n, 0, 0, 255);
  }

  lemma UnpackAt(n: int, r: int, g: int, b: int)
    requires 0 <= r < 256 && 0 <= g < 256 && 0 <= b < 256 && n == r + 256 * g + 65536 * b
    ensures Bin24BitToRGB(n) == Rgb(Int(r), Int(g), Int(b))
  {
    UnpackPack(r, g, b);
  }
}
