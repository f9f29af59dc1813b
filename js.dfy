/** The pieces of JavaScript value semantics that the colour library leans on:
    numbers that may be NaN, the 32-bit coercions behind `|0` and `<<`, the
    white-space class shared by `parseInt` and the regular expression `\s`,
    ASCII lower-casing, and integer-to-decimal text. */
module Js {

  datatype Option<+T> = None | Some(value: T) {
    /** `x || fallback` for a value that is either undefined or an array. */
    function GetOr(fallback: T): T {
      if Some? then value else fallback
    }
  }

  /** A JavaScript number as this library produces it: an integer or NaN.
      Negative zero is identified with zero, and fractions never arise on the
      paths modelled here. */
  datatype Num = Int(v: int) | NaN

  /** The three numbers of a colour array `[r, g, b]`. */
  datatype Rgb = Rgb(r: Num, g: Num, b: Num)

  const TWO_31: int := 0x8000_0000
  const TWO_32: int := 0x1_0000_0000

  function Pow2(k: nat): (p: nat)
    ensures p >= 1
  {
    if k == 0 then 1 else 2 * Pow2(k - 1)
  }

  /** ToUint32 of an integer: the representative of its class modulo 2^32 in [0, 2^32). */
  function ToUint32(x: int): (u: int)
    ensures 0 <= u < TWO_32 && (x - u) % TWO_32 == 0
    ensures 0 <= x < TWO_32 ==> u == x
  {
    x % TWO_32
  }

  /** ToInt32 of an integer: the representative of its class modulo 2^32 in [-2^31, 2^31). */
  function ToInt32(x: int): (i: int)
    ensures -TWO_31 <= i < TWO_31 && (x - i) % TWO_32 == 0
    ensures -TWO_31 <= x < TWO_31 ==> i == x
  {
    var u := ToUint32(x);
    if u >= TWO_31 then u - TWO_32 else u
  }

  /** `x | 0`: NaN becomes 0, an integer wraps to signed 32 bits. */
  function BitOrZero(x: Num): (i: int)
    ensures -TWO_31 <= i < TWO_31
    ensures x.NaN? ==> i == 0
    ensures x.Int? && -TWO_31 <= x.v < TWO_31 ==> i == x.v
  {
    match x
    case NaN => 0
    case Int(v) => ToInt32(v)
  }

  /** `x << k` for a shift count below 32: the signed 32-bit value of x, times 2^k,
      wrapped to signed 32 bits again. */
  function ShiftLeft(x: Num, k: nat): (i: int)
    requires k < 32
    ensures -TWO_31 <= i < TWO_31
  {
    ToInt32(BitOrZero(x) * Pow2(k))
  }

  /** Shifting a small non-negative integer is multiplication by a power of two. */
  lemma ShiftLeftSmall(x: int, k: nat)
    requires k < 32 && 0 <= x < TWO_31 && x * Pow2(k) < TWO_31
    ensures ShiftLeft(Int(x), k) == x * Pow2(k)
  {
  }

  /** `x + y` on numbers: NaN is absorbing. */
  function Add(x: Num, y: Num): (s: Num)
    ensures s.NaN? <==> x.NaN? || y.NaN?
    ensures s.Int? ==> s.v == x.v + y.v
  {
    if x.NaN? || y.NaN? then NaN else Int(x.v + y.v)
  }

  /** The characters matched by `\s` and skipped by `parseInt`: the white-space
      and line-terminator characters of ECMAScript. */
  predicate IsSpace(c: char) {
    var n := c as int;
    n == 0x09 || n == 0x0A || n == 0x0B || n == 0x0C || n == 0x0D || n == 0x20 ||
    n == 0xA0 || n == 0x1680 || (0x2000 <= n <= 0x200A) || n == 0x2028 || n == 0x2029 ||
    n == 0x202F || n == 0x205F || n == 0x3000 || n == 0xFEFF
  }

  predicate IsDigit(c: char) {
    '0' <= c <= '9'
  }

  predicate AllDigits(s: string) {
    forall i :: 0 <= i < |s| ==> IsDigit(s[i])
  }

  function LowerChar(c: char): (d: char)
    ensures 'A' <= c <= 'Z' ==> 'a' <= d <= 'z'
    ensures !('A' <= c <= 'Z') ==> d == c
  {
    if 'A' <= c <= 'Z' then (c as int + 32) as char else c
  }

  /** `String.prototype.toLowerCase`, for the ASCII letters. */
  function ToLower(s: string): (t: string)
    ensures |t| == |s|
    ensures forall i :: 0 <= i < |s| ==> t[i] == LowerChar(s[i])
  {
    seq(|s|, i requires 0 <= i < |s| => LowerChar(s[i]))
  }

  /** No upper-case ASCII letter occurs in s. */
  predicate NoCapitals(s: string) {
    forall i :: 0 <= i < |s| ==> !('A' <= s[i] <= 'Z')
  }

  /** A string with no upper-case ASCII letter is its own lower-case form. */
  lemma ToLowerIdentity(s: string)
    requires NoCapitals(s)
    ensures ToLower(s) == s
  {
  }

  lemma {:induction false} NoCapitalsAppend(s: string, t: string)
    requires NoCapitals(s) && NoCapitals(t)
    ensures NoCapitals(s + t)
  {
    forall i | 0 <= i < |s + t|
      ensures !('A' <= (s + t)[i] <= 'Z')
    {
      if i >= |s| {
        assert (s + t)[i] == t[i - |s|];
      }
    }
  }

  lemma ToLowerIdempotent(s: string)
    ensures ToLower(ToLower(s)) == ToLower(s)
  {
  }

  /** `Number(s)` for a string of decimal digits. */
  function DigitsValue(s: string): (n: nat)
    requires AllDigits(s)
  {
    if s == [] then 0 else DigitsValue(s[..|s| - 1]) * 10 + (s[|s| - 1] as int - '0' as int)
  }

  function DigitChar(d: nat): (c: char)
    requires d < 10
    ensures IsDigit(c) && c as int - '0' as int == d
  {
    ('0' as int + d) as char
  }

  /** The decimal digits of a natural number, without leading zeros. */
  function Digits(n: nat): (s: string)
    ensures |s| >= 1 && AllDigits(s)
  {
    if n < 10 then [DigitChar(n)] else Digits(n / 10) + [DigitChar(n % 10)]
  }

  /** Reading back the digits of n gives n. */
  lemma {:induction false} DigitsRoundTrip(n: nat)
    ensures DigitsValue(Digits(n)) == n
  {
    var s := Digits(n);
    if n >= 10 {
      DigitsRoundTrip(n / 10);
      assert s[..|s| - 1] == Digits(n / 10);
    }
  }

  /** `Number.prototype.toString()` of an integer. */
  function DecimalText(n: int): (s: string)
    ensures n >= 0 ==> AllDigits(s) && |s| >= 1 && DigitsValue(s) == n
    ensures n < 0 ==> |s| >= 2 && s[0] == '-' && AllDigits(s[1..]) && DigitsValue(s[1..]) == -n
  {
    if n < 0 then
      DigitsRoundTrip(-n);
      "-" + Digits(-n)
    else
      DigitsRoundTrip(n);
      Digits(n)
  }

  /** The text of an integer holds only digits and minus signs. */
  lemma DecimalTextChars(n: int)
    ensures forall c :: c in DecimalText(n) ==> IsDigit(c) || c == '-'
  {
    var s := DecimalText(n);
    forall c | c in s
      ensures IsDigit(c) || c == '-'
    {
      var i :| 0 <= i < |s| && s[i] == c;
      if n < 0 && i > 0 {
        assert s[1..][i - 1] == c;
      }
    }
  }
}
