/** The `Colourizr` constructor and its renderers. A call `new Colourizr(...)`
    is modelled by `Colourizr.New` over the list of its arguments; which branch
    it takes and what colour and alpha it settles on is the function `Parse`,
    about which the lemmas of this module are stated. */
module Colourizr {
  import opened Js
  import opened Hex
  import opened Packed
  import opened NamedColors
  import opened Notation

  /** A constructor argument: a Colourizr object, a string, a number,
      `undefined`, `null` or a boolean. */
  datatype Value = Instance(obj: Colourizr) | Text(s: string) | Numeric(n: Num) | Undefined | Null | Bool(b: bool)

  /** The floating-point routines of the library, which the model takes as
      given: `HSL2RGB`, `RGB2HSL`, `RGB2HSV` (each returning an array of three
      `|0` integers) and the decimal text of `alpha / 255`. */
  datatype FloatOps = FloatOps(
    hsl2rgb: (nat, nat, nat) -> (int, int, int),
    rgb2hsl: (Num, Num, Num) -> (int, int, int),
    rgb2hsv: (Num, Num, Num) -> (int, int, int),
    alphaText: int -> string)

  /** What the constructor does with its arguments: hand back the object it
      was given, build an object from a colour and an alpha, or throw. */
  datatype Outcome = PassThrough(obj: Colourizr) | Build(color: Rgb, alpha: int) | Failure(error: Thrown)

  /** What a `new Colourizr(...)` expression evaluates to. */
  datatype Created = Made(obj: Colourizr) | Threw(error: Thrown)

  /** The default colour `[255, 255, 255]`. */
  const White: Rgb := Rgb(Int(255), Int(255), Int(255))

  const Blue: Rgb := Rgb(Int(0), Int(0), Int(255))

  /** The i-th argument, `undefined` past the end of the list. */
  function Arg(args: seq<Value>, i: nat): (v: Value)
    ensures i >= |args| ==> v == Undefined
    ensures i < |args| ==> v == args[i]
  {
    if i < |args| then args[i] else Undefined
  }

  /** `Number(v)`: a number is itself, a string of decimal digits its value
      (the empty string 0), `null` 0, `true` 1 and `false` 0, and
      `undefined`, an object (whose text starts with `#`) and any other
      string NaN. */
  function NumberOf(v: Value): (n: Num)
    ensures v.Numeric? ==> n == v.n
    ensures v.Text? && AllDigits(v.s) ==> n == Int(DigitsValue(v.s))
    ensures v.Null? ==> n == Int(0)
    ensures v.Bool? ==> n == Int(if v.b then 1 else 0)
    ensures v.Undefined? || v.Instance? ==> n == NaN
  {
    match v
    case Numeric(n) => n
    case Text(s) => if AllDigits(s) then Int(DigitsValue(s)) else NaN
    case Null => Int(0)
    case Bool(b) => if b then Int(1) else Int(0)
    case _ => NaN
  }

  /** The three channels given as a text's digit runs, read with `Number()`. */
  function ChannelsOf(m: Groups): (c: Rgb)
    requires AreDigitRuns(m.c1, m.c2, m.c3)
    ensures c.r.Int? && c.g.Int? && c.b.Int? && c.r.v >= 0 && c.g.v >= 0 && c.b.v >= 0
  {
    Rgb(Int(DigitsValue(m.c1)), Int(DigitsValue(m.c2)), Int(DigitsValue(m.c3)))
  }

  /** The colour of an `HSL2RGB` result. */
  function FromTriple(t: (int, int, int)): Rgb {
    Rgb(Int(t.0), Int(t.1), Int(t.2))
  }

  /** The functional-notation branch, on the text after its first four
      characters: the component expression must match, or reading group 1 of
      `null` throws a TypeError. */
  function ParseNotation(body: string, p: Prefix, ops: FloatOps): (o: Outcome)
    ensures o.Failure? <==> Exec(body, !p.isRgb).None?
    ensures o.Failure? ==> o.error == TypeError
    ensures o.Build? && !p.hasAlpha ==> o.alpha == 255
    ensures o.Build? && p.isRgb ==> o.color.r.Int? && o.color.r.v >= 0
  {
    match Exec(body, !p.isRgb)
    case None => Failure(TypeError)
    case Some(m) =>
      var alpha := if p.hasAlpha then AlphaOf(m.alpha) else 255;
      if p.isRgb then Build(ChannelsOf(m), alpha)
      else Build(FromTriple(ops.hsl2rgb(DigitsValue(m.c1), DigitsValue(m.c2), DigitsValue(m.c3))), alpha)
  }

  /** The string branch, on the lower-cased text: a name of the table, then
      functional notation, then hex with white as the fallback. */
  function ParseText(t: string, ops: FloatOps): (o: Outcome)
    ensures !o.PassThrough?
    ensures Lookup(t).Some? ==> o.Build? && o.alpha == 255
    ensures MatchPrefix(t).None? ==> o == Build(Hex2RGB(t).GetOr(White), 255) || Lookup(t).Some?
  {
    match Lookup(t)
    case Some(v) => Build(Hex2RGB(v).GetOr(White), 255)
    case None =>
      match MatchPrefix(t)
      case Some(p) => ParseNotation(t[4..], p, ops)
      case None => Build(Hex2RGB(t).GetOr(White), 255)
  }

  /** The branch the constructor takes for its arguments, in the source's
      order: an existing object, a string, three or more arguments, a number,
      and otherwise white. */
  function Parse(args: seq<Value>, ops: FloatOps): (o: Outcome)
    ensures o.PassThrough? <==> |args| > 0 && args[0].Instance?
    ensures o.PassThrough? ==> o.obj == args[0].obj
    ensures o.Failure? ==> |args| > 0 && args[0].Text?
  {
    var r := Arg(args, 0);
    if r.Instance? then PassThrough(r.obj)
    else if r.Text? then ParseText(ToLower(r.s), ops)
    else if |args| > 2 then Build(Rgb(NumberOf(args[0]), NumberOf(args[1]), NumberOf(args[2])), BitOrZero(NumberOf(Arg(args, 3))))
    else if r.Numeric? then Build(Bin24BitToRGB(if r.n.NaN? then 0 else r.n.v), 255)
    else Build(White, 255)
  }

  /** Cutting the frame `p`, `q` off `p + f + q` leaves `f`. */
  lemma Framed(p: string, f: string, q: string)
    ensures var s := p + f + q;
      s[..|p|] == p && s[|p|..|s| - |q|] == f && s[..|s| - |q|] == p + f && s[|s| - |q|..] == q
  {
  }

  /** Dropping the character at index 3 of `p + f + "," + w + ")"` turns the
      prefix `p` into `q`. */
  lemma DropFourth(p: string, q: string, f: string, w: string)
    requires |p| == 5 && |q| == 4 && p[..3] == q[..3] && p[4] == q[3]
    ensures var t := p + f + "," + w + ")";
      t[..3] + t[4..] == q + f + "," + w + ")"
  {
    var t := p + f + "," + w + ")";
    assert t[..3] + t[4..] == q + (f + "," + w + ")");
  }

  /** The text `h,s%,l%` that `hsl.join()` gives once `%` is appended to the
      second and third entry. */
  function PercentJoin(t: (int, int, int)): (s: string)
    ensures |s| >= 7
    ensures forall c :: c in s ==> IsDigit(c) || c == ',' || c == '-' || c == '%'
  {
    DecimalTextChars(t.0);
    DecimalTextChars(t.1);
    DecimalTextChars(t.2);
    DecimalText(t.0) + "," + DecimalText(t.1) + "%," + DecimalText(t.2) + "%"
  }

  /** A Colourizr object: three channels and an alpha, set once by `use()`. */
  class Colourizr {
    var r: Num
    var g: Num
    var b: Num
    var a: int

    /** `use()`: the new object takes the colour and the alpha. */
    constructor Use(color: Rgb, alpha: int)
      ensures r == color.r && g == color.g && b == color.b && a == alpha
    {
      r, g, b, a := color.r, color.g, color.b, alpha;
    }

    function Color(): Rgb
      reads this
    {
      Rgb(r, g, b)
    }

    /** `new Colourizr(...)`: the argument handed back, a fresh object built
        from the colour and alpha `Parse` settles on, or the error thrown. */
    static method New(args: seq<Value>, ops: FloatOps) returns (result: Created)
      ensures match Parse(args, ops)
        case PassThrough(obj) => result == Made(obj)
        case Build(color, alpha) => result.Made? && fresh(result.obj) && result.obj.Color() == color && result.obj.a == alpha
        case Failure(error) => result == Threw(error)
    {
      var color := White;
      var alpha := 255;
      var r := Arg(args, 0);
      if r.Instance? {
        return Made(r.obj);
      }
      if r.Text? {
        var t := ToLower(r.s);
        var named := Lookup(t);
        if named.Some? {
          color := Hex2RGB(named.value).GetOr(color);
          var c := new Colourizr.Use(color, alpha);
          return Made(c);
        }
        var prefix := MatchPrefix(t);
        if prefix.Some? {
          var p := prefix.value;
          var m := Exec(t[4..], !p.isRgb);
          if m.None? {
            return Threw(TypeError);
          }
          var groups := m.value;
          if p.isRgb {
            color := ChannelsOf(groups);
          } else {
            color := FromTriple(ops.hsl2rgb(DigitsValue(groups.c1), DigitsValue(groups.c2), DigitsValue(groups.c3)));
          }
          alpha := if p.hasAlpha then AlphaOf(groups.alpha) else alpha;
          var c := new Colourizr.Use(color, alpha);
          return Made(c);
        }
        color := Hex2RGB(t).GetOr(color);
      } else if |args| > 2 {
        color := Rgb(NumberOf(args[0]), NumberOf(args[1]), NumberOf(args[2]));
        alpha := BitOrZero(NumberOf(Arg(args, 3)));
      } else if r.Numeric? {
        color := Bin24BitToRGB(if r.n.NaN? then 0 else r.n.v);
      }
      var c := new Colourizr.Use(color, alpha);
      return Made(c);
    }

    /** `toHex()`. */
    function ToHex(): (s: string)
      reads this
      ensures |s| >= 4 && s[0] == '#'
    {
      RGB2Hex(r, g, b)
    }

    /** `toString()`, which is `toHex()`. */
    function ToString(): (s: string)
      reads this
      ensures s == ToHex()
    {
      ToHex()
    }

    /** `toRGB()`: `'rgb(' + (r|0) + ',' + (g|0) + ',' + (b|0) + ')'`. Between
        the parentheses stand only digits, minus signs and commas. */
    function ToRGB(): (s: string)
      reads this
      ensures |s| >= 10 && s[..4] == "rgb(" && s[|s| - 1] == ')'
      ensures forall c :: c in s[4..|s| - 1] ==> IsDigit(c) || c == ',' || c == '-'
    {
      Framed("rgb(", RgbFields(), ")");
      "rgb(" + RgbFields() + ")"
    }

    /** The `|0` texts of the three channels, separated by commas. */
    function RgbFields(): (s: string)
      reads this
      ensures |s| >= 5
      ensures forall c :: c in s ==> IsDigit(c) || c == ',' || c == '-'
    {
      DecimalTextChars(BitOrZero(r));
      DecimalTextChars(BitOrZero(g));
      DecimalTextChars(BitOrZero(b));
      DecimalText(BitOrZero(r)) + "," + DecimalText(BitOrZero(g)) + "," + DecimalText(BitOrZero(b))
    }

    /** `toRGBA()` as written: the alpha text is appended as a fourth field,
        but the prefix is the one of `toRGB()`, `rgb(`. The text is the one of
        `toRGBA()` without its `a`. */
    function ToRGBAAsWritten(ops: FloatOps): (s: string)
      reads this
      ensures var t := ToRGB(); s == t[..|t| - 1] + "," + ops.alphaText(a) + ")"
      ensures var t := ToRGBA(ops); s == t[..3] + t[4..]
    {
      Framed("rgb(", RgbFields(), ")");
      DropFourth("rgba(", "rgb(", RgbFields(), ops.alphaText(a));
      "rgb(" + RgbFields() + "," + ops.alphaText(a) + ")"
    }

    /** `toRGBA()` with the `rgba(` prefix its description calls for: the
        fields of `toRGB()` and the alpha text as a fourth field. */
    function ToRGBA(ops: FloatOps): (s: string)
      reads this
      ensures var t := ToRGB(); s == "rgba(" + t[4..|t| - 1] + "," + ops.alphaText(a) + ")"
    {
      Framed("rgb(", RgbFields(), ")");
      "rgba(" + RgbFields() + "," + ops.alphaText(a) + ")"
    }

    /** `to24Bit()`. NaN in green or blue is absorbed by the shifts, NaN in
        red is not. */
    function To24Bit(): (n: Num)
      reads this
      ensures n.NaN? <==> r.NaN?
    {
      RGB2Bin24Bit(r, g, b)
    }

    /** `to32Bit()`: `(a << 24) + RGB2Bin24Bit(r, g, b)`. */
    function To32Bit(): (n: Num)
      reads this
      ensures n.NaN? <==> r.NaN?
    {
      Add(Int(ShiftLeft(Int(a), 24)), RGB2Bin24Bit(r, g, b))
    }

    /** `toHSL()`. Between the parentheses stand only digits, minus signs,
        commas and percent signs. */
    function ToHSL(ops: FloatOps): (s: string)
      reads this
      ensures |s| >= 11 && s[..4] == "hsl(" && s[|s| - 1] == ')'
      ensures forall c :: c in s[4..|s| - 1] ==> IsDigit(c) || c == ',' || c == '-' || c == '%'
    {
      Framed("hsl(", PercentJoin(ops.rgb2hsl(r, g, b)), ")");
      "hsl(" + PercentJoin(ops.rgb2hsl(r, g, b)) + ")"
    }

    /** `toHSLA()` as written: the alpha text is appended as a fourth field,
        but the prefix is the one of `toHSL()`, `hsl(`. The text is the one of
        `toHSLA()` without its `a`. */
    function ToHSLAAsWritten(ops: FloatOps): (s: string)
      reads this
      ensures var t := ToHSL(ops); s == t[..|t| - 1] + "," + ops.alphaText(a) + ")"
      ensures var t := ToHSLA(ops); s == t[..3] + t[4..]
    {
      Framed("hsl(", PercentJoin(ops.rgb2hsl(r, g, b)), ")");
      DropFourth("hsla(", "hsl(", PercentJoin(ops.rgb2hsl(r, g, b)), ops.alphaText(a));
      "hsl(" + PercentJoin(ops.rgb2hsl(r, g, b)) + "," + ops.alphaText(a) + ")"
    }

    /** `toHSLA()` with the `hsla(` prefix its description calls for: the
        fields of `toHSL()` and the alpha text as a fourth field. */
    function ToHSLA(ops: FloatOps): (s: string)
      reads this
      ensures var t := ToHSL(ops); s == "hsla(" + t[4..|t| - 1] + "," + ops.alphaText(a) + ")"
    {
      Framed("hsl(", PercentJoin(ops.rgb2hsl(r, g, b)), ")");
      "hsla(" + PercentJoin(ops.rgb2hsl(r, g, b)) + "," + ops.alphaText(a) + ")"
    }

    /** `toHSV()`. Between the parentheses stand only digits, minus signs,
        commas and percent signs. */
    function ToHSV(ops: FloatOps): (s: string)
      reads this
      ensures |s| >= 11 && s[..4] == "hsv(" && s[|s| - 1] == ')'
      ensures forall c :: c in s[4..|s| - 1] ==> IsDigit(c) || c == ',' || c == '-' || c == '%'
    {
      Framed("hsv(", PercentJoin(ops.rgb2hsv(r, g, b)), ")");
      "hsv(" + PercentJoin(ops.rgb2hsv(r, g, b)) + ")"
    }

    /** `toHSVA()`: the fields of `toHSV()` and the alpha text as a fourth
        field, after the prefix `hsva(`. */
    function ToHSVA(ops: FloatOps): (s: string)
      reads this
      ensures var t := ToHSV(ops); s == "hsva(" + t[4..|t| - 1] + "," + ops.alphaText(a) + ")"
    {
      Framed("hsv(", PercentJoin(ops.rgb2hsv(r, g, b)), ")");
      "hsva(" + PercentJoin(ops.rgb2hsv(r, g, b)) + "," + ops.alphaText(a) + ")"
    }

    /** `toNamedColor()`: the first name whose value equals `toHex()`, or
        nothing (`undefined`). */
    method ToNamedColor() returns (name: Option<string>)
      ensures name == NameOf(ToHex())
      ensures name == None
    {
      name := FirstKeyOf(Entries, ToHex());
      NoValueHasHash(ToHex());
    }
  }

  /** The `for...in` walk of `toNamedColor()` over a table: the key of the
      first entry whose value is v, returned as soon as it is met. */
  method FirstKeyOf(t: Table, v: string) returns (name: Option<string>)
    ensures name == KeyOf(t, v)
  {
    var k := 0;
    while k < |t|
      invariant 0 <= k <= |t|
      invariant forall j :: 0 <= j < k ==> t[j].1 != v
    {
      if t[k].1 == v {
        FirstKey(t, v, k);
        return Some(t[k].0);
      }
      k := k + 1;
    }
    return None;
  }

  /** The first entry whose value is v is the one `KeyOf` names. */
  lemma {:induction false} FirstKey(t: Table, v: string, i: nat)
    requires i < |t| && t[i].1 == v
    requires forall j :: 0 <= j < i ==> t[j].1 != v
    ensures KeyOf(t, v) == Some(t[i].0)
  {
    if i > 0 {
      FirstKey(t[1..], v, i - 1);
    }
  }

  /** The object's channels are bytes. */
  predicate ByteChannels(c: Rgb) {
    c.r.Int? && c.g.Int? && c.b.Int? && 0 <= c.r.v < 256 && 0 <= c.g.v < 256 && 0 <= c.b.v < 256
  }

  /** The object's channels are non-negative signed 32-bit integers, which
      `|0` leaves alone. */
  predicate Int32Channels(c: Rgb) {
    c.r.Int? && c.g.Int? && c.b.Int? && 0 <= c.r.v < TWO_31 && 0 <= c.g.v < TWO_31 && 0 <= c.b.v < TWO_31
  }

  /** An existing object is handed back unchanged, whatever else is passed. */
  lemma PassThroughObject(c: Colourizr, rest: seq<Value>, ops: FloatOps)
    ensures Parse([Instance(c)] + rest, ops) == PassThrough(c)
  {
  }

  /** Strings are read case-insensitively: the text is lower-cased first. */
  lemma CaseInsensitive(s: string, rest: seq<Value>, ops: FloatOps)
    ensures Parse([Text(s)] + rest, ops) == Parse([Text(ToLower(s))] + rest, ops)
  {
    ToLowerIdempotent(s);
  }

  /** A name of the table is taken before any other reading of the text, and
      gives that entry's colour, whose channels are bytes, at full alpha. */
  lemma NamedColour(s: string, rest: seq<Value>, ops: FloatOps)
    requires Lookup(ToLower(s)).Some?
    ensures var v := Lookup(ToLower(s)).value;
      Hex2RGB(v).Some? && Parse([Text(s)] + rest, ops) == Build(Hex2RGB(v).value, 255) &&
      ByteChannels(Hex2RGB(v).value)
  {
    var t := ToLower(s);
    var v := Lookup(t).value;
    var i :| 0 <= i < |Entries| && Entries[i] == (t, v);
    ValuesAreColours(i);
  }

  /** A string that is neither a name nor functional notation is read as hex,
      and one too short for hex gives white. */
  lemma HexFallback(s: string, rest: seq<Value>, ops: FloatOps)
    requires Lookup(ToLower(s)).None? && MatchPrefix(ToLower(s)).None?
    ensures Parse([Text(s)] + rest, ops) == Build(Hex2RGB(ToLower(s)).GetOr(White), 255)
    ensures Hex2RGB(ToLower(s)).None? ==> Parse([Text(s)] + rest, ops) == Build(White, 255)
  {
  }

  /** The constructor throws exactly when the text opens a functional
      notation whose component expression finds no match; the error is a
      TypeError. */
  lemma ThrowsOnlyOnUnmatchedNotation(s: string, rest: seq<Value>, ops: FloatOps)
    ensures var t := ToLower(s);
      Parse([Text(s)] + rest, ops).Failure? <==>
        Lookup(t).None? && MatchPrefix(t).Some? && Exec(t[4..], !MatchPrefix(t).value.isRgb).None?
    ensures Parse([Text(s)] + rest, ops).Failure? ==> Parse([Text(s)] + rest, ops).error == TypeError
  {
  }

  /** Only a text whose prefix carries `a` sets an alpha other than 255. */
  lemma AlphaOnlyFromNotation(s: string, rest: seq<Value>, ops: FloatOps)
    requires MatchPrefix(ToLower(s)).None? || !MatchPrefix(ToLower(s)).value.hasAlpha
    ensures Parse([Text(s)] + rest, ops).Build? ==> Parse([Text(s)] + rest, ops).alpha == 255
  {
  }

  /** Three or more arguments are the channels, read with `Number()`, and
      the fourth, through `|0`, is the alpha: `typeof a === undefined`
      compares with the value `undefined`, never with the text
      `'undefined'`, so an omitted alpha is `Number(undefined)|0`, which is 0. */
  lemma ExplicitChannels(x: Num, y: Num, z: Num, rest: seq<Value>, ops: FloatOps)
    ensures Parse([Numeric(x), Numeric(y), Numeric(z)], ops) == Build(Rgb(x, y, z), 0)
    ensures |rest| > 0 && rest[0].Numeric? && rest[0].n.Int? ==>
      Parse([Numeric(x), Numeric(y), Numeric(z)] + rest, ops) == Build(Rgb(x, y, z), ToInt32(rest[0].n.v))
  {
  }

  /** A single number is unpacked as a 24-bit colour value, with full alpha. */
  lemma NumericColour(n: int, ops: FloatOps)
    ensures Parse([Numeric(Int(n))], ops) == Build(Bin24BitToRGB(n), 255)
    ensures 0 <= n < 0x100_0000 ==> Parse([Numeric(Int(n))], ops).color.r == Int(n % 256)
  {
    UnpackBytes(n);
  }

  /** No arguments, or one or two whose first is neither object, string nor
      number (`undefined`, `null` or a boolean), give white. */
  lemma DefaultWhite(args: seq<Value>, ops: FloatOps)
    requires |args| <= 2 && (args == [] || args[0].Undefined? || args[0].Null? || args[0].Bool?)
    ensures Parse(args, ops) == Build(White, 255)
  {
  }

  /** With three or more arguments, `null` and booleans are channels through
      `Number()`: `new Colourizr(null, true, 255)` is `[0, 1, 255]` at alpha 0. */
  lemma NullAndBooleanChannels(ops: FloatOps)
    ensures Parse([Null, Bool(true), Numeric(Int(255))], ops) == Build(Rgb(Int(0), Int(1), Int(255)), 0)
    ensures Parse([Numeric(Int(255)), Bool(false), Null, Bool(true)], ops) == Build(Rgb(Int(255), Int(0), Int(0)), 1)
  {
  }

  /** The constructor as written for a lone number: it calls
      `Colourizr.Bin24Bit2RGB`, a name the library never defines (its
      unpacker is `Bin24BitToRGB`), so the call throws a TypeError; every
      other branch is as in `Parse`. */
  function ParseAsWritten(args: seq<Value>, ops: FloatOps): (o: Outcome)
    ensures Arg(args, 0).Numeric? && |args| <= 2 ==> o == Failure(TypeError)
    ensures !(Arg(args, 0).Numeric? && |args| <= 2) ==> o == Parse(args, ops)
  {
    var r := Arg(args, 0);
    if r.Numeric? && |args| <= 2 then Failure(TypeError) else Parse(args, ops)
  }

  /** `new Colourizr(16711680)`, the documentation's numeric blue: the
      constructor as written throws, the corrected one gives blue. */
  lemma NumberArgumentAsWritten(n: int, ops: FloatOps)
    requires n == 16711680
    ensures ParseAsWritten([Numeric(Int(n))], ops) == Failure(TypeError)
    ensures Parse([Numeric(Int(n))], ops) == Build(Blue, 255)
  {
    NumericColour(n, ops);
    UnpackerReadsItsParameter(n);
  }

  /** A recognised prefix followed by a text without capitals goes to the
      notation branch with the text after the first four characters. */
  lemma NotationText(pre: string, t: string, p: Prefix, ops: FloatOps)
    requires IsPrefixText(pre, p) && NoCapitals(t)
    ensures Parse([Text(pre + t)], ops) == ParseNotation(pre[4..] + t, p, ops)
  {
    var s := pre + t;
    PrefixMatched(pre, t, p);
    NoCapitalsAppend(pre, t);
    NotAName(s, |pre| - 1);
    NotationBranch(s, p, ops);
  }

  /** A text with no capital, no name and a notation prefix goes to the
      notation branch. */
  lemma NotationBranch(s: string, p: Prefix, ops: FloatOps)
    requires NoCapitals(s) && Lookup(s).None? && MatchPrefix(s) == Some(p)
    ensures Parse([Text(s)], ops) == ParseNotation(s[4..], p, ops)
  {
    ToLowerIdentity(s);
  }

  /** A text with no capital that is neither a name nor notation goes to hex. */
  lemma HexBranch(s: string, ops: FloatOps)
    requires NoCapitals(s) && Lookup(s).None? && MatchPrefix(s).None?
    ensures Parse([Text(s)], ops) == Build(Hex2RGB(s).GetOr(White), 255)
  {
    ToLowerIdentity(s);
  }

  lemma DigitsNoCapitals(d: string)
    requires AllDigits(d)
    ensures NoCapitals(d)
  {
  }

  /** The text `r,g,b)` or `r,g,b,a)` has no capital letter. */
  lemma TailNoCapitals(r: string, g: string, b: string, alpha: Option<string>)
    requires AreDigitRuns(r, g, b) && (alpha.Some? ==> IsAlphaText(alpha.value))
    ensures NoCapitals(Tail(r, g, b, alpha))
  {
    DigitsNoCapitals(r);
    DigitsNoCapitals(g);
    DigitsNoCapitals(b);
    NoCapitalsAppend(r, ",");
    NoCapitalsAppend(r + ",", g);
    NoCapitalsAppend(r + "," + g, ",");
    NoCapitalsAppend(r + "," + g + ",", b);
    var head := r + "," + g + "," + b;
    match alpha
    case None =>
      NoCapitalsAppend(head, ")");
    case Some(a) =>
      assert NoCapitals(a) by {
        assert forall k :: 0 <= k < |a| ==> IsAlphaChar(a[k]);
      }
      NoCapitalsAppend(head, ",");
      NoCapitalsAppend(head + ",", a);
      NoCapitalsAppend(head + "," + a, ")");
  }

  /** `rgb(r,g,b)` with digit runs r, g, b gives those numbers as the channels at full alpha. */
  lemma RgbText(r: string, g: string, b: string, ops: FloatOps)
    requires AreDigitRuns(r, g, b)
    ensures Parse([Text("rgb(" + Tail(r, g, b, None))], ops) ==
      Build(Rgb(Int(DigitsValue(r)), Int(DigitsValue(g)), Int(DigitsValue(b))), 255)
  {
    var t := Tail(r, g, b, None);
    TailNoCapitals(r, g, b, None);
    NotationText("rgb(", t, Prefix(true, false), ops);
    ExecTail("", r, g, b, None);
  }

  /** `rgb(r,g,b,a)`: the prefix has no `a`, so the fourth field is matched
      but the alpha stays 255. */
  lemma RgbTextIgnoresAlpha(r: string, g: string, b: string, a: string, ops: FloatOps)
    requires AreDigitRuns(r, g, b) && IsAlphaText(a)
    ensures Parse([Text("rgb(" + Tail(r, g, b, Some(a)))], ops) ==
      Build(Rgb(Int(DigitsValue(r)), Int(DigitsValue(g)), Int(DigitsValue(b))), 255)
  {
    var t := Tail(r, g, b, Some(a));
    TailNoCapitals(r, g, b, Some(a));
    NotationText("rgb(", t, Prefix(true, false), ops);
    ExecTail("", r, g, b, Some(a));
  }

  /** `rgba(r,g,b,a)` gives the channels and `(Number(a) * 255)|0` as the alpha. */
  lemma RgbaText(r: string, g: string, b: string, a: string, ops: FloatOps)
    requires AreDigitRuns(r, g, b) && IsAlphaText(a)
    ensures Parse([Text("rgba(" + Tail(r, g, b, Some(a)))], ops) ==
      Build(Rgb(Int(DigitsValue(r)), Int(DigitsValue(g)), Int(DigitsValue(b))), AlphaOf(Some(a)))
  {
    var t := Tail(r, g, b, Some(a));
    TailNoCapitals(r, g, b, Some(a));
    NotationText("rgba(", t, Prefix(true, true), ops);
    ExecTail("(", r, g, b, Some(a));
  }

  /** `rgba(r,g,b)`, with no fourth field: `Number(undefined)` is NaN and the alpha is 0. */
  lemma RgbaTextWithoutAlpha(r: string, g: string, b: string, ops: FloatOps)
    requires AreDigitRuns(r, g, b)
    ensures Parse([Text("rgba(" + Tail(r, g, b, None))], ops) ==
      Build(Rgb(Int(DigitsValue(r)), Int(DigitsValue(g)), Int(DigitsValue(b))), 0)
  {
    var t := Tail(r, g, b, None);
    TailNoCapitals(r, g, b, None);
    NotationText("rgba(", t, Prefix(true, true), ops);
    ExecTail("(", r, g, b, None);
  }

  /** The text of a channel that `|0` leaves alone. */
  lemma ChannelText(x: Num)
    requires x.Int? && 0 <= x.v < TWO_31
    ensures var d := DecimalText(BitOrZero(x));
      |d| > 0 && AllDigits(d) && Int(DigitsValue(d)) == x
  {
  }

  /** Reading back `toRGB()` gives the object's colour at full alpha. */
  lemma ToRGBRoundTrip(c: Colourizr, ops: FloatOps)
    requires Int32Channels(c.Color())
    ensures Parse([Text(c.ToRGB())], ops) == Build(c.Color(), 255)
  {
    var r, g, b := DecimalText(BitOrZero(c.r)), DecimalText(BitOrZero(c.g)), DecimalText(BitOrZero(c.b));
    ChannelText(c.r);
    ChannelText(c.g);
    ChannelText(c.b);
    assert c.ToRGB() == "rgb(" + Tail(r, g, b, None);
    RgbText(r, g, b, ops);
  }

  /** Reading back `toRGBA()` gives the object's colour, and the alpha that
      its alpha text stands for. */
  lemma ToRGBARoundTrip(c: Colourizr, ops: FloatOps)
    requires Int32Channels(c.Color()) && IsAlphaText(ops.alphaText(c.a))
    ensures Parse([Text(c.ToRGBA(ops))], ops) == Build(c.Color(), AlphaOf(Some(ops.alphaText(c.a))))
  {
    var r, g, b := DecimalText(BitOrZero(c.r)), DecimalText(BitOrZero(c.g)), DecimalText(BitOrZero(c.b));
    ChannelText(c.r);
    ChannelText(c.g);
    ChannelText(c.b);
    assert c.ToRGBA(ops) == "rgba(" + Tail(r, g, b, Some(ops.alphaText(c.a)));
    RgbaText(r, g, b, ops.alphaText(c.a), ops);
  }

  /** `toRGBA()` as written reads back with alpha 255, whatever the object's alpha. */
  lemma ToRGBAAsWrittenLosesAlpha(c: Colourizr, ops: FloatOps)
    requires Int32Channels(c.Color()) && IsAlphaText(ops.alphaText(c.a))
    ensures Parse([Text(c.ToRGBAAsWritten(ops))], ops) == Build(c.Color(), 255)
  {
    var r, g, b := DecimalText(BitOrZero(c.r)), DecimalText(BitOrZero(c.g)), DecimalText(BitOrZero(c.b));
    ChannelText(c.r);
    ChannelText(c.g);
    ChannelText(c.b);
    assert c.ToRGBAAsWritten(ops) == "rgb(" + Tail(r, g, b, Some(ops.alphaText(c.a)));
    RgbTextIgnoresAlpha(r, g, b, ops.alphaText(c.a), ops);
  }

  /** A transparent object, whose alpha text is `0`: read back, the written
      `rgb(...)` text is opaque, the `rgba(...)` text transparent. */
  lemma TransparentReadBack(c: Colourizr, ops: FloatOps)
    requires Int32Channels(c.Color()) && c.a == 0 && ops.alphaText(0) == "0"
    ensures Parse([Text(c.ToRGBAAsWritten(ops))], ops) == Build(c.Color(), 255)
    ensures Parse([Text(c.ToRGBA(ops))], ops) == Build(c.Color(), 0)
  {
    AlphaZero();
    ToRGBAAsWrittenLosesAlpha(c, ops);
    ToRGBARoundTrip(c, ops);
  }

  /** A `#` followed by lower-case hex digits has no capital and is neither
      a name nor notation. */
  lemma HashTextShape(s: string)
    requires |s| > 0 && s[0] == '#' && AllLowerHexDigits(s[1..])
    ensures NoCapitals(s) && Lookup(s).None? && MatchPrefix(s).None?
  {
    forall i | 0 < i < |s|
      ensures !('A' <= s[i] <= 'Z')
    {
      assert s[i] == s[1..][i - 1];
    }
    NotAName(s, 0);
    NoPrefix(s);
  }

  /** The text `RGB2Hex` writes for bytes has no capital and is neither a
      name nor notation. */
  lemma HexTextShape(r: int, g: int, b: int)
    requires 0 <= r < 256 && 0 <= g < 256 && 0 <= b < 256
    ensures var s := RGB2Hex(Int(r), Int(g), Int(b));
      NoCapitals(s) && Lookup(s).None? && MatchPrefix(s).None?
  {
    RGB2HexOfBytes(r, g, b);
    HashTextShape(RGB2Hex(Int(r), Int(g), Int(b)));
  }

  /** `RGB2Hex` of bytes read back as a string gives the bytes at full alpha. */
  lemma HexText(r: int, g: int, b: int, ops: FloatOps)
    requires 0 <= r < 256 && 0 <= g < 256 && 0 <= b < 256
    ensures Parse([Text(RGB2Hex(Int(r), Int(g), Int(b)))], ops) == Build(Rgb(Int(r), Int(g), Int(b)), 255)
  {
    HexTextShape(r, g, b);
    HexRoundTrip(r, g, b);
    HexBranch(RGB2Hex(Int(r), Int(g), Int(b)), ops);
  }

  /** Reading back `toHex()` of an object with byte channels gives its colour. */
  lemma ToHexRoundTrip(c: Colourizr, ops: FloatOps)
    requires ByteChannels(c.Color())
    ensures Parse([Text(c.ToHex())], ops) == Build(c.Color(), 255)
    ensures Parse([Text(c.ToString())], ops) == Build(c.Color(), 255)
  {
    HexText(c.r.v, c.g.v, c.b.v, ops);
  }

  /** `to24Bit()` of byte channels is r + 256 g + 65536 b, and reading it back
      as a number gives the colour. */
  lemma To24BitRoundTrip(c: Colourizr, ops: FloatOps)
    requires ByteChannels(c.Color())
    ensures c.To24Bit() == Int(c.r.v + 256 * c.g.v + 65536 * c.b.v)
    ensures 0 <= c.To24Bit().v < 0x100_0000
    ensures Parse([Numeric(c.To24Bit())], ops) == Build(c.Color(), 255)
  {
    PackBytes(c.r.v, c.g.v, c.b.v);
    UnpackPack(c.r.v, c.g.v, c.b.v);
  }

  /** `to32Bit()` of byte channels and a byte alpha: the alpha sits above the
      colour in the unsigned word, and the number is negative exactly when the
      alpha is 128 or more. */
  lemma To32BitLayout(c: Colourizr)
    requires ByteChannels(c.Color()) && 0 <= c.a < 256
    ensures c.To32Bit().Int?
    ensures ToUint32(c.To32Bit().v) == c.r.v + 256 * c.g.v + 65536 * c.b.v + 0x100_0000 * c.a
    ensures c.To32Bit().v < 0 <==> c.a >= 128
  {
    var r, g, b, a := c.r.v, c.g.v, c.b.v, c.a;
    assert c.To32Bit() == Add(Int(ShiftLeft(Int(a), 24)), RGB2Bin24Bit(Int(r), Int(g), Int(b)));
    AlphaPackLayout(r, g, b, a, r + 256 * g + 65536 * b);
  }


  /** Reading back `to32Bit()` as a number gives the colour: the unpacker
      passes over the alpha byte. */
  lemma To32BitReadBack(c: Colourizr, ops: FloatOps)
    requires ByteChannels(c.Color()) && 0 <= c.a < 256
    ensures Parse([Numeric(c.To32Bit())], ops) == Build(c.Color(), 255)
  {
    var r, g, b, a := c.r.v, c.g.v, c.b.v, c.a;
    assert c.To32Bit() == Add(Int(ShiftLeft(Int(a), 24)), RGB2Bin24Bit(Int(r), Int(g), Int(b)));
    assert c.Color() == Rgb(Int(r), Int(g), Int(b));
    Pack32ReadBack(r, g, b, a, c.To32Bit());
    NumericReadBack(c.To32Bit(), c.Color(), ops);
  }

  lemma NumericReadBack(x: Num, color: Rgb, ops: FloatOps)
    requires x.Int? && Bin24BitToRGB(x.v) == color
    ensures Parse([Numeric(x)], ops) == Build(color, 255)
  {
    NumericColour(x.v, ops);
  }




  /** `toNamedColor()` finds no name for any object. */
  lemma NeverNamed(c: Colourizr)
    ensures NameOf(c.ToHex()) == None
  {
    NoValueHasHash(c.ToHex());
  }

  /** `Hex2RGB('0000ff')` is blue. */
  lemma HexOfBlue()
    ensures Hex2RGB("0000ff") == Some(Blue)
  {
    RGB2HexLayout(0, 0, 255);
    assert RGB2Hex(Int(0), Int(0), Int(255)) == "#" + "0000ff";
    HexRoundTrip(0, 0, 255);
    HashIgnored("0000ff");
  }

  /** `new Colourizr('blue')` is blue. */
  lemma DocumentedBlueName(s: string, ops: FloatOps)
    requires s == "blue"
    ensures Parse([Text(s)], ops) == Build(Blue, 255)
  {
    assert NoCapitals(s) by {
      forall i | 0 <= i < |s|
        ensures !('A' <= s[i] <= 'Z')
      {
      }
    }
    ToLowerIdentity(s);
    BlueEntry();
    HexOfBlue();
  }

  /** `new Colourizr('#00f')` is blue. */
  lemma DocumentedBlueShorthand(s: string, ops: FloatOps)
    requires s == "#00f"
    ensures Parse([Text(s)], ops) == Build(Blue, 255)
  {
    assert NoCapitals(s) by {
      forall i | 0 <= i < |s|
        ensures !('A' <= s[i] <= 'Z')
      {
      }
    }
    NotAName(s, 0);
    NoPrefix(s);
    assert s == "#" + "00f";
    HashIgnored("00f");
    ShorthandExample();
    HexBranch(s, ops);
  }

  /** `new Colourizr('0000ff')` is blue. */
  lemma DocumentedBlueHex(s: string, ops: FloatOps)
    requires s == "0000ff"
    ensures Parse([Text(s)], ops) == Build(Blue, 255)
  {
    assert NoCapitals(s) by {
      forall i | 0 <= i < |s|
        ensures !('A' <= s[i] <= 'Z')
      {
      }
    }
    HexOfBlue();
    NotAName(s, 0);
    NoPrefix(s);
    HexBranch(s, ops);
  }

  /** `new Colourizr('rgb(0,0,255)')` is blue. */
  lemma DocumentedBlueRgb(ops: FloatOps)
    ensures Parse([Text("rgb(0,0,255)")], ops) == Build(Blue, 255)
  {
    BlueNumbers();
    RgbTexts();
    RgbText("0", "0", "255", ops);
  }

  /** `new Colourizr('rgba(0,0,255,1.0)')` is opaque blue. */
  lemma DocumentedBlueRgba(ops: FloatOps)
    ensures Parse([Text("rgba(0,0,255,1.0)")], ops) == Build(Blue, 255)
  {
    BlueNumbers();
    RgbTexts();
    RgbaText("0", "0", "255", "1.0", ops);
    AlphaOne();
  }

  /** `new Colourizr(0, 0, 255, 255)` is opaque blue; `new Colourizr(0, 0, 255)`
      is blue with alpha 0. */
  lemma DocumentedBlueChannels(ops: FloatOps)
    ensures Parse([Numeric(Int(0)), Numeric(Int(0)), Numeric(Int(255)), Numeric(Int(255))], ops) == Build(Blue, 255)
    ensures Parse([Numeric(Int(0)), Numeric(Int(0)), Numeric(Int(255))], ops) == Build(Blue, 0)
  {
  }

  /** The text `h,s%,l%)` or `h,s%,l%,a)` has no capital letter. */
  lemma PercentTailNoCapitals(h: string, sat: string, l: string, alpha: Option<string>)
    requires AreDigitRuns(h, sat, l) && (alpha.Some? ==> IsAlphaText(alpha.value))
    ensures NoCapitals(PercentTail(h, sat, l, alpha))
  {
    DigitsNoCapitals(h);
    DigitsNoCapitals(sat);
    DigitsNoCapitals(l);
    NoCapitalsAppend(h, ",");
    NoCapitalsAppend(h + ",", sat);
    NoCapitalsAppend(h + "," + sat, "%,");
    NoCapitalsAppend(h + "," + sat + "%,", l);
    NoCapitalsAppend(h + "," + sat + "%," + l, "%");
    var head := h + "," + sat + "%," + l + "%";
    match alpha
    case None =>
      NoCapitalsAppend(head, ")");
    case Some(a) =>
      assert NoCapitals(a) by {
        assert forall k :: 0 <= k < |a| ==> IsAlphaChar(a[k]);
      }
      NoCapitalsAppend(head, ",");
      NoCapitalsAppend(head + ",", a);
      NoCapitalsAppend(head + "," + a, ")");
  }

  /** `hsl(h,s%,l%)` with digit runs gives `HSL2RGB` of their numbers at full alpha. */
  lemma HslText(h: string, sat: string, l: string, ops: FloatOps)
    requires AreDigitRuns(h, sat, l)
    ensures Parse([Text("hsl(" + PercentTail(h, sat, l, None))], ops) ==
      Build(FromTriple(ops.hsl2rgb(DigitsValue(h), DigitsValue(sat), DigitsValue(l))), 255)
  {
    var t := PercentTail(h, sat, l, None);
    PercentTailNoCapitals(h, sat, l, None);
    NotationText("hsl(", t, Prefix(false, false), ops);
    ExecPercentTail("", h, sat, l, None);
  }

  /** `hsl(h,s%,l%,a)`: the prefix has no `a`, so the alpha stays 255. */
  lemma HslTextIgnoresAlpha(h: string, sat: string, l: string, a: string, ops: FloatOps)
    requires AreDigitRuns(h, sat, l) && IsAlphaText(a)
    ensures Parse([Text("hsl(" + PercentTail(h, sat, l, Some(a)))], ops) ==
      Build(FromTriple(ops.hsl2rgb(DigitsValue(h), DigitsValue(sat), DigitsValue(l))), 255)
  {
    var t := PercentTail(h, sat, l, Some(a));
    PercentTailNoCapitals(h, sat, l, Some(a));
    NotationText("hsl(", t, Prefix(false, false), ops);
    ExecPercentTail("", h, sat, l, Some(a));
  }

  /** `hsla(h,s%,l%,a)` gives `HSL2RGB` of the numbers and the alpha of a. */
  lemma HslaText(h: string, sat: string, l: string, a: string, ops: FloatOps)
    requires AreDigitRuns(h, sat, l) && IsAlphaText(a)
    ensures Parse([Text("hsla(" + PercentTail(h, sat, l, Some(a)))], ops) ==
      Build(FromTriple(ops.hsl2rgb(DigitsValue(h), DigitsValue(sat), DigitsValue(l))), AlphaOf(Some(a)))
  {
    var t := PercentTail(h, sat, l, Some(a));
    PercentTailNoCapitals(h, sat, l, Some(a));
    NotationText("hsla(", t, Prefix(false, true), ops);
    ExecPercentTail("(", h, sat, l, Some(a));
  }

  /** The entries of an `RGB2HSL` result are non-negative. */
  predicate NonNegative(t: (int, int, int)) {
    t.0 >= 0 && t.1 >= 0 && t.2 >= 0
  }

  /** The texts of a non-negative triple, and their values. */
  lemma TripleText(t: (int, int, int))
    requires NonNegative(t)
    ensures AreDigitRuns(DecimalText(t.0), DecimalText(t.1), DecimalText(t.2))
    ensures DigitsValue(DecimalText(t.0)) == t.0 && DigitsValue(DecimalText(t.1)) == t.1
    ensures DigitsValue(DecimalText(t.2)) == t.2
  {
  }

  /** Reading back `toHSL()` gives `HSL2RGB` of the object's `RGB2HSL`, at full alpha. */
  lemma ToHSLReadBack(c: Colourizr, ops: FloatOps)
    requires NonNegative(ops.rgb2hsl(c.r, c.g, c.b))
    ensures var t := ops.rgb2hsl(c.r, c.g, c.b);
      Parse([Text(c.ToHSL(ops))], ops) == Build(FromTriple(ops.hsl2rgb(t.0, t.1, t.2)), 255)
  {
    var t := ops.rgb2hsl(c.r, c.g, c.b);
    var h, sat, l := DecimalText(t.0), DecimalText(t.1), DecimalText(t.2);
    TripleText(t);
    assert c.ToHSL(ops) == "hsl(" + PercentTail(h, sat, l, None);
    HslText(h, sat, l, ops);
  }

  /** Reading back `toHSLA()` gives the same colour and the alpha of its alpha text. */
  lemma ToHSLAReadBack(c: Colourizr, ops: FloatOps)
    requires NonNegative(ops.rgb2hsl(c.r, c.g, c.b)) && IsAlphaText(ops.alphaText(c.a))
    ensures var t := ops.rgb2hsl(c.r, c.g, c.b);
      Parse([Text(c.ToHSLA(ops))], ops) ==
        Build(FromTriple(ops.hsl2rgb(t.0, t.1, t.2)), AlphaOf(Some(ops.alphaText(c.a))))
  {
    var t := ops.rgb2hsl(c.r, c.g, c.b);
    var h, sat, l := DecimalText(t.0), DecimalText(t.1), DecimalText(t.2);
    TripleText(t);
    assert c.ToHSLA(ops) == "hsla(" + PercentTail(h, sat, l, Some(ops.alphaText(c.a)));
    HslaText(h, sat, l, ops.alphaText(c.a), ops);
  }

  /** `toHSLA()` as written reads back with alpha 255, whatever the object's alpha. */
  lemma ToHSLAAsWrittenLosesAlpha(c: Colourizr, ops: FloatOps)
    requires NonNegative(ops.rgb2hsl(c.r, c.g, c.b)) && IsAlphaText(ops.alphaText(c.a))
    ensures var t := ops.rgb2hsl(c.r, c.g, c.b);
      Parse([Text(c.ToHSLAAsWritten(ops))], ops) == Build(FromTriple(ops.hsl2rgb(t.0, t.1, t.2)), 255)
  {
    var t := ops.rgb2hsl(c.r, c.g, c.b);
    var h, sat, l := DecimalText(t.0), DecimalText(t.1), DecimalText(t.2);
    TripleText(t);
    assert c.ToHSLAAsWritten(ops) == "hsl(" + PercentTail(h, sat, l, Some(ops.alphaText(c.a)));
    HslTextIgnoresAlpha(h, sat, l, ops.alphaText(c.a), ops);
  }

  /** The runs of the documentation's `rgb` examples. */
  lemma BlueNumbers()
    ensures AreDigitRuns("0", "0", "255") && IsAlphaText("1.0")
    ensures DigitsValue("0") == 0 && DigitsValue("255") == 255
  {
    assert DigitsValue("25") == 25;
  }

  /** The documentation's `rgb` texts, cut at their fields. */
  lemma RgbTexts()
    ensures "rgb(" + Tail("0", "0", "255", None) == "rgb(0,0,255)"
    ensures "rgba(" + Tail("0", "0", "255", Some("1.0")) == "rgba(0,0,255,1.0)"
  {
  }

  /** The documentation's `hsl` texts, cut at their fields. */
  lemma HslTexts()
    ensures "hsl(" + PercentTail("240", "100", "50", None) == "hsl(240,100%,50%)"
    ensures "hsla(" + PercentTail("240", "100", "50", Some("1.0")) == "hsla(240,100%,50%,1.0)"
  {
  }

  /** The runs of the documentation's `hsl` examples. */
  lemma HueNumbers()
    ensures AreDigitRuns("240", "100", "50")
    ensures DigitsValue("240") == 240 && DigitsValue("100") == 100 && DigitsValue("50") == 50
  {
    assert DigitsValue("24") == 24 && DigitsValue("10") == 10 && DigitsValue("5") == 5;
  }

  /** `new Colourizr('hsl(240,100%,50%)')` is `HSL2RGB(240, 100, 50)` at full alpha. */
  lemma DocumentedBlueHsl(s: string, ops: FloatOps)
    requires s == "hsl(240,100%,50%)"
    ensures Parse([Text(s)], ops) == Build(FromTriple(ops.hsl2rgb(240, 100, 50)), 255)
  {
    HueNumbers();
    HslTexts();
    HslText("240", "100", "50", ops);
  }

  /** `new Colourizr('hsla(240,100%,50%,1.0)')` is `HSL2RGB(240, 100, 50)` at full alpha. */
  lemma DocumentedBlueHsla(s: string, ops: FloatOps)
    requires s == "hsla(240,100%,50%,1.0)"
    ensures Parse([Text(s)], ops) == Build(FromTriple(ops.hsl2rgb(240, 100, 50)), 255)
  {
    HueNumbers();
    HslTexts();
    HslaText("240", "100", "50", "1.0", ops);
    AlphaOne();
  }
}
