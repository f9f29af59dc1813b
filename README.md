# Colourizr in Dafny

Colourizr is a small JavaScript colour-conversion library. One constructor,
`new Colourizr(...)`, accepts many kinds of argument:

- an existing object;
- a CSS colour name;
- `rgb(...)`, `rgba(...)`, `hsl(...)` or `hsla(...)` text;
- a hex string with or without `#`, in 3- or 6-digit form;
- three or four channel numbers;
- a packed 24-bit number.

It stores `r`, `g`, `b` and an alpha `a`. Renderers turn the object back into
hex, `rgb[a](...)`, `hsl[a](...)` and `hsv[a](...)` text, packed 24- and
32-bit numbers, or a colour name.

This project models the library's core and proves properties about it.

- **`js.dfy`** (module `Js`): the JavaScript semantics the library relies on.
  - `Num`: an integer or NaN.
  - `ToInt32`, `ToUint32` and `x|0`.
  - `<<` on 32 bits, and `+` with NaN.
  - ASCII `toLowerCase`.
  - The decimal text of an integer.
- **`hex.dfy`** (module `Hex`): `Colourizr.Hex2RGB` and `Colourizr.RGB2Hex`.
  - `parseInt(s, 16)`, including white space, sign, the `0x` prefix and NaN.
  - `(x|0).toString(16)`.
- **`packed.dfy`** (module `Packed`): `Colourizr.RGB2Bin24Bit` and
  `Colourizr.Bin24BitToRGB`.
  - `&` is defined bit by bit over naturals.
  - Lemmas reduce each mask to byte arithmetic.
- **`named_colors.dfy`** (module `NamedColors`): `Colourizr.namedColors`.
  - An ordered table of the literal's 143 entries.
  - The `[]` lookup and the `for...in` search by value.
- **`notation.dfy`** (module `Notation`): the prefix expression
  `/^((hsl)|(rgb))(a?)\(/`.
  - The two component expressions that `exec` runs on the text after its
    fourth character, modelled as greedy scans with leftmost search.
  - `(Number(alpha) * 255)|0` over exact decimals.
- **`colourizr.dfy`** (module `Colourizr`): the constructor and the renderers.
  - The constructor's branch choice is the function `Parse`.
  - `Colourizr.New` is the imperative constructor. It builds a fresh object
    with `use()`, modelled as the constructor `Use`, and is proved to agree
    with `Parse`.
  - The renderers are functions of the object's fields.
  - `toNamedColor()` is a method with the `for...in` loop.
  - Round-trip lemmas read each rendered text back through `Parse`.

The floating-point colour-space routines are parameters of type `FloatOps`:

- `HSL2RGB`, `RGB2HSL` and `RGB2HSV`;
- the decimal text of `a / 255`.

Statements about the `hsl` notation are therefore stated in terms of those
parameters.

## Model

| member | source | states |
|---|---|---|
| Hex.Hex2RGB | colourizr.js:90-104 | a result exists exactly when the text without its `#` has 3 characters or at least 6 |
| Hex.HashIgnored | colourizr.js:91-93 | one leading `#` makes no difference to the result |
| Hex.ShorthandDoubles | colourizr.js:94-96 | a 3-character text is read as its 6-character expansion with every digit doubled |
| Hex.TrailingIgnored | colourizr.js:97-102 | characters after the sixth are ignored |
| Hex.Hex2RGBPairs | colourizr.js:94-102 | when the expanded text starts with six hex digits, each channel is 16 × the first digit of its pair plus the second |
| Hex.ComponentsAreBytes | colourizr.js:97-102 | when every character is a hex digit, the three channels are integers in 0..255 |
| Hex.ParseHexPair | colourizr.js:99-101 | `parseInt` of two hex digits is 16·high + low, a byte |
| Hex.ParseInt16 | colourizr.js:99-101 | a text starting with a character that is not a hex digit, white space or a sign is NaN |
| Hex.RGB2Hex | colourizr.js:241-246 | the text starts with `#` and holds at least one character per channel |
| Hex.ChannelOfByte | colourizr.js:243-245 | a byte channel is two lower-case hex digits, and its first digit is `0` exactly when the byte is below 16 |
| Hex.RGB2HexOfBytes | colourizr.js:241-246 | for bytes, the text has 7 characters: `#` and three lower-case digit pairs whose values are r, g and b |
| Hex.HexRoundTrip | colourizr.js:90-104 | `Hex2RGB(RGB2Hex(r, g, b))` gives back r, g and b for all bytes |
| Hex.ShorthandExample | readme.js:39 | `Hex2RGB('00f')` is `[0, 0, 255]` |
| Packed.RGB2Bin24Bit | colourizr.js:257-259 | the sum is NaN exactly when red is NaN, because the shifts read NaN green and blue as 0; otherwise it differs from red by less than 2^32 |
| Packed.Bin24BitToRGB | colourizr.js:158-164 | every unpacked channel is an integer in 0..255, whatever the number |
| Packed.PackBytes | colourizr.js:257-259 | for bytes, the packed value is r + 256·g + 65536·b and is below 2^24 |
| Packed.MaskedMiddleByte | colourizr.js:158-164 | masking with 65281 and dividing by 256 gives the same middle byte as the evidently intended mask 65280 |
| Packed.UnpackBytes | colourizr.js:158-164 | the unpacked channels are the low, middle and third byte of the number's unsigned 32-bit pattern |
| Packed.UnpackPack | colourizr.js:158-164 | unpacking a packed colour gives the colour back |
| Packed.PackUnpack | colourizr.js:257-259 | packing an unpacked 24-bit value gives the value back |
| Packed.AlphaShift | colourizr.js:308-310 | `a << 24` of a byte alpha is a·2^24, wrapped to a negative number exactly when a ≥ 128 |
| Packed.UnpackIgnoresAlpha | colourizr.js:158-164 | unpacking ignores the alpha byte placed above the colour |
| Packed.Pack32ReadBack | colourizr.js:308-310 | `(a << 24) + RGB2Bin24Bit(r, g, b)` is a number that unpacks to r, g, b |
| Packed.Bin24BitToRGBAsWritten | colourizr.js:158-164 | the unpacker as written reads `r`, which is neither its parameter nor a local; assuming no global `r` exists (the name is resolved through the scope chain), it throws a ReferenceError for every argument |
| Packed.UnpackerReadsItsParameter | colourizr.js:158-164 | for 16711680, the unpacker as written throws, and the corrected one gives `[0, 0, 255]` |
| NamedColors.Lookup | colourizr.js:377-521 | a name has a value exactly when some entry of the table has that key, and the value found is that entry's |
| NamedColors.TableWellFormed | colourizr.js:377-521 | every key is a word of at least three lower-case letters and every value is six lower-case hex digits |
| NamedColors.ValuesAreColours | colourizr.js:35-36 | every value of the table is read by `Hex2RGB` as three bytes |
| NamedColors.NotAName | colourizr.js:35 | a text with any character that is not a lower-case letter is no name |
| NamedColors.BlueEntry | colourizr.js:387 | `blue` maps to `0000ff` |
| NamedColors.NameOf | colourizr.js:363-367 | a name is found for a value exactly when some entry holds that value, and it is the key of the first entry in table order that holds it |
| NamedColors.NoValueHasHash | colourizr.js:360-368 | no table value starts with `#`, so no text starting with `#` has a name |
| Notation.MatchPrefix | colourizr.js:39 | a prefix is recognised exactly when the text starts with `rgb(`, `hsl(`, `rgba(` or `hsla(`; it is `rgb` when the text starts with `r`, and has alpha when the fourth character is `a` |
| Notation.Exec | colourizr.js:47 | no match exactly when no position matches; otherwise the match is at the leftmost position that matches, with three digit runs and an alpha text |
| Notation.ExecTail | colourizr.js:46-47 | the comma expression finds exactly the fields of `r,g,b)` and `r,g,b,a)`, also after the `(` that `substr(4)` leaves for `rgba(` |
| Notation.ExecPercentTail | colourizr.js:57-58 | the percent expression finds exactly the fields of `h,s%,l%)` and `h,s%,l%,a)`, also after a `(` |
| Notation.NoDigitsNoMatch | colourizr.js:47-58 | a text without a digit matches neither component expression |
| Notation.AlphaOf | colourizr.js:53 | no alpha field (`Number(undefined)` is NaN) gives alpha 0 |
| Notation.DecimalOf | colourizr.js:53 | a run of digits is read as its integer value |
| Notation.AlphaInUnitRange | colourizr.js:53 | an alpha text between 0 and 1 gives an alpha between 0 and 255 |
| Notation.AlphaOne | colourizr.js:53 | `1` and `1.0` give 255 |
| Notation.AlphaNaN | colourizr.js:53 | `.` and `1.2.3` are NaN and give 0 |
| Colourizr.Parse | colourizr.js:13-81 | an object is handed back exactly when the first argument is one, and only a string argument can throw |
| Colourizr.ParseText | colourizr.js:33-67 | a name of the table gives full alpha; with no notation prefix the result is the hex reading or white |
| Colourizr.ParseNotation | colourizr.js:41-64 | throws a TypeError exactly when the component expression finds no match; without `a` the alpha is 255 |
| Colourizr.NumberOf | colourizr.js:71-73 | `Number()` of a number is the number, of a digit string its value, of `null` 0, of a boolean 1 or 0, and of `undefined` or an object NaN |
| Colourizr.Colourizr.New | colourizr.js:13-81 | hands back the object passed in, throws what `Parse` throws, or makes a fresh object whose colour and alpha are the ones `Parse` settles on |
| Colourizr.Colourizr.Use | colourizr.js:21-26 | the object takes the three channels of the colour and the alpha |
| Colourizr.Colourizr.ToHex | colourizr.js:267-269 | the text starts with `#` and has at least four characters |
| Colourizr.Colourizr.ToString | colourizr.js:369-371 | the text is the one of `toHex()` |
| Colourizr.Colourizr.ToRGB | colourizr.js:275-281 | the text starts with `rgb(`, ends with `)` and between them holds only digits, minus signs and commas |
| Colourizr.Colourizr.ToRGBA | colourizr.js:287-294 | with the `rgba(` prefix, the text is the fields of `toRGB()` followed by the alpha text as a fourth field |
| Colourizr.Colourizr.ToRGBAAsWritten | colourizr.js:287-294 | as written, the text is `toRGB()` with the alpha text inserted as a fourth field, which is the corrected text without its `a` |
| Colourizr.Colourizr.To24Bit | colourizr.js:300-302 | the number is NaN exactly when red is NaN |
| Colourizr.Colourizr.To32Bit | colourizr.js:308-310 | the number is NaN exactly when red is NaN |
| Colourizr.Colourizr.ToHSL | colourizr.js:316-321 | the text starts with `hsl(`, ends with `)` and between them holds only digits, minus signs, commas and percent signs |
| Colourizr.Colourizr.ToHSLA | colourizr.js:327-332 | with the `hsla(` prefix, the text is the fields of `toHSL()` followed by the alpha text as a fourth field |
| Colourizr.Colourizr.ToHSLAAsWritten | colourizr.js:327-332 | as written, the text is `toHSL()` with the alpha text inserted as a fourth field, which is the corrected text without its `a` |
| Colourizr.Colourizr.ToHSV | colourizr.js:338-343 | the text starts with `hsv(`, ends with `)` and between them holds only digits, minus signs, commas and percent signs |
| Colourizr.Colourizr.ToHSVA | colourizr.js:349-354 | the text is the fields of `toHSV()` after the prefix `hsva(`, followed by the alpha text as a fourth field |
| Colourizr.PassThroughObject | colourizr.js:29-31 | an existing object is handed back whatever else is passed |
| Colourizr.CaseInsensitive | colourizr.js:34 | a text and its lower-case form give the same result |
| Colourizr.NamedColour | colourizr.js:35-38 | a name is read before anything else and gives its entry's byte colour at alpha 255 |
| Colourizr.HexFallback | colourizr.js:66-67 | a text that is neither a name nor notation is read as hex, and gives white when too short |
| Colourizr.ThrowsOnlyOnUnmatchedNotation | colourizr.js:39-64 | a string argument throws exactly when it opens a notation whose component expression does not match, and the error is a TypeError |
| Colourizr.AlphaOnlyFromNotation | colourizr.js:43-63 | a text whose prefix has no `a` keeps alpha 255 |
| Colourizr.ExplicitChannels | colourizr.js:69-75 | three numbers are the channels; the alpha is `Number(a)|0`, which is 0 when no fourth argument is given |
| Colourizr.NumericColour | colourizr.js:77-78 | a lone number is unpacked as a 24-bit colour at alpha 255 |
| Colourizr.DefaultWhite | colourizr.js:15-16 | no argument, or one or two arguments led by `undefined`, `null` or a boolean, give white at alpha 255 |
| Colourizr.NullAndBooleanChannels | colourizr.js:69-75 | with three or more arguments, `null` is channel 0 and `true` is 1, as `Number()` reads them |
| Colourizr.ParseAsWritten | colourizr.js:77-78 | as written, a lone number throws a TypeError, because `Bin24Bit2RGB` is undefined; every other input is read as by `Parse` |
| Colourizr.NumberArgumentAsWritten | colourizr.js:77-78 | `new Colourizr(16711680)` throws as written, and the corrected constructor gives blue |
| Colourizr.RgbText | colourizr.js:45-54 | `rgb(r,g,b)` gives those channels at alpha 255 |
| Colourizr.RgbTextIgnoresAlpha | colourizr.js:53 | `rgb(r,g,b,a)` matches the fourth field but keeps alpha 255 |
| Colourizr.RgbaText | colourizr.js:45-54 | `rgba(r,g,b,a)` gives those channels and `(Number(a) * 255)|0` |
| Colourizr.RgbaTextWithoutAlpha | colourizr.js:53 | `rgba(r,g,b)` gives alpha 0 |
| Colourizr.HslText | colourizr.js:57-64 | `hsl(h,s%,l%)` gives `HSL2RGB(h, s, l)` at alpha 255 |
| Colourizr.HslTextIgnoresAlpha | colourizr.js:63 | `hsl(h,s%,l%,a)` keeps alpha 255 |
| Colourizr.HslaText | colourizr.js:57-64 | `hsla(h,s%,l%,a)` gives `HSL2RGB(h, s, l)` and the alpha of a |
| Colourizr.ToRGBRoundTrip | colourizr.js:275-281 | reading `toRGB()` back gives the object's colour at alpha 255 |
| Colourizr.ToRGBARoundTrip | colourizr.js:287-294 | reading the corrected `toRGBA()` back gives the colour and the alpha of its alpha text |
| Colourizr.ToRGBAAsWrittenLosesAlpha | colourizr.js:287-294 | reading `toRGBA()` as written back gives alpha 255, whatever the object's alpha |
| Colourizr.TransparentReadBack | colourizr.js:287-294 | a transparent object reads back opaque from `toRGBA()` as written, and transparent from the corrected text |
| Colourizr.ToHexRoundTrip | colourizr.js:267-269 | reading back `toHex()` or `toString()` of a byte colour gives that colour at alpha 255 |
| Colourizr.To24BitRoundTrip | colourizr.js:300-302 | `to24Bit()` of bytes is r + 256·g + 65536·b, below 2^24, and reading it back as a number gives the colour |
| Colourizr.To32BitLayout | colourizr.js:308-310 | the unsigned 32-bit pattern of `to32Bit()` holds the alpha above the colour, and the number is negative exactly when the alpha is 128 or more |
| Colourizr.To32BitReadBack | colourizr.js:308-310 | reading `to32Bit()` back as a number gives the colour, because the alpha byte is ignored |
| Colourizr.ToHSLReadBack | colourizr.js:316-321 | reading `toHSL()` back gives `HSL2RGB` of the object's `RGB2HSL`, at alpha 255 |
| Colourizr.ToHSLAReadBack | colourizr.js:327-332 | reading the corrected `toHSLA()` back gives that colour and the alpha of its alpha text |
| Colourizr.ToHSLAAsWrittenLosesAlpha | colourizr.js:327-332 | reading `toHSLA()` as written back gives alpha 255, whatever the object's alpha |
| Colourizr.Colourizr.ToNamedColor | colourizr.js:360-368 | the result is the key of the first entry whose value is `toHex()`; that is always `undefined`, because `toHex()` starts with `#` |
| Colourizr.FirstKeyOf | colourizr.js:363-367 | the loop returns the key of the first entry holding the value, or nothing |
| Colourizr.NeverNamed | colourizr.js:360-368 | no object has a named colour |
| Colourizr.DocumentedBlueName | readme.js:19 | `new Colourizr('blue')` is blue at alpha 255 |
| Colourizr.DocumentedBlueShorthand | readme.js:20 | `new Colourizr('#00f')` is blue at alpha 255 |
| Colourizr.DocumentedBlueHex | readme.js:21 | `new Colourizr('0000ff')` is blue at alpha 255 |
| Colourizr.DocumentedBlueRgb | readme.js:22 | `new Colourizr('rgb(0,0,255)')` is blue at alpha 255 |
| Colourizr.DocumentedBlueRgba | readme.js:23 | `new Colourizr('rgba(0,0,255,1.0)')` is blue at alpha 255 |
| Colourizr.DocumentedBlueHsl | readme.js:24 | `new Colourizr('hsl(240,100%,50%)')` is `HSL2RGB(240, 100, 50)` at alpha 255 |
| Colourizr.DocumentedBlueHsla | readme.js:25 | `new Colourizr('hsla(240,100%,50%,1.0)')` is `HSL2RGB(240, 100, 50)` at alpha 255 |
| Colourizr.DocumentedBlueChannels | readme.js:26-27 | `new Colourizr(0, 0, 255, 255)` is blue at alpha 255; `new Colourizr(0, 0, 255)` is blue at alpha 0 |

## Left out

- `Colourizr.HSL2RGB`, `Colourizr.RGB2HSL` and `Colourizr.RGB2HSV` (colourizr.js:115-230) compute in floating point. They are parameters of the model (`FloatOps`), so nothing is proved about their values.
- The text of `this.a / 255` in `toRGBA()`, `toHSLA()` and `toHSVA()` is a floating-point number's text. It is the parameter `alphaText`. The read-back lemmas assume it is a text of digits and dots.
- Notation.AlphaOf: `(Number(g[5]) * 255)|0` is computed on exact decimals. A product that floating point rounds across an integer would give a different alpha.
- Colourizr.NumberOf: the model takes NaN for every string that is not only decimal digits, where JavaScript's `Number()` reads many of them as numbers: `' 5'` is 5, `'0x10'` is 16, `'1e3'` is 1000, `'-5'` is -5 and `'5.5'` is 5.5. The constructor passes strings to `Number()` only when three or more arguments are given.
- Colourizr.ChannelsOf and Colourizr.NumberOf: a run of decimal digits is read as an exact integer. `Number()` rounds above 2^53 and gives Infinity above about 1.8e308, and `Infinity|0` is 0. For example `new Colourizr('99999999999999999999', '0', '0')` has red 1e20 in the source, and its `toRGB()` is `rgb(1661992960,0,0)` in the source but `rgb(1661992959,0,0)` in the model.
- Js.Num: numbers are integers or NaN. Fractions, infinities, `-0` and precision loss above 2^53 are not modelled.
- Hex.ParseInt16: integers are exact, so precision loss for very long digit runs is not modelled. Every other `parseInt(s, 16)` rule is modelled.
- Js.ToLower: `toLowerCase` is modelled for ASCII letters only.
- NamedColors.Lookup: `namedColors[r]` on an own key only. Keys inherited from `Object.prototype` (such as `constructor`) are not modelled, and neither is the `hasOwnProperty` test in `toNamedColor()`, which is true for every own key.
- Colourizr.Colourizr.ToHSV and Colourizr.Colourizr.ToHSVA: `hsv` text is not read back by the constructor. Only the layout relation between the two is proved.
- The module exports (colourizr.js:523-531) are not modelled.
- Hex.Hex2RGB, Notation.Exec and Colourizr.Parse: strings are sequences of Unicode scalar values. The source's `length`, indexing, `substr` and regular expressions (which have no `u` flag) count UTF-16 code units. Text with characters outside the Basic Multilingual Plane is measured differently. For example, `'\u{1F600}a'` has length 3 in the source, so it is expanded as shorthand, while the model sees 2 characters and builds white. Lone surrogates cannot be written at all.
- Colourizr.Value and Colourizr.NumberOf: arrays and plain objects other than a Colourizr are not arguments of the model. `Number()` reads them through `valueOf` and `toString` (`Number([5])` is 5). `undefined`, `null`, booleans, numbers, strings and Colourizr objects are modelled.
- `readme.js` is documentation only. Its usage examples are proved as the `DocumentedBlue*` lemmas.
- Object identity beyond the pass-through is not modelled. Objects are never mutated after construction, because the library has no setters.

## Findings

| source | as written | input that shows it | evidently intended | confidence | as-written member | corrected member |
|---|---|---|---|---|---|---|
| colourizr.js:158-164 | `Bin24BitToRGB = function(n)` reads `r & 255`, and `r` is not declared | `Colourizr.Bin24BitToRGB(16711680)` throws ReferenceError when no global `r` exists | read the parameter `n` (and mask the middle byte with 65280, which gives the same result as 65281 after the division) | not executed | Packed.UnpackerReadsItsParameter | Packed.UnpackPack |
| colourizr.js:78 | the constructor calls `Colourizr.Bin24Bit2RGB`, which is not defined | `new Colourizr(16711680)` throws TypeError | call `Colourizr.Bin24BitToRGB` | not executed | Colourizr.NumberArgumentAsWritten | Colourizr.NumericColour |
| colourizr.js:287-294 | `toRGBA()` writes the prefix `rgb(` before four fields | an object with alpha 0: its `toRGBA()` text reads back with alpha 255 | prefix `rgba(` | not executed | Colourizr.ToRGBAAsWrittenLosesAlpha | Colourizr.ToRGBARoundTrip |
| colourizr.js:327-332 | `toHSLA()` writes the prefix `hsl(` before four fields | any object with alpha other than 255: its `toHSLA()` text reads back with alpha 255 | prefix `hsla(` | not executed | Colourizr.ToHSLAAsWrittenLosesAlpha | Colourizr.ToHSLAReadBack |
