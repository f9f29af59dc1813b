/** `Colourizr.namedColors`: the colour names the constructor accepts, each
    mapped to six lower-case hex digits without `#`, in the order of the
    object literal, which is also the order `for...in` visits them. */
module NamedColors {
  import opened Js
  import opened Hex

  /** Name and value pairs in table order. */
  type Table = seq<(string, string)>

  /** A key of the table: a word of at least three lower-case letters. */
  predicate IsKey(k: string) {
    |k| >= 3 && forall c :: c in k ==> 'a' <= c <= 'z'
  }

  /** A value of the table: exactly six lower-case hex digits, written out
      position by position. */
  predicate IsValue(v: string) {
    |v| == 6 && IsLowerHexDigit(v[0]) && IsLowerHexDigit(v[1]) && IsLowerHexDigit(v[2]) &&
    IsLowerHexDigit(v[3]) && IsLowerHexDigit(v[4]) && IsLowerHexDigit(v[5])
  }

  predicate Keyed(t: Table) {
    forall i :: 0 <= i < |t| ==> IsKey(t[i].0)
  }

  predicate Valued(t: Table) {
    forall i :: 0 <= i < |t| ==> IsValue(t[i].1)
  }

  predicate WellFormed(t: Table) {
    Keyed(t) && Valued(t)
  }

  function Concat(parts: seq<Table>): Table {
    if parts == [] then [] else parts[0] + Concat(parts[1..])
  }

  /** The literal, cut into parts of seven entries so that each part can
      be checked on its own. The key written `indianred ` in the literal is
      the identifier `indianred`; the space is not part of it. */
  const Parts: seq<Table> := [Part0, Part1, Part2, Part3, Part4, Part5, Part6, Part7, Part8, Part9, Part10, Part11, Part12, Part13, Part14, Part15, Part16, Part17, Part18, Part19, Part20]

  const Entries: Table := Concat(Parts)

  const Part0: Table := [
    ("aliceblue", "f0f8ff"),
    ("antiquewhite", "faebd7"),
    ("aqua", "00ffff"),
    ("aquamarine", "7fffd4"),
    ("azure", "f0ffff"),
    ("beige", "f5f5dc"),
    ("bisque", "ffe4c4")
  ]

  const Part1: Table := [
    ("black", "000000"),
    ("blanchedalmond", "ffebcd"),
    ("blue", "0000ff"),
    ("blueviolet", "8a2be2"),
    ("brown", "a52a2a"),
    ("burlywood", "deb887"),
    ("cadetblue", "5f9ea0")
  ]

  const Part2: Table := [
    ("chartreuse", "7fff00"),
    ("chocolate", "d2691e"),
    ("coral", "ff7f50"),
    ("cornflowerblue", "6495ed"),
    ("cornsilk", "fff8dc"),
    ("crimson", "dc143c"),
    ("cyan", "00ffff")
  ]

  const Part3: Table := [
    ("darkblue", "00008b"),
    ("darkcyan", "008b8b"),
    ("darkgoldenrod", "b8860b"),
    ("darkgray", "a9a9a9"),
    ("darkgreen", "006400"),
    ("darkkhaki", "bdb76b"),
    ("darkmagenta", "8b008b")
  ]

  const Part4: Table := [
    ("darkolivegreen", "556b2f"),
    ("darkorange", "ff8c00"),
    ("darkorchid", "9932cc"),
    ("darkred", "8b0000"),
    ("darksalmon", "e9967a"),
    ("darkseagreen", "8fbc8f"),
    ("darkslateblue", "483d8b")
  ]

  const Part5: Table := [
    ("darkslategray", "2f4f4f"),
    ("darkturquoise", "00ced1"),
    ("darkviolet", "9400d3"),
    ("deeppink", "ff1493"),
    ("deepskyblue", "00bfff"),
    ("dimgray", "696969"),
    ("dodgerblue", "1e90ff")
  ]

  const Part6: Table := [
    ("feldspar", "d19275"),
    ("firebrick", "b22222"),
    ("floralwhite", "fffaf0"),
    ("forestgreen", "228b22"),
    ("fuchsia", "ff00ff"),
    ("gainsboro", "dcdcdc"),
    ("ghostwhite", "f8f8ff")
  ]

  const Part7: Table := [
    ("gold", "ffd700"),
    ("goldenrod", "daa520"),
    ("gray", "808080"),
    ("green", "008000"),
    ("greenyellow", "adff2f"),
    ("honeydew", "f0fff0"),
    ("hotpink", "ff69b4")
  ]

  const Part8: Table := [
    ("indianred", "cd5c5c"),
    ("indigo", "4b0082"),
    ("ivory", "fffff0"),
    ("khaki", "f0e68c"),
    ("lavender", "e6e6fa"),
    ("lavenderblush", "fff0f5"),
    ("lawngreen", "7cfc00")
  ]

  const Part9: Table := [
    ("lemonchiffon", "fffacd"),
    ("lightblue", "add8e6"),
    ("lightcoral", "f08080"),
    ("lightcyan", "e0ffff"),
    ("lightgoldenrodyellow", "fafad2"),
    ("lightgrey", "d3d3d3"),
    ("lightgreen", "90ee90")
  ]

  const Part10: Table := [
    ("lightpink", "ffb6c1"),
    ("lightsalmon", "ffa07a"),
    ("lightseagreen", "20b2aa"),
    ("lightskyblue", "87cefa"),
    ("lightslateblue", "8470ff"),
    ("lightslategray", "778899"),
    ("lightsteelblue", "b0c4de")
  ]

  const Part11: Table := [
    ("lightyellow", "ffffe0"),
    ("lime", "00ff00"),
    ("limegreen", "32cd32"),
    ("linen", "faf0e6"),
    ("magenta", "ff00ff"),
    ("maroon", "800000"),
    ("mediumaquamarine", "66cdaa")
  ]

  const Part12: Table := [
    ("mediumblue", "0000cd"),
    ("mediumorchid", "ba55d3"),
    ("mediumpurple", "9370d8"),
    ("mediumseagreen", "3cb371"),
    ("mediumslateblue", "7b68ee"),
    ("mediumspringgreen", "00fa9a"),
    ("mediumturquoise", "48d1cc")
  ]

  const Part13: Table := [
    ("mediumvioletred", "c71585"),
    ("midnightblue", "191970"),
    ("mintcream", "f5fffa"),
    ("mistyrose", "ffe4e1"),
    ("moccasin", "ffe4b5"),
    ("navajowhite", "ffdead"),
    ("navy", "000080")
  ]

  const Part14: Table := [
    ("oldlace", "fdf5e6"),
    ("olive", "808000"),
    ("olivedrab", "6b8e23"),
    ("orange", "ffa500"),
    ("orangered", "ff4500"),
    ("orchid", "da70d6"),
    ("palegoldenrod", "eee8aa")
  ]

  const Part15: Table := [
    ("palegreen", "98fb98"),
    ("paleturquoise", "afeeee"),
    ("palevioletred", "d87093"),
    ("papayawhip", "ffefd5"),
    ("peachpuff", "ffdab9"),
    ("peru", "cd853f"),
    ("pink", "ffc0cb")
  ]

  const Part16: Table := [
    ("plum", "dda0dd"),
    ("powderblue", "b0e0e6"),
    ("purple", "800080"),
    ("red", "ff0000"),
    ("rosybrown", "bc8f8f"),
    ("royalblue", "4169e1"),
    ("saddlebrown", "8b4513")
  ]

  const Part17: Table := [
    ("salmon", "fa8072"),
    ("sandybrown", "f4a460"),
    ("seagreen", "2e8b57"),
    ("seashell", "fff5ee"),
    ("sienna", "a0522d"),
    ("silver", "c0c0c0"),
    ("skyblue", "87ceeb")
  ]

  const Part18: Table := [
    ("slateblue", "6a5acd"),
    ("slategray", "708090"),
    ("snow", "fffafa"),
    ("springgreen", "00ff7f"),
    ("steelblue", "4682b4"),
    ("tan", "d2b48c"),
    ("teal", "008080")
  ]

  const Part19: Table := [
    ("thistle", "d8bfd8"),
    ("tomato", "ff6347"),
    ("turquoise", "40e0d0"),
    ("violet", "ee82ee"),
    ("violetred", "d02090"),
    ("wheat", "f5deb3"),
    ("white", "ffffff")
  ]

  const Part20: Table := [
    ("whitesmoke", "f5f5f5"),
    ("yellow", "ffff00"),
    ("yellowgreen", "9acd32")
  ]

  /** The value stored under `name` in the first entry of `entries` that has that key. */
  function Find(entries: Table, name: string): (v: Option<string>)
    ensures v.None? <==> forall i :: 0 <= i < |entries| ==> entries[i].0 != name
    ensures v.Some? ==> exists i :: (0 <= i < |entries| && entries[i] == (name, v.value) &&
      forall j :: 0 <= j < i ==> entries[j].0 != name)
  {
    if entries == [] then None
    else if entries[0].0 == name then Some(entries[0].1)
    else Find(entries[1..], name)
  }

  /** `Colourizr.namedColors[name]`, for the own properties of the table:
      present exactly when some entry has that key, and then that entry's value. */
  function Lookup(name: string): (v: Option<string>)
    ensures v.None? <==> forall i :: 0 <= i < |Entries| ==> Entries[i].0 != name
    ensures v.Some? ==> exists i :: 0 <= i < |Entries| && Entries[i] == (name, v.value)
  {
    Find(Entries, name)
  }

  /** A key found in a prefix is found there whatever follows. */
  lemma {:induction false} FindPrefix(a: Table, b: Table, name: string)
    requires Find(a, name).Some?
    ensures Find(a + b, name) == Find(a, name)
  {
    if a[0].0 != name {
      assert (a + b)[1..] == a[1..] + b;
      FindPrefix(a[1..], b, name);
    }
  }

  /** Joining well-formed parts gives a well-formed table. */
  lemma {:induction false} ConcatWellFormed(parts: seq<Table>)
    requires forall k :: 0 <= k < |parts| ==> WellFormed(parts[k])
    ensures WellFormed(Concat(parts))
  {
    if parts != [] {
      ConcatWellFormed(parts[1..]);
    }
  }

  lemma Part0Keys()
    ensures Keyed(Part0)
  {
  }

  lemma Part0Values()
    ensures Valued(Part0)
  {
  }

  lemma Part1Keys()
    ensures Keyed(Part1)
  {
  }

  lemma Part1Values()
    ensures Valued(Part1)
  {
  }

  lemma Part2Keys()
    ensures Keyed(Part2)
  {
  }

  lemma Part2Values()
    ensures Valued(Part2)
  {
  }

  lemma Part3Keys()
    ensures Keyed(Part3)
  {
  }

  lemma Part3Values()
    ensures Valued(Part3)
  {
  }

  lemma Part4Keys()
    ensures Keyed(Part4)
  {
  }

  lemma Part4Values()
    ensures Valued(Part4)
  {
  }

  lemma Part5Keys()
    ensures Keyed(Part5)
  {
  }

  lemma Part5Values()
    ensures Valued(Part5)
  {
  }

  lemma Part6Keys()
    ensures Keyed(Part6)
  {
  }

  lemma Part6Values()
    ensures Valued(Part6)
  {
  }

  lemma Part7Keys()
    ensures Keyed(Part7)
  {
  }

  lemma Part7Values()
    ensures Valued(Part7)
  {
  }

  lemma Part8Keys()
    ensures Keyed(Part8)
  {
  }

  lemma Part8Values()
    ensures Valued(Part8)
  {
  }

  lemma Part9Keys()
    ensures Keyed(Part9)
  {
  }

  lemma Part9Values()
    ensures Valued(Part9)
  {
  }

  lemma Part10Keys()
    ensures Keyed(Part10)
  {
  }

  lemma Part10Values()
    ensures Valued(Part10)
  {
  }

  lemma Part11Keys()
    ensures Keyed(Part11)
  {
  }

  lemma Part11Values()
    ensures Valued(Part11)
  {
  }

  lemma Part12Keys()
    ensures Keyed(Part12)
  {
  }

  lemma Part12Values()
    ensures Valued(Part12)
  {
  }

  lemma Part13Keys()
    ensures Keyed(Part13)
  {
  }

  lemma Part13Values()
    ensures Valued(Part13)
  {
  }

  lemma Part14Keys()
    ensures Keyed(Part14)
  {
  }

  lemma Part14Values()
    ensures Valued(Part14)
  {
  }

  lemma Part15Keys()
    ensures Keyed(Part15)
  {
  }

  lemma Part15Values()
    ensures Valued(Part15)
  {
  }

  lemma Part16Keys()
    ensures Keyed(Part16)
  {
  }

  lemma Part16Values()
    ensures Valued(Part16)
  {
  }

  lemma Part17Keys()
    ensures Keyed(Part17)
  {
  }

  lemma Part17Values()
    ensures Valued(Part17)
  {
  }

  lemma Part18Keys()
    ensures Keyed(Part18)
  {
  }

  lemma Part18Values()
    ensures Valued(Part18)
  {
  }

  lemma Part19Keys()
    ensures Keyed(Part19)
  {
  }

  lemma Part19Values()
    ensures Valued(Part19)
  {
  }

  lemma Part20Keys()
    ensures Keyed(Part20)
  {
  }

  lemma Part20Values()
    ensures Valued(Part20)
  {
  }

  /** Every key of the table is a word of at least three lower-case letters
      and every value is six lower-case hex digits. */
  lemma TableWellFormed()
    ensures forall i :: 0 <= i < |Entries| ==> IsKey(Entries[i].0) && IsValue(Entries[i].1)
  {
    Part0Keys();
    Part0Values();
    Part1Keys();
    Part1Values();
    Part2Keys();
    Part2Values();
    Part3Keys();
    Part3Values();
    Part4Keys();
    Part4Values();
    Part5Keys();
    Part5Values();
    Part6Keys();
    Part6Values();
    Part7Keys();
    Part7Values();
    Part8Keys();
    Part8Values();
    Part9Keys();
    Part9Values();
    Part10Keys();
    Part10Values();
    Part11Keys();
    Part11Values();
    Part12Keys();
    Part12Values();
    Part13Keys();
    Part13Values();
    Part14Keys();
    Part14Values();
    Part15Keys();
    Part15Values();
    Part16Keys();
    Part16Values();
    Part17Keys();
    Part17Values();
    Part18Keys();
    Part18Values();
    Part19Keys();
    Part19Values();
    Part20Keys();
    Part20Values();
    ConcatWellFormed(Parts);
  }

  /** Every value of the table parses as a colour whose channels are bytes. */
  lemma ValuesAreColours(i: int)
    requires 0 <= i < |Entries|
    ensures var c := Hex2RGB(Entries[i].1);
      c.Some? && c.value.r.Int? && c.value.g.Int? && c.value.b.Int? &&
      0 <= c.value.r.v < 256 && 0 <= c.value.g.v < 256 && 0 <= c.value.b.v < 256
  {
    TableWellFormed();
    var v := Entries[i].1;
    assert v[0] != '#';
    assert StripHash(v) == v;
    assert AllHexDigits(v) by {
      assert forall k :: 0 <= k < 6 ==> IsLowerHexDigit(v[k]);
    }
    ComponentsAreBytes(v);
  }

  /** A key absent from a prefix is looked up in what follows. */
  lemma {:induction false} FindAfter(a: Table, b: Table, name: string)
    requires Find(a, name).None?
    ensures Find(a + b, name) == Find(b, name)
  {
    if a == [] {
      assert a + b == b;
    } else {
      assert (a + b)[0] == a[0];
      assert (a + b)[1..] == a[1..] + b;
      FindAfter(a[1..], b, name);
    }
  }

  lemma ConcatSplit(ps: seq<Table>)
    requires |ps| >= 2
    ensures Concat(ps) == ps[0] + (ps[1] + Concat(ps[2..]))
  {
    assert ps[1..][1..] == ps[2..];
  }

  lemma BlueNotInFirstPart()
    ensures Find(Part0, "blue") == None
  {
  }

  lemma BlueInSecondPart()
    ensures Find(Part1, "blue") == Some("0000ff")
  {
  }

  /** A string with a character other than a lower-case letter is not a name
      of the table. */
  lemma NotAName(s: string, p: nat)
    requires p < |s| && !('a' <= s[p] <= 'z')
    ensures Lookup(s) == None
  {
    TableWellFormed();
    forall i | 0 <= i < |Entries|
      ensures Entries[i].0 != s
    {
      if p < |Entries[i].0| {
        assert Entries[i].0[p] in Entries[i].0;
      }
    }
  }

  /** The entry the documentation constructs blue from. */
  lemma BlueEntry()
    ensures Lookup("blue") == Some("0000ff")
  {
    BlueNotInFirstPart();
    BlueInSecondPart();
    ConcatSplit(Parts);
    FindAfter(Part0, Part1 + Concat(Parts[2..]), "blue");
    FindPrefix(Part1, Concat(Parts[2..]), "blue");
  }

  /** The key of the first entry of `entries` whose value is `value`: what a
      `for...in` walk that returns at the first equal value finds. */
  function KeyOf(entries: Table, value: string): (k: Option<string>)
    ensures k.None? <==> forall i :: 0 <= i < |entries| ==> entries[i].1 != value
    ensures k.Some? ==> exists i :: (0 <= i < |entries| && entries[i] == (k.value, value) &&
      forall j :: 0 <= j < i ==> entries[j].1 != value)
  {
    if entries == [] then None
    else if entries[0].1 == value then Some(entries[0].0)
    else KeyOf(entries[1..], value)
  }

  /** The first name of the table whose value is `value`. */
  function NameOf(value: string): (k: Option<string>)
    ensures k.None? <==> forall i :: 0 <= i < |Entries| ==> Entries[i].1 != value
    ensures k.Some? ==> exists i :: (0 <= i < |Entries| && Entries[i] == (k.value, value) &&
      forall j :: 0 <= j < i ==> Entries[j].1 != value)
  {
    KeyOf(Entries, value)
  }

  /** No value of the table starts with `#`, so no text that does is the value
      of any name. */
  lemma NoValueHasHash(h: string)
    requires |h| > 0 && h[0] == '#'
    ensures NameOf(h) == None
  {
    TableWellFormed();
    forall i | 0 <= i < |Entries|
      ensures Entries[i].1 != h
    {
      assert IsLowerHexDigit(Entries[i].1[0]);
    }
  }
}
