/** The CSS functional notation the constructor reads: the prefix test
    `/^((hsl)|(rgb))(a?)\(/`, the two component expressions it runs on the
    rest of the string, and `Number()` of the alpha field.

    Each component expression is a sequence of greedy pieces where a shorter
    choice can never let the rest match (a digit run is always followed by
    white space, `,` or `%`, never by another digit), so a backtracking match
    at a given position is the deterministic greedy scan written here, and
    `exec` returns the match at the leftmost position where that scan
    succeeds. */
module Notation {
  import opened Js

  /** Which notation a prefix names, and whether it carries an `a`. */
  datatype Prefix = Prefix(isRgb: bool, hasAlpha: bool)

  /** `/^((hsl)|(rgb))(a?)\(/.exec(s)`: `isRgb` is group 3 being set,
      `hasAlpha` is `!!g[4]`. */
  function MatchPrefix(s: string): (m: Option<Prefix>)
    ensures m.Some? <==>
      (|s| >= 4 && (s[..4] == "rgb(" || s[..4] == "hsl(")) ||
      (|s| >= 5 && (s[..5] == "rgba(" || s[..5] == "hsla("))
    ensures m.Some? ==> (m.value.isRgb <==> s[0] == 'r')
    ensures m.Some? ==> (m.value.hasAlpha <==> s[3] == 'a')
  {
    if |s| >= 4 && (s[..3] == "rgb" || s[..3] == "hsl") then
      if s[3] == '(' then Some(Prefix(s[0] == 'r', false))
      else if |s| >= 5 && s[3] == 'a' && s[4] == '(' then Some(Prefix(s[0] == 'r', true))
      else None
    else None
  }

  /** One of the four prefixes the constructor recognises, with the groups
      it sets. */
  predicate IsPrefixText(pre: string, p: Prefix) {
    (pre == "rgb(" && p == Prefix(true, false)) || (pre == "rgba(" && p == Prefix(true, true)) ||
    (pre == "hsl(" && p == Prefix(false, false)) || (pre == "hsla(" && p == Prefix(false, true))
  }

  /** A recognised prefix is matched whatever follows it; the text after
      its first four characters is its `(`, if any, and the rest. */
  lemma PrefixMatched(pre: string, t: string, p: Prefix)
    requires IsPrefixText(pre, p)
    ensures MatchPrefix(pre + t) == Some(p)
    ensures (pre + t)[4..] == pre[4..] + t
    ensures NoCapitals(pre) && (pre + t)[|pre| - 1] == '('
  {
    var s := pre + t;
    assert s[..|pre|] == pre;
    assert s[..3] == pre[..3];
    assert s[4..] == pre[4..] + t;
  }

  /** A text that starts with neither `r` nor `h` has no prefix. */
  lemma NoPrefix(s: string)
    requires |s| > 0 && s[0] != 'r' && s[0] != 'h'
    ensures MatchPrefix(s).None?
  {
    if |s| >= 4 {
      assert s[..4][0] == s[0];
    }
    if |s| >= 5 {
      assert s[..5][0] == s[0];
    }
  }

  /** The groups of a component match: three digit runs and the optional alpha text. */
  datatype Groups = Groups(c1: string, c2: string, c3: string, alpha: Option<string>)

  /** A character of the class `[0-9\.]`. */
  predicate IsAlphaChar(c: char) {
    IsDigit(c) || c == '.'
  }

  /** The end of the run of characters satisfying `\s*` from position i. */
  function SkipSpaces(s: string, i: nat): (j: nat)
    requires i <= |s|
    ensures i <= j <= |s|
    ensures forall k :: i <= k < j ==> IsSpace(s[k])
    ensures j < |s| ==> !IsSpace(s[j])
    decreases |s| - i
  {
    if i < |s| && IsSpace(s[i]) then SkipSpaces(s, i + 1) else i
  }

  /** The end of the run of decimal digits from position i. */
  function SkipDigits(s: string, i: nat): (j: nat)
    requires i <= |s|
    ensures i <= j <= |s|
    ensures forall k :: i <= k < j ==> IsDigit(s[k])
    ensures j < |s| ==> !IsDigit(s[j])
    decreases |s| - i
  {
    if i < |s| && IsDigit(s[i]) then SkipDigits(s, i + 1) else i
  }

  /** The end of the run of `[0-9\.]` characters from position i. */
  function SkipAlphaChars(s: string, i: nat): (j: nat)
    requires i <= |s|
    ensures i <= j <= |s|
    ensures forall k :: i <= k < j ==> IsAlphaChar(s[k])
    ensures j < |s| ==> !IsAlphaChar(s[j])
    decreases |s| - i
  {
    if i < |s| && IsAlphaChar(s[i]) then SkipAlphaChars(s, i + 1) else i
  }

  /** `\s*([0-9]+)`: the digit run after optional white space, and where it ends. */
  function Number(s: string, i: nat): (m: Option<(string, nat)>)
    requires i <= |s|
    ensures m.Some? ==> i < m.value.1 <= |s| && |m.value.0| > 0 && AllDigits(m.value.0)
  {
    var p := SkipSpaces(s, i);
    var q := SkipDigits(s, p);
    if q == p then None else Some((s[p..q], q))
  }

  /** `\s*c`: position i after optional white space holds the character c. */
  function Literal(s: string, i: nat, c: char): (m: Option<nat>)
    requires i <= |s|
    ensures m.Some? ==> i < m.value <= |s| && s[m.value - 1] == c
  {
    var p := SkipSpaces(s, i);
    if p < |s| && s[p] == c then Some(p + 1) else None
  }

  /** `\s*,\s*([0-9]+)`, followed by `\s*%` when `percent` holds: one
      later field of the component expression. */
  function Field(s: string, i: nat, percent: bool): (m: Option<(string, nat)>)
    requires i <= |s|
    ensures m.Some? ==> i < m.value.1 <= |s| && |m.value.0| > 0 && AllDigits(m.value.0)
  {
    match Literal(s, i, ',')
    case None => None
    case Some(p) =>
      match Number(s, p)
      case None => None
      case Some((c, q)) =>
        if !percent then Some((c, q))
        else
          match Literal(s, q, '%')
          case None => None
          case Some(e) => Some((c, e))
  }

  /** `\s*(,\s*([0-9\.]+))?`: the alpha text when the group matches. */
  function AlphaGroup(s: string, i: nat): (a: Option<string>)
    requires i <= |s|
    ensures a.Some? ==> |a.value| > 0 && forall k :: 0 <= k < |a.value| ==> IsAlphaChar(a.value[k])
  {
    match Literal(s, i, ',')
    case None => None
    case Some(p) =>
      var q := SkipSpaces(s, p);
      var e := SkipAlphaChars(s, q);
      if e == q then None else Some(s[q..e])
  }

  /** The component expression tried at position i: for `percent == false`
      `\s*([0-9]+)\s*,\s*([0-9]+)\s*,\s*([0-9]+)\s*(,\s*([0-9\.]+))?`, and for
      `percent == true` the same with `\s*%` after the second and third run. */
  function MatchAt(s: string, i: nat, percent: bool): (m: Option<Groups>)
    requires i <= |s|
    ensures m.Some? ==> |m.value.c1| > 0 && AllDigits(m.value.c1)
    ensures m.Some? ==> |m.value.c2| > 0 && AllDigits(m.value.c2)
    ensures m.Some? ==> |m.value.c3| > 0 && AllDigits(m.value.c3)
    ensures i < |s| && !IsSpace(s[i]) && !IsDigit(s[i]) ==> m.None?
    ensures m.Some? && m.value.alpha.Some? ==> IsAlphaText(m.value.alpha.value)
  {
    match Number(s, i)
    case None => None
    case Some((c1, p)) => Rest(s, p, c1, percent)
  }

  /** The component expression after its first digit run c1, from position p. */
  function Rest(s: string, p: nat, c1: string, percent: bool): (m: Option<Groups>)
    requires p <= |s|
    ensures m.Some? ==> m.value.c1 == c1
    ensures m.Some? ==> |m.value.c2| > 0 && AllDigits(m.value.c2)
    ensures m.Some? ==> |m.value.c3| > 0 && AllDigits(m.value.c3)
    ensures m.Some? && m.value.alpha.Some? ==> IsAlphaText(m.value.alpha.value)
  {
    match Field(s, p, percent)
    case None => None
    case Some((c2, q)) =>
      match Field(s, q, percent)
      case None => None
      case Some((c3, e)) => Some(Groups(c1, c2, c3, AlphaGroup(s, e)))
  }

  /** The outcome of trying the component expression at each position of s. */
  function Attempts(s: string, percent: bool): (rs: seq<Option<Groups>>)
    ensures |rs| == |s| + 1
    ensures forall j :: 0 <= j <= |s| ==> rs[j] == MatchAt(s, j, percent)
  {
    seq(|s| + 1, j requires 0 <= j <= |s| => MatchAt(s, j, percent))
  }

  /** The first index at or after i whose attempt succeeded. */
  function Leftmost(rs: seq<Option<Groups>>, i: nat): (p: Option<nat>)
    requires i <= |rs|
    ensures p.Some? ==> i <= p.value < |rs| && rs[p.value].Some?
    ensures p.Some? ==> forall j :: i <= j < p.value ==> rs[j].None?
    ensures p.None? ==> forall j :: i <= j < |rs| ==> rs[j].None?
    decreases |rs| - i
  {
    if i == |rs| then None
    else if rs[i].Some? then Some(i)
    else Leftmost(rs, i + 1)
  }

  /** `re.exec(s)` for the component expression: the groups of the match at
      the leftmost position where one exists, or no match (`null`). */
  function Exec(s: string, percent: bool): (m: Option<Groups>)
    ensures m.None? <==> forall j :: 0 <= j <= |s| ==> MatchAt(s, j, percent).None?
    ensures m.Some? ==> exists p :: (0 <= p <= |s| && m == MatchAt(s, p, percent) &&
      forall j :: 0 <= j < p ==> MatchAt(s, j, percent).None?)
    ensures m.Some? ==> AreDigitRuns(m.value.c1, m.value.c2, m.value.c3)
    ensures m.Some? && m.value.alpha.Some? ==> IsAlphaText(m.value.alpha.value)
  {
    var rs := Attempts(s, percent);
    match Leftmost(rs, 0)
    case None => None
    case Some(p) => rs[p]
  }

  /** A digit run d at position i that ends there (end of text or a non-digit). */
  lemma {:induction false} DigitRun(s: string, i: nat, d: string)
    requires i + |d| <= |s| && s[i..i + |d|] == d && AllDigits(d)
    requires i + |d| < |s| ==> !IsDigit(s[i + |d|])
    ensures SkipDigits(s, i) == i + |d|
    decreases |d|
  {
    if d != [] {
      assert s[i] == d[0];
      assert s[i + 1..i + 1 + |d[1..]|] == d[1..];
      DigitRun(s, i + 1, d[1..]);
    }
  }

  /** An alpha run a at position i that ends there. */
  lemma {:induction false} AlphaRun(s: string, i: nat, a: string)
    requires i + |a| <= |s| && s[i..i + |a|] == a
    requires forall k :: 0 <= k < |a| ==> IsAlphaChar(a[k])
    requires i + |a| < |s| ==> !IsAlphaChar(s[i + |a|])
    ensures SkipAlphaChars(s, i) == i + |a|
    decreases |a|
  {
    if a != [] {
      assert s[i] == a[0];
      assert s[i + 1..i + 1 + |a[1..]|] == a[1..];
      AlphaRun(s, i + 1, a[1..]);
    }
  }

  /** Digit run d at position i, directly followed by the character c. */
  lemma NumberThen(s: string, i: nat, d: string, c: char)
    requires |d| > 0 && AllDigits(d) && !IsDigit(c) && !IsSpace(c)
    requires i + |d| < |s| && s[i..i + |d|] == d && s[i + |d|] == c
    ensures Number(s, i) == Some((d, i + |d|))
  {
    assert s[i] == d[0];
    DigitRun(s, i, d);
  }

  /** The character c, not white space, at position i. */
  lemma LiteralAt(s: string, i: nat, c: char)
    requires i < |s| && s[i] == c && !IsSpace(c)
    ensures Literal(s, i, c) == Some(i + 1)
  {
  }

  /** `,` at position i, then the digit run d, then the character c. */
  lemma FieldThen(s: string, i: nat, d: string, c: char)
    requires |d| > 0 && AllDigits(d) && !IsDigit(c) && !IsSpace(c)
    requires i + 1 + |d| < |s| && s[i] == ',' && s[i + 1..i + 1 + |d|] == d && s[i + 1 + |d|] == c
    ensures Field(s, i, false) == Some((d, i + 1 + |d|))
  {
    LiteralAt(s, i, ',');
    NumberThen(s, i + 1, d, c);
  }

  /** Two fields in a row make up the rest of the expression. */
  lemma RestOfFields(s: string, i: nat, j: nat, e: nat, c1: string, g: string, b: string, percent: bool)
    requires i <= |s| && j <= |s|
    requires Field(s, i, percent) == Some((g, j)) && Field(s, j, percent) == Some((b, e))
    ensures Rest(s, i, c1, percent) == Some(Groups(c1, g, b, AlphaGroup(s, e)))
  {
  }

  /** `,g` at position i and `,b` at position j, then the character c: the
      second and third group. */
  lemma RestThen(s: string, i: nat, j: nat, c1: string, g: string, b: string, c: char)
    requires |g| > 0 && AllDigits(g) && |b| > 0 && AllDigits(b) && !IsDigit(c) && !IsSpace(c)
    requires j == i + 1 + |g| && j + 1 + |b| < |s|
    requires s[i] == ',' && s[i + 1..i + 1 + |g|] == g
    requires s[j] == ',' && s[j + 1..j + 1 + |b|] == b && s[j + 1 + |b|] == c
    ensures Rest(s, i, c1, false) == Some(Groups(c1, g, b, AlphaGroup(s, j + 1 + |b|)))
  {
    FieldThen(s, i, g, ',');
    FieldThen(s, j, b, c);
    RestOfFields(s, i, j, j + 1 + |b|, c1, g, b, false);
  }

  /** When the first attempt succeeds, it is the leftmost. */
  lemma LeftmostFirst(rs: seq<Option<Groups>>)
    requires |rs| >= 1 && rs[0].Some?
    ensures Leftmost(rs, 0) == Some(0)
  {
  }

  /** When the first attempt fails and the second succeeds, the second is the leftmost. */
  lemma LeftmostSecond(rs: seq<Option<Groups>>)
    requires |rs| >= 2 && rs[0].None? && rs[1].Some?
    ensures Leftmost(rs, 0) == Some(1)
  {
  }

  /** A text laid out as `r,g,b` from position i0, followed by the character
      c, is matched at i0 with r, g and b as its first three groups. */
  lemma MatchLayout(s: string, i0: nat, r: string, g: string, b: string, i1: nat, i2: nat, e: nat, c: char)
    requires |r| > 0 && AllDigits(r) && |g| > 0 && AllDigits(g) && |b| > 0 && AllDigits(b)
    requires !IsDigit(c) && !IsSpace(c)
    requires i1 == i0 + |r| && i2 == i1 + 1 + |g| && e == i2 + 1 + |b| && e < |s|
    requires s[i0..i1] == r && s[i1] == ','
    requires s[i1 + 1..i1 + 1 + |g|] == g && s[i2] == ','
    requires s[i2 + 1..i2 + 1 + |b|] == b && s[e] == c
    ensures MatchAt(s, i0, false) == Some(Groups(r, g, b, AlphaGroup(s, e)))
  {
    NumberThen(s, i0, r, ',');
    RestThen(s, i1, i2, r, g, b, c);
  }

  /** A text that starts with `(` has no match at position 0. */
  lemma ParenNoMatch(s: string, percent: bool)
    requires |s| > 0 && s[0] == '('
    ensures MatchAt(s, 0, percent).None?
  {
    assert !IsSpace(s[0]) && !IsDigit(s[0]);
  }

  /** The character at position i is `)`: the alpha group is absent. */
  lemma NoAlphaGroup(s: string, i: nat)
    requires i < |s| && s[i] == ')'
    ensures AlphaGroup(s, i) == None
  {
    assert SkipSpaces(s, i) == i;
  }

  /** The alpha group `,a)` at position i. */
  lemma AlphaGroupThen(s: string, i: nat, a: string)
    requires IsAlphaText(a)
    requires i + 1 + |a| < |s| && s[i] == ',' && s[i + 1..i + 1 + |a|] == a && s[i + 1 + |a|] == ')'
    ensures AlphaGroup(s, i) == Some(a)
  {
    LiteralAt(s, i, ',');
    assert s[i + 1] == a[0];
    assert SkipSpaces(s, i + 1) == i + 1;
    AlphaRun(s, i + 1, a);
  }

  /** A non-empty text of digits and dots, as group 5 captures it. */
  predicate IsAlphaText(a: string) {
    |a| > 0 && forall k :: 0 <= k < |a| ==> IsAlphaChar(a[k])
  }

  /** Three non-empty digit runs. */
  predicate AreDigitRuns(r: string, g: string, b: string) {
    |r| > 0 && AllDigits(r) && |g| > 0 && AllDigits(g) && |b| > 0 && AllDigits(b)
  }

  /** What follows the opening of a functional notation as the renderers and
      the documentation write it: `r,g,b)`, or `r,g,b,a)` with an alpha text. */
  function Tail(r: string, g: string, b: string, alpha: Option<string>): string {
    match alpha
    case None => r + "," + g + "," + b + ")"
    case Some(a) => r + "," + g + "," + b + "," + a + ")"
  }

  /** Where the first run of `pre + Tail(r, g, b, alpha)` sits. */
  lemma TailFirst(pre: string, r: string, g: string, b: string, alpha: Option<string>)
    ensures var s := pre + Tail(r, g, b, alpha); var i1 := |pre| + |r|;
      i1 < |s| && s[..|pre|] == pre && s[|pre|..i1] == r && s[i1] == ','
  {
  }

  /** Where the second run of `pre + Tail(r, g, b, alpha)` sits. */
  lemma TailSecond(pre: string, r: string, g: string, b: string, alpha: Option<string>)
    ensures var s := pre + Tail(r, g, b, alpha); var i1 := |pre| + |r|;
      i1 + 1 + |g| < |s| && s[i1 + 1..i1 + 1 + |g|] == g && s[i1 + 1 + |g|] == ','
  {
  }

  /** Where the third run of `pre + Tail(r, g, b, alpha)` sits. */
  lemma TailThird(pre: string, r: string, g: string, b: string, alpha: Option<string>)
    ensures var s := pre + Tail(r, g, b, alpha); var i2 := |pre| + |r| + 1 + |g|;
      i2 + 1 + |b| < |s| && s[i2 + 1..i2 + 1 + |b|] == b
  {
  }

  /** How `pre + Tail(r, g, b, alpha)` ends. */
  lemma TailEnd(pre: string, r: string, g: string, b: string, alpha: Option<string>)
    ensures var s := pre + Tail(r, g, b, alpha); var e := |pre| + |r| + |g| + |b| + 2;
      Ends(s, e, alpha)
  {
    var s := pre + Tail(r, g, b, alpha);
    var e := |pre| + |r| + |g| + |b| + 2;
    if alpha.Some? {
      var a := alpha.value;
      assert s == (pre + r + "," + g + "," + b) + "," + a + ")";
      assert s[e + 1..e + 1 + |a|] == a;
    }
  }

  /** From position e on, s is `)`, or `,a)` for the alpha text a. */
  predicate Ends(s: string, e: nat, alpha: Option<string>) {
    match alpha
    case None => |s| == e + 1 && s[e] == ')'
    case Some(a) => |s| == e + 2 + |a| && s[e] == ',' && s[e + 1..e + 1 + |a|] == a && s[e + 1 + |a|] == ')'
  }

  /** The text s holds `r,g,b` from position i0, then ends as `alpha` says. */
  predicate LaidOut(s: string, i0: nat, r: string, g: string, b: string, alpha: Option<string>) {
    var i1 := i0 + |r|;
    var i2 := i1 + 1 + |g|;
    var e := i2 + 1 + |b|;
    e < |s| && s[i0..i1] == r && s[i1] == ',' && s[i1 + 1..i1 + 1 + |g|] == g && s[i2] == ',' &&
    s[i2 + 1..i2 + 1 + |b|] == b && Ends(s, e, alpha)
  }

  /** A text laid out as `r,g,b)` from position i0 is matched there with no alpha group. */
  lemma MatchPlain(s: string, i0: nat, r: string, g: string, b: string, i1: nat, i2: nat, e: nat)
    requires AreDigitRuns(r, g, b)
    requires i1 == i0 + |r| && i2 == i1 + 1 + |g| && e == i2 + 1 + |b| && e < |s|
    requires s[i0..i1] == r && s[i1] == ',' && s[i1 + 1..i1 + 1 + |g|] == g && s[i2] == ','
    requires s[i2 + 1..i2 + 1 + |b|] == b && s[e] == ')'
    ensures MatchAt(s, i0, false) == Some(Groups(r, g, b, None))
  {
    MatchLayout(s, i0, r, g, b, i1, i2, e, ')');
    NoAlphaGroup(s, e);
  }

  /** A text laid out as `r,g,b,a)` from position i0 is matched there with alpha group a. */
  lemma MatchAlpha(s: string, i0: nat, r: string, g: string, b: string, a: string, i1: nat, i2: nat, e: nat)
    requires AreDigitRuns(r, g, b) && IsAlphaText(a)
    requires i1 == i0 + |r| && i2 == i1 + 1 + |g| && e == i2 + 1 + |b| && e + 1 + |a| < |s|
    requires s[i0..i1] == r && s[i1] == ',' && s[i1 + 1..i1 + 1 + |g|] == g && s[i2] == ','
    requires s[i2 + 1..i2 + 1 + |b|] == b && s[e] == ','
    requires s[e + 1..e + 1 + |a|] == a && s[e + 1 + |a|] == ')'
    ensures MatchAt(s, i0, false) == Some(Groups(r, g, b, Some(a)))
  {
    MatchLayout(s, i0, r, g, b, i1, i2, e, ',');
    AlphaGroupThen(s, e, a);
  }

  /** A text laid out as `r,g,b)` or `r,g,b,a)` from position i0 is matched
      there with the runs and the alpha text as its groups. */
  lemma MatchTail(s: string, i0: nat, r: string, g: string, b: string, alpha: Option<string>)
    requires AreDigitRuns(r, g, b) && (alpha.Some? ==> IsAlphaText(alpha.value))
    requires LaidOut(s, i0, r, g, b, alpha)
    ensures MatchAt(s, i0, false) == Some(Groups(r, g, b, alpha))
  {
    var i1 := i0 + |r|;
    var i2 := i1 + 1 + |g|;
    var e := i2 + 1 + |b|;
    match alpha
    case None => MatchPlain(s, i0, r, g, b, i1, i2, e);
    case Some(a) => MatchAlpha(s, i0, r, g, b, a, i1, i2, e);
  }

  /** A match at position 0, or at position 1 behind a `(`, is what `exec` returns. */
  lemma ExecAtStart(s: string, i0: nat, m: Groups, percent: bool)
    requires i0 == 0 || (i0 == 1 && |s| > 1 && s[0] == '(')
    requires i0 <= |s| && MatchAt(s, i0, percent) == Some(m)
    ensures Exec(s, percent) == Some(m)
  {
    var rs := Attempts(s, percent);
    if i0 == 0 {
      assert rs[0] == MatchAt(s, 0, percent);
      LeftmostFirst(rs);
    } else {
      ParenNoMatch(s, percent);
      assert rs[0] == MatchAt(s, 0, percent) && rs[1] == MatchAt(s, 1, percent);
      LeftmostSecond(rs);
    }
  }

  /** `exec` on a tail, bare (after `rgb(`) or behind a `(` (after `rgba`),
      finds the runs and the alpha text: the `(` is skipped. */
  lemma ExecTail(pre: string, r: string, g: string, b: string, alpha: Option<string>)
    requires pre == "" || pre == "("
    requires AreDigitRuns(r, g, b) && (alpha.Some? ==> IsAlphaText(alpha.value))
    ensures Exec(pre + Tail(r, g, b, alpha), false) == Some(Groups(r, g, b, alpha))
  {
    var s := pre + Tail(r, g, b, alpha);
    TailFirst(pre, r, g, b, alpha);
    TailSecond(pre, r, g, b, alpha);
    TailThird(pre, r, g, b, alpha);
    TailEnd(pre, r, g, b, alpha);
    assert LaidOut(s, |pre|, r, g, b, alpha);
    MatchTail(s, |pre|, r, g, b, alpha);
    ExecAtStart(s, |pre|, Groups(r, g, b, alpha), false);
  }

  /** `,` at position i, then the digit run d, then `%`: a field of the
      percent expression. */
  lemma PercentFieldThen(s: string, i: nat, d: string, j: nat)
    requires |d| > 0 && AllDigits(d) && j == i + 2 + |d|
    requires i + 1 + |d| < |s| && s[i] == ',' && s[i + 1..i + 1 + |d|] == d && s[i + 1 + |d|] == '%'
    ensures Field(s, i, true) == Some((d, j))
  {
    LiteralAt(s, i, ',');
    NumberThen(s, i + 1, d, '%');
    LiteralAt(s, i + 1 + |d|, '%');
  }

  /** `,g%` at position i and `,b%` at position j: the second and third group
      of the percent expression. */
  lemma PercentRestThen(s: string, i: nat, j: nat, e: nat, c1: string, g: string, b: string)
    requires |g| > 0 && AllDigits(g) && |b| > 0 && AllDigits(b)
    requires j == i + 2 + |g| && e == j + 2 + |b| && e <= |s|
    requires s[i] == ',' && s[i + 1..i + 1 + |g|] == g && s[i + 1 + |g|] == '%'
    requires s[j] == ',' && s[j + 1..j + 1 + |b|] == b && s[j + 1 + |b|] == '%'
    ensures Rest(s, i, c1, true) == Some(Groups(c1, g, b, AlphaGroup(s, e)))
  {
    PercentFieldThen(s, i, g, j);
    PercentFieldThen(s, j, b, e);
    RestOfFields(s, i, j, e, c1, g, b, true);
  }

  /** A text laid out as `h,s%,l%` from position i0 is matched there by the
      percent expression with h, s and l as its first three groups. */
  lemma PercentMatchLayout(s: string, i0: nat, h: string, sat: string, l: string, i1: nat, i2: nat, e: nat)
    requires AreDigitRuns(h, sat, l)
    requires i1 == i0 + |h| && i2 == i1 + 2 + |sat| && e == i2 + 2 + |l| && e <= |s|
    requires s[i0..i1] == h && s[i1] == ','
    requires s[i1 + 1..i1 + 1 + |sat|] == sat && s[i1 + 1 + |sat|] == '%' && s[i2] == ','
    requires s[i2 + 1..i2 + 1 + |l|] == l && s[i2 + 1 + |l|] == '%'
    ensures MatchAt(s, i0, true) == Some(Groups(h, sat, l, AlphaGroup(s, e)))
  {
    NumberThen(s, i0, h, ',');
    PercentRestThen(s, i1, i2, e, h, sat, l);
  }

  /** What follows the opening of an `hsl` notation as the renderers and the
      documentation write it: `h,s%,l%)`, or `h,s%,l%,a)` with an alpha text. */
  function PercentTail(h: string, sat: string, l: string, alpha: Option<string>): string {
    match alpha
    case None => h + "," + sat + "%," + l + "%" + ")"
    case Some(a) => h + "," + sat + "%," + l + "%" + "," + a + ")"
  }

  /** Where the first run of `pre + PercentTail(h, sat, l, alpha)` sits. */
  lemma PercentTailFirst(pre: string, h: string, sat: string, l: string, alpha: Option<string>)
    ensures var s := pre + PercentTail(h, sat, l, alpha); var i1 := |pre| + |h|;
      i1 < |s| && s[..|pre|] == pre && s[|pre|..i1] == h && s[i1] == ','
  {
  }

  /** Where the second run of `pre + PercentTail(h, sat, l, alpha)` sits. */
  lemma PercentTailSecond(pre: string, h: string, sat: string, l: string, alpha: Option<string>)
    ensures var s := pre + PercentTail(h, sat, l, alpha); var i1 := |pre| + |h|;
      i1 + 2 + |sat| < |s| && s[i1 + 1..i1 + 1 + |sat|] == sat &&
      s[i1 + 1 + |sat|] == '%' && s[i1 + 2 + |sat|] == ','
  {
  }

  /** Where the third run of `pre + PercentTail(h, sat, l, alpha)` sits. */
  lemma PercentTailThird(pre: string, h: string, sat: string, l: string, alpha: Option<string>)
    ensures var s := pre + PercentTail(h, sat, l, alpha); var i2 := |pre| + |h| + 2 + |sat|;
      i2 + 1 + |l| < |s| && s[i2 + 1..i2 + 1 + |l|] == l && s[i2 + 1 + |l|] == '%'
  {
  }

  /** How `pre + PercentTail(h, sat, l, alpha)` ends. */
  lemma PercentTailEnd(pre: string, h: string, sat: string, l: string, alpha: Option<string>)
    ensures var s := pre + PercentTail(h, sat, l, alpha); var e := |pre| + |h| + |sat| + |l| + 4;
      Ends(s, e, alpha)
  {
    var s := pre + PercentTail(h, sat, l, alpha);
    var e := |pre| + |h| + |sat| + |l| + 4;
    if alpha.Some? {
      var a := alpha.value;
      assert s == (pre + h + "," + sat + "%," + l + "%") + "," + a + ")";
      assert s[e + 1..e + 1 + |a|] == a;
    }
  }

  /** The text s holds `h,s%,l%` from position i0, then ends as `alpha` says. */
  predicate PercentLaidOut(s: string, i0: nat, h: string, sat: string, l: string, alpha: Option<string>) {
    var i1 := i0 + |h|;
    var i2 := i1 + 2 + |sat|;
    var e := i2 + 2 + |l|;
    e <= |s| && s[i0..i1] == h && s[i1] == ',' && s[i1 + 1..i1 + 1 + |sat|] == sat &&
    s[i1 + 1 + |sat|] == '%' && s[i2] == ',' && s[i2 + 1..i2 + 1 + |l|] == l &&
    s[i2 + 1 + |l|] == '%' && Ends(s, e, alpha)
  }

  /** A text laid out as `h,s%,l%)` from position i0: no alpha group. */
  lemma PercentMatchPlain(s: string, i0: nat, h: string, sat: string, l: string, i1: nat, i2: nat, e: nat)
    requires AreDigitRuns(h, sat, l)
    requires i1 == i0 + |h| && i2 == i1 + 2 + |sat| && e == i2 + 2 + |l| && e < |s|
    requires s[i0..i1] == h && s[i1] == ','
    requires s[i1 + 1..i1 + 1 + |sat|] == sat && s[i1 + 1 + |sat|] == '%' && s[i2] == ','
    requires s[i2 + 1..i2 + 1 + |l|] == l && s[i2 + 1 + |l|] == '%' && s[e] == ')'
    ensures MatchAt(s, i0, true) == Some(Groups(h, sat, l, None))
  {
    PercentMatchLayout(s, i0, h, sat, l, i1, i2, e);
    NoAlphaGroup(s, e);
  }

  /** A text laid out as `h,s%,l%,a)` from position i0: alpha group a. */
  lemma PercentMatchAlpha(s: string, i0: nat, h: string, sat: string, l: string, a: string, i1: nat, i2: nat, e: nat)
    requires AreDigitRuns(h, sat, l) && IsAlphaText(a)
    requires i1 == i0 + |h| && i2 == i1 + 2 + |sat| && e == i2 + 2 + |l| && e + 1 + |a| < |s|
    requires s[i0..i1] == h && s[i1] == ','
    requires s[i1 + 1..i1 + 1 + |sat|] == sat && s[i1 + 1 + |sat|] == '%' && s[i2] == ','
    requires s[i2 + 1..i2 + 1 + |l|] == l && s[i2 + 1 + |l|] == '%' && s[e] == ','
    requires s[e + 1..e + 1 + |a|] == a && s[e + 1 + |a|] == ')'
    ensures MatchAt(s, i0, true) == Some(Groups(h, sat, l, Some(a)))
  {
    PercentMatchLayout(s, i0, h, sat, l, i1, i2, e);
    AlphaGroupThen(s, e, a);
  }

  /** A text laid out as `h,s%,l%)` or `h,s%,l%,a)` from position i0 is
      matched there by the percent expression. */
  lemma PercentMatchTail(s: string, i0: nat, h: string, sat: string, l: string, alpha: Option<string>)
    requires AreDigitRuns(h, sat, l) && (alpha.Some? ==> IsAlphaText(alpha.value))
    requires PercentLaidOut(s, i0, h, sat, l, alpha)
    ensures MatchAt(s, i0, true) == Some(Groups(h, sat, l, alpha))
  {
    var i1 := i0 + |h|;
    var i2 := i1 + 2 + |sat|;
    var e := i2 + 2 + |l|;
    match alpha
    case None => PercentMatchPlain(s, i0, h, sat, l, i1, i2, e);
    case Some(a) => PercentMatchAlpha(s, i0, h, sat, l, a, i1, i2, e);
  }

  /** `exec` of the percent expression on a tail, bare or behind a `(`,
      finds the runs and the alpha text. */
  lemma ExecPercentTail(pre: string, h: string, sat: string, l: string, alpha: Option<string>)
    requires pre == "" || pre == "("
    requires AreDigitRuns(h, sat, l) && (alpha.Some? ==> IsAlphaText(alpha.value))
    ensures Exec(pre + PercentTail(h, sat, l, alpha), true) == Some(Groups(h, sat, l, alpha))
  {
    var s := pre + PercentTail(h, sat, l, alpha);
    PercentTailFirst(pre, h, sat, l, alpha);
    PercentTailSecond(pre, h, sat, l, alpha);
    PercentTailThird(pre, h, sat, l, alpha);
    PercentTailEnd(pre, h, sat, l, alpha);
    assert PercentLaidOut(s, |pre|, h, sat, l, alpha);
    PercentMatchTail(s, |pre|, h, sat, l, alpha);
    ExecAtStart(s, |pre|, Groups(h, sat, l, alpha), true);
  }

  /** A body with no match: `exec` returns `null`. */
  lemma NoDigitsNoMatch(s: string)
    requires forall k :: 0 <= k < |s| ==> !IsDigit(s[k])
    ensures Exec(s, false) == None && Exec(s, true) == None
  {
    forall j | 0 <= j <= |s|
      ensures MatchAt(s, j, false).None? && MatchAt(s, j, true).None?
    {
      var p := SkipSpaces(s, j);
      assert SkipDigits(s, p) == p;
    }
  }

  /** An exact decimal num / 10^scale: the value of `Number(t)` for a text of
      digits and dots that is a decimal literal. */
  datatype Decimal = Decimal(num: nat, scale: nat)

  function Pow10(k: nat): (p: nat)
    ensures p >= 1
  {
    if k == 0 then 1 else 10 * Pow10(k - 1)
  }

  /** The index of the first `.` in t, or |t| when there is none. */
  function DotIndex(t: string): (p: nat)
    ensures p <= |t| && forall k :: 0 <= k < p ==> t[k] != '.'
    ensures p < |t| ==> t[p] == '.'
  {
    if t == [] then 0
    else if t[0] == '.' then 0
    else 1 + DotIndex(t[1..])
  }

  /** `Number(t)` for a text of digits and dots: digits with at most one dot
      and at least one digit, or the empty text, are a number; anything else
      (`.`, `1.2.3`) is NaN. */
  function DecimalOf(t: string): (d: Option<Decimal>)
    requires forall k :: 0 <= k < |t| ==> IsAlphaChar(t[k])
    ensures AllDigits(t) ==> d == Some(Decimal(DigitsValue(t), 0))
  {
    var p := DotIndex(t);
    if p == |t| then
      assert forall k :: 0 <= k < |t| ==> t[k] != '.' && IsAlphaChar(t[k]);
      Some(Decimal(DigitsValue(t), 0))
    else
      var whole, frac := t[..p], t[p + 1..];
      assert forall k :: 0 <= k < p ==> whole[k] == t[k] && t[k] != '.' && IsAlphaChar(t[k]);
      if AllDigits(frac) && |whole| + |frac| > 0 then Some(Decimal(DigitsValue(whole + frac), |frac|))
      else None
  }

  /** `(Number(g[5]) * 255)|0` over exact decimals, for the alpha text of a
      match: no text (`undefined`) and NaN give 0. */
  function AlphaOf(text: Option<string>): (a: int)
    requires text.Some? ==> forall k :: 0 <= k < |text.value| ==> IsAlphaChar(text.value[k])
    ensures text.None? ==> a == 0
  {
    match text
    case None => 0
    case Some(t) =>
      match DecimalOf(t)
      case None => 0
      case Some(d) => ToInt32(d.num * 255 / Pow10(d.scale))
  }

  /** x / p is at most m when x <= p, scaled by m. */
  lemma QuotientAtMost(x: nat, p: nat, m: nat)
    requires p >= 1 && x <= p
    ensures 0 <= x * m / p <= m
  {
    assert x * m <= p * m by {
      assert (p - x) * m >= 0;
    }
  }

  /** An alpha between 0 and 1 gives a byte: `0` gives 0 and `1` gives 255. */
  lemma AlphaInUnitRange(t: string)
    requires forall k :: 0 <= k < |t| ==> IsAlphaChar(t[k])
    requires DecimalOf(t).Some? && DecimalOf(t).value.num <= Pow10(DecimalOf(t).value.scale)
    ensures 0 <= AlphaOf(Some(t)) <= 255
  {
    var d := DecimalOf(t).value;
    QuotientAtMost(d.num, Pow10(d.scale), 255);
  }

  /** The alpha texts of the documentation: `1` and `1.0` give 255. */
  lemma AlphaOne()
    ensures AlphaOf(Some("1")) == 255
    ensures AlphaOf(Some("1.0")) == 255
  {
    assert DotIndex("1") == 1;
    assert DigitsValue("1") == 1;
    assert DotIndex("1.0") == 1;
    assert "1.0"[..1] + "1.0"[2..] == "10";
    assert DigitsValue("10") == 10;
  }

  /** A dot with no digit, and two dots, are NaN and give alpha 0. */
  lemma AlphaNaN()
    ensures AlphaOf(Some(".")) == 0
    ensures AlphaOf(Some("1.2.3")) == 0
  {
    assert DotIndex(".") == 0;
    assert DotIndex("1.2.3") == 1;
    assert "1.2.3"[2..] == "2.3";
    assert !AllDigits("2.3") by {
      assert !IsDigit("2.3"[1]);
    }
  }

  /** The alpha text `0` gives alpha 0. */
  lemma AlphaZero()
    ensures AlphaOf(Some("0")) == 0
  {
    assert DotIndex("0") == 1;
    assert DigitsValue("0") == 0;
  }
}
