/**
 * `parseColor` of the liquid-metal components: a CSS-like colour string becomes four channels
 * in [0, 1] (red, green, blue, alpha). Two forms are understood: `#rgb`, `#rrggbb`,
 * `#rrggbbaa`, and the first `rgb(r, g, b)` / `rgba(r, g, b, a)` found anywhere in the string;
 * everything else is mid grey. The text component knows only the `#` forms.
 *
 * The channels are JavaScript numbers produced by `parseInt`/`parseFloat`, so NaN is a value
 * here: `#zz0` really yields a NaN red channel.
 */
module ColorParsing {
  import opened Wrappers
  import opened JsText

  /** A JavaScript number as these functions produce it: a finite value, or NaN. */
  datatype JsNum = Num(value: real) | NaN

  /** `n / 255`; NaN stays NaN. */
  function Div255(n: JsNum): (r: JsNum)
    ensures r.NaN? <==> n.NaN?
    ensures r.Num? ==> r.value * 255.0 == n.value
  {
    if n.NaN? then NaN else Num(n.value / 255.0)
  }

  /** The tuple `[r, g, b, a]` that `parseColor` returns. */
  datatype Rgba = Rgba(r: JsNum, g: JsNum, b: JsNum, a: JsNum)

  /** The fallback `[0.5, 0.5, 0.5, 1]`. */
  const GREY := Rgba(Num(0.5), Num(0.5), Num(0.5), Num(1.0))

  // ---------------------------------------------------------------------------------------
  // parseInt (section 19.2.5 of ECMAScript 2023) for the two radixes the code uses

  predicate IsHexDigit(c: char) {
    IsDigit(c) || 'a' <= c <= 'f' || 'A' <= c <= 'F'
  }

  /** The value of a hexadecimal digit; any other character counts 0 (it is never read). */
  function HexDigitValue(c: char): nat {
    if IsDigit(c) then c as int - '0' as int
    else if 'a' <= c <= 'f' then c as int - 'a' as int + 10
    else if 'A' <= c <= 'F' then c as int - 'A' as int + 10
    else 0
  }

  /** `parseInt(s, 16)` or `parseInt(s)` with the radix left undefined. */
  datatype Radix = Hex | Unspecified

  /** A digit of base 10 or base 16. */
  predicate IsRadixDigit(c: char, base: nat) {
    if base == 16 then IsHexDigit(c) else IsDigit(c)
  }

  /** Length of the longest prefix of `s` made of digits of `base` (see DigitPrefixLengthSpec). */
  function DigitPrefixLength(s: string, base: nat): (n: nat)
    ensures n <= |s|
    decreases |s|
  {
    if s != [] && IsRadixDigit(s[0], base) then 1 + DigitPrefixLength(s[1..], base) else 0
  }

  /** The prefix is made of digits and is the longest such prefix. */
  lemma {:induction false} DigitPrefixLengthSpec(s: string, base: nat)
    ensures forall k :: 0 <= k < DigitPrefixLength(s, base) ==> IsRadixDigit(s[k], base)
    ensures DigitPrefixLength(s, base) < |s| ==> !IsRadixDigit(s[DigitPrefixLength(s, base)], base)
    decreases |s|
  {
    if s != [] && IsRadixDigit(s[0], base) {
      DigitPrefixLengthSpec(s[1..], base);
      forall k | 0 < k < DigitPrefixLength(s, base)
        ensures IsRadixDigit(s[k], base)
      {
        assert s[k] == s[1..][k - 1];
      }
    }
  }

  /** The value of a string of digits of `base`, most significant first. */
  function RadixValue(s: string, base: nat): nat
    decreases |s|
  {
    if s == [] then 0 else RadixValue(s[..|s| - 1], base) * base + HexDigitValue(s[|s| - 1])
  }

  /**
   * `parseInt(s, radix)`: leading white space is skipped, one sign is taken, a `0x`/`0X`
   * prefix switches to base 16 (it is always stripped when the radix is 16 or undefined), and
   * the longest run of digits that follows is read; no digit at all gives NaN. A negative
   * zero is the same real as zero here.
   */
  function ParseInt(s: string, radix: Radix): (r: JsNum)
    ensures r.Num? && r.value < 0.0 ==> StartsWith(TrimLeadingWhitespace(s), "-")
    ensures TrimLeadingWhitespace(s) == [] ==> r.NaN?
  {
    var t := TrimLeadingWhitespace(s);
    var negative := t != [] && t[0] == '-';
    var u := if t != [] && (t[0] == '-' || t[0] == '+') then t[1..] else t;
    var hexPrefix := |u| >= 2 && u[0] == '0' && (u[1] == 'x' || u[1] == 'X');
    var base := if radix == Hex || hexPrefix then 16 else 10;
    var body := if hexPrefix then u[2..] else u;
    var end := DigitPrefixLength(body, base);
    if end == 0 then NaN
    else
      var v := RadixValue(body[..end], base) as real;
      Num(if negative then -v else v)
  }

  /** For decimal digits the value is the one `Number.prototype.toString` inverts. */
  lemma {:induction false} RadixValueDecimal(s: string)
    requires AllDigits(s)
    ensures RadixValue(s, 10) == DecimalValue(s)
    decreases |s|
  {
    if s != [] {
      RadixValueDecimal(s[..|s| - 1]);
    }
  }

  /** A hexadecimal digit is no white space, sign or `x`. */
  lemma HexDigitIsPlain(c: char)
    requires IsHexDigit(c)
    ensures !IsJsWhitespace(c) && c != '-' && c != '+' && c != 'x' && c != 'X'
  {
  }

  /** The digits of a pair, read in base 16. */
  lemma PairDigits(c1: char, c2: char)
    requires IsHexDigit(c1) && IsHexDigit(c2)
    ensures DigitPrefixLength([c1, c2], 16) == 2
    ensures RadixValue([c1, c2], 16) == 16 * HexDigitValue(c1) + HexDigitValue(c2)
  {
    var s := [c1, c2];
    assert s[1..] == [c2] && [c2][1..] == [];
    assert s[..1] == [c1] && [c1][..0] == [];
    assert RadixValue([c1], 16) == HexDigitValue(c1);
    assert RadixValue(s, 16) == RadixValue([c1], 16) * 16 + HexDigitValue(c2);
  }

  /** Two hexadecimal digits read with radix 16 give `16 * high + low`. */
  lemma ParseIntHexPair(c1: char, c2: char)
    requires IsHexDigit(c1) && IsHexDigit(c2)
    ensures ParseInt([c1, c2], Hex) == Num((16 * HexDigitValue(c1) + HexDigitValue(c2)) as real)
  {
    var s := [c1, c2];
    HexDigitIsPlain(c1);
    HexDigitIsPlain(c2);
    assert TrimLeadingWhitespace(s) == s;
    PairDigits(c1, c2);
    assert s[..2] == s;
  }

  /** A pair starting with a character that is no digit, sign or white space reads as NaN. */
  lemma ParseIntHexPairNaN(c1: char, c2: char)
    requires !IsHexDigit(c1) && !IsJsWhitespace(c1) && c1 != '+' && c1 != '-'
    ensures ParseInt([c1, c2], Hex).NaN?
  {
    assert TrimLeadingWhitespace([c1, c2]) == [c1, c2];
  }

  /** A non-empty run of decimal digits read with no radix gives its decimal value. */
  lemma ParseIntDecimal(s: string)
    requires s != [] && AllDigits(s)
    ensures ParseInt(s, Unspecified) == Num(DecimalValue(s) as real)
  {
    assert TrimLeadingWhitespace(s) == s;
    RadixValueDecimal(s);
    DigitPrefixOfDigits(s);
    assert s[..|s|] == s;
  }

  lemma {:induction false} DigitPrefixOfDigits(s: string)
    requires AllDigits(s)
    ensures DigitPrefixLength(s, 10) == |s|
    decreases |s|
  {
    if s != [] {
      DigitPrefixOfDigits(s[1..]);
    }
  }

  // ---------------------------------------------------------------------------------------
  // parseFloat on the strings the colour pattern lets through

  predicate DigitsAndDots(s: string) {
    forall k :: 0 <= k < |s| ==> IsDigit(s[k]) || s[k] == '.'
  }

  function Pow10(n: nat): (p: nat)
    ensures p >= 1
  {
    if n == 0 then 1 else 10 * Pow10(n - 1)
  }

  /** `whole.fraction` where the fraction has `digits` digits: `whole + fraction / 10^digits`. */
  function WithFraction(whole: nat, fraction: nat, digits: nat): real {
    whole as real + fraction as real / Pow10(digits) as real
  }

  /**
   * `parseFloat(s)` for a string of digits and dots: the longest prefix of the form
   * `digits [. digits]` or `. digits` is read, the rest ignored; without a digit it is NaN.
   */
  function ParseFloat(s: string): (r: JsNum)
    requires DigitsAndDots(s)
    ensures r.Num? ==> r.value >= 0.0
  {
    var i := DigitPrefixLength(s, 10);
    if i < |s| && s[i] == '.' then
      var rest := s[i + 1..];
      var j := DigitPrefixLength(rest, 10);
      if i == 0 && j == 0 then NaN
      else Num(WithFraction(RadixValue(s[..i], 10), RadixValue(rest[..j], 10), j))
    else if i == 0 then NaN
    else Num(RadixValue(s[..i], 10) as real)
  }

  /** NaN exactly when the string starts with neither a digit nor `.` and a digit; never negative. */
  lemma ParseFloatNaN(s: string)
    requires DigitsAndDots(s)
    ensures ParseFloat(s).Num? ==> ParseFloat(s).value >= 0.0
    ensures ParseFloat(s).NaN? <==> !((|s| >= 1 && IsDigit(s[0])) || (|s| >= 2 && s[0] == '.' && IsDigit(s[1])))
  {
    DigitPrefixLengthSpec(s, 10);
    var i := DigitPrefixLength(s, 10);
    if i < |s| && s[i] == '.' {
      DigitPrefixLengthSpec(s[i + 1..], 10);
    }
  }

  /** Digits alone are read as the integer they spell. */
  lemma ParseFloatDigits(s: string)
    requires s != [] && AllDigits(s)
    ensures DigitsAndDots(s)
    ensures ParseFloat(s) == Num(DecimalValue(s) as real)
  {
    RadixValueDecimal(s);
    DigitPrefixOfDigits(s);
    assert s[..|s|] == s;
  }

  /** `whole.fraction` is read as `whole + fraction / 10^|fraction|`. */
  lemma ParseFloatFraction(whole: string, fraction: string)
    requires AllDigits(whole) && AllDigits(fraction) && (whole != [] || fraction != [])
    ensures DigitsAndDots(whole + "." + fraction)
    ensures ParseFloat(whole + "." + fraction)
         == Num(WithFraction(DecimalValue(whole), DecimalValue(fraction), |fraction|))
  {
    var s := whole + "." + fraction;
    FractionText(whole, fraction);
    FractionRuns(whole, fraction);
    RadixValueDecimal(whole);
    RadixValueDecimal(fraction);
    ReadsWholeAndFraction(s, |whole|, |fraction|, DecimalValue(whole), DecimalValue(fraction));
  }

  /** In `whole.fraction` the two digit runs are exactly `whole` and `fraction`. */
  lemma FractionRuns(whole: string, fraction: string)
    requires AllDigits(whole) && AllDigits(fraction)
    ensures var s := whole + "." + fraction;
      && |whole| < |s| && s[|whole|] == '.'
      && DigitPrefixLength(s, 10) == |whole| && DigitPrefixLength(s[|whole| + 1..], 10) == |fraction|
      && s[..|whole|] == whole && s[|whole| + 1..][..|fraction|] == fraction
  {
    var s := whole + "." + fraction;
    assert s == whole + ("." + fraction);
    DigitPrefixAfterDigits(whole, "." + fraction);
    assert s[|whole| + 1..] == fraction;
    DigitPrefixOfDigits(fraction);
    assert s[..|whole|] == whole;
    assert fraction[..|fraction|] == fraction;
  }

  /** The `digits . digits` branch of ParseFloat, once both digit runs are known. */
  lemma ReadsWholeAndFraction(s: string, i: nat, j: nat, a: nat, b: nat)
    requires DigitsAndDots(s) && i < |s| && s[i] == '.' && (i > 0 || j > 0)
    requires DigitPrefixLength(s, 10) == i && DigitPrefixLength(s[i + 1..], 10) == j
    requires RadixValue(s[..i], 10) == a && RadixValue(s[i + 1..][..j], 10) == b
    ensures ParseFloat(s) == Num(WithFraction(a, b, j))
  {
  }

  lemma FractionText(whole: string, fraction: string)
    requires AllDigits(whole) && AllDigits(fraction)
    ensures whole + "." + fraction == whole + ("." + fraction)
    ensures DigitsAndDots(whole + "." + fraction)
  {
    var s := whole + "." + fraction;
    forall k | 0 <= k < |s|
      ensures IsDigit(s[k]) || s[k] == '.'
    {
      if k < |whole| {
        assert s[k] == whole[k];
      } else if k > |whole| {
        assert s[k] == fraction[k - |whole| - 1];
      }
    }
  }

  lemma {:induction false} DigitPrefixAfterDigits(s: string, t: string)
    requires AllDigits(s) && (t == [] || !IsDigit(t[0]))
    ensures DigitPrefixLength(s + t, 10) == |s|
    decreases |s|
  {
    if s != [] {
      assert (s + t)[1..] == s[1..] + t;
      DigitPrefixAfterDigits(s[1..], t);
    }
  }

  // ---------------------------------------------------------------------------------------
  // The pattern  rgba?\((\d+),\s*(\d+),\s*(\d+)(?:,\s*([\d.]+))?\)
  //
  // Every greedy run in the pattern is followed by a character outside its own class (a digit
  // run by `,` or `)`, a white-space run by a digit, the `[\d.]+` run by `)`, the optional `a`
  // by `(`), so backtracking can never produce a second way of matching at one position: the
  // left-to-right reading below is the match, which MatchUnique states.

  datatype CharClass = Digits | Spaces | DigitsOrDots

  predicate InClass(c: char, cls: CharClass) {
    match cls
    case Digits => IsDigit(c)
    case Spaces => IsJsWhitespace(c)
    case DigitsOrDots => IsDigit(c) || c == '.'
  }

  predicate AllIn(t: string, cls: CharClass) {
    forall k :: 0 <= k < |t| ==> InClass(t[k], cls)
  }

  /** Splits off the longest prefix of `t` inside `cls` (a greedy `cls*`). */
  function Span(t: string, cls: CharClass): (p: (string, string))
    ensures p.0 + p.1 == t && AllIn(p.0, cls)
    ensures p.1 == [] || !InClass(p.1[0], cls)
    decreases |t|
  {
    if t != [] && InClass(t[0], cls) then
      var q := Span(t[1..], cls);
      assert [t[0]] + q.0 + q.1 == t;
      ([t[0]] + q.0, q.1)
    else ([], t)
  }

  /** The greedy split is the only split into a run of `cls` and a rest not starting in `cls`. */
  lemma {:induction false} SpanOf(x: string, y: string, cls: CharClass)
    requires AllIn(x, cls) && (y == [] || !InClass(y[0], cls))
    ensures Span(x + y, cls) == (x, y)
    decreases |x|
  {
    if x != [] {
      assert InClass(x[0], cls) && AllIn(x[1..], cls);
      assert (x + y)[0] == x[0];
      assert (x + y)[1..] == x[1..] + y;
      SpanOf(x[1..], y, cls);
      assert [x[0]] + x[1..] == x;
    } else {
      assert x + y == y;
    }
  }

  /** The capture groups of one match, with the white space `\s*` consumed before each group. */
  datatype RgbMatch = RgbMatch(
    hasA: bool,
    g1: string, w1: string, g2: string, w2: string, g3: string,
    alpha: Option<(string, string)>)   // the optional `,\s*([\d.]+)` part: its space and group 4

  /** What the pattern admits in the optional alpha part. */
  predicate AlphaCaptures(alpha: Option<(string, string)>) {
    alpha.Some? ==> AllIn(alpha.value.0, Spaces) && alpha.value.1 != [] && AllIn(alpha.value.1, DigitsOrDots)
  }

  /** What the pattern admits in each part of a match. */
  predicate Captures(m: RgbMatch) {
    && m.g1 != [] && AllIn(m.g1, Digits)
    && AllIn(m.w1, Spaces) && m.g2 != [] && AllIn(m.g2, Digits)
    && AllIn(m.w2, Spaces) && m.g3 != [] && AllIn(m.g3, Digits)
    && AlphaCaptures(m.alpha)
  }

  /** The text of the closing part, `)` or `,\s*([\d.]+))`, followed by `rest`. */
  function TailText(alpha: Option<(string, string)>, rest: string): string {
    match alpha
    case None => ")" + rest
    case Some(p) => "," + (p.0 + (p.1 + (")" + rest)))
  }

  /** The text from the first group on, followed by `rest`. */
  function GroupsText(m: RgbMatch, rest: string): string {
    m.g1 + ("," + (m.w1 + (m.g2 + ("," + (m.w2 + (m.g3 + TailText(m.alpha, rest)))))))
  }

  /** The whole text `m` stands for, followed by `rest`. */
  function RgbTextThen(m: RgbMatch, rest: string): string {
    "rgb" + ((if m.hasA then "a" else "") + ("(" + GroupsText(m, rest)))
  }

  /** A match together with the text after it. */
  datatype Matched = Matched(m: RgbMatch, rest: string)

  /** The closing part of the pattern at the start of `t`. */
  function MatchTail(t: string): (r: Option<(Option<(string, string)>, string)>)
    ensures r.Some? ==> AlphaCaptures(r.value.0) && t == TailText(r.value.0, r.value.1)
  {
    if t == [] then None
    else if t[0] == ')' then
      assert t == ")" + t[1..];
      Some((None, t[1..]))
    else if t[0] != ',' then None
    else
      assert t == "," + t[1..];
      var (w3, r6) := Span(t[1..], Spaces);
      var (g4, r7) := Span(r6, DigitsOrDots);
      if g4 == [] || r7 == [] || r7[0] != ')' then None
      else
        assert r7 == ")" + r7[1..];
        Some((Some((w3, g4)), r7[1..]))
  }

  /** The three groups and the closing part at the start of `t` (the `a` flag left false). */
  function MatchGroups(t: string): (r: Option<Matched>)
    ensures r.Some? ==> Captures(r.value.m) && !r.value.m.hasA && t == GroupsText(r.value.m, r.value.rest)
  {
    var (g1, r1) := Span(t, Digits);
    if g1 == [] || r1 == [] || r1[0] != ',' then None
    else
      assert r1 == "," + r1[1..];
      var (w1, r2) := Span(r1[1..], Spaces);
      var (g2, r3) := Span(r2, Digits);
      if g2 == [] || r3 == [] || r3[0] != ',' then None
      else
        assert r3 == "," + r3[1..];
        var (w2, r4) := Span(r3[1..], Spaces);
        var (g3, r5) := Span(r4, Digits);
        if g3 == [] then None
        else match MatchTail(r5)
          case None => None
          case Some((alpha, rest)) => Some(Matched(RgbMatch(false, g1, w1, g2, w2, g3, alpha), rest))
  }

  /** The pattern matched at the very start of `t` (a sticky match). */
  function MatchRgbPrefix(t: string): (r: Option<Matched>)
    ensures r.Some? ==> Captures(r.value.m) && t == RgbTextThen(r.value.m, r.value.rest)
  {
    if !StartsWith(t, "rgb") then None
    else
      var t1 := t[3..];
      assert t == "rgb" + t1;
      var hasA := t1 != [] && t1[0] == 'a';
      var t2 := if hasA then t1[1..] else t1;
      assert t1 == (if hasA then "a" else "") + t2;
      if t2 == [] || t2[0] != '(' then None
      else
        assert t2 == "(" + t2[1..];
        match MatchGroups(t2[1..])
        case None => None
        case Some(g) => Some(Matched(g.m.(hasA := hasA), g.rest))
  }

  lemma MatchTailComplete(alpha: Option<(string, string)>, rest: string)
    requires AlphaCaptures(alpha)
    ensures MatchTail(TailText(alpha, rest)) == Some((alpha, rest))
  {
    match alpha {
      case None =>
        assert TailText(alpha, rest)[1..] == rest;
      case Some(p) =>
        var t := TailText(alpha, rest);
        assert t[1..] == p.0 + (p.1 + (")" + rest));
        var r6 := p.1 + (")" + rest);
        assert r6[0] == p.1[0];
        SpanOf(p.0, r6, Spaces);
        SpanOf(p.1, ")" + rest, DigitsOrDots);
        assert (")" + rest)[1..] == rest;
    }
  }

  lemma MatchGroupsComplete(m: RgbMatch, rest: string)
    requires Captures(m) && !m.hasA
    ensures MatchGroups(GroupsText(m, rest)) == Some(Matched(m, rest))
  {
    var tail := TailText(m.alpha, rest);
    var r4 := m.g3 + tail;
    var r2 := m.g2 + ("," + (m.w2 + r4));
    GroupThenComma(m.g1, m.w1, r2);
    GroupThenComma(m.g2, m.w2, r4);
    assert tail[0] == ')' || tail[0] == ',';
    SpanOf(m.g3, tail, Digits);
    MatchTailComplete(m.alpha, rest);
  }

  /** A digit group, a comma and white space, read in front of the next digit group `r`. */
  lemma GroupThenComma(g: string, w: string, r: string)
    requires g != [] && AllIn(g, Digits) && AllIn(w, Spaces) && r != [] && IsDigit(r[0])
    ensures Span(g + ("," + (w + r)), Digits) == (g, "," + (w + r))
    ensures Span(("," + (w + r))[1..], Spaces) == (w, r)
  {
    SpanOf(g, "," + (w + r), Digits);
    assert ("," + (w + r))[1..] == w + r;
    SpanOf(w, r, Spaces);
  }

  /** Every text of the pattern's shape is matched, with exactly its own groups. */
  lemma MatchRgbComplete(m: RgbMatch, rest: string)
    requires Captures(m)
    ensures MatchRgbPrefix(RgbTextThen(m, rest)) == Some(Matched(m, rest))
  {
    var t2 := "(" + GroupsText(m, rest);
    var t := RgbTextThen(m, rest);
    assert StartsWith(t, "rgb");
    assert t[3..] == (if m.hasA then "a" else "") + t2;
    var t1 := t[3..];
    if m.hasA {
      assert t1[0] == 'a' && t1[1..] == t2;
    } else {
      assert t1 == t2 && t1[0] == '(';
    }
    assert t2[1..] == GroupsText(m, rest);
    assert GroupsText(m.(hasA := false), rest) == GroupsText(m, rest);
    MatchGroupsComplete(m.(hasA := false), rest);
    assert m.(hasA := false).(hasA := m.hasA) == m;
  }

  /** The pattern can match at one position in only one way. */
  lemma MatchUnique(m1: RgbMatch, rest1: string, m2: RgbMatch, rest2: string)
    requires Captures(m1) && Captures(m2)
    requires RgbTextThen(m1, rest1) == RgbTextThen(m2, rest2)
    ensures m1 == m2 && rest1 == rest2
  {
    MatchRgbComplete(m1, rest1);
    MatchRgbComplete(m2, rest2);
  }

  /** A match found by the (unanchored) search: where it starts and what it matched. */
  datatype Found = Found(start: nat, matched: Matched)

  /** `String.prototype.match` without the `g` flag: the leftmost position where the pattern matches. */
  function SearchRgb(s: string, i: nat): (r: Option<Found>)
    requires i <= |s|
    ensures r.Some? ==> (i <= r.value.start <= |s|
                      && MatchRgbPrefix(s[r.value.start..]) == Some(r.value.matched))
    ensures r.Some? ==> forall k :: i <= k < r.value.start ==> MatchRgbPrefix(s[k..]).None?
    ensures r.None? ==> forall k :: i <= k <= |s| ==> MatchRgbPrefix(s[k..]).None?
    decreases |s| - i
  {
    var here := MatchRgbPrefix(s[i..]);
    if here.Some? then Some(Found(i, here.value))
    else if i == |s| then None
    else SearchRgb(s, i + 1)
  }

  // ---------------------------------------------------------------------------------------
  // The colour functions

  /**
   * The `#` branch, on the text after the `#`: three digits are doubled (`#abc` is `#aabbcc`),
   * six give opaque red, green and blue, eight add alpha; any other length is grey. Each pair
   * goes through `parseInt(pair, 16) / 255`.
   */
  function HexColor(hex: string): (c: Rgba)
    ensures |hex| != 8 ==> c.a == Num(1.0)
    ensures |hex| != 3 && |hex| != 6 && |hex| != 8 ==> c == GREY
  {
    if |hex| == 3 then
      Rgba(Div255(ParseInt([hex[0], hex[0]], Hex)), Div255(ParseInt([hex[1], hex[1]], Hex)),
           Div255(ParseInt([hex[2], hex[2]], Hex)), Num(1.0))
    else if |hex| == 6 then
      Rgba(PairAt(hex, 0), PairAt(hex, 2), PairAt(hex, 4), Num(1.0))
    else if |hex| == 8 then
      Rgba(PairAt(hex, 0), PairAt(hex, 2), PairAt(hex, 4), PairAt(hex, 6))
    else GREY
  }

  /** `parseInt(hex.slice(i, i + 2), 16) / 255`. */
  function PairAt(hex: string, i: nat): JsNum
    requires i + 2 <= |hex|
  {
    Div255(ParseInt(hex[i..i + 2], Hex))
  }

  /** The channels of an `rgb(...)`/`rgba(...)` match: groups over 255, alpha read as given or 1. */
  function RgbChannels(m: RgbMatch): (c: Rgba)
    requires Captures(m)
    ensures m.alpha.None? ==> c.a == Num(1.0)
    ensures c.a.Num? ==> c.a.value >= 0.0
  {
    Rgba(Div255(ParseInt(m.g1, Unspecified)), Div255(ParseInt(m.g2, Unspecified)),
         Div255(ParseInt(m.g3, Unspecified)),
         match m.alpha
         case None => Num(1.0)
         case Some(p) => ParseFloat(p.1))
  }

  /** `parseColor` of the image component (and, identically, of the SVG component). */
  function ParseColor(color: string): (c: Rgba)
    ensures c != GREY ==> StartsWith(color, "#") || SearchRgb(color, 0).Some?
    ensures !StartsWith(color, "#") && c.a.Num? ==> c.a.value >= 0.0
  {
    if StartsWith(color, "#") then HexColor(color[1..])
    else match SearchRgb(color, 0)
      case None => GREY
      case Some(f) => RgbChannels(f.matched.m)
  }

  /** `parseColor` of the text component: only the `#` forms, everything else grey. */
  function ParseHexOnlyColor(color: string): (c: Rgba)
    ensures !StartsWith(color, "#") ==> c == GREY
    ensures |color| != 9 ==> c.a == Num(1.0)
  {
    if StartsWith(color, "#") then HexColor(color[1..]) else GREY
  }

  // ---------------------------------------------------------------------------------------
  // What the colour functions give

  /** The value of a hexadecimal pair, as a fraction of 255. */
  function PairChannel(c1: char, c2: char): real
    requires IsHexDigit(c1) && IsHexDigit(c2)
  {
    (16 * HexDigitValue(c1) + HexDigitValue(c2)) as real / 255.0
  }

  /** Both components send a `#` colour to the `#` branch. */
  lemma HashBranch(hex: string)
    ensures ParseColor("#" + hex) == HexColor(hex)
    ensures ParseHexOnlyColor("#" + hex) == HexColor(hex)
  {
    assert StartsWith("#" + hex, "#");
    assert ("#" + hex)[1..] == hex;
  }

  /** `#rgb`: each digit `d` is the channel `17 * d / 255`, fully opaque. */
  lemma ShortHexColor(c1: char, c2: char, c3: char)
    requires IsHexDigit(c1) && IsHexDigit(c2) && IsHexDigit(c3)
    ensures ParseColor("#" + [c1, c2, c3]) == Rgba(
      Num((17 * HexDigitValue(c1)) as real / 255.0), Num((17 * HexDigitValue(c2)) as real / 255.0),
      Num((17 * HexDigitValue(c3)) as real / 255.0), Num(1.0))
  {
    HashBranch([c1, c2, c3]);
    DoubledDigit(c1);
    DoubledDigit(c2);
    DoubledDigit(c3);
  }

  /** A digit written twice, as `#rgb` reads it, is the channel `17 * d / 255`. */
  lemma DoubledDigit(c: char)
    requires IsHexDigit(c)
    ensures Div255(ParseInt([c, c], Hex)) == Num((17 * HexDigitValue(c)) as real / 255.0)
  {
    ParseIntHexPair(c, c);
  }

  /** The first six characters are hexadecimal digits. */
  predicate SixHexDigits(hex: string) {
    && |hex| >= 6
    && IsHexDigit(hex[0]) && IsHexDigit(hex[1]) && IsHexDigit(hex[2])
    && IsHexDigit(hex[3]) && IsHexDigit(hex[4]) && IsHexDigit(hex[5])
  }

  /** The pair of digits at `i`, read with radix 16 and scaled to [0, 1]. */
  lemma PairAtValue(hex: string, i: nat)
    requires i + 2 <= |hex| && IsHexDigit(hex[i]) && IsHexDigit(hex[i + 1])
    ensures PairAt(hex, i) == Num(PairChannel(hex[i], hex[i + 1]))
  {
    assert hex[i..i + 2] == [hex[i], hex[i + 1]];
    ParseIntHexPair(hex[i], hex[i + 1]);
  }

  /** `#rrggbb`: three pairs, fully opaque. */
  lemma LongHexColor(hex: string)
    requires |hex| == 6 && SixHexDigits(hex)
    ensures ParseColor("#" + hex) == Rgba(Num(PairChannel(hex[0], hex[1])),
      Num(PairChannel(hex[2], hex[3])), Num(PairChannel(hex[4], hex[5])), Num(1.0))
  {
    HashBranch(hex);
    SixDigitPairs(hex);
    ThreePairValues(hex);
  }

  /** Six characters after `#` are read as three pairs and an opaque alpha. */
  lemma SixDigitPairs(hex: string)
    requires |hex| == 6
    ensures HexColor(hex) == Rgba(PairAt(hex, 0), PairAt(hex, 2), PairAt(hex, 4), Num(1.0))
  {
  }

  /** The values of three hexadecimal pairs. */
  lemma ThreePairValues(hex: string)
    requires SixHexDigits(hex)
    ensures Rgba(PairAt(hex, 0), PairAt(hex, 2), PairAt(hex, 4), Num(1.0)) == Rgba(
      Num(PairChannel(hex[0], hex[1])), Num(PairChannel(hex[2], hex[3])),
      Num(PairChannel(hex[4], hex[5])), Num(1.0))
  {
    PairAtValue(hex, 0);
    PairAtValue(hex, 2);
    PairAtValue(hex, 4);
  }

  /** `#rrggbbaa`: the fourth pair is the alpha channel. */
  lemma HexColorWithAlpha(hex: string)
    requires |hex| == 8 && SixHexDigits(hex) && IsHexDigit(hex[6]) && IsHexDigit(hex[7])
    ensures ParseColor("#" + hex) == Rgba(Num(PairChannel(hex[0], hex[1])),
      Num(PairChannel(hex[2], hex[3])), Num(PairChannel(hex[4], hex[5])),
      Num(PairChannel(hex[6], hex[7])))
  {
    HashBranch(hex);
    EightDigitPairs(hex);
    FourPairValues(hex);
  }

  /** Eight characters after `#` are read as four pairs. */
  lemma EightDigitPairs(hex: string)
    requires |hex| == 8
    ensures HexColor(hex) == Rgba(PairAt(hex, 0), PairAt(hex, 2), PairAt(hex, 4), PairAt(hex, 6))
  {
  }

  /** The values of four hexadecimal pairs. */
  lemma FourPairValues(hex: string)
    requires |hex| == 8 && SixHexDigits(hex) && IsHexDigit(hex[6]) && IsHexDigit(hex[7])
    ensures Rgba(PairAt(hex, 0), PairAt(hex, 2), PairAt(hex, 4), PairAt(hex, 6)) == Rgba(
      Num(PairChannel(hex[0], hex[1])), Num(PairChannel(hex[2], hex[3])),
      Num(PairChannel(hex[4], hex[5])), Num(PairChannel(hex[6], hex[7])))
  {
    PairAtValue(hex, 0);
    PairAtValue(hex, 2);
    PairAtValue(hex, 4);
    PairAtValue(hex, 6);
  }

  /** A pair of hexadecimal digits is a channel in [0, 1]. */
  lemma PairChannelInUnitRange(c1: char, c2: char)
    requires IsHexDigit(c1) && IsHexDigit(c2)
    ensures 0.0 <= PairChannel(c1, c2) <= 1.0
  {
  }

  /** After `#`, a length other than 3, 6 or 8 gives grey, whatever the characters. */
  lemma HexOfOtherLengthIsGrey(hex: string)
    requires |hex| != 3 && |hex| != 6 && |hex| != 8
    ensures ParseColor("#" + hex) == GREY
    ensures ParseHexOnlyColor("#" + hex) == GREY
  {
    HashBranch(hex);
  }

  /** A `#` colour whose first digit is no hexadecimal digit has a NaN red channel. */
  lemma MalformedHexIsNaN(hex: string)
    requires |hex| == 6 && !IsHexDigit(hex[0]) && !IsJsWhitespace(hex[0])
    requires hex[0] != '+' && hex[0] != '-'
    ensures ParseColor("#" + hex).r.NaN?
  {
    HashBranch(hex);
    assert hex[0..2] == [hex[0], hex[1]];
    ParseIntHexPairNaN(hex[0], hex[1]);
    assert PairAt(hex, 0).NaN?;
  }

  /**
   * A string that starts with an `rgb(...)`/`rgba(...)` text gives its three groups over 255
   * and, when present, the fourth group read by `parseFloat` as alpha (1 otherwise).
   */
  lemma RgbFunctionColor(m: RgbMatch, rest: string)
    requires Captures(m)
    ensures ParseColor(RgbTextThen(m, rest)) == Rgba(
      Num(DecimalValue(m.g1) as real / 255.0), Num(DecimalValue(m.g2) as real / 255.0),
      Num(DecimalValue(m.g3) as real / 255.0),
      if m.alpha.Some? then ParseFloat(m.alpha.value.1) else Num(1.0))
  {
    var s := RgbTextThen(m, rest);
    assert !StartsWith(s, "#") by {
      assert s[0] == 'r';
    }
    MatchRgbComplete(m, rest);
    assert s[0..] == s;
    RgbChannelsValue(m);
  }

  /** The channels of a match, as decimal values. */
  lemma RgbChannelsValue(m: RgbMatch)
    requires Captures(m)
    ensures RgbChannels(m) == Rgba(
      Num(DecimalValue(m.g1) as real / 255.0), Num(DecimalValue(m.g2) as real / 255.0),
      Num(DecimalValue(m.g3) as real / 255.0),
      if m.alpha.Some? then ParseFloat(m.alpha.value.1) else Num(1.0))
  {
    DecimalChannel(m.g1);
    DecimalChannel(m.g2);
    DecimalChannel(m.g3);
  }

  /** A captured digit group over 255. */
  lemma DecimalChannel(g: string)
    requires g != [] && AllIn(g, Digits)
    ensures Div255(ParseInt(g, Unspecified)) == Num(DecimalValue(g) as real / 255.0)
  {
    ParseIntDecimal(g);
  }

  /**
   * The match need not start the string: the leftmost match wins, so a prefix in which the
   * pattern matches nowhere does not change the colour.
   */
  lemma RgbAfterPrefix(prefix: string, m: RgbMatch, rest: string)
    requires Captures(m) && !StartsWith(prefix, "#")
    requires forall k :: 0 <= k < |prefix| ==> !StartsWith(prefix[k..], "rgb")
    ensures ParseColor(prefix + RgbTextThen(m, rest)) == ParseColor(RgbTextThen(m, rest))
  {
    var t := RgbTextThen(m, rest);
    var s := prefix + t;
    assert !StartsWith(s, "#") by {
      if prefix == [] {
        assert s[0] == 'r';
      } else {
        assert s[0] == prefix[0];
      }
    }
    assert !StartsWith(t, "#") by {
      assert t[0] == 'r';
    }
    MatchRgbComplete(m, rest);
    assert s[|prefix|..] == t;
    assert t[0..] == t;
    forall k | 0 <= k < |prefix|
      ensures MatchRgbPrefix(s[k..]).None?
    {
      NoRgbAtBoundary(prefix, t, k);
    }
  }

  /** Where `rgb` does not start inside the prefix, it does not start there once `r...` follows. */
  lemma NoRgbAtBoundary(prefix: string, t: string, k: nat)
    requires k < |prefix| && !StartsWith(prefix[k..], "rgb") && t != [] && t[0] == 'r'
    ensures !StartsWith((prefix + t)[k..], "rgb")
  {
    var s := prefix + t;
    if |prefix| - k >= 3 {
      assert s[k..][..3] == prefix[k..][..3];
    } else if |prefix| - k == 2 {
      assert s[k..][2] == t[0];
    } else {
      assert s[k..][1] == t[0];
    }
  }

  /** A colour with no `#` in front and no `rgb` anywhere, such as `red`, is grey. */
  lemma NoColourSyntaxIsGrey(color: string)
    requires !StartsWith(color, "#")
    requires forall k :: 0 <= k <= |color| ==> !StartsWith(color[k..], "rgb")
    ensures ParseColor(color) == GREY
  {
  }

  /** The text component agrees on every `#` colour and turns every other string grey. */
  lemma HexOnlyAgrees(color: string)
    ensures StartsWith(color, "#") ==> ParseHexOnlyColor(color) == ParseColor(color)
    ensures !StartsWith(color, "#") ==> ParseHexOnlyColor(color) == GREY
  {
  }

  /** In particular the text component ignores `rgb(...)`, which the image component reads. */
  lemma HexOnlyIgnoresRgb(m: RgbMatch, rest: string)
    requires Captures(m)
    ensures ParseHexOnlyColor(RgbTextThen(m, rest)) == GREY
    ensures ParseColor(RgbTextThen(m, rest)).r == Num(DecimalValue(m.g1) as real / 255.0)
  {
    assert RgbTextThen(m, rest)[0] == 'r';
    RgbFunctionColor(m, rest);
  }
}
