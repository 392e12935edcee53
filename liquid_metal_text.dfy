/**
 * The liquid metal text component: its five metal variants, the light/dark colour selection
 * (with `parseColor` reading only `#` colours), the font-weight lookup, and the number codes of
 * the animation modes, patterns and materials passed to the shader.
 */
module LiquidMetalText {
  import opened Wrappers
  import opened JsText
  import opened ColorParsing

  datatype Variant = Silver | SilverLight | Gold | Bronze | Chrome

  /** A light (highlight) and a dark (shadow) colour, as `#rrggbb` text. */
  datatype Preset = Preset(light: string, dark: string)

  const DEFAULT_VARIANT := Silver

  /** `Presets`. */
  function Presets(v: Variant): (p: Preset)
    ensures |p.light| == 7 && p.light[0] == '#' && |p.dark| == 7 && p.dark[0] == '#'
  {
    match v
    case Silver => Preset("#FAFAFF", "#3A3A3A")
    case SilverLight => Preset("#FFFFFF", "#5A5A5A")
    case Gold => Preset("#FFE4A0", "#6C5525")
    case Bronze => Preset("#E8B87C", "#5D3822")
    case Chrome => Preset("#FFFFFF", "#4A4A4A")
  }

  /** `lightColor`: the custom light colour if given, else the variant's. */
  function LightColor(variant: Variant, colorLight: Option<string>): (c: string)
    ensures colorLight.Some? ==> c == colorLight.value
    ensures colorLight.None? ==> |c| == 7 && c[0] == '#'
  {
    colorLight.GetOr(Presets(variant).light)
  }

  /** `darkColor`: the custom dark colour if given, else the variant's. */
  function DarkColor(variant: Variant, colorDark: Option<string>): (c: string)
    ensures colorDark.Some? ==> c == colorDark.value
    ensures colorDark.None? ==> |c| == 7 && c[0] == '#'
  {
    colorDark.GetOr(Presets(variant).dark)
  }

  /** The three colour uniforms: `const [r, g, b] = parseColor(color)`. */
  datatype Rgb = Rgb(r: JsNum, g: JsNum, b: JsNum)

  function ParsedRgb(color: string): (c: Rgb)
    ensures !StartsWith(color, "#") ==> c == Rgb(Num(0.5), Num(0.5), Num(0.5))
  {
    var c := ParseHexOnlyColor(color);
    Rgb(c.r, c.g, c.b)
  }

  /**
   * The colour used is the custom one exactly when one is given, whatever the variant;
   * otherwise it is the variant's preset.
   */
  lemma CustomColourOverridesVariant(v: Variant, colorLight: Option<string>, colorDark: Option<string>)
    ensures colorLight.Some? ==> LightColor(v, colorLight) == colorLight.value
    ensures colorLight.None? ==> LightColor(v, colorLight) == Presets(v).light
    ensures colorDark.Some? ==> DarkColor(v, colorDark) == colorDark.value
    ensures colorDark.None? ==> DarkColor(v, colorDark) == Presets(v).dark
  {
  }

  /** A custom `rgb(...)` colour is not understood here: the text is drawn with grey. */
  lemma CustomRgbColourIsGrey(v: Variant, m: RgbMatch, rest: string)
    requires Captures(m)
    ensures ParsedRgb(LightColor(v, Some(RgbTextThen(m, rest)))) == Rgb(Num(0.5), Num(0.5), Num(0.5))
  {
    HexOnlyIgnoresRgb(m, rest);
  }

  /** `#` followed by six hexadecimal digits. */
  predicate IsSixDigitHex(s: string) {
    |s| == 7 && s[0] == '#' && SixHexDigits(s[1..])
  }

  lemma LightPresetIsSixDigitHex(v: Variant)
    ensures IsSixDigitHex(Presets(v).light)
  {
  }

  lemma DarkPresetIsSixDigitHex(v: Variant)
    ensures IsSixDigitHex(Presets(v).dark)
  {
  }

  /** A six-digit `#` colour gives its three pairs over 255. */
  lemma SixDigitHexRgb(s: string)
    requires IsSixDigitHex(s)
    ensures ParsedRgb(s) == Rgb(Num(PairChannel(s[1], s[2])),
      Num(PairChannel(s[3], s[4])), Num(PairChannel(s[5], s[6])))
  {
    var hex := s[1..];
    assert s == "#" + hex;
    HashBranch(hex);
    SixDigitPairs(hex);
    ThreePairValues(hex);
  }

  /** The dark shadow of each variant is a grey: the same pair for red, green and blue. */
  lemma GreyShadows(v: Variant)
    requires v != Gold && v != Bronze
    ensures var c := ParsedRgb(DarkColor(v, None)); c.r == c.g == c.b
  {
    var s := Presets(v).dark;
    DarkPresetIsSixDigitHex(v);
    SixDigitHexRgb(s);
    assert s[1] == s[3] == s[5] && s[2] == s[4] == s[6];
  }

  // ---------------------------------------------------------------------------------------
  // Font weight

  /** The weight table of `getFontWeightValue`. */
  const WEIGHTS: map<string, int> := map[
    "normal" := 400, "bold" := 700,
    "100" := 100, "200" := 200, "300" := 300, "400" := 400, "500" := 500,
    "600" := 600, "700" := 700, "800" := 800, "900" := 900]

  /** `getFontWeightValue`: `map[weight] ?? 400`; every weight handed to the font is a multiple of 100 from 100 to 900. */
  function GetFontWeightValue(weight: string): (w: int)
    ensures 100 <= w <= 900 && w % 100 == 0
  {
    if weight in WEIGHTS then WEIGHTS[weight] else 400
  }

  /** The numeric weights: a digit from 1 to 9 followed by `00`. */
  predicate IsNumericWeight(weight: string) {
    |weight| == 3 && '1' <= weight[0] <= '9' && weight[1] == '0' && weight[2] == '0'
  }

  /**
   * `normal` is 400 and `bold` 700; a numeric weight `N00` is the number it spells; and every
   * other string falls back to 400.
   */
  lemma FontWeightValues(weight: string)
    ensures GetFontWeightValue("normal") == 400 && GetFontWeightValue("bold") == 700
    ensures IsNumericWeight(weight) ==> AllDigits(weight) && GetFontWeightValue(weight) == DecimalValue(weight)
    ensures IsNumericWeight(weight) ==> GetFontWeightValue(weight) == 100 * DigitValue(weight[0])
    ensures weight != "normal" && weight != "bold" && !IsNumericWeight(weight)
      ==> GetFontWeightValue(weight) == 400
  {
    if IsNumericWeight(weight) {
      NumericWeightValue(weight);
    } else if weight != "normal" && weight != "bold" {
      TableKeys(weight);
    }
  }

  /** The keys of the table are `normal`, `bold` and the numeric weights. */
  lemma TableKeys(weight: string)
    ensures weight in WEIGHTS <==> weight == "normal" || weight == "bold" || IsNumericWeight(weight)
  {
    if IsNumericWeight(weight) {
      assert weight == [weight[0], '0', '0'];
    }
  }

  /** The entry of a numeric weight `N00` is N * 100, the decimal value of its text. */
  lemma NumericWeightValue(weight: string)
    requires IsNumericWeight(weight)
    ensures weight in WEIGHTS && WEIGHTS[weight] == 100 * DigitValue(weight[0])
    ensures AllDigits(weight) && DecimalValue(weight) == 100 * DigitValue(weight[0])
  {
    var c := weight[0];
    assert weight == [c, '0', '0'];
    if c == '1' { assert weight == "100"; }
    else if c == '2' { assert weight == "200"; }
    else if c == '3' { assert weight == "300"; }
    else if c == '4' { assert weight == "400"; }
    else if c == '5' { assert weight == "500"; }
    else if c == '6' { assert weight == "600"; }
    else if c == '7' { assert weight == "700"; }
    else if c == '8' { assert weight == "800"; }
    else { assert weight == "900"; }
    HundredsValue(c);
  }

  /** The digits `c00` spell 100 times the digit `c`. */
  lemma HundredsValue(c: char)
    requires IsDigit(c)
    ensures AllDigits([c, '0', '0']) && DecimalValue([c, '0', '0']) == 100 * DigitValue(c)
  {
    var w := [c, '0', '0'];
    assert w[..2] == [c, '0'] && w[..2][..1] == [c] && [c][..0] == [];
    assert DecimalValue([c]) == DigitValue(c);
    assert DecimalValue([c, '0']) == 10 * DigitValue(c);
  }

  // ---------------------------------------------------------------------------------------
  // Shader codes

  datatype AnimationMode = Flow | Still | Pulse | Ripple | Shimmer | Rotate
  datatype Pattern = Linear | Radial | Concentric | DiagonalCross | Noise
  datatype Material = Default | ChromeMaterial | Brushed | Holographic | Pearl | Glass | OilSlick

  const DEFAULT_ANIMATION_MODE := Flow
  const DEFAULT_PATTERN := Linear
  const DEFAULT_MATERIAL := Default

  /** `AnimationModes`. */
  function AnimationModeCode(m: AnimationMode): (k: int)
    ensures 0 <= k < 6
  {
    match m
    case Flow => 0
    case Still => 1
    case Pulse => 2
    case Ripple => 3
    case Shimmer => 4
    case Rotate => 5
  }

  /** `Patterns`. */
  function PatternCode(p: Pattern): (k: int)
    ensures 0 <= k < 5
  {
    match p
    case Linear => 0
    case Radial => 1
    case Concentric => 2
    case DiagonalCross => 3
    case Noise => 4
  }

  /** `Materials`. */
  function MaterialCode(m: Material): (k: int)
    ensures 0 <= k < 7
  {
    match m
    case Default => 0
    case ChromeMaterial => 1
    case Brushed => 2
    case Holographic => 3
    case Pearl => 4
    case Glass => 5
    case OilSlick => 6
  }

  /** The option with a given code: the inverse of the table. */
  function AnimationModeOfCode(k: int): AnimationMode
    requires 0 <= k < 6
  {
    [Flow, Still, Pulse, Ripple, Shimmer, Rotate][k]
  }

  function PatternOfCode(k: int): Pattern
    requires 0 <= k < 5
  {
    [Linear, Radial, Concentric, DiagonalCross, Noise][k]
  }

  function MaterialOfCode(k: int): Material
    requires 0 <= k < 7
  {
    [Default, ChromeMaterial, Brushed, Holographic, Pearl, Glass, OilSlick][k]
  }

  /** The animation modes are numbered 0 to 5, each number used once. */
  lemma AnimationModeCodesAreConsecutive(m: AnimationMode, k: int)
    ensures 0 <= AnimationModeCode(m) < 6 && AnimationModeOfCode(AnimationModeCode(m)) == m
    ensures 0 <= k < 6 ==> AnimationModeCode(AnimationModeOfCode(k)) == k
    ensures AnimationModeCode(DEFAULT_ANIMATION_MODE) == 0
  {
  }

  /** The patterns are numbered 0 to 4, each number used once. */
  lemma PatternCodesAreConsecutive(p: Pattern, k: int)
    ensures 0 <= PatternCode(p) < 5 && PatternOfCode(PatternCode(p)) == p
    ensures 0 <= k < 5 ==> PatternCode(PatternOfCode(k)) == k
    ensures PatternCode(DEFAULT_PATTERN) == 0
  {
  }

  /** The materials are numbered 0 to 6, each number used once. */
  lemma MaterialCodesAreConsecutive(m: Material, k: int)
    ensures 0 <= MaterialCode(m) < 7 && MaterialOfCode(MaterialCode(m)) == m
    ensures 0 <= k < 7 ==> MaterialCode(MaterialOfCode(k)) == k
    ensures MaterialCode(DEFAULT_MATERIAL) == 0
  {
  }
}
