/**
 * The colour and fit selection of the liquid metal image component: the twelve metal
 * variants, each a highlight and a shadow colour; a custom `colorLight`/`colorDark` that
 * replaces the preset through `??`; only the red, green and blue of the parsed colour kept;
 * and the `fit` option sent to the shader as a number.
 */
module LiquidMetal {
  import opened Wrappers
  import opened ColorParsing

  datatype Variant = Silver | SilverLight | Gold | Bronze | Purple | Blue | Pink | Yellow
                   | Green | Red | Cyan | Orange

  /** A light (highlight) and a dark (shadow) colour, as `#rrggbb` text. */
  datatype Preset = Preset(light: string, dark: string)

  const DEFAULT_VARIANT := Silver

  /** `LiquidMetalPresets`. */
  function Presets(v: Variant): (p: Preset)
    ensures |p.light| == 7 && p.light[0] == '#' && |p.dark| == 7 && p.dark[0] == '#'
  {
    match v
    case Silver => Preset("#FAFAFF", "#1A1A1A")
    case SilverLight => Preset("#FFFFFF", "#4A4A4A")
    case Gold => Preset("#FFE4A0", "#5C4515")
    case Bronze => Preset("#E8B87C", "#3D2812")
    case Purple => Preset("#E8C4FF", "#2A1040")
    case Blue => Preset("#C4E4FF", "#0A2840")
    case Pink => Preset("#FFC4E8", "#401028")
    case Yellow => Preset("#FFFF90", "#4A4500")
    case Green => Preset("#C4FFC4", "#0A400A")
    case Red => Preset("#FFC4C4", "#400A0A")
    case Cyan => Preset("#C4FFFF", "#0A4040")
    case Orange => Preset("#FFD4A0", "#402008")
  }

  /** The three colour uniforms: `const [r, g, b] = parseColor(color)`. */
  datatype Rgb = Rgb(r: JsNum, g: JsNum, b: JsNum)

  function WithoutAlpha(c: Rgba): Rgb {
    Rgb(c.r, c.g, c.b)
  }

  /** `colorLightParsed`: the custom light colour if given, else the variant's, parsed. */
  function ColorLightParsed(variant: Variant, colorLight: Option<string>): (c: Rgb)
    ensures colorLight.Some? ==> c == WithoutAlpha(ParseColor(colorLight.value))
    ensures colorLight.None? ==> InUnitRange(c.r) && InUnitRange(c.g) && InUnitRange(c.b)
  {
    PresetsAreSixDigitHex(variant);
    ChannelsInRange(Presets(variant).light);
    WithoutAlpha(ParseColor(colorLight.GetOr(Presets(variant).light)))
  }

  /** `colorDarkParsed`: the custom dark colour if given, else the variant's, parsed. */
  function ColorDarkParsed(variant: Variant, colorDark: Option<string>): (c: Rgb)
    ensures colorDark.Some? ==> c == WithoutAlpha(ParseColor(colorDark.value))
    ensures colorDark.None? ==> InUnitRange(c.r) && InUnitRange(c.g) && InUnitRange(c.b)
  {
    PresetsAreSixDigitHex(variant);
    ChannelsInRange(Presets(variant).dark);
    WithoutAlpha(ParseColor(colorDark.GetOr(Presets(variant).dark)))
  }

  /**
   * A custom colour wins over every preset: the variant no longer matters, and the colour's own
   * red, green and blue are used (its alpha is dropped).
   */
  lemma CustomColourOverridesVariant(v1: Variant, v2: Variant, c: string)
    ensures ColorLightParsed(v1, Some(c)) == ColorLightParsed(v2, Some(c))
    ensures ColorDarkParsed(v1, Some(c)) == ColorDarkParsed(v2, Some(c))
    ensures ColorLightParsed(v1, Some(c)) == Rgb(ParseColor(c).r, ParseColor(c).g, ParseColor(c).b)
    ensures ColorDarkParsed(v1, Some(c)) == ColorLightParsed(v1, Some(c))
  {
  }

  /** `#` followed by six hexadecimal digits. */
  predicate IsSixDigitHex(s: string) {
    |s| == 7 && s[0] == '#' && SixHexDigits(s[1..])
  }

  /** Every preset colour is a six-digit `#` colour. */
  lemma PresetsAreSixDigitHex(v: Variant)
    ensures IsSixDigitHex(Presets(v).light) && IsSixDigitHex(Presets(v).dark)
  {
    LightPresetIsSixDigitHex(v);
    DarkPresetIsSixDigitHex(v);
  }

  lemma LightPresetIsSixDigitHex(v: Variant)
    ensures IsSixDigitHex(Presets(v).light)
  {
  }

  lemma DarkPresetIsSixDigitHex(v: Variant)
    ensures IsSixDigitHex(Presets(v).dark)
  {
  }

  /** A six-digit `#` colour parses to its three pairs over 255. */
  lemma SixDigitHexRgb(s: string)
    requires IsSixDigitHex(s)
    ensures WithoutAlpha(ParseColor(s)) == Rgb(Num(PairChannel(s[1], s[2])),
      Num(PairChannel(s[3], s[4])), Num(PairChannel(s[5], s[6])))
  {
    var hex := s[1..];
    assert s == "#" + hex;
    LongHexColor(hex);
  }

  /** A finite channel value in [0, 1]. */
  predicate InUnitRange(n: JsNum) {
    n.Num? && 0.0 <= n.value <= 1.0
  }

  lemma ChannelsInRange(s: string)
    requires IsSixDigitHex(s)
    ensures var c := WithoutAlpha(ParseColor(s));
      InUnitRange(c.r) && InUnitRange(c.g) && InUnitRange(c.b)
  {
    SixDigitHexRgb(s);
    PairChannelInUnitRange(s[1], s[2]);
    PairChannelInUnitRange(s[3], s[4]);
    PairChannelInUnitRange(s[5], s[6]);
  }

  /** The default variant gives the cool white highlight (250, 250, 255) over 255. */
  lemma DefaultHighlight()
    ensures ColorLightParsed(DEFAULT_VARIANT, None)
         == Rgb(Num(250.0 / 255.0), Num(250.0 / 255.0), Num(255.0 / 255.0))
  {
    var s := Presets(DEFAULT_VARIANT).light;
    assert s == "#FAFAFF";
    LightPresetIsSixDigitHex(DEFAULT_VARIANT);
    SixDigitHexRgb(s);
    assert s[1] == 'F' && s[2] == 'A' && s[3] == 'F' && s[4] == 'A' && s[5] == 'F' && s[6] == 'F';
  }

  // ---------------------------------------------------------------------------------------
  // fit

  const DEFAULT_FIT := "contain"

  /** `fitMode`: `contain` is 1, `cover` is 2, anything else (`none`) is 0. */
  function FitMode(fit: string): (m: int)
    ensures 0 <= m <= 2
    ensures m == 1 <==> fit == "contain"
    ensures m == 2 <==> fit == "cover"
  {
    if fit == "contain" then 1 else if fit == "cover" then 2 else 0
  }

  /** The three options get three different codes, and by default the image is contained. */
  lemma FitModeCodes(fit: string)
    ensures 0 <= FitMode(fit) <= 2
    ensures FitMode(fit) == 1 <==> fit == "contain"
    ensures FitMode(fit) == 2 <==> fit == "cover"
    ensures FitMode(DEFAULT_FIT) == 1 && FitMode("none") == 0
  {
  }
}
