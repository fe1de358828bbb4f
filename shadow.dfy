/**
 * Colour helpers and the layered-shadow builder of `utils/shadow.ts`:
 * the `#rgb` / `#rrggbb` hexadecimal colour notation (section 5.2 of CSS Color
 * Module Level 4) decoded to and encoded from red/green/blue channels, and the
 * comma-separated layer list written into a `box-shadow` value (section 7.1 of
 * CSS Backgrounds and Borders Module Level 3).
 */
module Shadow {
  import Strings

  // ---------------------------------------------------------------------------
  // clamp

  /** `clamp(v, min, max)`, written as `Math.max(min, Math.min(max, v))`. */
  function Clamp(v: real, lo: real, hi: real): (r: real)
    ensures lo <= hi ==> lo <= r <= hi
    ensures lo <= v <= hi ==> r == v
    ensures v < lo ==> r == lo
    ensures lo <= hi < v ==> r == hi
  {
    if lo >= (if hi <= v then hi else v) then lo else if hi <= v then hi else v
  }

  // ---------------------------------------------------------------------------
  // hexToRgb

  datatype Rgb = Rgb(r: int, g: int, b: int)

  predicate IsHexDigit(c: char)
  {
    '0' <= c <= '9' || 'a' <= c <= 'f' || 'A' <= c <= 'F'
  }

  predicate AllHex(s: string)
  {
    forall i :: 0 <= i < |s| ==> IsHexDigit(s[i])
  }

  /** The value of one hexadecimal digit, either case. */
  function DigitValue(c: char): (v: nat)
    requires IsHexDigit(c)
    ensures v < 16
  {
    if '0' <= c <= '9' then c as int - '0' as int
    else if 'a' <= c <= 'f' then c as int - 'a' as int + 10
    else c as int - 'A' as int + 10
  }

  /** `hex.replace(/^#/, "")`: at most one leading '#' is removed. */
  function StripHash(hex: string): string
  {
    if |hex| > 0 && hex[0] == '#' then hex[1..] else hex
  }

  /** A 3-digit string has every digit doubled; any other string is kept as it is. */
  function Expand(h: string): (r: string)
    ensures |r| == if |h| == 3 then 6 else |h|
    ensures AllHex(h) ==> AllHex(r)
  {
    if |h| == 3 then [h[0], h[0], h[1], h[1], h[2], h[2]] else h
  }

  /** The digit string `parseInt(_, 16)` is applied to. */
  function Full(hex: string): string
  {
    Expand(StripHash(hex))
  }

  /**
   * `parseInt(s, 16)` on a string of hexadecimal digits, most significant first.
   * The empty string gives 0: JavaScript yields NaN there, and every channel of
   * NaN after `>>` and `&` is 0 as well.
   */
  function ParseHex(s: string): nat
    requires AllHex(s)
  {
    if |s| == 0 then 0 else ParseHex(s[..|s| - 1]) * 16 + DigitValue(s[|s| - 1])
  }

  /**
   * Inputs this model decodes: hexadecimal digits only after the optional '#',
   * and at most 13 of them, so that the parsed number is exact in a double.
   */
  predicate HexInput(hex: string)
  {
    AllHex(StripHash(hex)) && |StripHash(hex)| <= 13
  }

  /** Inputs written in the `#rgb` / `#rrggbb` notation (the '#' optional). */
  predicate HexColor(hex: string)
  {
    AllHex(StripHash(hex)) && (|StripHash(hex)| == 3 || |StripHash(hex)| == 6)
  }

  /**
   * `hexToRgb`. The source's `(num >> 16) & 255` first reduces `num` modulo 2^32,
   * but only bits 16..23 survive the mask, so for every non-negative integer it
   * is `(num / 2^16) % 256`; likewise for the other two channels.
   */
  function HexToRgb(hex: string): (c: Rgb)
    requires HexInput(hex)
    ensures 0 <= c.r < 256 && 0 <= c.g < 256 && 0 <= c.b < 256
  {
    var num := ParseHex(Full(hex));
    Rgb((num / 0x10000) % 256, (num / 0x100) % 256, num % 256)
  }

  // ---------------------------------------------------------------------------
  // rgbToHex

  const HexDigits: string := "0123456789abcdef"

  predicate IsLowerHexDigit(c: char)
  {
    '0' <= c <= '9' || 'a' <= c <= 'f'
  }

  /** `n.toString(16)` for a non-negative integer: lowercase digits, no padding. */
  function ToHex(n: nat): (s: string)
    ensures |s| >= 1
  {
    if n < 16 then [HexDigits[n]] else ToHex(n / 16) + [HexDigits[n % 16]]
  }

  /** `s.padStart(2, "0")`. */
  function PadStart2(s: string): string
  {
    if |s| >= 2 then s else seq(2 - |s|, _ => '0') + s
  }

  /** The `toHex` helper of `rgbToHex`. */
  function Hex2(n: nat): string
  {
    PadStart2(ToHex(n))
  }

  /** `rgbToHex`: '#' and the three channels in base 16. */
  function RgbToHex(r: nat, g: nat, b: nat): string
  {
    "#" + Hex2(r) + Hex2(g) + Hex2(b)
  }

  /** The lowercase form of a hexadecimal digit. */
  function Lower(c: char): (l: char)
    requires IsHexDigit(c)
    ensures IsLowerHexDigit(l)
  {
    if 'A' <= c <= 'F' then (c as int - 'A' as int + 'a' as int) as char else c
  }

  function LowerAll(s: string): (r: string)
    requires AllHex(s)
    ensures |r| == |s|
  {
    seq(|s|, i requires 0 <= i < |s| => Lower(s[i]))
  }

  // ---------------------------------------------------------------------------
  // Lemmas about the codec

  lemma HexDigitsAt(k: nat)
    requires k < 16
    ensures IsHexDigit(HexDigits[k]) && IsLowerHexDigit(HexDigits[k])
    ensures DigitValue(HexDigits[k]) == k
  {
  }

  lemma HexDigitsOfValue(c: char)
    requires IsHexDigit(c)
    ensures HexDigits[DigitValue(c)] == Lower(c)
  {
  }

  /** For a channel value, `toHex` gives exactly two lowercase digits: high, then low. */
  lemma Hex2OfByte(n: nat)
    requires n < 256
    ensures Hex2(n) == [HexDigits[n / 16], HexDigits[n % 16]]
  {
    if n >= 16 {
      assert ToHex(n / 16) == [HexDigits[n / 16]];
    }
  }

  lemma ParseHexTwo(x: char, y: char)
    requires IsHexDigit(x) && IsHexDigit(y)
    ensures AllHex([x, y])
    ensures ParseHex([x, y]) == DigitValue(x) * 16 + DigitValue(y)
  {
    assert [x, y][..1] == [x];
    assert [x][..0] == [];
    assert ParseHex([x]) == DigitValue(x);
  }

  /** Two digits parsed and re-encoded come back as their lowercase forms. */
  lemma Hex2OfPair(x: char, y: char)
    requires IsHexDigit(x) && IsHexDigit(y)
    ensures Hex2(ParseHex([x, y])) == [Lower(x), Lower(y)]
  {
    ParseHexTwo(x, y);
    var n := ParseHex([x, y]);
    Hex2OfByte(n);
    assert n / 16 == DigitValue(x) && n % 16 == DigitValue(y);
    HexDigitsOfValue(x);
    HexDigitsOfValue(y);
  }

  /** Parsing six digits reads them as three two-digit channels. */
  lemma ParseHexSix(s: string)
    requires |s| == 6 && AllHex(s)
    ensures AllHex(s[..2]) && AllHex(s[2..4]) && AllHex(s[4..])
    ensures ParseHex(s) == ParseHex(s[..2]) * 0x10000 + ParseHex(s[2..4]) * 0x100 + ParseHex(s[4..])
  {
    ParseHexTwo(s[0], s[1]);
    ParseHexTwo(s[2], s[3]);
    ParseHexTwo(s[4], s[5]);
    assert s[..2] == [s[0], s[1]];
    assert s[2..4] == [s[2], s[3]];
    assert s[4..] == [s[4], s[5]];
    assert s[..6] == s;
    assert s[..5][..4] == s[..4];
    assert s[..4][..3] == s[..3];
    assert s[..3][..2] == s[..2];
    assert s[..2][..1] == s[..1];
    assert s[..1][..0] == s[..0];
    var d0, d1, d2, d3, d4, d5 := DigitValue(s[0]), DigitValue(s[1]), DigitValue(s[2]), DigitValue(s[3]), DigitValue(s[4]), DigitValue(s[5]);
    assert ParseHex(s[..1]) == d0;
    assert ParseHex(s[..2]) == d0 * 16 + d1;
    assert ParseHex(s[..3]) == (d0 * 16 + d1) * 16 + d2;
    assert ParseHex(s[..4]) == ((d0 * 16 + d1) * 16 + d2) * 16 + d3;
    assert ParseHex(s[..5]) == (((d0 * 16 + d1) * 16 + d2) * 16 + d3) * 16 + d4;
    assert ParseHex(s) == ((((d0 * 16 + d1) * 16 + d2) * 16 + d3) * 16 + d4) * 16 + d5;
  }

  /** Three channels packed as `r * 2^16 + g * 2^8 + b` come back out of the shifts and masks. */
  lemma Unpack(r: nat, g: nat, b: nat)
    requires r < 256 && g < 256 && b < 256
    ensures ((r * 0x10000 + g * 0x100 + b) / 0x10000) % 256 == r
    ensures ((r * 0x10000 + g * 0x100 + b) / 0x100) % 256 == g
    ensures (r * 0x10000 + g * 0x100 + b) % 256 == b
  {
    var num := r * 0x10000 + g * 0x100 + b;
    assert num / 0x10000 == r;
    assert num / 0x100 == r * 256 + g;
    assert (r * 256 + g) % 256 == g;
  }

  /**
   * For channels 0..255, `rgbToHex` is '#' followed by exactly six lowercase
   * digits, each channel zero-padded to two and reading back as that channel.
   */
  lemma RgbToHexFormat(r: nat, g: nat, b: nat)
    requires r < 256 && g < 256 && b < 256
    ensures var s := RgbToHex(r, g, b);
      |s| == 7 && s[0] == '#' &&
      (forall i :: 1 <= i < 7 ==> IsLowerHexDigit(s[i])) &&
      AllHex(s[1..3]) && AllHex(s[3..5]) && AllHex(s[5..]) &&
      ParseHex(s[1..3]) == r && ParseHex(s[3..5]) == g && ParseHex(s[5..]) == b
  {
    Hex2Reads(r);
    Hex2Reads(g);
    Hex2Reads(b);
    var s := RgbToHex(r, g, b);
    assert s[1..3] == Hex2(r);
    assert s[3..5] == Hex2(g);
    assert s[5..] == Hex2(b);
  }

  /** A channel's two digits are lowercase hexadecimal and parse back to the channel. */
  lemma Hex2Reads(n: nat)
    requires n < 256
    ensures |Hex2(n)| == 2 && IsLowerHexDigit(Hex2(n)[0]) && IsLowerHexDigit(Hex2(n)[1])
    ensures AllHex(Hex2(n)) && ParseHex(Hex2(n)) == n
  {
    Hex2OfByte(n);
    HexDigitsAt(n / 16);
    HexDigitsAt(n % 16);
    ParseHexTwo(HexDigits[n / 16], HexDigits[n % 16]);
  }

  /** Round trip: decoding an encoded colour gives back its channels. */
  lemma DecodeEncode(r: nat, g: nat, b: nat)
    requires r < 256 && g < 256 && b < 256
    ensures HexInput(RgbToHex(r, g, b))
    ensures HexToRgb(RgbToHex(r, g, b)) == Rgb(r, g, b)
  {
    RgbToHexFormat(r, g, b);
    var s := RgbToHex(r, g, b);
    assert StripHash(s) == s[1..];
    assert HexColor(s);
    HexToRgbGroups(s);
    var f := Full(s);
    assert [f[0], f[1]] == s[1..3] && [f[2], f[3]] == s[3..5] && [f[4], f[5]] == s[5..];
  }

  /** A `#rgb` / `#rrggbb` colour decodes to the three two-digit groups of its full form. */
  lemma HexToRgbGroups(hex: string)
    requires HexColor(hex)
    ensures HexInput(hex)
    ensures var f := Full(hex);
      |f| == 6 && AllHex(f) &&
      HexToRgb(hex) == Rgb(ParseHex([f[0], f[1]]), ParseHex([f[2], f[3]]), ParseHex([f[4], f[5]]))
  {
    var f := Full(hex);
    ParseHexSix(f);
    assert f[..2] == [f[0], f[1]] && f[2..4] == [f[2], f[3]] && f[4..] == [f[4], f[5]];
    ParseHexTwo(f[0], f[1]);
    ParseHexTwo(f[2], f[3]);
    ParseHexTwo(f[4], f[5]);
    Unpack(ParseHex(f[..2]), ParseHex(f[2..4]), ParseHex(f[4..]));
  }

  /**
   * Round trip the other way: encoding a decoded `#rgb` / `#rrggbb` colour gives
   * its six-digit lowercase form with one '#'.
   */
  lemma EncodeDecode(hex: string)
    requires HexColor(hex)
    ensures HexInput(hex)
    ensures var c := HexToRgb(hex);
      c.r >= 0 && c.g >= 0 && c.b >= 0 &&
      RgbToHex(c.r, c.g, c.b) == "#" + LowerAll(Full(hex))
  {
    HexToRgbGroups(hex);
    EncodePairs(Full(hex));
  }

  /** Six digits read as three channels and written back give their lowercase form. */
  lemma EncodePairs(f: string)
    requires |f| == 6 && AllHex(f)
    ensures AllHex([f[0], f[1]]) && AllHex([f[2], f[3]]) && AllHex([f[4], f[5]])
    ensures RgbToHex(ParseHex([f[0], f[1]]), ParseHex([f[2], f[3]]), ParseHex([f[4], f[5]])) == "#" + LowerAll(f)
  {
    Hex2OfPair(f[0], f[1]);
    Hex2OfPair(f[2], f[3]);
    Hex2OfPair(f[4], f[5]);
    LowerAllSix(f);
  }

  /** The lowercase form of six digits, as three pairs. */
  lemma LowerAllSix(f: string)
    requires |f| == 6 && AllHex(f)
    ensures LowerAll(f) == [Lower(f[0]), Lower(f[1])] + [Lower(f[2]), Lower(f[3])] + [Lower(f[4]), Lower(f[5])]
  {
  }

  /** A 3-digit colour decodes exactly like its doubled 6-digit form ("#abc" like "#aabbcc"). */
  lemma ShortFormDoubles(h: string)
    requires |h| == 3 && AllHex(h)
    ensures HexInput(h) && HexInput("#" + h) && HexInput(Expand(h)) && HexInput("#" + Expand(h))
    ensures HexToRgb("#" + h) == HexToRgb("#" + Expand(h)) == HexToRgb(h) == HexToRgb(Expand(h))
  {
    assert StripHash("#" + h) == h;
    assert StripHash("#" + Expand(h)) == Expand(h);
  }

  /** At most one leading '#' is stripped, so "a1b2c3" and "#a1b2c3" decode identically. */
  lemma HashIsOptional(h: string)
    requires AllHex(h) && |h| <= 13
    ensures HexInput(h) && HexInput("#" + h)
    ensures HexToRgb("#" + h) == HexToRgb(h)
  {
    assert StripHash("#" + h) == h;
    assert |h| > 0 ==> IsHexDigit(h[0]);
  }

  // ---------------------------------------------------------------------------
  // makeShadowStack

  /** A soft glow layer: offset along `direction`, blur radius and alpha. */
  datatype Glow = Glow(offset: real, blur: real, alpha: real)

  /** `MakeShadowOpts` with every default filled in. */
  datatype ShadowOptions = ShadowOptions(
    steps: nat,
    startOffset: real,
    stepOffset: real,
    darkenPerStep: real,
    direction: (real, real),
    glows: seq<Glow>,
    includeGlows: bool,
    noBlur: bool,
    asTextShadow: bool)

  function DefaultGlows(): seq<Glow>
  {
    [Glow(2.0, 5.0, 0.05), Glow(3.0, 3.0, 0.20), Glow(9.0, 9.0, 0.30),
     Glow(12.0, 12.0, 0.30), Glow(15.0, 15.0, 0.30)]
  }

  /** The destructuring defaults of `makeShadowStack`. */
  function DefaultOptions(): ShadowOptions
  {
    ShadowOptions(8, 1.0, 1.0, 0.06, (-1.0, 1.0), DefaultGlows(), true, false, false)
  }

  /** One layer of the stack: a hard stepped layer or a soft glow. */
  datatype Layer =
    | Hard(x: real, y: real, color: string)
    | Soft(x: real, y: real, blur: real, rgb: Rgb, alpha: real)

  /** `darkenHex(hex, percent)`; its HSL arithmetic is not part of this model. */
  type Darken = (string, real) -> string

  /** JavaScript's conversion of a number to text inside a template literal. */
  type NumberText = real -> string

  /** How much hard layer `i` is darkened: `darkenPerStep * (i + 1)`. */
  function ShadePercent(opts: ShadowOptions, i: nat): real
  {
    opts.darkenPerStep * ((i + 1) as real)
  }

  /** Hard layer `i`: offset `startOffset + i * stepOffset` along `direction`, colour darkened by `ShadePercent`. */
  function HardLayer(base: string, opts: ShadowOptions, darken: Darken, i: nat): Layer
  {
    var off := opts.startOffset + (i as real) * opts.stepOffset;
    Hard(opts.direction.0 * off, opts.direction.1 * off, darken(base, ShadePercent(opts, i)))
  }

  /** A glow layer in the base colour with the glow's alpha; `noBlur` zeroes the blur. */
  function GlowLayer(rgb: Rgb, opts: ShadowOptions, gw: Glow): Layer
  {
    Soft(opts.direction.0 * gw.offset, opts.direction.1 * gw.offset,
         if opts.noBlur then 0.0 else gw.blur, rgb, gw.alpha)
  }

  /** The hard stepped layers, in order. */
  function HardLayers(base: string, opts: ShadowOptions, darken: Darken): (ls: seq<Layer>)
    ensures |ls| == opts.steps
    ensures forall i :: 0 <= i < opts.steps ==> ls[i] == HardLayer(base, opts, darken, i)
  {
    seq(opts.steps, i requires 0 <= i => HardLayer(base, opts, darken, i))
  }

  /** The glow layers, one per entry of `glows`, in order. */
  function GlowLayers(rgb: Rgb, opts: ShadowOptions): (ls: seq<Layer>)
    ensures |ls| == |opts.glows|
    ensures forall k :: 0 <= k < |ls| ==> ls[k] == GlowLayer(rgb, opts, opts.glows[k])
  {
    seq(|opts.glows|, k requires 0 <= k < |opts.glows| => GlowLayer(rgb, opts, opts.glows[k]))
  }

  /** The layers `makeShadowStack` pushes, in order. */
  function ShadowLayers(base: string, opts: ShadowOptions, darken: Darken): seq<Layer>
    requires opts.includeGlows ==> HexInput(base)
  {
    HardLayers(base, opts, darken) + (if opts.includeGlows then GlowLayers(HexToRgb(base), opts) else [])
  }

  /**
   * The stack has `steps` hard layers followed by one layer per glow when glows
   * are on, and nothing else: no layer at all when `steps` is 0 and glows are off.
   */
  lemma ShadowLayerCount(base: string, opts: ShadowOptions, darken: Darken)
    requires opts.includeGlows ==> HexInput(base)
    ensures var ls := ShadowLayers(base, opts, darken);
      |ls| == opts.steps + (if opts.includeGlows then |opts.glows| else 0) &&
      (opts.steps == 0 && !opts.includeGlows ==> ls == []) &&
      (forall i, j :: 0 <= i < j < |ls| && ls[j].Hard? ==> ls[i].Hard?)
  {
  }

  /**
   * Hard layer `i` sits at `startOffset + i * stepOffset` along `direction`, has
   * no blur and the base colour darkened by `darkenPerStep * (i + 1)`.
   */
  lemma HardLayerShape(base: string, opts: ShadowOptions, darken: Darken, i: nat)
    requires opts.includeGlows ==> HexInput(base)
    requires i < opts.steps
    ensures var l := ShadowLayers(base, opts, darken)[i];
      l.Hard? &&
      l.x == opts.direction.0 * (opts.startOffset + (i as real) * opts.stepOffset) &&
      l.y == opts.direction.1 * (opts.startOffset + (i as real) * opts.stepOffset) &&
      l.color == darken(base, opts.darkenPerStep * ((i + 1) as real))
  {
    var hs := HardLayers(base, opts, darken);
    assert ShadowLayers(base, opts, darken)[i] == hs[i] == HardLayer(base, opts, darken, i);
    assert ShadePercent(opts, i) == opts.darkenPerStep * ((i + 1) as real);
  }

  /**
   * Glow layer `k` uses the base colour's channels with the glow's alpha, its
   * offset along `direction`, and blur 0 under `noBlur`, the glow's blur otherwise.
   */
  lemma GlowLayerShape(base: string, opts: ShadowOptions, darken: Darken, k: nat)
    requires opts.includeGlows && HexInput(base)
    requires k < |opts.glows|
    ensures var l := ShadowLayers(base, opts, darken)[opts.steps + k];
      l.Soft? && l.rgb == HexToRgb(base) && l.alpha == opts.glows[k].alpha &&
      l.blur == (if opts.noBlur then 0.0 else opts.glows[k].blur) &&
      l.x == opts.direction.0 * opts.glows[k].offset &&
      l.y == opts.direction.1 * opts.glows[k].offset
  {
    var gs := GlowLayers(HexToRgb(base), opts);
    assert ShadowLayers(base, opts, darken)[opts.steps + k] == gs[k];
  }

  /** `asTextShadow` selects between two identical templates: it changes no layer. */
  lemma TextShadowSameLayers(base: string, opts: ShadowOptions, darken: Darken)
    requires opts.includeGlows ==> HexInput(base)
    ensures ShadowLayers(base, opts.(asTextShadow := true), darken) == ShadowLayers(base, opts.(asTextShadow := false), darken)
  {
    HardLayersIgnoreText(base, opts, darken);
    if opts.includeGlows {
      GlowLayersIgnoreText(HexToRgb(base), opts);
    }
  }

  lemma HardLayersIgnoreText(base: string, opts: ShadowOptions, darken: Darken)
    ensures HardLayers(base, opts.(asTextShadow := true), darken) == HardLayers(base, opts.(asTextShadow := false), darken)
  {
    var t, f := opts.(asTextShadow := true), opts.(asTextShadow := false);
    forall i: nat | i < opts.steps
      ensures HardLayer(base, t, darken, i) == HardLayer(base, f, darken, i)
    {
      assert ShadePercent(t, i) == ShadePercent(f, i);
    }
  }

  lemma GlowLayersIgnoreText(c: Rgb, opts: ShadowOptions)
    ensures GlowLayers(c, opts.(asTextShadow := true)) == GlowLayers(c, opts.(asTextShadow := false))
  {
    var t, f := opts.(asTextShadow := true), opts.(asTextShadow := false);
    assert forall k :: 0 <= k < |opts.glows| ==> GlowLayer(c, t, opts.glows[k]) == GlowLayer(c, f, opts.glows[k]);
  }

  /** The text of one layer; a hard layer's blur is written as a bare `0`. */
  function LayerText(l: Layer, num: NumberText): string
  {
    match l
    case Hard(x, y, color) => num(x) + "px " + num(y) + "px 0 " + color
    case Soft(x, y, blur, c, alpha) =>
      num(x) + "px " + num(y) + "px " + num(blur) + "px " +
      "rgba(" + num(c.r as real) + ", " + num(c.g as real) + ", " + num(c.b as real) + ", " + num(alpha) + ")"
  }

  function LayerTexts(ls: seq<Layer>, num: NumberText): (ts: seq<string>)
    ensures |ts| == |ls|
  {
    seq(|ls|, i requires 0 <= i < |ls| => LayerText(ls[i], num))
  }

  lemma LayerTextsSnoc(ls: seq<Layer>, i: nat, num: NumberText)
    requires i < |ls|
    ensures LayerTexts(ls[..i + 1], num) == LayerTexts(ls[..i], num) + [LayerText(ls[i], num)]
  {
  }

  /**
   * The `glows.forEach` pass of `makeShadowStack`: one glow text per glow pushed
   * onto `parts`, each in the base colour `c`.
   */
  method PushGlows(parts: seq<string>, c: Rgb, opts: ShadowOptions, num: NumberText) returns (out: seq<string>)
    ensures out == parts + LayerTexts(GlowLayers(c, opts), num)
  {
    ghost var gs := GlowLayers(c, opts);
    out := parts;
    var k := 0;
    while k < |opts.glows|
      invariant 0 <= k <= |opts.glows|
      invariant out == parts + LayerTexts(gs[..k], num)
    {
      var gw := opts.glows[k];
      var x := opts.direction.0 * gw.offset;
      var y := opts.direction.1 * gw.offset;
      var rgba := "rgba(" + num(c.r as real) + ", " + num(c.g as real) + ", " + num(c.b as real) + ", " + num(gw.alpha) + ")";
      var blur := if opts.noBlur then 0.0 else gw.blur;
      var piece := if opts.asTextShadow
        then num(x) + "px " + num(y) + "px " + num(blur) + "px " + rgba
        else num(x) + "px " + num(y) + "px " + num(blur) + "px " + rgba;
      assert gs[k] == Soft(x, y, blur, c, gw.alpha);
      assert piece == LayerText(gs[k], num);
      LayerTextsSnoc(gs, k, num);
      out := out + [piece];
      k := k + 1;
    }
    assert gs[..k] == gs;
  }

  /** The hard-layer loop of `makeShadowStack`: one piece per step, in order. */
  method PushHardLayers(base: string, opts: ShadowOptions, darken: Darken, num: NumberText) returns (parts: seq<string>)
    ensures parts == LayerTexts(HardLayers(base, opts, darken), num)
  {
    ghost var hs := HardLayers(base, opts, darken);
    parts := [];
    var i := 0;
    while i < opts.steps
      invariant 0 <= i <= opts.steps
      invariant parts == LayerTexts(hs[..i], num)
    {
      var off := opts.startOffset + (i as real) * opts.stepOffset;
      var x := opts.direction.0 * off;
      var y := opts.direction.1 * off;
      var shade := darken(base, opts.darkenPerStep * ((i + 1) as real));
      var piece := if opts.asTextShadow
        then num(x) + "px " + num(y) + "px 0 " + shade
        else num(x) + "px " + num(y) + "px 0 " + shade;
      assert ShadePercent(opts, i) == opts.darkenPerStep * ((i + 1) as real);
      assert hs[i] == Hard(x, y, shade);
      assert piece == LayerText(hs[i], num);
      LayerTextsSnoc(hs, i, num);
      parts := parts + [piece];
      i := i + 1;
    }
    assert hs[..i] == hs;
  }

  /** The texts of two layer lists one after the other. */
  lemma LayerTextsAppend(a: seq<Layer>, b: seq<Layer>, num: NumberText)
    ensures LayerTexts(a + b, num) == LayerTexts(a, num) + LayerTexts(b, num)
  {
  }

  /**
   * `makeShadowStack`: the hard layers, then (when `includeGlows`) one glow layer
   * per entry of `glows`, joined by ", ". Both branches of `asTextShadow` write the
   * same text, so the result does not depend on it.
   */
  method MakeShadowStack(base: string, opts: ShadowOptions, darken: Darken, num: NumberText) returns (css: string)
    requires opts.includeGlows ==> HexInput(base)
    ensures css == Strings.Join(LayerTexts(ShadowLayers(base, opts, darken), num), ", ")
  {
    var parts := PushHardLayers(base, opts, darken, num);
    ghost var hs := HardLayers(base, opts, darken);
    if opts.includeGlows {
      var c := HexToRgb(base);
      parts := PushGlows(parts, c, opts, num);
      LayerTextsAppend(hs, GlowLayers(c, opts), num);
    } else {
      assert hs + [] == hs;
    }
    css := Strings.Join(parts, ", ");
  }
}
