/** The shared colour-stop model and the colour-space converters of the gradient reader. */
module Colour {
  import opened Wrappers
  import opened Js

  /** One stop of a gradient. Alpha and Midpoint may be absent (`undefined`) in stops the
      writers receive; the writers then use 1 and 0.5. */
  datatype ColorStop = ColorStop(
    Red: real, Green: real, Blue: real, Alpha: Option<real>, Position: real, Midpoint: Option<real>)

  datatype Rgb = Rgb(Red: real, Green: real, Blue: real)

  /** What the host's gradient sampler returns for a position. */
  datatype Rgba = Rgba(Red: real, Green: real, Blue: real, Alpha: real)

  /** A named gradient, with the group the hierarchy assigned it, if any. */
  datatype Palette = Palette(Name: JsString, Colours: seq<ColorStop>, Group: Option<JsString>)

  datatype GroupCount = GroupCount(name: JsString, count: nat)

  /** A collection of gradients read from one file, or about to be written to one. */
  datatype PaletteData = PaletteData(Name: JsString, Palettes: seq<Palette>, Groups: seq<GroupCount>)

  /** The Midpoint a writer uses: the stop's own, or 0.5 when it has none. */
  function MidpointOf(c: ColorStop): real {
    c.Midpoint.GetOr(1.0 / 2.0)
  }

  /** The Alpha a writer uses: the stop's own, or 1 when it has none. */
  function AlphaOf(c: ColorStop): real {
    c.Alpha.GetOr(1.0)
  }

  predicate InUnit(x: real) {
    0.0 <= x <= 1.0
  }

  /** `clamp01`: the nearest value in [0, 1]. */
  function Clamp01(x: real): (r: real)
    ensures InUnit(r)
    ensures InUnit(x) ==> r == x
    ensures x < 0.0 ==> r == 0.0
    ensures x > 1.0 ==> r == 1.0
  {
    if x < 0.0 then 0.0 else if x > 1.0 then 1.0 else x
  }

  /** `HSVtoRGB`: the six-sector hexagonal conversion. The sector is `Math.floor(h * 6) % 6`
      with JavaScript's remainder, so when `floor(6h)` is negative and not a multiple of 6
      (h = -1/12, say) no case of the switch matches and the channels are undefined (None). */
  function HsvToRgb(h: real, s: real, v: real): (r: Option<Rgb>)
    ensures h >= 0.0 ==> r.Some?
    ensures -1.0 / 6.0 <= h < 0.0 ==> r.None?
  {
    var i := (h * 6.0).Floor;
    SectorColour(TruncRem(i, 6), s, v, h * 6.0 - i as real)
  }

  /** The `switch (i % 6)` of `HSVtoRGB`, f being how far into sector k the hue lies:
      which of v, p, q, t goes to which channel. */
  function SectorColour(k: int, s: real, v: real, f: real): (r: Option<Rgb>)
    ensures r.Some? <==> 0 <= k < 6
  {
    var p := v * (1.0 - s);
    var q := v * (1.0 - f * s);
    var t := v * (1.0 - (1.0 - f) * s);
    match k
    case 0 => Some(Rgb(v, t, p))
    case 1 => Some(Rgb(q, v, p))
    case 2 => Some(Rgb(p, v, t))
    case 3 => Some(Rgb(p, q, v))
    case 4 => Some(Rgb(t, p, v))
    case 5 => Some(Rgb(v, p, q))
    case _ => None
  }

  lemma ProductBounds(v: real, x: real)
    requires InUnit(v) && InUnit(x)
    ensures 0.0 <= v * x <= v
  {
  }

  /** The three intermediate terms of the conversion lie between v * (1 - s) and v. */
  lemma SectorTerms(s: real, v: real, f: real, p: real, q: real, t: real)
    requires InUnit(s) && InUnit(v) && 0.0 <= f < 1.0
    requires p == v * (1.0 - s) && q == v * (1.0 - f * s) && t == v * (1.0 - (1.0 - f) * s)
    ensures 0.0 <= p <= q <= v && p <= t <= v
  {
    assert 0.0 <= f * s <= s by { ProductBounds(s, f); }
    assert 0.0 <= (1.0 - f) * s <= s by { ProductBounds(s, 1.0 - f); }
    ProductBounds(v, 1.0 - s);
    ProductBounds(v, 1.0 - f * s);
    ProductBounds(v, 1.0 - (1.0 - f) * s);
    assert p <= q by { assert q - p == v * (s - f * s); ProductBounds(v, s - f * s); }
    assert p <= t by { assert t - p == v * (s - (1.0 - f) * s); ProductBounds(v, s - (1.0 - f) * s); }
  }

  /** In every sector one channel is v, one is v * (1 - s), and all lie between the two. */
  lemma SectorColourBounds(k: int, s: real, v: real, f: real)
    requires 0 <= k < 6 && InUnit(s) && InUnit(v) && 0.0 <= f < 1.0
    ensures var c, lo := SectorColour(k, s, v, f).value, v * (1.0 - s);
      && InUnit(c.Red) && InUnit(c.Green) && InUnit(c.Blue)
      && lo <= c.Red <= v && lo <= c.Green <= v && lo <= c.Blue <= v
      && (c.Red == v || c.Green == v || c.Blue == v)
      && (c.Red == lo || c.Green == lo || c.Blue == lo)
  {
    var p := v * (1.0 - s);
    var q := v * (1.0 - f * s);
    var t := v * (1.0 - (1.0 - f) * s);
    SectorTerms(s, v, f, p, q, t);
    var c := SectorColour(k, s, v, f).value;
    if k == 0 {
      assert c == Rgb(v, t, p);
    } else if k == 1 {
      assert c == Rgb(q, v, p);
    } else if k == 2 {
      assert c == Rgb(p, v, t);
    } else if k == 3 {
      assert c == Rgb(p, q, v);
    } else if k == 4 {
      assert c == Rgb(t, p, v);
    } else {
      assert c == Rgb(v, p, q);
    }
  }

  /** A hue of at least 0 falls in one of the six sectors, at a fraction f in [0, 1) of it. */
  lemma HsvSector(h: real, s: real, v: real, i: int, f: real)
    requires h >= 0.0 && i == (h * 6.0).Floor && f == h * 6.0 - i as real
    ensures 0 <= TruncRem(i, 6) < 6 && 0.0 <= f < 1.0
    ensures HsvToRgb(h, s, v) == SectorColour(TruncRem(i, 6), s, v, f)
  {
  }

  /** For a hue of at least 0 and saturation and brightness in [0, 1], every channel is in
      [0, 1], the largest channel is the brightness and the smallest is v * (1 - s). */
  lemma HsvToRgbChannels(h: real, s: real, v: real)
    requires h >= 0.0 && InUnit(s) && InUnit(v)
    ensures var c, lo := HsvToRgb(h, s, v).value, v * (1.0 - s);
      && InUnit(c.Red) && InUnit(c.Green) && InUnit(c.Blue)
      && lo <= c.Red <= v && lo <= c.Green <= v && lo <= c.Blue <= v
      && (c.Red == v || c.Green == v || c.Blue == v)
      && (c.Red == lo || c.Green == lo || c.Blue == lo)
  {
    var i := (h * 6.0).Floor;
    var f := h * 6.0 - i as real;
    HsvSector(h, s, v, i, f);
    SectorColourBounds(TruncRem(i, 6), s, v, f);
  }

  /** With no saturation every channel equals the brightness, whatever the hue. */
  lemma HsvToRgbGrey(h: real, v: real)
    requires h >= 0.0
    ensures HsvToRgb(h, 0.0, v) == Some(Rgb(v, v, v))
  {
  }

  /** The reference vectors: black, pure red, and a full turn of hue wrapping back to red. */
  lemma HsvToRgbVectors()
    ensures HsvToRgb(0.0, 0.0, 0.0) == Some(Rgb(0.0, 0.0, 0.0))
    ensures HsvToRgb(0.0, 1.0, 1.0) == Some(Rgb(1.0, 0.0, 0.0))
    ensures HsvToRgb(1.0, 1.0, 1.0) == Some(Rgb(1.0, 0.0, 0.0))
  {
    assert (6.0).Floor == 6;
    assert (0.0).Floor == 0;
  }

  /** The conversion as evidently intended: the sector index taken modulo 6 into 0..5 for
      every hue, so that a hue below 0 names the same colour as that hue plus a whole turn. */
  function HsvToRgbWrapped(h: real, s: real, v: real): (r: Rgb)
    ensures h >= 0.0 ==> HsvToRgb(h, s, v) == Some(r)
  {
    var i := (h * 6.0).Floor;
    SectorColour(i % 6, s, v, h * 6.0 - i as real).value
  }

  /** The intended conversion is periodic in whole turns and keeps every channel in [0, 1],
      whatever the hue. */
  lemma HsvToRgbWrappedTurn(h: real, s: real, v: real)
    ensures HsvToRgbWrapped(h - 1.0, s, v) == HsvToRgbWrapped(h, s, v)
    ensures InUnit(s) && InUnit(v) ==>
      var c := HsvToRgbWrapped(h, s, v);
      InUnit(c.Red) && InUnit(c.Green) && InUnit(c.Blue)
  {
    var i := (h * 6.0).Floor;
    assert ((h - 1.0) * 6.0).Floor == i - 6;
    assert (i - 6) % 6 == i % 6;
    if InUnit(s) && InUnit(v) {
      SectorColourBounds(i % 6, s, v, h * 6.0 - i as real);
    }
  }

  /** A hue of -30 degrees (h = -1/12): `i % 6` is -1, no case of the switch matches and the
      channels stay undefined, where the intended conversion gives the colour of 330 degrees. */
  lemma NegativeHueUndefined()
    ensures HsvToRgb(-1.0 / 12.0, 1.0, 1.0) == None
    ensures HsvToRgbWrapped(-1.0 / 12.0, 1.0, 1.0) == Rgb(1.0, 0.0, 1.0 / 2.0)
    ensures HsvToRgbWrapped(-1.0 / 12.0, 1.0, 1.0) == HsvToRgb(11.0 / 12.0, 1.0, 1.0).value
  {
    assert (-1.0 / 12.0 * 6.0).Floor == -1;
    assert (11.0 / 12.0 * 6.0).Floor == 5;
  }

  /** `CMYKtoRGB`: the naive multiplicative conversion, each channel clamped to [0, 1]. */
  function CmykToRgb(c: real, m: real, y: real, k: real): (r: Rgb)
    ensures InUnit(r.Red) && InUnit(r.Green) && InUnit(r.Blue)
    ensures k == 1.0 ==> r == Rgb(0.0, 0.0, 0.0)
  {
    var w := 1.0 - k;
    assert w == 0.0 ==> (1.0 - c) * w == 0.0;
    assert w == 0.0 ==> (1.0 - m) * w == 0.0;
    assert w == 0.0 ==> (1.0 - y) * w == 0.0;
    Rgb(Clamp01((1.0 - c) * w), Clamp01((1.0 - m) * w), Clamp01((1.0 - y) * w))
  }

  /** Inside the unit cube no clamping happens: each channel is the product of the two
      complements, and white ink on white paper stays white. */
  lemma CmykToRgbUnclamped(c: real, m: real, y: real, k: real)
    requires InUnit(c) && InUnit(m) && InUnit(y) && InUnit(k)
    ensures CmykToRgb(c, m, y, k) == Rgb((1.0 - c) * (1.0 - k), (1.0 - m) * (1.0 - k), (1.0 - y) * (1.0 - k))
    ensures CmykToRgb(0.0, 0.0, 0.0, 0.0) == Rgb(1.0, 1.0, 1.0)
  {
    var w := 1.0 - k;
    ChannelUnclamped(c, w);
    ChannelUnclamped(m, w);
    ChannelUnclamped(y, w);
    assert CmykToRgb(c, m, y, k) == Rgb(Clamp01((1.0 - c) * w), Clamp01((1.0 - m) * w), Clamp01((1.0 - y) * w));
  }

  /** One channel of the conversion inside the unit cube needs no clamping. */
  lemma ChannelUnclamped(x: real, w: real)
    requires InUnit(x) && InUnit(w)
    ensures Clamp01((1.0 - x) * w) == (1.0 - x) * w
  {
    ProductBounds(1.0 - x, w);
  }
}
