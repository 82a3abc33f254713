/**
Lifting a text colour for the dark canvas (`lightenForDark`): RGB to HSL, a floor of 0.8 under the
lightness, and back. Channels are real numbers between 0 and 1 until they are rounded to 0..255.
*/
module DarkColour {

  datatype Rgb = Rgb(r: real, g: real, b: real)

  /** Hue in degrees, saturation and lightness between 0 and 1. */
  datatype Hsl = Hsl(h: real, s: real, l: real)

  predicate InUnit(v: real) {
    0.0 <= v <= 1.0
  }

  predicate IsColour(c: Rgb) {
    InUnit(c.r) && InUnit(c.g) && InUnit(c.b)
  }

  function Abs(x: real): real {
    if x < 0.0 then -x else x
  }

  function Max(x: real, y: real): real {
    if x < y then y else x
  }

  function Min(x: real, y: real): real {
    if x < y then x else y
  }

  function MaxOf(c: Rgb): (m: real)
    ensures m >= c.r && m >= c.g && m >= c.b && (m == c.r || m == c.g || m == c.b)
  {
    Max(c.r, Max(c.g, c.b))
  }

  function MinOf(c: Rgb): (m: real)
    ensures m <= c.r && m <= c.g && m <= c.b && (m == c.r || m == c.g || m == c.b)
  {
    Min(c.r, Min(c.g, c.b))
  }

  function Spread(c: Rgb): (d: real)
    ensures d >= 0.0
  {
    MaxOf(c) - MinOf(c)
  }

  function Lightness(c: Rgb): real {
    (MaxOf(c) + MinOf(c)) / 2.0
  }

  function Times(x: real, y: real): real {
    x * y
  }

  function Over(n: real, d: real): real
    requires d != 0.0
  {
    n / d
  }

  /** JavaScript's `%` on a dividend that may be negative. */
  function Rem(x: real, m: real): real
    requires m > 0.0
  {
    if x >= 0.0 then x - m * (x / m).Floor as real else -(-x - m * (-x / m).Floor as real)
  }

  /** The widest chroma at a lightness. */
  function Room(l: real): real {
    1.0 - Abs(2.0 * l - 1.0)
  }

  lemma SpreadFits(c: Rgb)
    requires IsColour(c)
    ensures Spread(c) <= Room(Lightness(c)) && InUnit(Lightness(c))
  {
  }

  function Hue(c: Rgb): real
    requires Spread(c) != 0.0
  {
    var d := Spread(c);
    var sixths :=
      if MaxOf(c) == c.r then Rem(Over(c.g - c.b, d), 6.0)
      else if MaxOf(c) == c.g then Over(c.b - c.r, d) + 2.0
      else Over(c.r - c.g, d) + 4.0;
    var h := sixths * 60.0;
    if h < 0.0 then h + 360.0 else h
  }

  function Saturation(c: Rgb): real
    requires IsColour(c)
  {
    if Spread(c) == 0.0 then 0.0 else SpreadFits(c); Over(Spread(c), Room(Lightness(c)))
  }

  function ToHsl(c: Rgb): Hsl
    requires IsColour(c)
  {
    Hsl(if Spread(c) == 0.0 then 0.0 else Hue(c), Saturation(c), Lightness(c))
  }

  /** The share of the middle channel at a hue. */
  function Weight(h: real): real {
    1.0 - Abs(Rem(h / 60.0, 2.0) - 1.0)
  }

  /** Large, middle and small channel, put in the order of the hue's sector. */
  function InSector(h: real, c: real, x: real, m: real): Rgb {
    if h < 60.0 then Rgb(c + m, x + m, m)
    else if h < 120.0 then Rgb(x + m, c + m, m)
    else if h < 180.0 then Rgb(m, c + m, x + m)
    else if h < 240.0 then Rgb(m, x + m, c + m)
    else if h < 300.0 then Rgb(x + m, m, c + m)
    else Rgb(c + m, m, x + m)
  }

  function Chroma(s: real, l: real): real {
    Times(Room(l), s)
  }

  function FromHsl(k: Hsl): Rgb {
    var c := Chroma(k.s, k.l);
    InSector(k.h, c, Times(c, Weight(k.h)), k.l - c / 2.0)
  }

  const FLOOR := 0.8

  /** The lifted colour, before rounding. */
  function Lighten(c: Rgb): Rgb
    requires IsColour(c)
  {
    var k := ToHsl(c);
    FromHsl(k.(l := Max(k.l, FLOOR)))
  }

  /******* The affine form *******/

  /** Where a channel lies between the smallest and the largest one. */
  function Share(c: Rgb, v: real): real
    requires Spread(c) != 0.0
  {
    Over(v - MinOf(c), Spread(c))
  }

  lemma Quotient(n: real, d: real)
    requires 0.0 <= n <= d && 0.0 < d
    ensures 0.0 <= Over(n, d) <= 1.0 && Times(d, Over(n, d)) == n
    ensures (Over(n, d) == 1.0 <==> n == d) && (Over(n, d) == 0.0 <==> n == 0.0)
  {
  }

  lemma ShareBounds(c: Rgb, v: real)
    requires Spread(c) != 0.0 && MinOf(c) <= v <= MaxOf(c)
    ensures 0.0 <= Share(c, v) <= 1.0
    ensures v == MinOf(c) ==> Share(c, v) == 0.0
    ensures Share(c, v) == 1.0 <==> v == MaxOf(c)
    ensures Times(Spread(c), Share(c, v)) == v - MinOf(c)
  {
    hide Times, Over;
    Quotient(v - MinOf(c), Spread(c));
  }

  function SharesOf(c: Rgb): Rgb
    requires Spread(c) != 0.0
  {
    Rgb(Share(c, c.r), Share(c, c.g), Share(c, c.b))
  }

  /** Each channel of `shares` mapped to `m + chroma * v`. */
  function Scale(shares: Rgb, chroma: real, m: real): Rgb {
    Rgb(m + Times(chroma, shares.r), m + Times(chroma, shares.g), m + Times(chroma, shares.b))
  }

  /** Every channel mapped by one affine function, with the chroma of the saturation at lightness `l`. */
  function Affine(c: Rgb, l: real): Rgb
    requires IsColour(c) && Spread(c) != 0.0
  {
    AroundLightness(SharesOf(c), Chroma(Saturation(c), l), l)
  }

  function AroundLightness(shares: Rgb, chroma: real, l: real): Rgb {
    Scale(shares, chroma, l - chroma / 2.0)
  }

  lemma RemSix(x: real)
    requires -1.0 <= x <= 1.0
    ensures Rem(x, 6.0) == x
  {
  }

  /** Differences of shares, as the hue uses them. */
  lemma ShareDifference(c: Rgb, v: real, w: real)
    requires Spread(c) != 0.0
    ensures Over(v - w, Spread(c)) == Share(c, v) - Share(c, w)
  {
  }

  /** The hue in terms of shares, sector by sector. */
  lemma HueOfShares(c: Rgb)
    requires Spread(c) != 0.0
    ensures var r, g, b := Share(c, c.r), Share(c, c.g), Share(c, c.b);
            Hue(c) == 60.0 * (
              if MaxOf(c) == c.r then (if g >= b then g - b else g - b + 6.0)
              else if MaxOf(c) == c.g then b - r + 2.0
              else r - g + 4.0)
  {
    hide Over, Times, Share;
    ShareBounds(c, c.r); ShareBounds(c, c.g); ShareBounds(c, c.b);
    ShareDifference(c, c.g, c.b); ShareDifference(c, c.b, c.r); ShareDifference(c, c.r, c.g);
    RemSix(Share(c, c.g) - Share(c, c.b));
  }

  lemma SomeChannelIsSmallest(c: Rgb)
    requires Spread(c) != 0.0
    ensures Share(c, c.r) == 0.0 || Share(c, c.g) == 0.0 || Share(c, c.b) == 0.0
    ensures MaxOf(c) == c.r ==> Share(c, c.r) == 1.0 && (Share(c, c.g) == 0.0 || Share(c, c.b) == 0.0)
    ensures MaxOf(c) == c.g ==> Share(c, c.g) == 1.0 && (Share(c, c.r) == 0.0 || Share(c, c.b) == 0.0)
    ensures MaxOf(c) == c.b ==> Share(c, c.b) == 1.0 && (Share(c, c.r) == 0.0 || Share(c, c.g) == 0.0)
  {
    hide Over, Times, Share;
    ShareBounds(c, c.r); ShareBounds(c, c.g); ShareBounds(c, c.b);
  }

  /** The shares of the three channels at a hue. */
  function SharesAt(h: real): Rgb {
    InSector(h, 1.0, Weight(h), 0.0)
  }

  /** Red is largest: from magenta over red to yellow. */
  lemma RedSector(g: real, b: real)
    requires InUnit(g) && InUnit(b) && (g == 0.0 || b == 0.0)
    ensures SharesAt(60.0 * (if g >= b then g - b else g - b + 6.0)) == Rgb(1.0, g, b)
  {
  }

  /** Green is largest: from yellow over green to cyan. */
  lemma GreenSector(r: real, b: real)
    requires InUnit(r) && InUnit(b) && (r == 0.0 || b == 0.0)
    ensures SharesAt(60.0 * (b - r + 2.0)) == Rgb(r, 1.0, b)
  {
  }

  /** Blue is largest: from cyan over blue to magenta. */
  lemma BlueSector(r: real, g: real)
    requires InUnit(r) && InUnit(g) && (r == 0.0 || g == 0.0)
    ensures SharesAt(60.0 * (r - g + 4.0)) == Rgb(r, g, 1.0)
  {
  }

  /** The hue determines the shares, in all six sectors and on their ties. */
  lemma HueGivesShares(c: Rgb)
    requires Spread(c) != 0.0
    ensures SharesAt(Hue(c)) == SharesOf(c)
  {
    hide Over, Times, Share, Hue, SharesAt;
    var r, g, b := Share(c, c.r), Share(c, c.g), Share(c, c.b);
    ShareBounds(c, c.r); ShareBounds(c, c.g); ShareBounds(c, c.b);
    SomeChannelIsSmallest(c);
    HueOfShares(c);
    if MaxOf(c) == c.r {
      RedSector(g, b);
    } else if MaxOf(c) == c.g {
      GreenSector(r, b);
    } else {
      BlueSector(r, g);
    }
  }

  lemma FromHslScales(h: real, s: real, l: real)
    ensures FromHsl(Hsl(h, s, l)) == AroundLightness(SharesAt(h), Chroma(s, l), l)
  {
  }

  /** The way back from HSL, at any lightness, is the affine map. */
  lemma FromHslIsAffine(c: Rgb, l: real)
    requires IsColour(c) && Spread(c) != 0.0
    ensures FromHsl(ToHsl(c).(l := l)) == Affine(c, l)
  {
    hide FromHsl, Hue, Saturation, SharesAt, SharesOf, Scale, Chroma;
    FromHslScales(Hue(c), Saturation(c), l);
    HueGivesShares(c);
  }

  /******* What lifting keeps *******/

  lemma SaturationFits(c: Rgb)
    requires IsColour(c)
    ensures InUnit(Saturation(c)) && (Spread(c) != 0.0 ==> Saturation(c) > 0.0)
    ensures Chroma(Saturation(c), Lightness(c)) == Spread(c)
  {
    var d, w := Spread(c), Room(Lightness(c));
    assert Times(w, 0.0) == 0.0;
    hide Spread, Room, Lightness, Times, Over;
    if d != 0.0 { Quotient(d, w); }
  }

  lemma ScaleBounds(k: real, x: real)
    requires 0.0 <= k && InUnit(x)
    ensures 0.0 <= Times(k, x) <= k && (x == 0.0 ==> Times(k, x) == 0.0) && (x == 1.0 ==> Times(k, x) == k)
    ensures k > 0.0 && x > 0.0 ==> Times(k, x) > 0.0
  {
  }

  lemma ScaleExtremes(s: Rgb, k: real, m: real)
    requires IsColour(s) && 0.0 <= k && MaxOf(s) == 1.0 && MinOf(s) == 0.0
    ensures MaxOf(Scale(s, k, m)) == m + k && MinOf(Scale(s, k, m)) == m
  {
    hide Times;
    ScaleBounds(k, s.r); ScaleBounds(k, s.g); ScaleBounds(k, s.b);
  }

  lemma SharesSpan(c: Rgb)
    requires Spread(c) != 0.0
    ensures IsColour(SharesOf(c)) && MaxOf(SharesOf(c)) == 1.0 && MinOf(SharesOf(c)) == 0.0
  {
    ShareBounds(c, c.r); ShareBounds(c, c.g); ShareBounds(c, c.b);
    SomeChannelIsSmallest(c);
  }

  lemma ChromaFits(s: real, l: real)
    requires InUnit(s) && InUnit(l)
    ensures 0.0 <= Chroma(s, l) <= Room(l)
    ensures s > 0.0 && Room(l) > 0.0 ==> Chroma(s, l) > 0.0
  {
    assert Room(l) >= 0.0;
    hide Room, Times;
    ScaleBounds(Room(l), s);
  }

  /** The image around a lightness: its lightness, spread, and range. */
  lemma AroundLightnessExtremes(s: Rgb, k: real, l: real)
    requires IsColour(s) && MaxOf(s) == 1.0 && MinOf(s) == 0.0 && 0.0 <= k <= Room(l)
    ensures var a := AroundLightness(s, k, l);
            && Lightness(a) == l && Spread(a) == k && MinOf(a) == l - k / 2.0 && MaxOf(a) == l + k / 2.0
            && IsColour(a)
  {
    hide Times, Scale;
    ScaleExtremes(s, k, l - k / 2.0);
  }

  lemma Cancel(k: real, x: real)
    requires k != 0.0
    ensures Over(Times(k, x), k) == x
  {
  }

  /** Scaling does not change the shares. */
  lemma ScaleKeepsShares(s: Rgb, k: real, l: real)
    requires IsColour(s) && MaxOf(s) == 1.0 && MinOf(s) == 0.0 && 0.0 < k <= Room(l)
    ensures Spread(AroundLightness(s, k, l)) != 0.0 && SharesOf(AroundLightness(s, k, l)) == s
  {
    hide MaxOf, MinOf, Spread, Lightness, Room, Times, Over;
    AroundLightnessExtremes(s, k, l);
    var m := l - k / 2.0;
    assert forall x :: m + Times(k, x) - m == Times(k, x);
    Cancel(k, s.r); Cancel(k, s.g); Cancel(k, s.b);
  }

  /** Colours with the same shares have the same hue. */
  lemma SharesGiveHue(c: Rgb, e: Rgb)
    requires Spread(c) != 0.0 && Spread(e) != 0.0 && SharesOf(c) == SharesOf(e)
    ensures Hue(c) == Hue(e)
  {
    hide Over, Times, Share, Hue;
    HueOfShares(c); HueOfShares(e);
    ShareBounds(c, c.r); ShareBounds(c, c.g); ShareBounds(c, c.b);
    ShareBounds(e, e.r); ShareBounds(e, e.g); ShareBounds(e, e.b);
  }

  lemma RoomInside(l: real)
    requires 0.0 < l < 1.0
    ensures Room(l) > 0.0
  {
  }

  lemma ColouredIsInside(c: Rgb)
    requires IsColour(c) && Spread(c) != 0.0
    ensures 0.0 < Lightness(c) < 1.0
  {
  }

  lemma SaturationBack(e: Rgb, s: real, l: real)
    requires IsColour(e) && Spread(e) != 0.0 && Spread(e) == Chroma(s, l) && Lightness(e) == l && Room(l) > 0.0
    ensures Saturation(e) == s
  {
    hide Over, Times, Spread, Room, Lightness;
    Cancel(Room(l), s);
  }

  /**
  Hue and saturation survive a change of lightness: reading back the colour made at lightness `l`
  gives the hue and saturation it was made from, and `l`.
  */
  lemma HslSurvives(c: Rgb, l: real)
    requires IsColour(c) && Spread(c) != 0.0 && 0.0 < l < 1.0
    ensures IsColour(Affine(c, l)) && ToHsl(Affine(c, l)) == ToHsl(c).(l := l)
  {
    hide Over, Times, Hue, Share, SharesOf, Scale, AroundLightness, Saturation, Chroma, Spread, Lightness, MaxOf, MinOf, Room;
    var s, k, e := SharesOf(c), Chroma(Saturation(c), l), Affine(c, l);
    SaturationFits(c);
    RoomInside(l);
    ChromaFits(Saturation(c), l);
    SharesSpan(c);
    AroundLightnessExtremes(s, k, l);
    ScaleKeepsShares(s, k, l);
    SharesGiveHue(c, e);
    SaturationBack(e, Saturation(c), l);
  }

  /** A grey stays grey. */
  lemma GreyStaysGrey(c: Rgb, l: real)
    requires IsColour(c) && Spread(c) == 0.0 && InUnit(l)
    ensures FromHsl(ToHsl(c).(l := l)) == Rgb(l, l, l) && ToHsl(Rgb(l, l, l)) == ToHsl(c).(l := l)
  {
  }

  lemma GreyIsGrey(c: Rgb)
    requires Spread(c) == 0.0
    ensures c == Rgb(Lightness(c), Lightness(c), Lightness(c))
  {
  }

  lemma Restore(c: Rgb, v: real)
    requires Spread(c) != 0.0 && MinOf(c) <= v <= MaxOf(c)
    ensures Lightness(c) - Spread(c) / 2.0 + Times(Spread(c), Share(c, v)) == v
  {
  }

  lemma AffineAtOwnLightness(c: Rgb)
    requires IsColour(c) && Spread(c) != 0.0
    ensures Affine(c, Lightness(c)) == c
  {
    hide Times, Share, Saturation, Lightness, Spread, Chroma;
    SaturationFits(c);
    Restore(c, c.r); Restore(c, c.g); Restore(c, c.b);
  }

  /** Converting to HSL and back is the identity. */
  lemma RoundTrip(c: Rgb)
    requires IsColour(c)
    ensures FromHsl(ToHsl(c)) == c
  {
    hide FromHsl, Affine, Lightness, Hue, Saturation, Spread, Room;
    SpreadFits(c);
    assert ToHsl(c).(l := Lightness(c)) == ToHsl(c);
    if Spread(c) == 0.0 {
      GreyIsGrey(c);
      GreyStaysGrey(c, Lightness(c));
    } else {
      FromHslIsAffine(c, Lightness(c));
      AffineAtOwnLightness(c);
    }
  }

  /**
  For every colour, lifting keeps hue and saturation, gives lightness exactly max(l, 0.8), and is the
  identity on colours that are light enough.
  */
  lemma LightenKeepsHueAndSaturation(c: Rgb)
    requires IsColour(c)
    ensures IsColour(Lighten(c)) && ToHsl(Lighten(c)) == ToHsl(c).(l := Max(Lightness(c), FLOOR))
    ensures Lightness(c) >= FLOOR ==> Lighten(c) == c
  {
    hide FromHsl, Affine, Hue, Saturation, Spread, Room, Lightness;
    var l := Max(Lightness(c), FLOOR);
    RoundTrip(c);
    SpreadFits(c);
    if Spread(c) == 0.0 {
      GreyStaysGrey(c, l);
    } else {
      ColouredIsInside(c);
      FromHslIsAffine(c, l);
      HslSurvives(c, l);
    }
  }

  /** `w` is the image of channel `v`: from the range of `c` to the range of its saturation at `l`. */
  predicate Maps(c: Rgb, l: real, v: real, w: real)
    requires Spread(c) != 0.0 && Room(Lightness(c)) != 0.0
  {
    var chroma := Room(l) * (Spread(c) / Room(Lightness(c)));
    w == (l - chroma / 2.0) + chroma * ((v - MinOf(c)) / (MaxOf(c) - MinOf(c)))
  }

  lemma AffineMaps(c: Rgb, l: real, v: real)
    requires IsColour(c) && Spread(c) != 0.0 && Room(Lightness(c)) != 0.0
    ensures var k := Chroma(Saturation(c), l); Maps(c, l, v, l - k / 2.0 + Times(k, Share(c, v)))
  {
  }

  /**
  For every colour, all six sectors and their ties included, lifting maps each channel by the same
  affine function, from the colour's own range to the range around the new lightness.
  */
  lemma LightenIsAffine(c: Rgb)
    requires IsColour(c)
    ensures Spread(c) != 0.0 ==> Room(Lightness(c)) != 0.0
    ensures var l, e := Max(Lightness(c), FLOOR), Lighten(c);
            if Spread(c) == 0.0 then e == Rgb(l, l, l)
            else Maps(c, l, c.r, e.r) && Maps(c, l, c.g, e.g) && Maps(c, l, c.b, e.b)
  {
    hide FromHsl, Hue, Room, Lightness, Times, Share, Saturation, Chroma, Spread, Maps;
    var l := Max(Lightness(c), FLOOR);
    SpreadFits(c);
    if Spread(c) == 0.0 {
      GreyStaysGrey(c, l);
    } else {
      FromHslIsAffine(c, l);
      AffineMaps(c, l, c.r); AffineMaps(c, l, c.g); AffineMaps(c, l, c.b);
    }
  }

  /** For every colour, each lifted channel is at least 0.6. */
  lemma LightenIsLight(c: Rgb)
    requires IsColour(c)
    ensures IsColour(Lighten(c)) && MinOf(Lighten(c)) >= 0.6
  {
    hide Lighten, Hue, Saturation;
    LightenKeepsHueAndSaturation(c);
  }

  /******* Rounding and luminance *******/

  /** A channel as the style sheet writes it, possibly with decimals. */
  predicate InByte(v: real) {
    0.0 <= v <= 255.0
  }

  predicate IsCss(c: Rgb) {
    InByte(c.r) && InByte(c.g) && InByte(c.b)
  }

  function Unit(c: Rgb): Rgb {
    Rgb(c.r / 255.0, c.g / 255.0, c.b / 255.0)
  }

  /** `Math.round`: halves go up. */
  function Round(v: real): real {
    (v + 0.5).Floor as real
  }

  function ToBytes(c: Rgb): Rgb {
    Rgb(Round(c.r * 255.0), Round(c.g * 255.0), Round(c.b * 255.0))
  }

  /** `lightenForDark` on a colour that parses. */
  function LightenForDark(c: Rgb): Rgb
    requires IsCss(c)
  {
    ToBytes(Lighten(Unit(c)))
  }

  /** `luminance`, on the scale 0..255. */
  function Luminance(c: Rgb): real {
    0.2126 * c.r + 0.7152 * c.g + 0.0722 * c.b
  }

  /** The threshold under which text counts as dark. */
  const READABLE := 140.0

  lemma RoundBounds(v: real)
    requires InUnit(v)
    ensures InByte(Round(v * 255.0)) && (v >= 0.6 ==> Round(v * 255.0) >= 153.0)
  {
  }

  /** For every colour, each lifted and rounded channel lies in 153..255. */
  lemma LiftedChannels(c: Rgb)
    requires IsCss(c)
    ensures var e := LightenForDark(c); IsCss(e) && MinOf(e) >= 153.0
  {
    hide Lighten, Round;
    LightenIsLight(Unit(c));
    var e := Lighten(Unit(c));
    RoundBounds(e.r); RoundBounds(e.g); RoundBounds(e.b);
  }

  /** Where nothing is lifted the colour is written back, rounded. */
  lemma LightIsOnlyRounded(c: Rgb)
    requires IsCss(c) && Lightness(Unit(c)) >= FLOOR
    ensures LightenForDark(c) == Rgb(Round(c.r), Round(c.g), Round(c.b))
  {
    hide Lighten, Round, Lightness;
    LightenKeepsHueAndSaturation(Unit(c));
  }

  /** For every colour, the lifted one is not dark. */
  lemma LiftedIsReadable(c: Rgb)
    requires IsCss(c)
    ensures IsCss(LightenForDark(c)) && Luminance(LightenForDark(c)) >= 153.0
  {
    hide LightenForDark;
    LiftedChannels(c);
  }

  /** A colour dark enough to be lifted really changes: its lightness is under the floor. */
  lemma DarkIsBelowFloor(c: Rgb)
    requires IsCss(c) && Luminance(c) < READABLE
    ensures Lightness(Unit(c)) < FLOOR
  {
  }

  lemma LightenGrey(v: real)
    requires 0.0 <= v <= FLOOR
    ensures Lighten(Rgb(v, v, v)) == Rgb(FLOOR, FLOOR, FLOOR)
  {
    hide Lighten, Maps, Room;
    LightenIsAffine(Rgb(v, v, v));
  }

  /** Every grey under the floor turns into the same one, 204 of 255. */
  lemma GreyTurnsLight(v: real)
    requires 0.0 <= v <= 204.0
    ensures LightenForDark(Rgb(v, v, v)) == Rgb(204.0, 204.0, 204.0)
  {
    hide Lighten;
    LightenGrey(v / 255.0);
  }

  /******* What counts as dark *******/

  /** The scale of the channels is kept on greys, and each channel adds its share. */
  lemma LuminanceAddsUp(c: Rgb)
    ensures Luminance(c) == Luminance(Rgb(c.r, 0.0, 0.0)) + Luminance(Rgb(0.0, c.g, 0.0)) + Luminance(Rgb(0.0, 0.0, c.b))
    ensures Luminance(Rgb(c.r, c.r, c.r)) == c.r
  {
  }

  /** The shares are those of the ITU-R BT.709 primaries, at full strength and in proportion below it. */
  lemma LuminanceOfPrimaries(v: real)
    ensures Luminance(Rgb(255.0, 0.0, 0.0)) == 54.213
    ensures Luminance(Rgb(0.0, 255.0, 0.0)) == 182.376
    ensures Luminance(Rgb(0.0, 0.0, 255.0)) == 18.411
    ensures Luminance(Rgb(v, 0.0, 0.0)) == v / 255.0 * 54.213
    ensures Luminance(Rgb(0.0, v, 0.0)) == v / 255.0 * 182.376
    ensures Luminance(Rgb(0.0, 0.0, v)) == v / 255.0 * 18.411
  {
  }

  /** Every red and every blue is dark, a green exactly under 140 / 0.7152 = 195.7.., a grey exactly under 140. */
  lemma DarkPrimaries(v: real)
    requires InByte(v)
    ensures Luminance(Rgb(v, 0.0, 0.0)) < READABLE && Luminance(Rgb(0.0, 0.0, v)) < READABLE
    ensures Luminance(Rgb(0.0, v, 0.0)) < READABLE <==> v < 140.0 / 0.7152
    ensures Luminance(Rgb(v, v, v)) < READABLE <==> v < 140.0
  {
    LuminanceOfPrimaries(v);
  }

  /** `Math.round` answers a nearest whole number, the larger of two. */
  lemma RoundIsNearest(v: real)
    ensures Round(v) - 0.5 <= v < Round(v) + 0.5 && Round(v).Floor as real == Round(v)
  {
  }

  /******* Hues *******/

  /** JavaScript's remainder has the sign of the dividend, and differs from it by a multiple of six. */
  lemma RemSixIs(x: real) returns (k: int)
    ensures x == 6.0 * k as real + Rem(x, 6.0)
    ensures if x >= 0.0 then 0.0 <= Rem(x, 6.0) < 6.0 else -6.0 < Rem(x, 6.0) <= 0.0
  {
    k := if x >= 0.0 then (x / 6.0).Floor else -(-x / 6.0).Floor;
  }

  /** Red, yellow, green, cyan, blue and magenta of any strength lie at every sixth of the circle; greys have hue 0. */
  lemma HuesOfPrimaries(v: real, w: real)
    requires 0.0 <= w < v <= 1.0
    ensures Spread(Rgb(v, w, w)) == Spread(Rgb(v, v, w)) == Spread(Rgb(w, v, w)) == v - w
    ensures Spread(Rgb(w, v, v)) == Spread(Rgb(w, w, v)) == Spread(Rgb(v, w, v)) == v - w
    ensures Hue(Rgb(v, w, w)) == 0.0 && Hue(Rgb(v, v, w)) == 60.0 && Hue(Rgb(w, v, w)) == 120.0
    ensures Hue(Rgb(w, v, v)) == 180.0 && Hue(Rgb(w, w, v)) == 240.0 && Hue(Rgb(v, w, v)) == 300.0
    ensures ToHsl(Rgb(v, v, v)).h == 0.0 && ToHsl(Rgb(v, v, v)).s == 0.0
  {
    OverSelf(v - w);
    RemSix(1.0); RemSix(0.0); RemSix(-1.0);
    hide Over, Rem;
  }

  lemma OverSelf(d: real)
    requires d > 0.0
    ensures Over(d, d) == 1.0 && Over(-d, d) == -1.0 && Over(0.0, d) == 0.0
  {
    assert (-d) / d == -(d / d);
  }
}
