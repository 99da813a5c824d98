/** Font sizing of the watermark engine: the adaptive size derived from the
    canvas, the manual size the user chose, and the size the preview scales
    it to. */
module Sizing {
  import opened Arith
  import opened Config

  /** Fraction of the shorter canvas side used when the configuration gives
      no usable ratio. */
  const FontRatio: real := 0.04
  const MinFontSize: int := 12
  const MaxFontSize: int := 200

  /** The shorter side of the canvas, never below one pixel. */
  function MinSide(w: nat, h: nat): (s: int)
    ensures s >= 1
    ensures w >= 1 && h >= 1 ==> s == Min(w, h)
    ensures w == 0 || h == 0 ==> s == 1
  {
    Max(1, Min(w, h))
  }

  /** `cfg.font_ratio or FONT_RATIO`: a zero ratio is falsy and falls back
      to the default. */
  function EffectiveRatio(ratio: real): (r: real)
    ensures r != 0.0
    ensures ratio != 0.0 ==> r == ratio
  {
    if ratio == 0.0 then FontRatio else ratio
  }

  /** The font size the engine draws with on a `w` x `h` canvas. With
      adaptive sizing off it is the configured size, otherwise the shorter
      side times the ratio, truncated; either way clamped to [12, 200]. */
  function EffectiveFontSize(w: nat, h: nat, cfg: WatermarkConfig): (s: int)
    ensures MinFontSize <= s <= MaxFontSize
    ensures !cfg.adaptiveFont && MinFontSize <= cfg.fontSize <= MaxFontSize ==>
      s == cfg.fontSize
  {
    if !cfg.adaptiveFont then Clamp(cfg.fontSize, MinFontSize, MaxFontSize)
    else Clamp(ScaledSide(MinSide(w, h), EffectiveRatio(cfg.fontRatio)), MinFontSize, MaxFontSize)
  }

  /** `int(side * ratio)`. */
  function ScaledSide(side: int, ratio: real): (n: int)
    ensures side >= 0 && ratio >= 0.0 ==> n >= 0
  {
    Trunc(side as real * ratio)
  }

  lemma ScaledSideMonotone(a: int, b: int, ratio: real)
    requires a <= b && ratio >= 0.0
    ensures ScaledSide(a, ratio) <= ScaledSide(b, ratio)
  {
    TruncScaleMonotone(a as real, b as real, ratio);
    assert ScaledSide(a, ratio) == Trunc(a as real * ratio);
    assert ScaledSide(b, ratio) == Trunc(b as real * ratio);
  }

  lemma ScaledSideBounds(side: int, ratio: real)
    requires side as real * ratio >= 0.0
    ensures ScaledSide(side, ratio) as real <= side as real * ratio < ScaledSide(side, ratio) as real + 1.0
  {
  }

  /** The adaptive size is the scaled shorter side rounded down, unless that
      falls outside [12, 200] and the clamp takes over. */
  lemma AdaptiveSizeTracksCanvas(w: nat, h: nat, cfg: WatermarkConfig)
    requires cfg.adaptiveFont
    ensures var s := EffectiveFontSize(w, h, cfg);
      var scaled := MinSide(w, h) as real * EffectiveRatio(cfg.fontRatio);
      || (s == MinFontSize && scaled < (MinFontSize + 1) as real)
      || (s == MaxFontSize && scaled >= MaxFontSize as real)
      || (s as real <= scaled < s as real + 1.0)
  {
    var side, ratio := MinSide(w, h), EffectiveRatio(cfg.fontRatio);
    var t := ScaledSide(side, ratio);
    if side as real * ratio >= 0.0 {
      ScaledSideBounds(side, ratio);
    } else {
      assert t < MinFontSize;
    }
  }

  /** A manual size does not depend on the canvas. */
  lemma ManualSizeIgnoresCanvas(w1: nat, h1: nat, w2: nat, h2: nat, cfg: WatermarkConfig)
    requires !cfg.adaptiveFont
    ensures EffectiveFontSize(w1, h1, cfg) == EffectiveFontSize(w2, h2, cfg)
    ensures cfg.fontSize < MinFontSize ==> EffectiveFontSize(w1, h1, cfg) == MinFontSize
    ensures cfg.fontSize > MaxFontSize ==> EffectiveFontSize(w1, h1, cfg) == MaxFontSize
  {
  }

  /** A ratio of zero behaves exactly like the default ratio. */
  lemma ZeroRatioFallsBack(w: nat, h: nat, cfg: WatermarkConfig)
    requires cfg.fontRatio == 0.0
    ensures EffectiveFontSize(w, h, cfg) == EffectiveFontSize(w, h, cfg.(fontRatio := FontRatio))
  {
  }

  /** With a fixed ratio, a canvas whose shorter side is at least as long
      never gets a smaller adaptive font (a negative ratio always gives 12). */
  lemma AdaptiveSizeMonotone(w1: nat, h1: nat, w2: nat, h2: nat, cfg: WatermarkConfig)
    requires cfg.adaptiveFont
    requires Min(w1, h1) <= Min(w2, h2)
    ensures EffectiveFontSize(w1, h1, cfg) <= EffectiveFontSize(w2, h2, cfg)
    ensures cfg.fontRatio < 0.0 ==> EffectiveFontSize(w1, h1, cfg) == MinFontSize
  {
    var ratio := EffectiveRatio(cfg.fontRatio);
    if ratio < 0.0 {
      NegativeRatioMinimal(MinSide(w1, h1), ratio);
      NegativeRatioMinimal(MinSide(w2, h2), ratio);
    } else {
      ScaledSideMonotone(MinSide(w1, h1), MinSide(w2, h2), ratio);
      ClampMonotone(ScaledSide(MinSide(w1, h1), ratio), ScaledSide(MinSide(w2, h2), ratio),
                    MinFontSize, MaxFontSize);
    }
  }

  lemma NegativeRatioMinimal(side: nat, ratio: real)
    requires ratio < 0.0
    ensures ScaledSide(side, ratio) <= 0
  {
    ScaleMonotone(0.0, side as real, -ratio);
    assert side as real * ratio <= 0.0;
  }

  /** The default configuration on a 4000 x 3000 canvas draws at 120. */
  lemma DefaultSizeOnLargeCanvas()
    ensures EffectiveFontSize(4000, 3000, DefaultWatermark) == 120
  {
    assert MinSide(4000, 3000) == 3000;
    assert 3000.0 * 0.04 == 120.0;
  }

  // ---------------------------------------------------------------- preview

  /** The factor by which `thumbnail` shrank the image: the smaller of the
      two side ratios, a zero original side counting as 1. */
  function PreviewScale(origW: nat, origH: nat, scaledW: nat, scaledH: nat): (s: real)
    ensures s >= 0.0
    ensures scaledW <= origW && scaledH <= origH ==> s <= 1.0
    ensures scaledW == origW && scaledH == origH ==> s == 1.0
    ensures origW > 0 ==> s <= scaledW as real / origW as real
    ensures origH > 0 ==> s <= scaledH as real / origH as real
    ensures || s == (if origW > 0 then scaledW as real / origW as real else 1.0)
            || s == (if origH > 0 then scaledH as real / origH as real else 1.0)
  {
    var sx := if origW != 0 then scaledW as real / origW as real else 1.0;
    var sy := if origH != 0 then scaledH as real / origH as real else 1.0;
    var s := MinR(sx, sy);
    assert s == sx || s == sy;
    assert s <= sx && s <= sy;
    s
  }

  /** The preview font: the full-size font scaled by the preview factor (at
      least a tenth), truncated, and never below 12. */
  function PreviewFontSize(eff: int, scale: real): (p: int)
    ensures p >= MinFontSize
  {
    ScaledFont(eff, MaxR(0.1, scale))
  }

  /** `max(12, int(eff * factor))`. */
  function ScaledFont(eff: int, factor: real): (p: int)
    ensures p >= MinFontSize
  {
    Max(MinFontSize, Trunc(eff as real * factor))
  }

  /** The scaled font is 12 while `eff * factor` is below 12, and otherwise
      `eff * factor` rounded down. */
  lemma ScaledFontTracks(eff: int, factor: real)
    ensures var v := eff as real * factor;
      var p := ScaledFont(eff, factor);
      && (v < MinFontSize as real ==> p == MinFontSize)
      && (MinFontSize as real <= v ==> p as real <= v < p as real + 1.0)
  {
    var v := eff as real * factor;
    assert ScaledFont(eff, factor) == Max(MinFontSize, Trunc(v));
  }

  /** The preview font is 12 while the scaled full-size font is below 12,
      and otherwise the scaled font rounded down. */
  lemma PreviewFontTracksScale(eff: int, scale: real)
    ensures var v := eff as real * MaxR(0.1, scale);
      var p := PreviewFontSize(eff, scale);
      && (v < MinFontSize as real ==> p == MinFontSize)
      && (MinFontSize as real <= v ==> p as real <= v < p as real + 1.0)
  {
    ScaledFontTracks(eff, MaxR(0.1, scale));
  }

  /** Shrinking the image never enlarges the font, and an image shown at full
      size keeps the full-size font. */
  lemma PreviewFontBounds(eff: int, scale: real)
    requires MinFontSize <= eff
    ensures scale <= 1.0 ==> PreviewFontSize(eff, scale) <= eff
    ensures scale == 1.0 ==> PreviewFontSize(eff, scale) == eff
  {
    if scale <= 1.0 {
      ScaledFontMonotone(eff, MaxR(0.1, scale), 1.0);
      assert eff as real * 1.0 == eff as real;
    }
  }

  lemma ScaledFontMonotone(eff: nat, f1: real, f2: real)
    requires f1 <= f2
    ensures ScaledFont(eff, f1) <= ScaledFont(eff, f2)
  {
    TruncScaleMonotone(f1, f2, eff as real);
    assert ScaledFont(eff, f1) == Max(MinFontSize, Trunc(eff as real * f1));
    assert ScaledFont(eff, f2) == Max(MinFontSize, Trunc(eff as real * f2));
  }

  /** A larger preview never gets a smaller font. */
  lemma PreviewFontMonotone(eff: nat, s1: real, s2: real)
    requires s1 <= s2
    ensures PreviewFontSize(eff, s1) <= PreviewFontSize(eff, s2)
  {
    ScaledFontMonotone(eff, MaxR(0.1, s1), MaxR(0.1, s2));
  }

  /** The preview font for an image shown at `scaledW` x `scaledH` whose
      original is `origW` x `origH`: the adaptive size of the original,
      scaled. */
  function PreviewFontFor(origW: nat, origH: nat, scaledW: nat, scaledH: nat,
                          cfg: WatermarkConfig): (p: int)
    ensures p >= MinFontSize
    ensures scaledW <= origW && scaledH <= origH ==> p <= EffectiveFontSize(origW, origH, cfg)
    ensures scaledW == origW && scaledH == origH ==> p == EffectiveFontSize(origW, origH, cfg)
  {
    var eff := EffectiveFontSize(origW, origH, cfg);
    var scale := PreviewScale(origW, origH, scaledW, scaledH);
    PreviewFontBounds(eff, scale);
    PreviewFontSize(eff, scale)
  }

  /** The preview font is 12 while the original's effective size `eff`
      times the preview factor `scale` (at least a tenth) is below 12, and
      otherwise that product rounded down. */
  lemma PreviewFontForTracks(origW: nat, origH: nat, scaledW: nat, scaledH: nat,
                             cfg: WatermarkConfig, eff: int, scale: real)
    requires eff == EffectiveFontSize(origW, origH, cfg)
    requires scale == PreviewScale(origW, origH, scaledW, scaledH)
    ensures var v := eff as real * MaxR(0.1, scale);
      var p := PreviewFontFor(origW, origH, scaledW, scaledH, cfg);
      && (v < MinFontSize as real ==> p == MinFontSize)
      && (MinFontSize as real <= v ==> p as real <= v < p as real + 1.0)
  {
    PreviewFontTracksScale(eff, scale);
  }
}
