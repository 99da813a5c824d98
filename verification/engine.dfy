/** The two entry points of the watermark engine: the full-size image that
    is written out, and the shrunken preview. Both size the font, build the
    layer, lay out the positions and paste the layer at each of them. */
module Engine {
  import opened Wrappers
  import opened Config
  import opened Canvas
  import opened Layer
  import Sizing
  import Placement
  import Grid

  /** The layer and where it goes on a `w` x `h` canvas. */
  datatype Layout = Layout(layer: Image, positions: seq<Placement.Point>)

  /** Builds the layer for `cfg` with its font size replaced by `fontSize`
      and places `cfg.count` copies of it on a `w` x `h` canvas. */
  function LayoutFor(w: nat, h: nat, cfg: WatermarkConfig, fontSize: int, pil: Pil): (r: Option<Layout>)
    requires pil.Valid()
    ensures var font := pil.loadFont(cfg.fontFamily, fontSize);
      var box := pil.measure(font, cfg.text);
      r.Some? <==>
        && Helpers.GetRgbFromColor(cfg.color).Some?
        && box.right - box.left + 2 * Pad(font.size) >= 0
        && box.bottom - box.top + 2 * Pad(font.size) >= 0
    ensures r.Some? ==>
      && r.value.layer.Valid()
      && r.value.positions ==
           Placement.CalculatePositions(w, h, cfg.count, r.value.layer.width, r.value.layer.height)
  {
    var layer :- CreateLayer(WithFontSize(cfg, fontSize), pil);
    Some(Layout(layer, Placement.CalculatePositions(w, h, cfg.count, layer.width, layer.height)))
  }

  /** The layout the full-size image gets: the effective font size of the
      image's own dimensions. */
  function OutputLayout(src: Image, cfg: WatermarkConfig, pil: Pil): (r: Option<Layout>)
    requires pil.Valid()
    ensures Helpers.GetRgbFromColor(cfg.color).None? ==> r.None?
    ensures r.Some? ==> r.value.layer.Valid()
    ensures r.Some? ==>
      |r.value.positions| == if cfg.count > 1 && src.width > 0 && src.height > 0 then cfg.count else 1
  {
    LayoutFor(src.width, src.height, cfg, Sizing.EffectiveFontSize(src.width, src.height, cfg), pil)
  }

  /** The image `add_watermark` saves to `outputPath`, or `None` where it
      catches an exception and reports failure. */
  function AddWatermark(src: Image, cfg: WatermarkConfig, outputPath: string, pil: Pil): (r: Option<Image>)
    requires src.Valid() && pil.Valid()
    ensures r.Some? <==> OutputLayout(src, cfg, pil).Some?
    ensures Helpers.GetRgbFromColor(cfg.color).None? ==> r.None?
    ensures r.Some? ==>
      && r.value.Valid()
      && r.value.width == src.width && r.value.height == src.height
      && (r.value.mode == RGB <==> IsJpegPath(outputPath))
  {
    var layout :- OutputLayout(src, cfg, pil);
    Some(ForOutput(PasteAll(ToRgba(src), layout.layer, layout.positions, pil.blend), outputPath))
  }

  /** A pixel no mark covers comes out as it was read, made opaque when the
      output is JPEG or the input had no alpha channel. */
  lemma UncoveredPixelKept(src: Image, cfg: WatermarkConfig, outputPath: string, pil: Pil, x: nat, y: nat)
    requires src.Valid() && pil.Valid() && x < src.width && y < src.height
    requires OutputLayout(src, cfg, pil).Some?
    requires var l := OutputLayout(src, cfg, pil).value;
      !Covered(src.width, src.height, l.layer.width, l.layer.height, l.positions, x, y)
    ensures var p := src.pixels[y][x];
      AddWatermark(src, cfg, outputPath, pil).value.pixels[y][x] ==
        if IsJpegPath(outputPath) || src.mode == RGB then Rgba(p.r, p.g, p.b, 255) else p
  {
    var l := OutputLayout(src, cfg, pil).value;
    UncoveredUnchanged(ToRgba(src), l.layer, l.positions, pil.blend, x, y);
  }

  /** A pixel the mark at the last position covers is the blend of what the
      earlier marks left and the matching layer pixel. */
  lemma LastMarkOnTop(src: Image, cfg: WatermarkConfig, outputPath: string, pil: Pil, x: nat, y: nat)
    requires src.Valid() && pil.Valid() && x < src.width && y < src.height
    requires !IsJpegPath(outputPath)
    requires OutputLayout(src, cfg, pil).Some?
    requires var l := OutputLayout(src, cfg, pil).value;
      |l.positions| > 0 &&
      CoveredBy(src.width, src.height, l.layer.width, l.layer.height, l.positions[|l.positions| - 1], x, y)
    ensures var l := OutputLayout(src, cfg, pil).value;
      var rect := ClipRect(src.width, src.height, l.positions[|l.positions| - 1], l.layer.width, l.layer.height).value;
      var before := PasteAll(ToRgba(src), l.layer, l.positions[..|l.positions| - 1], pil.blend);
      AddWatermark(src, cfg, outputPath, pil).value.pixels[y][x] ==
        pil.blend(before.pixels[y][x], l.layer.pixels[y - rect.y][x - rect.x])
  {
    var l := OutputLayout(src, cfg, pil).value;
    OutputIsPasted(src, cfg, outputPath, pil);
    LastPasteOnTop(ToRgba(src), l.layer, l.positions, pil.blend, x, y);
  }

  lemma OutputIsPasted(src: Image, cfg: WatermarkConfig, outputPath: string, pil: Pil)
    requires src.Valid() && pil.Valid() && !IsJpegPath(outputPath)
    requires OutputLayout(src, cfg, pil).Some?
    ensures var l := OutputLayout(src, cfg, pil).value;
      AddWatermark(src, cfg, outputPath, pil).value == PasteAll(ToRgba(src), l.layer, l.positions, pil.blend)
  {
  }

  /** The layout the preview gets: the original's effective font size scaled
      to the preview, placed on the shown image. */
  function PreviewLayout(shown: Image, origW: nat, origH: nat, cfg: WatermarkConfig, pil: Pil)
    : (r: Option<Layout>)
    requires pil.Valid()
    ensures Helpers.GetRgbFromColor(cfg.color).None? ==> r.None?
    ensures r.Some? ==> r.value.layer.Valid()
    ensures r.Some? ==>
      |r.value.positions| == if cfg.count > 1 && shown.width > 0 && shown.height > 0 then cfg.count else 1
  {
    LayoutFor(shown.width, shown.height, cfg,
              Sizing.PreviewFontFor(origW, origH, shown.width, shown.height, cfg), pil)
  }

  /** The preview of `cfg` on `shown`, the image `thumbnail` shrank from
      `origW` x `origH`: the font follows the original's size scaled to the
      preview, the layout follows the shown image, nothing is flattened. */
  function PreviewWatermark(shown: Image, origW: nat, origH: nat, cfg: WatermarkConfig, pil: Pil)
    : (r: Option<Image>)
    requires shown.Valid() && pil.Valid()
    ensures r.Some? <==> PreviewLayout(shown, origW, origH, cfg, pil).Some?
    ensures r.Some? ==>
      && r.value.Valid() && r.value.mode == RGBA
      && r.value.width == shown.width && r.value.height == shown.height
    ensures Helpers.GetRgbFromColor(cfg.color).None? ==> r.None?
  {
    var layout :- PreviewLayout(shown, origW, origH, cfg, pil);
    Some(PasteAll(ToRgba(shown), layout.layer, layout.positions, pil.blend))
  }

  /** When the shown image has the original's proportions, each preview mark
      sits in the same cell of the same grid as the corresponding mark of the
      full-size output: mark `i` in row `i / cols` and column `i % cols` of
      the grid chosen for the original. */
  lemma PreviewKeepsGrid(shown: Image, origW: nat, origH: nat, cfg: WatermarkConfig, pil: Pil, i: nat)
    requires shown.Valid() && pil.Valid()
    requires PreviewLayout(shown, origW, origH, cfg, pil).Some?
    requires cfg.count > 1 && i < cfg.count
    requires shown.width > 0 && shown.height > 0 && origH > 0
    requires shown.width * origH == origW * shown.height
    ensures var g := Grid.DetermineGrid(cfg.count, origW, origH);
      var l := PreviewLayout(shown, origW, origH, cfg, pil).value;
      && i % g.cols < g.cols && i / g.cols < g.rows
      && l.positions[i] ==
           Placement.MarkAt(shown.width, shown.height, g.cols, g.rows, l.layer.width, l.layer.height, i)
  {
    var l := PreviewLayout(shown, origW, origH, cfg, pil).value;
    Grid.SameAspectSameGrid(cfg.count, shown.width, shown.height, origW, origH);
    Placement.PositionOfIndex(shown.width, shown.height, cfg.count, l.layer.width, l.layer.height, i);
  }

  /** An image small enough to be shown at full size previews exactly as it
      is saved to a non-JPEG path. */
  lemma PreviewMatchesOutput(src: Image, cfg: WatermarkConfig, outputPath: string, pil: Pil)
    requires src.Valid() && pil.Valid() && !IsJpegPath(outputPath)
    ensures PreviewWatermark(src, src.width, src.height, cfg, pil) ==
      AddWatermark(src, cfg, outputPath, pil)
  {
  }

  /** A 150 x 150 layer on a 100 x 100 canvas is centred at (-25, -25), off
      the canvas, so a single mark leaves the image untouched. */
  lemma OversizedMarkSkipped(src: Image, cfg: WatermarkConfig, outputPath: string, pil: Pil)
    requires src.Valid() && src.mode == RGBA && pil.Valid() && !IsJpegPath(outputPath)
    requires src.width == 100 && src.height == 100 && cfg.count == 1
    requires OutputLayout(src, cfg, pil).Some?
    requires var l := OutputLayout(src, cfg, pil).value; l.layer.width == 150 && l.layer.height == 150
    ensures AddWatermark(src, cfg, outputPath, pil) == Some(src)
  {
    var l := OutputLayout(src, cfg, pil).value;
    Placement.OversizedSingleMark();
    assert l.positions == [Placement.Point(-25, -25)];
    assert ClipRect(100, 100, Placement.Point(-25, -25), 150, 150).None?;
    assert l.positions[..0] == [];
    assert PasteAll(ToRgba(src), l.layer, l.positions, pil.blend) == ToRgba(src);
  }
}
