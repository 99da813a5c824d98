/** The watermark layer before it is drawn: the font's padding, the layer's
    size around the measured text, where the text goes in it and the colour
    it is drawn in. Measuring, drawing and rotating are PIL's and come in as
    functions. */
module Layer {
  import opened Wrappers
  import opened Arith
  import opened Helpers
  import opened Config
  import opened Canvas
  import Placement

  /** The box PIL's `textbbox` reports for the text drawn at (0, 0); `left`
      and `top` may be non-zero because of the font's bearings. */
  datatype BBox = BBox(left: int, top: int, right: int, bottom: int)

  /** A loaded font; `size` is what the engine reads as the font's size. */
  datatype Font = Font(name: string, size: int)

  /** Everything the drawing step needs: a transparent `width` x `height`
      layer with `text` drawn at `origin` in `fill`, then turned by
      `rotation` degrees. */
  datatype LayerSpec = LayerSpec(
    text: string,
    font: Font,
    width: nat,
    height: nat,
    origin: Placement.Point,
    fill: Rgba,
    rotation: int)

  /** The text PIL measures, draws and rotates, given as functions. */
  datatype Pil = Pil(
    loadFont: (string, int) -> Font,
    measure: (Font, string) -> BBox,
    draw: LayerSpec -> Image,
    rotate: (Image, int) -> Image,
    blend: (Rgba, Rgba) -> Rgba)
  {
    /** Drawing yields an image of the requested size and rotating keeps
        images well formed. */
    ghost predicate Valid() {
      && (forall s: LayerSpec :: draw(s).Valid() && draw(s).width == s.width && draw(s).height == s.height)
      && (forall img: Image, a: int :: img.Valid() ==> rotate(img, a).Valid())
    }
  }

  /** `max(2, int(size * 0.15))`: the margin kept around the text so that
      nothing is cut off. */
  function Pad(fontSize: int): (p: int)
    ensures p >= 2
    ensures fontSize >= 0 ==> p == Max(2, (15 * fontSize) / 100)
  {
    var p := Max(2, Trunc(fontSize as real * 0.15));
    if fontSize >= 0 then
      assert fontSize as real * 0.15 == (15 * fontSize) as real / 100 as real;
      FloorOfQuotient(15 * fontSize, 100);
      p
    else p
  }

  /** A larger font never gets a smaller pad. */
  lemma PadMonotone(s1: nat, s2: nat)
    requires s1 <= s2
    ensures Pad(s1) <= Pad(s2)
  {
    DivMonotone(15 * s1, 15 * s2, 100);
  }

  /** `int(255 * opacity / 100)`: the opacity percentage as an alpha value,
      truncated toward zero. */
  function Alpha(opacity: int): (a: int)
    ensures opacity >= 0 ==> a == (255 * opacity) / 100
    ensures opacity < 0 ==> a == -((255 * -opacity) / 100)
    ensures 0 <= opacity <= 100 ==> 0 <= a <= 255
  {
    var a := Trunc((255 * opacity) as real / 100.0);
    if opacity >= 0 then
      FloorOfQuotient(255 * opacity, 100);
      a
    else
      assert -((255 * opacity) as real / 100.0) == (255 * -opacity) as real / 100 as real;
      FloorOfQuotient(255 * -opacity, 100);
      a
  }

  /** Fully transparent at 0 %, fully opaque at 100 %, 178 at the default 70 %. */
  lemma AlphaEnds()
    ensures Alpha(0) == 0 && Alpha(100) == 255
    ensures Alpha(DefaultWatermark.opacity) == 178
  {
  }

  /** A higher opacity never gives a lower alpha, and alpha is odd-symmetric. */
  lemma AlphaMonotone(o1: int, o2: int)
    requires o1 <= o2
    ensures Alpha(o1) <= Alpha(o2)
    ensures Alpha(-o1) == -Alpha(o1)
  {
    if 0 <= o1 {
      DivMonotone(255 * o1, 255 * o2, 100);
    } else if o2 < 0 {
      DivMonotone(255 * -o2, 255 * -o1, 100);
    }
  }

  /** The layer for `text` measured as `box` in `font`: the text box grown
      by the pad on every side, the text shifted so that its box starts one
      pad in from the top-left corner, drawn in the parsed colour at the
      opacity's alpha. `None` where the engine raises: a colour `int(_, 16)`
      cannot read, or a layer side below zero. */
  function LayerSpecOf(cfg: WatermarkConfig, font: Font, box: BBox): (r: Option<LayerSpec>)
    ensures var pad := Pad(font.size);
      r.Some? <==>
        && GetRgbFromColor(cfg.color).Some?
        && box.right - box.left + 2 * pad >= 0
        && box.bottom - box.top + 2 * pad >= 0
    ensures r.Some? ==>
      var pad, s := Pad(font.size), r.value;
      && s.text == cfg.text && s.font == font && s.rotation == cfg.rotation
      && s.origin.x + box.left == pad && s.origin.y + box.top == pad
      && s.origin.x + box.right + pad == s.width
      && s.origin.y + box.bottom + pad == s.height
    ensures r.Some? ==>
      var rgb := GetRgbFromColor(cfg.color).value;
      r.value.fill == Rgba(rgb.r, rgb.g, rgb.b, Alpha(cfg.opacity))
  {
    var pad := Pad(font.size);
    var w, h := box.right - box.left + pad * 2, box.bottom - box.top + pad * 2;
    if w < 0 || h < 0 then None
    else
      var rgb :- GetRgbFromColor(cfg.color);
      Some(LayerSpec(cfg.text, font, w, h, Placement.Point(pad - box.left, pad - box.top),
                     Rgba(rgb.r, rgb.g, rgb.b, Alpha(cfg.opacity)), cfg.rotation))
  }

  /** When the text box is not inverted, the text lies inside the layer with
      at least two pixels of margin on every side. */
  lemma TextInsideLayer(cfg: WatermarkConfig, font: Font, box: BBox)
    requires box.left <= box.right && box.top <= box.bottom
    requires GetRgbFromColor(cfg.color).Some?
    ensures var r := LayerSpecOf(cfg, font, box);
      && r.Some?
      && 2 <= r.value.origin.x + box.left
      && r.value.origin.x + box.right <= r.value.width - 2
      && 2 <= r.value.origin.y + box.top
      && r.value.origin.y + box.bottom <= r.value.height - 2
  {
  }

  /** The layer the engine pastes: drawn from the spec, then rotated unless
      the rotation is zero. */
  function CreateLayer(cfg: WatermarkConfig, pil: Pil): (r: Option<Image>)
    requires pil.Valid()
    ensures var font := pil.loadFont(cfg.fontFamily, cfg.fontSize);
      var spec := LayerSpecOf(cfg, font, pil.measure(font, cfg.text));
      && (r.Some? <==> spec.Some?)
      && (r.Some? ==> r.value.Valid())
      && (r.Some? && cfg.rotation == 0 ==>
            r.value.width == spec.value.width && r.value.height == spec.value.height)
  {
    var font := pil.loadFont(cfg.fontFamily, cfg.fontSize);
    var spec :- LayerSpecOf(cfg, font, pil.measure(font, cfg.text));
    var layer := pil.draw(spec);
    Some(if cfg.rotation != 0 then pil.rotate(layer, cfg.rotation) else layer)
  }

  /** An unrotated layer is the measured text plus two pads each way. */
  lemma UnrotatedLayerSize(cfg: WatermarkConfig, pil: Pil)
    requires pil.Valid() && cfg.rotation == 0
    requires CreateLayer(cfg, pil).Some?
    ensures var font := pil.loadFont(cfg.fontFamily, cfg.fontSize);
      var box := pil.measure(font, cfg.text);
      var layer := CreateLayer(cfg, pil).value;
      && layer.width == box.right - box.left + 2 * Pad(font.size)
      && layer.height == box.bottom - box.top + 2 * Pad(font.size)
  {
  }
}
