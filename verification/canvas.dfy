/** Images as row-major pixel grids, and the paste-with-mask step the engine
    uses to lay the watermark layer over the picture. The per-pixel blend
    of a masked paste is left to the caller as a function. */
module Canvas {
  import opened Wrappers
  import opened Arith
  import opened Text
  import Placement

  datatype Rgba = Rgba(r: int, g: int, b: int, a: int)

  /** `RGBA` images carry an alpha channel; `RGB` ones do not, so the alpha
      stored in an `RGB` image's pixels means nothing and every conversion
      out of `RGB` treats it as 255. */
  datatype Mode = RGBA | RGB

  datatype Image = Image(mode: Mode, width: nat, height: nat, pixels: seq<seq<Rgba>>)
  {
    /** `height` rows of `width` pixels each. */
    predicate Valid() {
      |pixels| == height && forall y :: 0 <= y < height ==> |pixels[y]| == width
    }
  }

  /** The part of the canvas one paste covers. */
  datatype Rect = Rect(x: int, y: int, w: int, h: int)
  {
    predicate Contains(px: int, py: int) {
      x <= px < x + w && y <= py < y + h
    }
  }

  /** Where a layer of `lw` x `lh` put at `p` lands on a `cw` x `ch` canvas:
      nothing when `p` is off the canvas, otherwise the layer's top-left part
      that fits. */
  function ClipRect(cw: nat, ch: nat, p: Placement.Point, lw: nat, lh: nat): (r: Option<Rect>)
    ensures r.Some? <==> 0 <= p.x < cw && 0 <= p.y < ch && lw > 0 && lh > 0
    ensures r.Some? ==>
      && r.value.x == p.x && r.value.y == p.y
      && 0 < r.value.w <= lw && 0 < r.value.h <= lh
      && r.value.x + r.value.w <= cw && r.value.y + r.value.h <= ch
      && (r.value.w == lw || r.value.x + r.value.w == cw)
      && (r.value.h == lh || r.value.y + r.value.h == ch)
  {
    if 0 <= p.x < cw && 0 <= p.y < ch then
      var px, py := Max(0, p.x), Max(0, p.y);
      var cropW, cropH := Min(lw, cw - px), Min(lh, ch - py);
      if cropW > 0 && cropH > 0 then Some(Rect(px, py, cropW, cropH)) else None
    else None
  }

  /** Pastes the top-left `rect.w` x `rect.h` part of `layer` at the
      rectangle's corner, using `blend(under, over)` per covered pixel. */
  function Paste(canvas: Image, layer: Image, rect: Rect, blend: (Rgba, Rgba) -> Rgba): (r: Image)
    requires canvas.Valid() && layer.Valid()
    requires 0 <= rect.x && rect.x + rect.w <= canvas.width && rect.w <= layer.width
    requires 0 <= rect.y && rect.y + rect.h <= canvas.height && rect.h <= layer.height
    ensures r.Valid() && r.mode == canvas.mode
    ensures r.width == canvas.width && r.height == canvas.height
    ensures forall x, y :: 0 <= x < canvas.width && 0 <= y < canvas.height ==>
      r.pixels[y][x] ==
        if rect.Contains(x, y) then blend(canvas.pixels[y][x], layer.pixels[y - rect.y][x - rect.x])
        else canvas.pixels[y][x]
  {
    var rows := seq(canvas.height, y requires 0 <= y < canvas.height =>
      seq(canvas.width, x requires 0 <= x < canvas.width =>
        if rect.Contains(x, y) then blend(canvas.pixels[y][x], layer.pixels[y - rect.y][x - rect.x])
        else canvas.pixels[y][x]));
    Image(canvas.mode, canvas.width, canvas.height, rows)
  }

  /** Pastes `layer` at each position in turn, skipping positions whose
      clipped rectangle is empty; later pastes go on top of earlier ones. */
  function PasteAll(canvas: Image, layer: Image, ps: seq<Placement.Point>,
                    blend: (Rgba, Rgba) -> Rgba): (r: Image)
    requires canvas.Valid() && layer.Valid()
    ensures r.Valid() && r.mode == canvas.mode
    ensures r.width == canvas.width && r.height == canvas.height
    decreases |ps|
  {
    if |ps| == 0 then canvas
    else
      var before := PasteAll(canvas, layer, ps[..|ps| - 1], blend);
      match ClipRect(canvas.width, canvas.height, ps[|ps| - 1], layer.width, layer.height)
      case None => before
      case Some(rect) => Paste(before, layer, rect, blend)
  }

  /** Some paste at one of `ps` covers pixel `(x, y)`. */
  predicate Covered(cw: nat, ch: nat, lw: nat, lh: nat, ps: seq<Placement.Point>, x: int, y: int) {
    exists i :: 0 <= i < |ps| && CoveredBy(cw, ch, lw, lh, ps[i], x, y)
  }

  predicate CoveredBy(cw: nat, ch: nat, lw: nat, lh: nat, p: Placement.Point, x: int, y: int) {
    var r := ClipRect(cw, ch, p, lw, lh);
    r.Some? && r.value.Contains(x, y)
  }

  /** A pixel that no paste covers keeps its value. */
  lemma {:induction false} UncoveredUnchanged(canvas: Image, layer: Image, ps: seq<Placement.Point>,
                                              blend: (Rgba, Rgba) -> Rgba, x: nat, y: nat)
    requires canvas.Valid() && layer.Valid() && x < canvas.width && y < canvas.height
    requires !Covered(canvas.width, canvas.height, layer.width, layer.height, ps, x, y)
    ensures PasteAll(canvas, layer, ps, blend).pixels[y][x] == canvas.pixels[y][x]
    decreases |ps|
  {
    if |ps| > 0 {
      var init := ps[..|ps| - 1];
      assert !Covered(canvas.width, canvas.height, layer.width, layer.height, init, x, y) by {
        forall i | 0 <= i < |init|
          ensures !CoveredBy(canvas.width, canvas.height, layer.width, layer.height, init[i], x, y)
        {
          assert init[i] == ps[i];
        }
      }
      UncoveredUnchanged(canvas, layer, init, blend, x, y);
      assert !CoveredBy(canvas.width, canvas.height, layer.width, layer.height, ps[|ps| - 1], x, y);
    }
  }

  /** A pixel the last paste covers ends up as the blend of what the earlier
      pastes left there and the layer pixel at its offset from the last
      position (the clipped rectangle starts at that position). */
  lemma LastPasteOnTop(canvas: Image, layer: Image, ps: seq<Placement.Point>,
                       blend: (Rgba, Rgba) -> Rgba, x: nat, y: nat)
    requires canvas.Valid() && layer.Valid() && x < canvas.width && y < canvas.height
    requires |ps| > 0
    requires CoveredBy(canvas.width, canvas.height, layer.width, layer.height, ps[|ps| - 1], x, y)
    ensures var before := PasteAll(canvas, layer, ps[..|ps| - 1], blend);
      var rect := ClipRect(canvas.width, canvas.height, ps[|ps| - 1], layer.width, layer.height).value;
      PasteAll(canvas, layer, ps, blend).pixels[y][x] ==
        blend(before.pixels[y][x], layer.pixels[y - rect.y][x - rect.x])
  {
    var before := PasteAll(canvas, layer, ps[..|ps| - 1], blend);
    var rect := ClipRect(canvas.width, canvas.height, ps[|ps| - 1], layer.width, layer.height).value;
    assert PasteAll(canvas, layer, ps, blend) == Paste(before, layer, rect, blend);
    assert rect.Contains(x, y);
  }

  /** A layer that is transparent everywhere leaves the canvas as it was,
      provided the blend keeps the pixel under a fully transparent one. */
  lemma {:induction false} TransparentLayerNoOp(canvas: Image, layer: Image, ps: seq<Placement.Point>,
                                                blend: (Rgba, Rgba) -> Rgba)
    requires canvas.Valid() && layer.Valid()
    requires forall u: Rgba, o: Rgba :: o.a == 0 ==> blend(u, o) == u
    requires forall y, x :: 0 <= y < layer.height && 0 <= x < layer.width ==> layer.pixels[y][x].a == 0
    ensures PasteAll(canvas, layer, ps, blend) == canvas
    decreases |ps|
  {
    if |ps| > 0 {
      TransparentLayerNoOp(canvas, layer, ps[..|ps| - 1], blend);
      match ClipRect(canvas.width, canvas.height, ps[|ps| - 1], layer.width, layer.height)
      case None =>
      case Some(rect) =>
        var r := Paste(canvas, layer, rect, blend);
        assert r.pixels == canvas.pixels by {
          forall y | 0 <= y < canvas.height ensures r.pixels[y] == canvas.pixels[y] {
            forall x | 0 <= x < canvas.width ensures r.pixels[y][x] == canvas.pixels[y][x] {
              if rect.Contains(x, y) {
                assert layer.pixels[y - rect.y][x - rect.x].a == 0;
              }
            }
          }
        }
    }
  }

  // ---------------------------------------------------------------- saving

  /** Output paths whose lower-cased form ends in `.jpg` or `.jpeg` are
      written as JPEG, which has no alpha channel. */
  predicate IsJpegPath(path: string) {
    EndsWith(Lower(path), ".jpg") || EndsWith(Lower(path), ".jpeg")
  }

  /** Lower-casing the path and then testing its end is the same as testing
      whether its last four characters lower-case to `.jpg` or its last five
      to `.jpeg`. */
  lemma JpegPathTails(path: string)
    ensures IsJpegPath(path) <==>
      || (|path| >= 4 && Lower(path[|path| - 4..]) == ".jpg")
      || (|path| >= 5 && Lower(path[|path| - 5..]) == ".jpeg")
  {
    LowerTail(path, |path| - 4);
    LowerTail(path, |path| - 5);
  }


  /** `convert('RGBA')`: an `RGBA` image is kept as it is; an `RGB` image
      gains an alpha channel that is fully opaque everywhere. */
  function ToRgba(img: Image): (r: Image)
    requires img.Valid()
    ensures r.Valid() && r.mode == RGBA && r.width == img.width && r.height == img.height
    ensures img.mode == RGBA ==> r == img
    ensures forall x, y :: 0 <= x < img.width && 0 <= y < img.height ==>
      var p := img.pixels[y][x];
      r.pixels[y][x] == if img.mode == RGB then Rgba(p.r, p.g, p.b, 255) else p
  {
    if img.mode == RGBA then img else ToRgb(img).(mode := RGBA)
  }

  /** `convert('RGB')`: the alpha channel is dropped. */
  function ToRgb(img: Image): (r: Image)
    requires img.Valid()
    ensures r.Valid() && r.mode == RGB && r.width == img.width && r.height == img.height
    ensures forall x, y :: 0 <= x < img.width && 0 <= y < img.height ==>
      var p := img.pixels[y][x];
      r.pixels[y][x] == Rgba(p.r, p.g, p.b, 255)
  {
    var rows := seq(img.height, y requires 0 <= y < img.height =>
      seq(img.width, x requires 0 <= x < img.width =>
        Rgba(img.pixels[y][x].r, img.pixels[y][x].g, img.pixels[y][x].b, 255)));
    Image(RGB, img.width, img.height, rows)
  }

  /** Converting to `RGBA` and flattening back to `RGB` gives the same
      image as flattening directly, whatever the input's mode. */
  lemma RgbaThenRgb(img: Image)
    requires img.Valid()
    ensures ToRgb(ToRgba(img)) == ToRgb(img)
  {
    var a, b := ToRgb(ToRgba(img)), ToRgb(img);
    assert a.pixels == b.pixels by {
      forall y | 0 <= y < img.height ensures a.pixels[y] == b.pixels[y] {
        forall x | 0 <= x < img.width ensures a.pixels[y][x] == b.pixels[y][x] {
        }
      }
    }
  }

  /** The image as written to `path`: flattened for JPEG, as is otherwise. */
  function ForOutput(img: Image, path: string): (r: Image)
    requires img.Valid() && img.mode == RGBA
    ensures r.Valid() && r.width == img.width && r.height == img.height
    ensures r.mode == RGB <==> IsJpegPath(path)
    ensures !IsJpegPath(path) ==> r == img
  {
    if IsJpegPath(path) then ToRgb(img) else img
  }

  /** The test is on the lower-cased path, so the extension's case does not
      matter. */
  lemma JpegCaseInsensitive(stem: string)
    ensures IsJpegPath(stem + ".JPG") && IsJpegPath(stem + ".Jpeg")
    ensures !IsJpegPath(stem + ".png")
  {
    var a, b, c := stem + ".JPG", stem + ".Jpeg", stem + ".png";
    assert Lower(a)[|a| - 4..] == ".jpg";
    assert Lower(b)[|b| - 5..] == ".jpeg";
    assert Lower(c)[|c| - 4..] == ".png";
    if |c| >= 5 {
      assert Lower(c)[|c| - 5..][1] == '.';
    }
  }
}
