/**
 * The sprite-level editing helpers: resolving the image shown by a layer at
 * a frame, clearing the selected pixels, extracting the selection into a new
 * layer, and the commit/cancel step of the interactive layer move.
 *
 * The application's "current sprite" is passed explicitly; the background
 * colour, the editor's mouse reports and its cancel state are parameters.
 */
module Misc {
  import opened Wrappers
  import opened Images
  import opened Raster
  import opened Undo

  /** The editing context: active layer, current frame, selection mask and undo log. */
  class Sprite {
    var layer: Layer?
    var frpos: int
    var mask: Option<Mask>
    const undo: UndoLog

    constructor (layer: Layer?, frpos: int, mask: Option<Mask>, undo: UndoLog)
      ensures this.layer == layer && this.frpos == frpos && this.mask == mask && this.undo == undo
    {
      this.layer := layer;
      this.frpos := frpos;
      this.mask := mask;
      this.undo := undo;
    }
  }

  function Max(a: int, b: int): (r: int) { if a > b then a else b }
  function Min(a: int, b: int): (r: int) { if a < b then a else b }

  /** Allegro's MID(lo, v, hi): v clamped into [lo, hi]. */
  function Mid(lo: int, v: int, hi: int): (r: int)
    ensures lo <= hi ==> lo <= r <= hi
    ensures lo <= v <= hi ==> r == v
    ensures lo <= hi && v < lo ==> r == lo
    ensures lo <= hi && hi < v ==> r == hi
  {
    Max(lo, Min(v, hi))
  }

  /** Where and how opaquely a cel draws its image. */
  datatype Placement = Placement(x: int, y: int, opacity: int)

  datatype Offset = Offset(x: int, y: int)

  /** The sprite's active layer is an image layer with a cel at the current frame. */
  predicate HasCel(sprite: Sprite?)
    reads sprite, if sprite != null then {sprite.layer} else {}
  {
    sprite != null && sprite.layer != null && sprite.layer.IsImage() && sprite.frpos in sprite.layer.cels
  }

  /** ... and that cel's stock index is within the layer's stock. */
  predicate Resolvable(sprite: Sprite?)
    reads sprite, if sprite != null then {sprite.layer} else {}
    reads if sprite != null && sprite.layer != null then sprite.layer.cels.Values else {}
  {
    HasCel(sprite) && 0 <= sprite.layer.cels[sprite.frpos].image < |sprite.layer.stock|
  }

  /**
   * GetImage: the stock image the current cel of the sprite's active layer
   * refers to, or null.
   */
  function GetImage(sprite: Sprite?): (img: Image?)
    reads sprite, if sprite != null then {sprite.layer} else {}
    reads if sprite != null && sprite.layer != null then sprite.layer.cels.Values else {}
    ensures img != null <==> Resolvable(sprite)
    ensures img != null ==> img == sprite.layer.stock[sprite.layer.cels[sprite.frpos].image]
  {
    if sprite != null && sprite.layer != null && sprite.layer.IsImage() then
      var cel := sprite.layer.GetCel(sprite.frpos);
      if cel != null && 0 <= cel.image < |sprite.layer.stock| then sprite.layer.stock[cel.image] else null
    else null
  }

  /**
   * GetImage2: as GetImage, and also the cel's placement with its opacity
   * clamped to [0, 255]. The placement is reported whenever the cel exists,
   * even when its stock index is out of range and no image is returned.
   */
  function GetImage2(sprite: Sprite?): (r: (Image?, Option<Placement>))
    reads sprite, if sprite != null then {sprite.layer} else {}
    reads if sprite != null && sprite.layer != null then sprite.layer.cels.Values else {}
    ensures r.0 != null <==> Resolvable(sprite)
    ensures r.0 != null ==> r.0 == sprite.layer.stock[sprite.layer.cels[sprite.frpos].image]
    ensures r.1.Some? <==> HasCel(sprite)
    ensures r.1.Some? ==>
      var cel := sprite.layer.cels[sprite.frpos];
      && r.1.value.x == cel.x && r.1.value.y == cel.y
      && 0 <= r.1.value.opacity <= 255
      && (0 <= cel.opacity <= 255 ==> r.1.value.opacity == cel.opacity)
      && (cel.opacity < 0 ==> r.1.value.opacity == 0)
      && (255 < cel.opacity ==> r.1.value.opacity == 255)
  {
    if sprite != null && sprite.layer != null && sprite.layer.IsImage() then
      var cel := sprite.layer.GetCel(sprite.frpos);
      if cel != null then
        var img := if 0 <= cel.image < |sprite.layer.stock| then sprite.layer.stock[cel.image] else null;
        (img, Some(Placement(cel.x, cel.y, Mid(0, cel.opacity, 255))))
      else (null, None)
    else (null, None)
  }

  /**
   * GetLayerImage: the image a given layer shows at frame `frpos`, and the
   * cel's offset whenever the cel exists.
   */
  function GetLayerImage(layer: Layer, frpos: int): (r: (Image?, Option<Offset>))
    reads layer, layer.cels.Values
    ensures r.0 != null <==> layer.IsImage() && frpos in layer.cels && 0 <= layer.cels[frpos].image < |layer.stock|
    ensures r.0 != null ==> r.0 == layer.stock[layer.cels[frpos].image]
    ensures r.1.Some? <==> layer.IsImage() && frpos in layer.cels
    ensures r.1.Some? ==> r.1.value == Offset(layer.cels[frpos].x, layer.cels[frpos].y)
  {
    if layer.IsImage() then
      var cel := layer.GetCel(frpos);
      if cel != null then
        var img := if 0 <= cel.image < |layer.stock| then layer.stock[cel.image] else null;
        (img, Some(Offset(cel.x, cel.y)))
      else (null, None)
    else (null, None)
  }

  /** The three lookups agree: GetImage is GetImage2's image. */
  lemma GetImageIsGetImage2(sprite: Sprite?)
    ensures GetImage(sprite) == GetImage2(sprite).0
  {
  }

  /** GetImage2 on a sprite is GetLayerImage on its active layer at its current frame. */
  lemma GetImage2IsGetLayerImage(sprite: Sprite)
    requires sprite.layer != null
    ensures GetImage2(sprite).0 == GetLayerImage(sprite.layer, sprite.frpos).0
    ensures GetImage2(sprite).1.Some? <==> GetLayerImage(sprite.layer, sprite.frpos).1.Some?
    ensures GetImage2(sprite).1.Some? ==>
      GetImage2(sprite).1.value.x == GetLayerImage(sprite.layer, sprite.frpos).1.value.x &&
      GetImage2(sprite).1.value.y == GetLayerImage(sprite.layer, sprite.frpos).1.value.y
  {
  }

  // ---------------------------------------------------------------------
  // Clearing the selection

  /** An inclusive rectangle (x1, y1) - (x2, y2); empty when x1 > x2 or y1 > y2. */
  datatype Bounds = Bounds(x1: int, y1: int, x2: int, y2: int) {
    predicate IsEmpty() { x1 > x2 || y1 > y2 }
    predicate Contains(i: int, j: int) { x1 <= i <= x2 && y1 <= j <= y2 }
  }

  /**
   * The rectangle ClearMask edits and records: the mask's box, taken as is,
   * intersected with a w by h image.
   */
  function ClipToImage(m: Mask, w: int, h: int): (b: Bounds)
    ensures forall i, j :: b.Contains(i, j) <==>
      (0 <= i < w && 0 <= j < h && m.x <= i < m.x + m.w && m.y <= j < m.y + m.h)
    ensures b.IsEmpty() <==> !(exists i, j :: b.Contains(i, j))
  {
    var b := Bounds(Max(0, m.x), Max(0, m.y), Min(w - 1, m.x + m.w - 1), Min(h - 1, m.y + m.h - 1));
    assert !b.IsEmpty() ==> b.Contains(b.x1, b.y1);
    b
  }

  /**
   * Point (i, j) of an image drawn at offset (x, y) lies under a set bit of
   * the mask: the mask-local point (i - m.x + x, j - m.y + y) is inside the
   * mask's box and selected.
   */
  predicate MaskCovers(m: Mask, x: int, y: int, i: int, j: int)
    requires m.Valid() && m.bitmap.Some?
  {
    var u, v := i - m.x + x, j - m.y + y;
    0 <= u < m.w && 0 <= v < m.h && m.Bit(u, v)
  }

  /** MaskCovers, restricted to the mask rows before v and row v's columns before u. */
  predicate CoveredBefore(m: Mask, x: int, y: int, i: int, j: int, u: int, v: int)
    requires m.Valid() && m.bitmap.Some?
  {
    var col, row := i - m.x + x, j - m.y + y;
    MaskCovers(m, x, y, i, j) && (row < v || (row == v && col < u))
  }

  /**
   * The loops of ClearMask: rows v = 0 .. m.h - 1 and columns u = 0 .. m.w - 1
   * of the mask, walking the packed bits byte by byte; a set bit clears the
   * image pixel (u + m.x - x, v + m.y - y), which the pixel primitive skips
   * when it falls outside the image.
   */
  method ClearCovered(image: Image, m: Mask, x: int, y: int, color: int)
    requires m.Valid() && m.bitmap.Some?
    modifies image.pixels
    ensures forall i, j :: 0 <= i < image.Width() && 0 <= j < image.Height() ==>
      image.pixels[i, j] == if MaskCovers(m, x, y, i, j) then color else old(image.pixels[i, j])
  {
    var v := 0;
    while v < m.h
      invariant 0 <= v <= m.h
      invariant forall i, j :: 0 <= i < image.Width() && 0 <= j < image.Height() ==>
        image.pixels[i, j] == if CoveredBefore(m, x, y, i, j, 0, v) then color else old(image.pixels[i, j])
    {
      ClearCoveredRow(image, m, x, y, v, color);
      v := v + 1;
    }
  }

  /** One row of ClearCovered: d = div(0, 8), then one bit per column. */
  method ClearCoveredRow(image: Image, m: Mask, x: int, y: int, v: int, color: int)
    requires m.Valid() && m.bitmap.Some? && 0 <= v < m.h
    modifies image.pixels
    ensures forall i, j :: 0 <= i < image.Width() && 0 <= j < image.Height() ==>
      image.pixels[i, j] ==
        if MaskCovers(m, x, y, i, j) && j - m.y + y == v then color else old(image.pixels[i, j])
  {
    var row := m.bitmap.value[v];
    var quot, rem := 0, 0;
    var u := 0;
    while u < m.w
      invariant 0 <= u <= m.w
      invariant quot == u / 8 && rem == u % 8
      invariant forall i, j :: 0 <= i < image.Width() && 0 <= j < image.Height() ==>
        image.pixels[i, j] ==
          if CoveredBefore(m, x, y, i, j, u, v) && j - m.y + y == v then color else old(image.pixels[i, j])
    {
      if row[quot] & (1 << rem) != 0 {
        assert m.Bit(u, v);
        image.PutPixel(u + m.x - x, v + m.y - y, color);
      } else {
        assert !m.Bit(u, v);
      }
      CoveredBeforeStep(m, x, y, u, v);
      // _image_bitmap_next_bit
      if rem < 7 {
        rem := rem + 1;
      } else {
        quot, rem := quot + 1, 0;
      }
      u := u + 1;
    }
  }

  /** Advancing one column adds exactly the point written for mask column u of row v. */
  lemma CoveredBeforeStep(m: Mask, x: int, y: int, u: int, v: int)
    requires m.Valid() && m.bitmap.Some? && 0 <= u < m.w && 0 <= v < m.h
    ensures forall i, j :: CoveredBefore(m, x, y, i, j, u + 1, v) && j - m.y + y == v <==>
      (CoveredBefore(m, x, y, i, j, u, v) && j - m.y + y == v) || (i == u + m.x - x && j == v + m.y - y && m.Bit(u, v))
  {
  }

  /** The objects ClearMask may write: the resolved image's pixels and the undo log. */
  ghost function ClearMaskFrame(sprite: Sprite?): (s: set<object>)
    reads sprite, if sprite != null then {sprite.layer} else {}
    reads if sprite != null && sprite.layer != null then sprite.layer.cels.Values else {}
  {
    if sprite == null then {}
    else if GetImage2(sprite).0 == null then {sprite.undo}
    else {sprite.undo, GetImage2(sprite).0.pixels}
  }

  /**
   * ClearMask: sets the selected pixels of the current image to `color`
   * (the background colour converted to the image's type).
   *  - No sprite or no resolvable image: nothing happens.
   *  - Empty mask: the whole image is recorded for undo (when enabled) and
   *    cleared.
   *  - Otherwise the mask's box is clipped to the image (ClipToImage, which
   *    does not subtract the cel offset); an empty clip changes nothing.
   *    Else the clipped rectangle is recorded for undo (when enabled) and
   *    exactly the pixels under set mask bits, translated by the cel offset,
   *    take `color`.
   */
  method ClearMask(sprite: Sprite?, color: int)
    requires sprite != null && GetImage2(sprite).0 != null ==> sprite.mask.Some? && sprite.mask.value.Valid()
    modifies ClearMaskFrame(sprite)
    ensures sprite != null ==> sprite.undo.enabled == old(sprite.undo.enabled)
    ensures sprite != null && GetImage2(sprite).0 == null ==> sprite.undo.log == old(sprite.undo.log)
    ensures sprite != null && GetImage2(sprite).0 != null && sprite.mask.value.IsEmpty() ==>
      var img := GetImage2(sprite).0;
      && sprite.undo.log == old(sprite.undo.log) +
           (if sprite.undo.enabled then [ImageRegion(img, 0, 0, img.Width(), img.Height(), old(Crop(img, 0, 0, img.Width(), img.Height())))] else [])
      && forall i, j :: 0 <= i < img.Width() && 0 <= j < img.Height() ==> img.pixels[i, j] == color
    ensures sprite != null && GetImage2(sprite).0 != null && !sprite.mask.value.IsEmpty() ==>
      var img, m := GetImage2(sprite).0, sprite.mask.value;
      var b := ClipToImage(m, img.Width(), img.Height());
      b.IsEmpty() ==>
        && sprite.undo.log == old(sprite.undo.log)
        && forall i, j :: 0 <= i < img.Width() && 0 <= j < img.Height() ==> img.pixels[i, j] == old(img.pixels[i, j])
    ensures sprite != null && GetImage2(sprite).0 != null && !sprite.mask.value.IsEmpty() ==>
      var img, p, m := GetImage2(sprite).0, GetImage2(sprite).1.value, sprite.mask.value;
      var b := ClipToImage(m, img.Width(), img.Height());
      !b.IsEmpty() ==>
        && sprite.undo.log == old(sprite.undo.log) +
             (if sprite.undo.enabled
              then [ImageRegion(img, b.x1, b.y1, b.x2 - b.x1 + 1, b.y2 - b.y1 + 1,
                                old(Crop(img, b.x1, b.y1, b.x2 - b.x1 + 1, b.y2 - b.y1 + 1)))]
              else [])
        && forall i, j :: 0 <= i < img.Width() && 0 <= j < img.Height() ==>
             img.pixels[i, j] == if MaskCovers(m, p.x, p.y, i, j) then color else old(img.pixels[i, j])
  {
    if sprite == null {
      return;
    }
    var (image, placement) := GetImage2(sprite);
    if image == null {
      return;
    }
    var x, y := placement.value.x, placement.value.y;
    var mask := sprite.mask.value;
    if mask.IsEmpty() {
      if sprite.undo.IsEnabled() {
        sprite.undo.RecordImage(image, 0, 0, image.Width(), image.Height());
      }
      image.Clear(color);
      return;
    }
    var b := ClipToImage(mask, image.Width(), image.Height());
    if b.x1 > b.x2 || b.y1 > b.y2 {
      return;
    }
    if sprite.undo.IsEnabled() {
      sprite.undo.RecordImage(image, b.x1, b.y1, b.x2 - b.x1 + 1, b.y2 - b.y1 + 1);
    }
    ClearCovered(image, mask, x, y, color);
  }

  // ---------------------------------------------------------------------
  // Clip finding: ClearMask's clip ignores the cel offset

  /**
   * As written, the clip rectangle and the cleared pixels disagree once the
   * cel is not at (0, 0). A 4 x 1 image drawn at (2, 0), with a 2 x 1 mask
   * at (2, 0) selecting both columns: image pixel (0, 0) is cleared but lies
   * outside the rectangle recorded for undo, so undo cannot restore it. And
   * the same mask at (10, 0) over the image drawn at (10, 0) selects image
   * pixel (0, 0) too, yet the clip is empty and nothing is cleared.
   */
  lemma ClipToImageIgnoresCelOffset()
    ensures var m := Mask(2, 0, 2, 1, Some([[3 as bv8]]));
      && m.Valid() && MaskCovers(m, 2, 0, 0, 0)
      && !ClipToImage(m, 4, 1).IsEmpty() && !ClipToImage(m, 4, 1).Contains(0, 0)
    ensures var m := Mask(10, 0, 2, 1, Some([[3 as bv8]]));
      && m.Valid() && MaskCovers(m, 10, 0, 0, 0)
      && ClipToImage(m, 4, 1).IsEmpty()
  {
  }

  /**
   * The evidently intended clip: the mask's box moved into image
   * coordinates (by subtracting the cel offset), then intersected with the
   * w by h image.
   */
  function ClipToImageAt(m: Mask, x: int, y: int, w: int, h: int): (b: Bounds)
    ensures forall i, j :: b.Contains(i, j) <==>
      (0 <= i < w && 0 <= j < h && m.x - x <= i < m.x - x + m.w && m.y - y <= j < m.y - y + m.h)
  {
    Bounds(Max(0, m.x - x), Max(0, m.y - y), Min(w - 1, m.x - x + m.w - 1), Min(h - 1, m.y - y + m.h - 1))
  }

  /**
   * With the intended clip, every image pixel the mask selects lies inside
   * the clipped rectangle: recording that rectangle covers every pixel the
   * clear changes, and the clip is empty only when nothing is selected.
   */
  lemma ClipToImageAtCoversCovered(m: Mask, x: int, y: int, w: int, h: int, i: int, j: int)
    requires m.Valid() && m.bitmap.Some?
    requires 0 <= i < w && 0 <= j < h && MaskCovers(m, x, y, i, j)
    ensures ClipToImageAt(m, x, y, w, h).Contains(i, j)
    ensures !ClipToImageAt(m, x, y, w, h).IsEmpty()
  {
  }

  /** At offset (0, 0) the clip as written is the intended one. */
  lemma ClipToImageAtOrigin(m: Mask, w: int, h: int)
    ensures ClipToImageAt(m, 0, 0, w, h) == ClipToImage(m, w, h)
  {
  }

  // ---------------------------------------------------------------------
  // Extracting the selection into a new layer

  /**
   * The pixel the extraction puts at mask-local (u, v): the source pixel
   * (u + m.x - x, v + m.y - y) when the bit is set and that point is inside
   * the source image, else the cleared value 0.
   */
  ghost function Extracted(src: Image, m: Mask, x: int, y: int, u: int, v: int): (p: int)
    requires m.Valid() && m.bitmap.Some? && 0 <= u < m.w && 0 <= v < m.h
    reads src.pixels
  {
    var gx, gy := u + m.x - x, v + m.y - y;
    if m.Bit(u, v) && src.Contains(gx, gy) then src.pixels[gx, gy] else 0
  }

  /**
   * NewLayerFromMask: null when there is no sprite, no mask, no mask bitmap
   * or no resolvable image. Otherwise a new image layer with normal blending
   * whose stock holds one new mask-sized image of the extracted pixels, and
   * whose only cel, at the sprite's frame, refers to that stock slot and sits
   * at the mask's (x, y). The sprite itself is left untouched; the new layer
   * is not attached to it.
   */
  method NewLayerFromMask(sprite: Sprite?) returns (layer: Layer?)
    requires sprite != null && sprite.mask.Some? ==> sprite.mask.value.Valid()
    ensures layer == null <==>
      (sprite == null || sprite.mask.None? || sprite.mask.value.bitmap.None? || GetImage2(sprite).0 == null)
    ensures layer != null ==>
      var m, src, p := sprite.mask.value, GetImage2(sprite).0, GetImage2(sprite).1.value;
      && fresh(layer) && layer.IsImage() && layer.blendMode == Normal && layer.Valid()
      && layer.cels.Keys == {sprite.frpos}
      && |layer.stock| == 1
      && var cel, dst := layer.cels[sprite.frpos], layer.stock[|layer.stock| - 1];
      && fresh(cel) && fresh(dst) && fresh(dst.pixels)
      && cel.frpos == sprite.frpos
      && cel.image == |layer.stock| - 1 && layer.stock[cel.image] == dst
      && cel.x == m.x && cel.y == m.y && cel.opacity == 255
      && dst.Width() == m.w && dst.Height() == m.h
      && forall u, v :: 0 <= u < m.w && 0 <= v < m.h ==> dst.pixels[u, v] == Extracted(src, m, p.x, p.y, u, v)
  {
    var (src, placement) := GetImage2(sprite);
    if sprite == null || sprite.mask.None? || sprite.mask.value.bitmap.None? || src == null {
      return null;
    }
    var mask := sprite.mask.value;
    var x, y := placement.value.x, placement.value.y;
    var dst := new Image(mask.w, mask.h);
    dst.Clear(0);
    CopyCovered(dst, src, mask, x, y);
    layer := new Layer(ImageLayer);
    layer.SetBlendMode(Normal);
    var index := layer.AddImage(dst);
    var cel := new Cel(sprite.frpos, index);
    cel.SetPosition(mask.x, mask.y);
    layer.AddCel(cel);
  }

  /**
   * The loops of NewLayerFromMask: for each set mask bit, copy the source
   * pixel under it into `dst` at mask-local coordinates, skipping source
   * points outside `src`; `dst` starts cleared to 0.
   */
  method CopyCovered(dst: Image, src: Image, m: Mask, x: int, y: int)
    requires m.Valid() && m.bitmap.Some?
    requires dst.Width() == m.w && dst.Height() == m.h && dst.pixels != src.pixels
    requires forall u, v :: 0 <= u < m.w && 0 <= v < m.h ==> dst.pixels[u, v] == 0
    modifies dst.pixels
    ensures forall u, v :: 0 <= u < m.w && 0 <= v < m.h ==> dst.pixels[u, v] == Extracted(src, m, x, y, u, v)
  {
    var v := 0;
    while v < m.h
      invariant 0 <= v <= m.h
      invariant forall i, j :: 0 <= i < m.w && 0 <= j < m.h ==>
        dst.pixels[i, j] == if j < v then Extracted(src, m, x, y, i, j) else 0
    {
      CopyCoveredRow(dst, src, m, x, y, v);
      v := v + 1;
    }
  }

  /** One row of CopyCovered. */
  method CopyCoveredRow(dst: Image, src: Image, m: Mask, x: int, y: int, v: int)
    requires m.Valid() && m.bitmap.Some? && 0 <= v < m.h
    requires dst.Width() == m.w && dst.Height() == m.h && dst.pixels != src.pixels
    requires forall i :: 0 <= i < m.w ==> dst.pixels[i, v] == 0
    modifies dst.pixels
    ensures forall i, j :: 0 <= i < m.w && 0 <= j < m.h ==>
      dst.pixels[i, j] == if j == v then Extracted(src, m, x, y, i, j) else old(dst.pixels[i, j])
  {
    var row := m.bitmap.value[v];
    var quot, rem := 0, 0;
    var u := 0;
    while u < m.w
      invariant 0 <= u <= m.w
      invariant quot == u / 8 && rem == u % 8
      invariant forall i, j :: 0 <= i < m.w && 0 <= j < m.h ==>
        dst.pixels[i, j] == if j == v && i < u then Extracted(src, m, x, y, i, j) else old(dst.pixels[i, j])
    {
      if row[quot] & (1 << rem) != 0 {
        assert m.Bit(u, v);
        var getx, gety := u + m.x - x, v + m.y - y;
        if 0 <= getx < src.Width() && 0 <= gety < src.Height() {
          dst.pixels[u, v] := src.pixels[getx, gety];
        }
      } else {
        assert !m.Bit(u, v);
      }
      // _image_bitmap_next_bit
      if rem < 7 {
        rem := rem + 1;
      } else {
        quot, rem := quot + 1, 0;
      }
      u := u + 1;
    }
  }

  // ---------------------------------------------------------------------
  // Interactive move of the current cel

  /**
   * One mouse report of the drag: the pointer position and whether it moved
   * (the editor's `update` flag).
   */
  datatype DragEvent = DragEvent(newX: int, newY: int, update: bool)

  /**
   * The cel position after the drag reports `events`: each report that
   * moved sets it to begin + (new - start) on each axis, so it is the last
   * such report's position, or (beginX, beginY) when the pointer never moved.
   */
  function DraggedPosition(beginX: int, beginY: int, startX: int, startY: int, events: seq<DragEvent>): (r: (int, int))
    ensures r == (beginX, beginY) ||
      (exists k :: 0 <= k < |events| && events[k].update &&
         r == (beginX - startX + events[k].newX, beginY - startY + events[k].newY))
  {
    if events == [] then (beginX, beginY)
    else
      var e := events[|events| - 1];
      if e.update then (beginX - startX + e.newX, beginY - startY + e.newY)
      else DraggedPosition(beginX, beginY, startX, startY, events[..|events| - 1])
  }

  /**
   * DraggedPosition is the offset begin - start applied to the last moving
   * report, and the begin position when no report moved.
   */
  lemma {:induction false} DraggedPositionIsLastMove(beginX: int, beginY: int, startX: int, startY: int, events: seq<DragEvent>)
    ensures (forall k :: 0 <= k < |events| ==> !events[k].update) ==>
      DraggedPosition(beginX, beginY, startX, startY, events) == (beginX, beginY)
    ensures forall k :: 0 <= k < |events| && events[k].update && (forall l :: k < l < |events| ==> !events[l].update) ==>
      DraggedPosition(beginX, beginY, startX, startY, events) == (beginX - startX + events[k].newX, beginY - startY + events[k].newY)
  {
    if events != [] {
      var n := |events|;
      DraggedPositionIsLastMove(beginX, beginY, startX, startY, events[..n - 1]);
      if !events[n - 1].update {
        forall k | 0 <= k < n && events[k].update && (forall l :: k < l < n ==> !events[l].update)
          ensures DraggedPosition(beginX, beginY, startX, startY, events) == (beginX - startX + events[k].newX, beginY - startY + events[k].newY)
        {
          assert k < n - 1;
          assert events[..n - 1][k] == events[k];
        }
      }
    }
  }

  /** The undo transaction a committed move records. */
  function MoveTransaction(cel: Cel, beginX: int, beginY: int): (t: seq<Action>)
    ensures |t| == 4 && t[0] == Open && t[|t| - 1] == Close
    ensures FirstRecorded(t, cel, X) == Some(beginX) && FirstRecorded(t, cel, Y) == Some(beginY)
  {
    var t := [Open, IntField(cel, X, beginX), IntField(cel, Y, beginY), Close];
    assert t[1..] == [IntField(cel, X, beginX), IntField(cel, Y, beginY), Close];
    assert t[1..][1..] == [IntField(cel, Y, beginY), Close];
    assert FirstRecorded(t[1..][1..], cel, Y) == Some(beginY);
    t
  }

  /** Undoing the move's transaction puts the cel back at its begin position, wherever it ended. */
  lemma UndoMoveRestoresBegin(cel: Cel, beginX: int, beginY: int, endX: int, endY: int)
    ensures ReplayField(MoveTransaction(cel, beginX, beginY), cel, X, endX) == beginX
    ensures ReplayField(MoveTransaction(cel, beginX, beginY), cel, Y, endY) == beginY
  {
    var t := MoveTransaction(cel, beginX, beginY);
    ReplayRestoresFirstRecorded(t, cel, X, endX);
    ReplayRestoresFirstRecorded(t, cel, Y, endY);
  }

  ghost function MoveFrame(sprite: Sprite): (s: set<object>)
    reads sprite, sprite.layer
  {
    if sprite.layer != null && sprite.layer.GetCel(sprite.frpos) != null
    then {sprite.undo, sprite.layer.GetCel(sprite.frpos)}
    else {sprite.undo}
  }

  /**
   * interactive_move_layer, without its user interface: the cel at the
   * current frame follows the drag reports `events` (taken relative to the
   * click at (startX, startY)); on commit it stays where the drag left it
   * and, when undo is used and enabled, one transaction records x then y
   * while they hold the begin position; on cancel it returns to the begin
   * position and nothing is recorded. Returns whether the position changed
   * (the move was committed); false at once when there is no cel.
   */
  method InteractiveMoveLayer(sprite: Sprite, useUndo: bool, startX: int, startY: int,
                              events: seq<DragEvent>, cancelled: bool) returns (moved: bool)
    requires sprite.layer != null
    modifies MoveFrame(sprite)
    ensures sprite.undo.enabled == old(sprite.undo.enabled)
    ensures sprite.layer.GetCel(sprite.frpos) == null ==> !moved && sprite.undo.log == old(sprite.undo.log)
    ensures sprite.layer.GetCel(sprite.frpos) != null ==>
      var cel := sprite.layer.GetCel(sprite.frpos);
      && moved == !cancelled
      && cel.frpos == old(cel.frpos) && cel.image == old(cel.image) && cel.opacity == old(cel.opacity)
      && (cancelled ==>
            cel.x == old(cel.x) && cel.y == old(cel.y) && sprite.undo.log == old(sprite.undo.log))
      && (!cancelled ==>
            && (cel.x, cel.y) == DraggedPosition(old(cel.x), old(cel.y), startX, startY, events)
            && sprite.undo.log == old(sprite.undo.log) +
                 if useUndo && sprite.undo.enabled then MoveTransaction(cel, old(cel.x), old(cel.y)) else [])
  {
    var cel := sprite.layer.GetCel(sprite.frpos);
    if cel == null {
      return false;
    }
    var beginX, beginY := cel.x, cel.y;
    var k := 0;
    while k < |events|
      invariant 0 <= k <= |events|
      invariant (cel.x, cel.y) == DraggedPosition(beginX, beginY, startX, startY, events[..k])
      invariant cel.frpos == old(cel.frpos) && cel.image == old(cel.image) && cel.opacity == old(cel.opacity)
      modifies cel
    {
      if events[k].update {
        cel.x := beginX - startX + events[k].newX;
        cel.y := beginY - startY + events[k].newY;
      }
      assert events[..k + 1][..k] == events[..k];
      k := k + 1;
    }
    assert events[..|events|] == events;
    if !cancelled {
      if useUndo && sprite.undo.IsEnabled() {
        var newX, newY := cel.x, cel.y;
        sprite.undo.OpenTransaction();
        cel.x := beginX;
        cel.y := beginY;
        sprite.undo.RecordInt(cel, X);
        sprite.undo.RecordInt(cel, Y);
        cel.x := newX;
        cel.y := newY;
        sprite.undo.CloseTransaction();
      }
      moved := true;
    } else {
      cel.x := beginX;
      cel.y := beginY;
      moved := false;
    }
  }
}
