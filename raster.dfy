/**
 * The cel data model. A layer places, at each frame position, at most one
 * cel; a cel names its image by an integer index into the layer's stock
 * rather than owning it, so several cels may share one stock image. A cel
 * that shares the image of a cel at an earlier frame is a "link".
 */
module Raster {
  import opened Images

  /** A per-frame placement record: frame, stock index, offset and opacity. */
  class Cel {
    var frpos: int
    var image: int
    var x: int
    var y: int
    var opacity: int

    /** cel_new: the given frame and stock index, at (0, 0), fully opaque. */
    constructor (frpos: int, image: int)
      ensures this.frpos == frpos && this.image == image
      ensures x == 0 && y == 0 && opacity == 255
    {
      this.frpos := frpos;
      this.image := image;
      x := 0;
      y := 0;
      opacity := 255;
    }

    /**
     * cel_new_copy: a new, distinct cel with the same five fields; since the
     * copy is fresh, a setter called on it never changes this cel.
     */
    method Copy() returns (copy: Cel)
      ensures fresh(copy)
      ensures copy.frpos == frpos && copy.image == image
      ensures copy.x == x && copy.y == y && copy.opacity == opacity
    {
      copy := new Cel(frpos, image);
      copy.SetPosition(x, y);
      copy.SetOpacity(opacity);
    }

    /**
     * cel_set_frpos. Callers must first detach the cel from its layer, or
     * the layer's frame-keyed lookup no longer finds it at its frame.
     */
    method SetFrpos(frpos: int)
      modifies this
      ensures this.frpos == frpos
      ensures image == old(image) && x == old(x) && y == old(y) && opacity == old(opacity)
    {
      this.frpos := frpos;
    }

    /** cel_set_image: unchecked; the index is not validated against any stock. */
    method SetImage(image: int)
      modifies this
      ensures this.image == image
      ensures frpos == old(frpos) && x == old(x) && y == old(y) && opacity == old(opacity)
    {
      this.image := image;
    }

    /** cel_set_position. */
    method SetPosition(x: int, y: int)
      modifies this
      ensures this.x == x && this.y == y
      ensures frpos == old(frpos) && image == old(image) && opacity == old(opacity)
    {
      this.x := x;
      this.y := y;
    }

    /** cel_set_opacity: stored verbatim, not clamped to 0..255. */
    method SetOpacity(opacity: int)
      modifies this
      ensures this.opacity == opacity
      ensures frpos == old(frpos) && image == old(image) && x == old(x) && y == old(y)
    {
      this.opacity := opacity;
    }

    /**
     * cel_is_link: scans the frames 0, 1, ..., frpos - 1 of `layer` in
     * increasing order and returns the first cel there whose stock index is
     * this cel's, or null when no earlier frame holds such a cel.
     */
    method IsLink(layer: Layer) returns (link: Cel?)
      ensures link == null <==> forall f :: 0 <= f < frpos ==> !layer.SharesImage(f, image)
      ensures link != null ==> exists f :: 0 <= f < frpos && layer.FirstSharing(f, image) && link == layer.cels[f]
      ensures link != null && layer.Valid() ==>
        && link.frpos < frpos && link.image == image
        && link.frpos in layer.cels && layer.cels[link.frpos] == link
        && layer.FirstSharing(link.frpos, image)
    {
      var f := 0;
      while f < frpos
        invariant 0 <= f
        invariant forall g :: 0 <= g < f ==> !layer.SharesImage(g, image)
      {
        link := layer.GetCel(f);
        if link != null && link.image == image {
          assert layer.FirstSharing(f, image);
          return;
        }
        f := f + 1;
      }
      link := null;
    }
  }

  /** Layer kinds: only image layers hold cels that resolve to images. */
  datatype LayerKind = ImageLayer | LayerSet

  datatype BlendMode = Normal | OtherBlend

  /**
   * A layer: its cels keyed by frame position (so at most one cel per
   * frame) and its stock, the images the cels' indices refer to.
   */
  class Layer {
    const kind: LayerKind
    var blendMode: BlendMode
    var cels: map<int, Cel>
    var stock: seq<Image>

    /** Every cel is stored under its own frame position. */
    ghost predicate Valid()
      reads this, cels.Values
    {
      forall f :: f in cels ==> cels[f].frpos == f
    }

    /** layer_new: no cels and an empty stock. */
    constructor (kind: LayerKind)
      ensures this.kind == kind && blendMode == Normal
      ensures cels == map[] && stock == []
      ensures Valid()
    {
      this.kind := kind;
      blendMode := Normal;
      cels := map[];
      stock := [];
    }

    predicate IsImage() { kind == ImageLayer }

    /** layer_get_cel: the cel at frame f, or null. */
    function GetCel(f: int): (c: Cel?)
      reads this
      ensures c != null <==> f in cels
      ensures c != null ==> c == cels[f]
    {
      if f in cels then cels[f] else null
    }

    /** Frame f holds a cel whose stock index is `image`. */
    predicate SharesImage(f: int, image: int)
      reads this, cels.Values
    {
      f in cels && cels[f].image == image
    }

    /** Frame f is the first non-negative frame holding a cel with stock index `image`. */
    predicate FirstSharing(f: int, image: int)
      reads this, cels.Values
    {
      0 <= f && SharesImage(f, image) && forall g :: 0 <= g < f ==> !SharesImage(g, image)
    }

    /** layer_set_blend_mode. */
    method SetBlendMode(mode: BlendMode)
      modifies this
      ensures blendMode == mode && cels == old(cels) && stock == old(stock)
    {
      blendMode := mode;
    }

    /** stock_add_image on this layer's stock: appends and returns the new last index. */
    method AddImage(img: Image) returns (index: int)
      modifies this
      ensures stock == old(stock) + [img] && index == |old(stock)|
      ensures cels == old(cels) && blendMode == old(blendMode)
    {
      index := |stock|;
      stock := stock + [img];
    }

    /** layer_add_cel: the cel becomes the layer's cel at its frame position. */
    method AddCel(cel: Cel)
      requires Valid()
      modifies this
      ensures cels == old(cels)[cel.frpos := cel]
      ensures stock == old(stock) && blendMode == old(blendMode)
      ensures Valid()
    {
      cels := cels[cel.frpos := cel];
    }
  }

  /**
   * A client of the link search: frames 0, 2 and 5 hold cels sharing stock
   * image 7. The cel at frame 5 links to the cel at frame 0 (the first
   * match, not the nearest), and the cel at frame 0 links to nothing.
   */
  method LinkToFirstFrame()
  {
    var layer := new Layer(ImageLayer);
    var c0 := new Cel(0, 7);
    var c2 := new Cel(2, 7);
    var c5 := new Cel(5, 7);
    layer.AddCel(c0);
    layer.AddCel(c2);
    layer.AddCel(c5);
    assert layer.SharesImage(0, 7);
    var link := c5.IsLink(layer);
    assert c5.frpos == 5 && c5.image == 7;
    assert layer.SharesImage(0, 7);
    assert link != null && link.frpos == 0;
    assert link == c0;
    link := c0.IsLink(layer);
    assert link == null;
  }
}
