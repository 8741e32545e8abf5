/**
 * Images and selection masks, the two pixel-level collaborators of the
 * cel model. Only what the masked edits consume is modelled: an image is a
 * fixed-size buffer of integer pixels, and a mask is a bounding box plus a
 * bit-packed membership bitmap (8 columns per byte, bit `rem` of byte `quot`
 * holding column `quot * 8 + rem`).
 */
module Images {
  import opened Wrappers

  /** A bitmap image; `pixels[x, y]` is the pixel in column x of row y. */
  class Image {
    const pixels: array2<int>

    constructor (w: nat, h: nat)
      ensures Width() == w && Height() == h
      ensures fresh(pixels)
    {
      pixels := new int[w, h];
    }

    function Width(): nat { pixels.Length0 }
    function Height(): nat { pixels.Length1 }

    predicate Contains(px: int, py: int) {
      0 <= px < Width() && 0 <= py < Height()
    }

    /** image_clear: every pixel becomes `color`. */
    method Clear(color: int)
      modifies pixels
      ensures forall i, j :: 0 <= i < Width() && 0 <= j < Height() ==> pixels[i, j] == color
    {
      forall i, j | 0 <= i < Width() && 0 <= j < Height() {
        pixels[i, j] := color;
      }
    }

    /**
     * image_putpixel: writes one pixel, and silently ignores a point outside
     * the image (the primitive clips).
     */
    method PutPixel(px: int, py: int, color: int)
      modifies pixels
      ensures forall i, j :: 0 <= i < Width() && 0 <= j < Height() ==>
        pixels[i, j] == if i == px && j == py then color else old(pixels[i, j])
    {
      if Contains(px, py) {
        pixels[px, py] := color;
      }
    }
  }

  /**
   * The pixels of the `w` by `h` rectangle at (x, y), column by column:
   * `Crop(img, x, y, w, h)[i][j]` is pixel (x + i, y + j).
   */
  function Crop(img: Image, x: int, y: int, w: nat, h: nat): (r: seq<seq<int>>)
    requires 0 <= x && x + w <= img.Width() && 0 <= y && y + h <= img.Height()
    reads img.pixels
    ensures |r| == w
    ensures forall i :: 0 <= i < w ==> |r[i]| == h
  {
    seq(w, i requires 0 <= i < w reads img.pixels =>
      seq(h, j requires 0 <= j < h reads img.pixels => img.pixels[x + i, y + j]))
  }

  /** One row of a packed bitmap. */
  type BitRow = seq<bv8>

  /**
   * A selection mask: the bounding box (x, y, w, h) in sprite coordinates and
   * the packed bitmap, one row per line of the box; `bitmap == None` is the
   * mask with no bitmap, which is the empty mask.
   */
  datatype Mask = Mask(x: int, y: int, w: int, h: int, bitmap: Option<seq<BitRow>>) {

    /** The bitmap, when present, has `h` rows of at least ceil(w / 8) bytes. */
    predicate Valid() {
      && 0 <= w && 0 <= h
      && (bitmap.Some? ==>
            && |bitmap.value| == h
            && forall v :: 0 <= v < h ==> (w + 7) / 8 <= |bitmap.value[v]|)
    }

    predicate IsEmpty() { bitmap.None? }

    /** Bit `u % 8` of byte `u / 8` of row v: mask-local point (u, v) is selected. */
    predicate Bit(u: int, v: int): (b: bool)
      requires Valid() && bitmap.Some?
      requires 0 <= u < w && 0 <= v < h
    {
      bitmap.value[v][u / 8] & (1 << (u % 8)) != 0
    }
  }
}
