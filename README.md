# Cel model and masked edits of the ASE sprite editor, in Dafny

This project models the core of the Allegro Sprite Editor's raster data
model and its mask-driven pixel edits:

- **Cels** (`src/raster/cel.c`): a cel places one image of its layer's
  *stock* at one frame position (`frpos`), with an offset `(x, y)` and an
  `opacity`. The image is named by an integer index into the stock, so
  several cels may share one image. `cel_is_link` finds the first earlier
  frame whose cel shares the index. Modelled as the class `Raster.Cel`. Its
  constructor, copy and setters update fields in place. `IsLink` is the
  search loop.
- **Layers and stocks** are collaborators whose code is not part of this
  model. They are modelled by their minimal contracts as `Raster.Layer`:
  - a map from frame position to cel, so a layer has at most one cel per frame;
  - a stock that is a sequence of images, where adding returns the new last index;
  - a layer kind (image layer or layer set) and a blend mode.
- **Images and masks** (`Images`): an image is a fixed-size `array2<int>`
  buffer. A mask is a bounding box `(x, y, w, h)` plus a bit-packed bitmap.
  Mask-local column `u` of row `v` is bit `u % 8` of byte `u / 8`.
- **Undo log** (`Undo`): an enabled flag and an append-only journal of
  actions. The actions are `Open`, `Close`, an integer-field snapshot
  (`undo_int`) and a pixel-rectangle snapshot (`undo_image`). Undoing
  replays the actions last-recorded first.
- **Sprite-level helpers** (`src/util/misc.c`, module `Misc`):
  - the image lookups `GetImage`, `GetImage2` and `GetLayerImage`;
  - `ClearMask`, which clears the selected pixels to the background colour;
  - `NewLayerFromMask`, which copies the selection into a new, unattached layer;
  - the drag arithmetic and the commit/cancel/undo tail of `interactive_move_layer`.

The application's current sprite is an explicit `Misc.Sprite` argument. The
background colour (already converted to the image type) and the editor's
mouse reports and cancel state are parameters.

The model follows the code where its documentation is ambiguous:
- cel opacity is a plain `int`. The setter stores it unclamped, and only
  `GetImage2` clamps it, on read.
- `ClearMask` clips the mask box without the cel offset (see Findings).

## Model

| member | source | states |
|---|---|---|
| `Raster.Cel.constructor` | src/raster/cel.c:28-41 | a new cel has the given frpos and image index, position (0, 0) and opacity 255 |
| `Raster.Cel.Copy` | src/raster/cel.c:43-54 | the copy is a fresh object, so setters on it never touch the source; its five fields equal the source's |
| `Raster.Cel.SetFrpos` | src/raster/cel.c:75-80 | sets frpos only; the other four fields are unchanged |
| `Raster.Cel.SetImage` | src/raster/cel.c:82-85 | sets the stock index only, unchecked; the other fields are unchanged |
| `Raster.Cel.SetPosition` | src/raster/cel.c:87-91 | sets x and y only; the other fields are unchanged |
| `Raster.Cel.SetOpacity` | src/raster/cel.c:93-96 | stores the opacity verbatim (no clamping), so any int reads back as given; the other fields are unchanged |
| `Raster.Cel.IsLink` | src/raster/cel.c:61-73 | returns null exactly when no frame in 0..frpos-1 has a cel with the same stock index, so a cel at frpos 0 or below never links. Otherwise it returns the layer's cel at the FIRST such frame. In a well-formed layer that link is the layer's cel at its own frpos, which is smaller; it has the same index, and no lower frame shares the index |
| `Raster.Layer.constructor` | src/util/misc.c:227 | a new layer has the given kind, normal blending, no cels and an empty stock, and is well-formed |
| `Raster.Layer.GetCel` | src/raster/cel.c:67 | the layer's cel at a frame, non-null exactly when the frame holds one |
| `Raster.Layer.SetBlendMode` | src/util/misc.c:233 | sets the blend mode; cels and stock unchanged |
| `Raster.Layer.AddImage` | src/util/misc.c:235 | appends the image to the stock and returns its index, the new last one; cels unchanged |
| `Raster.Layer.AddCel` | src/util/misc.c:238 | the cel becomes the layer's cel at its own frpos; the stock is unchanged and well-formedness (every cel stored under its frpos) is kept |
| `Images.Image.constructor` | src/util/misc.c:200 | image_new: a fresh pixel buffer of the requested width and height |
| `Images.Mask.IsEmpty` | src/util/misc.c:145 | mask_is_empty: the mask has no bitmap |
| `Images.Mask.Bit` | src/util/misc.c:171 | the mask-local point (u, v) is selected exactly when bit u % 8 of byte u / 8 of row v is set |
| `Images.Image.Clear` | src/util/misc.c:150 | every pixel of the image takes the colour |
| `Images.Image.PutPixel` | src/util/misc.c:174 | writes the one pixel when it lies in the image, ignores it otherwise; all other pixels unchanged |
| `Undo.UndoLog.OpenTransaction` | src/util/misc.c:349 | appends an Open marker; nothing else in the log changes |
| `Undo.UndoLog.CloseTransaction` | src/util/misc.c:356 | appends a Close marker |
| `Undo.UndoLog.RecordInt` | src/util/misc.c:352-353 | appends a snapshot of the field's current value |
| `Undo.UndoLog.RecordImage` | src/util/misc.c:146-147 | appends a snapshot of the rectangle's current pixels. The rectangle must lie inside the image |
| `Undo.UndoLog.IsEnabled` | src/util/misc.c:146 | undo_is_enabled: the log's enabled flag, which every caller tests before recording |
| `Undo.ReplayField` | src/util/misc.c:349-356 | undoing a log leaves a field either at its current value or at a value one of the field's snapshots in the log holds |
| `Undo.ReplayRestoresFirstRecorded` | src/util/misc.c:349-356 | undoing a log in reverse order leaves each cel field at the value of its FIRST snapshot in the log. A field never recorded keeps its current value |
| `Misc.Mid` | src/util/misc.c:86 | MID(0, v, 255) always lies in [0, 255]. It is v when v is in range, 0 below the range and 255 above |
| `Misc.GetImage` | src/util/misc.c:54-70 | non-null exactly when there is a sprite with an image layer that has a cel at the current frame and 0 <= cel.image < stock size. The result is then stock[cel.image] |
| `Misc.GetImage2` | src/util/misc.c:72-91 | returns the same image as GetImage under the same conditions. It reports the placement whenever the cel exists, even when the index check fails: x and y are the cel's, and the opacity is clamped into [0, 255] |
| `Misc.GetLayerImage` | src/util/misc.c:243-261 | for a given layer and frame, the image under the same conditions. It reports the cel's offset whenever the cel exists |
| `Misc.GetImageIsGetImage2` | src/util/misc.c:54-91 | GetImage and GetImage2 always resolve the same image |
| `Misc.GetImage2IsGetLayerImage` | src/util/misc.c:243-261 | GetImage2 on a sprite agrees with GetLayerImage on its layer and frame, in both image and offset |
| `Misc.ClipToImage` | src/util/misc.c:153-160 | the clipped bounds contain exactly the points inside both the w x h image and the mask box as given. They are empty (x1 > x2 or y1 > y2) exactly when that intersection is empty |
| `Misc.ClearMask` | src/util/misc.c:131-183 | no sprite or no image: nothing changes. Empty mask: when undo is enabled it first records the full (0, 0, w, h) rectangle with its old pixels, then every pixel takes the colour. Non-empty mask with an empty clip: image and log unchanged. Otherwise: when enabled it records exactly (x1, y1, x2-x1+1, y2-y1+1) with the old pixels. Then exactly the pixels under a set mask bit, translated by the cel offset, take the colour, and all others keep their old value |
| `Misc.ClearCovered` | src/util/misc.c:165-179 | after the row loop, a pixel holds the colour exactly when the mask covers it; every other pixel is unchanged |
| `Misc.ClearCoveredRow` | src/util/misc.c:170-178 | walking one mask row bit by bit (byte u/8, bit u%8) clears exactly the covered pixels of that row |
| `Misc.ClipToImageIgnoresCelOffset` | src/util/misc.c:153-174 | counterexamples to the clip as written, for a cel drawn at a non-zero offset. One pixel is cleared but lies outside the rectangle recorded for undo. A selection is left uncleared because its raw box misses the image |
| `Misc.ClipToImageAt` | src/util/misc.c:153-156 | corrected clip: the bounds contain exactly the image points inside the mask box moved into image coordinates |
| `Misc.ClipToImageAtCoversCovered` | src/util/misc.c:162-174 | with the corrected clip, every pixel the mask covers lies inside the clipped rectangle, which is then non-empty |
| `Misc.ClipToImageAtOrigin` | src/util/misc.c:153-156 | at cel offset (0, 0) the corrected clip equals the clip as written |
| `Misc.NewLayerFromMask` | src/util/misc.c:187-241 | null exactly when there is no sprite, no mask, no mask bitmap or no resolvable image. Otherwise it returns a fresh image layer with normal blending and a one-image stock. The image is fresh and mask-sized, and holds the extracted pixels. The layer's only cel is fresh, at the sprite's frpos, at the mask's (x, y), opacity 255. Its index is the last stock slot, the one the image was added at, and that slot holds the image |
| `Misc.CopyCovered` | src/util/misc.c:204-225 | starting from a zero-filled image, pixel (u, v) becomes the source pixel (u + mask.x - x, v + mask.y - y) when the bit is set and that point is inside the source. Otherwise it stays 0 |
| `Misc.CopyCoveredRow` | src/util/misc.c:212-224 | one mask row of CopyCovered; other rows unchanged |
| `Misc.DraggedPosition` | src/util/misc.c:298-301 | the cel position after the drag reports is either the begin position or begin - start + new of some report that moved |
| `Misc.MoveTransaction` | src/util/misc.c:349-356 | the committed move's transaction has four actions, opens with Open and ends with Close. Its first snapshots of x and y hold begin_x and begin_y |
| `Misc.DraggedPositionIsLastMove` | src/util/misc.c:298-301 | the dragged cel position is begin + (new - start) of the last report that moved. It is (begin_x, begin_y) when no report moved |
| `Misc.UndoMoveRestoresBegin` | src/util/misc.c:345-356 | undoing the committed move's transaction returns the cel to (begin_x, begin_y), wherever the drag ended |
| `Misc.InteractiveMoveLayer` | src/util/misc.c:283-367 | with no cel at the current frame, returns false and records nothing. On commit it stays at the dragged position and the result is true. With undo used and enabled, exactly one transaction Open, x := begin_x, y := begin_y, Close is appended. On cancel it returns to (begin_x, begin_y), nothing is recorded and the result is false. frpos, image and opacity never change. The contract gives only the final state; that the cel follows each report during the drag is shown by the loop invariant, not stated in the contract |

## Left out

- `LoadPalette` (src/util/misc.c:93-128) is not modelled: it is directory search, file loading and screen refresh.
- C `int` is 32 bits wide; the model's integers are unbounded. Sums such as `mask->x+mask->w-1` (src/util/misc.c:155-156), `u+mask->x-x` (src/util/misc.c:172-173, 214-215) and `begin_x - start_x + new_x` (src/util/misc.c:300-301) take their mathematical value, so overflow near ±2^31 is not modelled.
- The modal loop of `interactive_move_layer` is only partly modelled. The cursor, status bar, redraw, callback and clock-driven delay are left out. The editor's cancel state is a boolean. The mouse reports are a sequence of `DragEvent` values: only the reports of `editor_click` calls that returned TRUE. The report of the call that ends the loop is never applied (src/util/misc.c:298-341).
- `src/util/thmbnail.h` (thumbnail generation) is not modelled: it is declarations of UI rendering only.
- Allocation failure is not modelled. In the model, `gfxobj_new`, `image_new` and `layer_new` always succeed, so the NULL returns of `cel_new`, `cel_new_copy` and `NewLayerFromMask` for an exhausted heap do not appear. `cel_free` is not modelled either.
- Colour conversion is not modelled. `get_color_for_image(imgtype, get_bg_color())` is the `color` parameter of `ClearMask`, and the image type is not modelled.
- Undo internals are not modelled, beyond an append-only log and the replay of integer fields. Restoring pixel rectangles on undo, redo and memory limits are not modelled.
- `Raster.Layer.constructor`: assumes `layer_new` gives a layer with no cels, an empty stock and normal blending (harmless, because src/util/misc.c:233 sets the mode anyway). The code of `layer_new` and `stock_new` is not part of this model. `Misc.NewLayerFromMask` relies on it for "exactly one cel" and "a one-image stock". Its other promise, that the cel's index is the slot `stock_add_image` returned (the new last one), does not rely on it.
- The internals of layers and stocks are not modelled. Lookup and insertion follow the map contract, and `stock_add_image` appends.
- `image_putpixel` is assumed to clip writes that fall outside the image; its code is not part of this model. `mask_is_empty` is assumed to mean "the mask has no bitmap".
- `Raster.Cel.SetFrpos`: the caller's duty to detach the cel from its layer first is documentation only. Cels carry no parent pointer, so the contract cannot state it.
- `Misc.ClearMask`: requires a well-formed mask only when the sprite resolves an image. The source reads `sprite->mask` only inside `if (image)` (src/util/misc.c:142-145). A sprite with no image is a no-op whatever its mask.
- `Misc.InteractiveMoveLayer`: requires the sprite to have an active layer. The source passes `sprite->layer` to the cel lookup unchecked.

## Findings

| source | as written | input that shows it | evidently intended | confidence | as-written member | corrected member |
|---|---|---|---|---|---|---|
| src/util/misc.c:153-163 | `ClearMask` clips the mask box `(mask.x, mask.y, mask.w, mask.h)` against the image without subtracting the cel offset `(x, y)`. It records that rectangle for undo, but clears pixels at `(u + mask.x - x, v + mask.y - y)` | A 4x1 image drawn at (2, 0), with a 2x1 mask at (2, 0) and both bits set. Pixel (0, 0) is cleared, but the recorded rectangle is (2, 0, 2, 1), so undo cannot restore it. With the mask and image both at (10, 0), the clip is empty and nothing is cleared, though the mask covers pixel (0, 0) | clip `(mask.x - x, mask.y - y, mask.w, mask.h)` against the image, so the undo rectangle covers every cleared pixel | medium; not executed | `Misc.ClipToImageIgnoresCelOffset` | `Misc.ClipToImageAtCoversCovered` |

`Misc.ClearMask` keeps the clip as written (`Misc.ClipToImage`), because it
models the code. The corrected clip is `Misc.ClipToImageAt`. At offset
(0, 0) it equals the clip as written (`Misc.ClipToImageAtOrigin`).
