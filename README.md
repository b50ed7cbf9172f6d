# Sprite-sheet packer: a Dafny model of its geometry and packing core

This project models the core of a sprite-atlas builder for animated 2D assets.
An asset folder holds numbered frame images (`0.png`, `1.png`, ...) and a
`meta.json` descriptor. The program does five things:

1. It loads the descriptor into a reference ("anim") geometry and one frame
   geometry per entry. Every frame's height and y-offset are doubled.
2. It maps each frame's logical offset and size into the source image's pixel
   space, one scale factor per axis, truncating each coordinate on its own.
3. It crops each frame and gives each crop a packing rectangle whose `Id` is
   the frame index. An external bin packer places the rectangles, and ordering
   the result by `Id` restores frame order.
4. It copies every crop onto a transparent canvas the size of the packer's
   bounding box, overwriting what is there. The quantized palette of that
   atlas then has its alphas snapped to 0, 127 or 255.
5. It writes each frame's packed width, height and sheet position into the
   consumer's frame records, by position.

Modules, one per component:

- `Geometry` (geometry.dfy): `FrameInfo`, `CroppedImgInfo`, the crop arithmetic.
- `Metadata` (metadata.dfy): the loader, including its error results.
- `Packing` (packing.dfy): the setup loop, the packer contract, ordering by id, the id round trip.
- `Colors` (colors.dfy): RGBA values.
- `Atlas` (atlas.dfy): the canvas (an `array2`), the copy composite and the compositing loop.
- `Palette` (palette.dfy): the alpha-snap rule and the in-place palette loop.
- `FrameRecords` (records.dfy): the positional record update.
- `Pipeline` (pipeline.dfy): the steps chained for one folder.

A note on ordering: the atlas might be expected to appear even when no consumer
document is found. It does not. Program.cs:124-181 packs, composites, quantizes
and writes the atlas only inside the branch where that document exists.
`Pipeline.PublishSheet` models this branch. Without the document, only the crop
loop (`Packing.CropFrames`) runs.

## Model

| member | source | states |
|---|---|---|
| `Geometry.TruncDiv` | Program.cs:198 | the integer cast of the exact quotient n/d rounds toward zero: its magnitude is the largest multiple count of d within abs(n), and it has n's sign |
| `Geometry.TruncQuotientUnique` | Program.cs:198 | the truncated quotient is unique, so the contracts that use it fix each crop coordinate completely |
| `Geometry.TruncDivOfMultiple` | Program.cs:193-198 | a scale of exactly one leaves a coordinate unchanged: k*d/d truncates to k |
| `Geometry.CropGeometry` | Program.cs:190-198 | x and y are image size × (reference offset + frame offset) / reference size, truncated toward zero; w and h are image size × frame size / reference size, truncated; each axis uses its own scale |
| `Geometry.CropAtUnitScale` | Program.cs:190-198 | when the source image is exactly the reference size, the crop is the raw (already doubled) offsets, summed with the reference offset, and the raw sizes |
| `Geometry.CropSizeWithinImage` | Program.cs:195-196 | a frame no larger than the reference canvas crops to at most the image's pixel width and height |
| `Geometry.TwoFrameExample` | Program.cs:80-83 | a two-frame folder with a 10×10 canvas and 10×10 images crops to 4×10 and 3×6, because heights and y-offsets are doubled |
| `Geometry.CropImage` | Program.cs:186-208 | the returned record carries the output path and exactly the truncated crop width and height of the crop geometry |
| `Metadata.ReadInt16` | Program.cs:68 | a field reads successfully iff it is present and fits in 16 bits, and then gives its value; otherwise the error names the field and says whether it was absent |
| `Metadata.ParseFrames` | Program.cs:78-87 | succeeds iff every entry is readable; then one FrameInfo per entry in the same order, height = 2·original_height, width = original_width, offsetX = x_offset, offsetY = 2·y_offset; a failure names a bad field of some entry |
| `Metadata.ParseHeader` | Program.cs:68-74 | the reference geometry is size.h, size.w, offset.x, offset.y taken undoubled, plus frame_count; it succeeds iff all five are readable |
| `Metadata.ParseMeta` | Program.cs:64-98 | succeeds iff the header, frames_info and every entry are readable; the frame list has one entry per frames_info element; the count warning is raised exactly when that length differs from frame_count; every error names a missing or out-of-range field |
| `Packing.CropFrames` | Program.cs:103-113 | crop i is CropImage of frame i written to crop_i.png, and rectangle i has Id = i with crop i's width and height |
| `Packing.Pack` | Program.cs:126 | the packer contract: same ids and sizes as a multiset, positions without overlap and inside the returned bounds |
| `Packing.Insert` | Program.cs:127 | inserting into an id-ordered sequence keeps it ordered and adds exactly the one rectangle |
| `Packing.SortById` | Program.cs:127 | ordering by id yields an id-ordered permutation of its input |
| `Packing.KeysOfPermutation` | Program.cs:127 | a permutation of rectangles permutes their (id, width, height) keys alike |
| `Packing.IdsArePermutationOfRange` | Program.cs:104-112 | after setup the ids are exactly 0..N-1, each once |
| `Packing.IdRoundTrip` | Program.cs:110-127 | after any packing that keeps ids and sizes, the id-ordered result has Id i at position i with frame i's width and height, and each element is a packed rectangle |
| `Atlas.CompositeCopy` | Program.cs:132 | copy compositing: every canvas pixel covered by the placed image takes the image's pixel, alpha included; every other pixel keeps its value |
| `Atlas.BuildAtlas` | Program.cs:128-133 | the canvas has the bounding-box size and each pixel is the transparent background overlaid by crops 0..N-1 in order, each at its rectangle's position |
| `Atlas.UncoveredStaysTransparent` | Program.cs:128 | a pixel that no placed crop covers stays #00000000 |
| `Atlas.CropPixelShown` | Program.cs:130-133 | with non-overlapping rectangles of the crops' sizes, the atlas pixel at (X_i + u, Y_i + v) is crop i's pixel (u, v) |
| `Atlas.AtlasContents` | Program.cs:128-133 | given the packer's non-overlap and in-bounds guarantees, every pixel of every crop lands inside the canvas at its packed position, and all pixels outside the placed regions are transparent |
| `Palette.SnapAlpha` | Program.cs:150-152 | the snapped alpha is 0, 127 or 255; it is 0 iff the input is 0, and 255 iff the input exceeds the cutoff 127 |
| `Palette.SnapEntry` | Program.cs:149-153 | red, green and blue are kept and alpha is snapped |
| `Palette.SnapPalette` | Program.cs:145-156 | the palette keeps its length and every entry is replaced by its snapped entry |
| `Palette.SnapAlphaCases` | Program.cs:150-152 | 0 stays 0, 255 stays 255, 1..127 become 127 and 128..254 become 255 |
| `Palette.SnapAlphaIsLeastTierAbove` | Program.cs:145-152 | the rule rounds alpha up to the nearest of 0, 127, 255 |
| `Palette.SnapAlphaMonotone` | Program.cs:150-152 | snapping never reverses the order of two alphas |
| `Palette.SnapIdempotent` | Program.cs:150-152 | snapping twice equals snapping once, for alphas and for whole entries |
| `FrameRecords.WithSprite` | Program.cs:171-174 | the record gains or overwrites exactly sprite_height, sprite_width, sprite_sheet_x and sprite_sheet_y with the rectangle's height, width, x and y; every other field is unchanged |
| `FrameRecords.UpdateFrameRecords` | Program.cs:169-175 | record i < count is updated from rectangle i and later records are unchanged; it succeeds iff there are no more rectangles than records, and otherwise fails at the first missing index |
| `Pipeline.SortedPackingPlaced` | Program.cs:126-127 | the id-ordered rectangles still do not overlap and still lie inside the bounds |
| `Pipeline.PackAndOrder` | Program.cs:126-127 | after packing and ordering, position i holds frame i's packed rectangle with its original size, placed without overlap inside the bounds |
| `Pipeline.PublishSheet` | Program.cs:126-175 | the whole found-document branch: the atlas shows every crop at its packed position on a transparent background, the palette is snapped, and record i gets sorted rectangle i |
| `Pipeline.ProcessFolder` | Program.cs:101-175 | for a loaded folder, record i ends up with crop i's computed size and the position frame i was packed at |

## Left out

- Directory and argument handling, the `meta.json` existence check and console output (Program.cs:37-56) are not modelled. The frame-count warning is modelled as the flag `Meta.countMismatch`.
- JSON text parsing and serialisation (Program.cs:62, 168, 178) are not modelled. The descriptor arrives as fields already extracted, each `Option<int>`, where `None` means missing or not an integer. The consumer document arrives as its `frames` array of field maps, and it is assumed to be an array of objects.
- The sibling-directory scan with its first-match `break` (Program.cs:119-124, 181) and the one-time backup copy (Program.cs:163-166) are file-system logic and are not modelled.
- Image decoding, cropping, writing and saving, and the Wu quantizer (Program.cs:128, 137-142, 157, 189, 198-199) belong to external libraries. Source images are represented by their pixel sizes, crops read back from disk by `Atlas.Raster` values, and the quantizer by the palette array it returns.
- The RectpackSharp heuristic is not modelled. `Packing.Pack` has a one-row stand-in body only because every method needs a body. Callers use its contract alone: same ids and sizes, no overlap, inside the bounds. Minimality of the bounding box is not stated.
- Geometry.CropGeometry: uses exact rational arithmetic instead of single-precision `float`, so results can differ from the program's at rounding edges. Overflow of the `(int)` and `(uint)` casts is not modelled.
- Geometry.CropGeometry: requires a positive reference width and height and non-negative frame width and height, which the source does not check. A zero reference size gives an infinite float scale, and casting a negative float to `uint` is platform-defined. Offsets may be negative, and those truncate toward zero. `Packing.CropFrames` and `Pipeline.ProcessFolder` carry the same requirements.
- Pipeline.ProcessFolder: requires each crop read back to have exactly the computed crop size. Clipping by the image library of a crop that extends past its source image is not modelled.
- The exception paths are simplified. A missing or unreadable field in `meta.json` becomes a `ParseError` result; which exception type the JSON library throws is not modelled. An index past the end of the consumer's `frames` array becomes `IndexOutOfRange`, and the document is then not written. In the program, that exception is uncaught and ends the whole run.
- Packing.SortById: stability is not stated, because ids are distinct whenever it is used.
