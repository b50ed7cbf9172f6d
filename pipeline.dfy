/**
 * One asset folder from loaded metadata to published sprite sheet: crop the
 * frames, pack the crops, order the packed rectangles by id, composite the
 * atlas, snap the quantized palette's alpha and write the packed geometry
 * into the consumer's frame records.
 *
 * File I/O is represented by parameters: the pixel sizes of the source
 * images, the crops as read back from disk, the palette the quantizer
 * produced for the atlas, and the frame array of the consumer document.
 */
module Pipeline {
  import opened Geometry
  import opened Metadata
  import opened Packing
  import opened Colors
  import opened Atlas
  import opened Palette
  import opened FrameRecords

  /** Ordering a packing by id keeps it a packing: still no overlaps, still
      inside the bounds. */
  lemma SortedPackingPlaced(setup: seq<PackingRectangle>, packed: seq<PackingRectangle>, bounds: Bounds)
    requires IdsAreIndices(setup) && IsPacking(setup, packed, bounds)
    ensures NonOverlapping(SortById(packed)) && WithinBounds(SortById(packed), bounds)
  {
    var s := SortById(packed);
    IdRoundTrip(setup, packed);
    forall j, k | 0 <= j < |s| && 0 <= k < |s| && j != k
      ensures !Overlap(s[j], s[k])
    {
      var a :| 0 <= a < |packed| && packed[a] == s[j];
      var b :| 0 <= b < |packed| && packed[b] == s[k];
      assert s[j].Id != s[k].Id;
    }
  }

  /** The packer call followed by the ordering by id. */
  method PackAndOrder(rects: array<PackingRectangle>) returns (bounds: Bounds, sorted: seq<PackingRectangle>)
    requires IdsAreIndices(rects[..])
    modifies rects
    ensures |sorted| == rects.Length
    ensures forall i :: 0 <= i < |sorted| ==>
      sorted[i].Id == i && sorted[i].Width == old(rects[i].Width) && sorted[i].Height == old(rects[i].Height) &&
      sorted[i] in rects[..]
    ensures NonOverlapping(sorted) && WithinBounds(sorted, bounds)
  {
    ghost var setup := rects[..];
    bounds := Pack(rects);
    sorted := SortById(rects[..]);
    IdRoundTrip(setup, rects[..]);
    SortedPackingPlaced(setup, rects[..], bounds);
  }

  /** Pack, order by id, composite, snap the palette and update the records:
      the branch taken once the consumer document has been found. */
  method PublishSheet(rects: array<PackingRectangle>, rasters: seq<Raster>,
                      palette: array<Rgba>, records: array<FrameRecord>)
    returns (bounds: Bounds, sorted: seq<PackingRectangle>, canvas: array2<Rgba>, outcome: UpdateOutcome)
    requires IdsAreIndices(rects[..])
    requires AllValid(rasters) && |rasters| == rects.Length
    requires forall i :: 0 <= i < |rasters| ==>
      rasters[i].Width == rects[i].Width && rasters[i].Height == rects[i].Height
    modifies rects, palette, records
    ensures |sorted| == |rasters|
    ensures forall i :: 0 <= i < |sorted| ==>
      sorted[i].Id == i && sorted[i].Width == old(rects[i].Width) && sorted[i].Height == old(rects[i].Height) &&
      sorted[i] in rects[..]
    ensures NonOverlapping(sorted) && WithinBounds(sorted, bounds)
    ensures fresh(canvas) && canvas.Length0 == bounds.Height && canvas.Length1 == bounds.Width
    ensures forall i, u, v :: 0 <= i < |rasters| && 0 <= u < rasters[i].Width && 0 <= v < rasters[i].Height ==>
      sorted[i].Y + v < canvas.Length0 && sorted[i].X + u < canvas.Length1 &&
      canvas[sorted[i].Y + v, sorted[i].X + u] == rasters[i].At(u, v)
    ensures forall y, x ::
      (0 <= y < canvas.Length0 && 0 <= x < canvas.Length1 &&
       forall i :: 0 <= i < |sorted| ==> !Covers(rasters[i], sorted[i].X, sorted[i].Y, x, y)) ==>
      canvas[y, x] == Transparent
    ensures forall i :: 0 <= i < palette.Length ==> palette[i] == SnapEntry(old(palette[i]))
    ensures outcome == Updated <==> |sorted| <= records.Length
    ensures forall i :: 0 <= i < records.Length ==>
      records[i] == if i < |sorted| then WithSprite(old(records[i]), sorted[i]) else old(records[i])
  {
    bounds, sorted := PackAndOrder(rects);
    assert SizesMatch(rasters, sorted);
    canvas := BuildAtlas(bounds, rasters, sorted);
    AtlasContents(bounds, rasters, sorted);
    SnapPalette(palette);
    outcome := UpdateFrameRecords(records, sorted);
  }

  /** A folder whose consumer document was found, from loaded metadata on.
      Source image i has size sizes[i]; rasters[i] is crop i read back, which
      has the computed crop size. Record i ends up with crop i's size and the
      position frame i was packed at. */
  method ProcessFolder(meta: Meta, sizes: seq<ImageSize>, rasters: seq<Raster>,
                       palette: array<Rgba>, records: array<FrameRecord>)
    returns (crops: seq<CroppedImgInfo>, bounds: Bounds, sorted: seq<PackingRectangle>,
             canvas: array2<Rgba>, outcome: UpdateOutcome)
    requires meta.anim.Width > 0 && meta.anim.Height > 0
    requires forall i :: 0 <= i < |meta.frames| ==> meta.frames[i].Width >= 0 && meta.frames[i].Height >= 0
    requires |sizes| == |meta.frames| && |rasters| == |meta.frames| && AllValid(rasters)
    requires forall i :: 0 <= i < |rasters| ==>
      var c := CropGeometry(sizes[i].Width, sizes[i].Height, meta.frames[i], meta.anim);
      rasters[i].Width == c.w && rasters[i].Height == c.h
    modifies palette, records
    ensures |crops| == |meta.frames| && |sorted| == |meta.frames|
    ensures forall i :: 0 <= i < |crops| ==>
      crops[i] == CropImage(CropPng(i), sizes[i].Width, sizes[i].Height, meta.frames[i], meta.anim)
    ensures forall i :: 0 <= i < |sorted| ==>
      sorted[i].Id == i && sorted[i].Width == crops[i].Width && sorted[i].Height == crops[i].Height
    ensures NonOverlapping(sorted) && WithinBounds(sorted, bounds)
    ensures fresh(canvas) && canvas.Length0 == bounds.Height && canvas.Length1 == bounds.Width
    ensures forall i, u, v :: 0 <= i < |rasters| && 0 <= u < rasters[i].Width && 0 <= v < rasters[i].Height ==>
      sorted[i].Y + v < canvas.Length0 && sorted[i].X + u < canvas.Length1 &&
      canvas[sorted[i].Y + v, sorted[i].X + u] == rasters[i].At(u, v)
    ensures forall i :: 0 <= i < palette.Length ==> palette[i] == SnapEntry(old(palette[i]))
    ensures outcome == Updated <==> |meta.frames| <= records.Length
    ensures forall i :: 0 <= i < records.Length ==>
      records[i] == if i < |sorted| then WithSprite(old(records[i]), sorted[i]) else old(records[i])
  {
    var rects;
    crops, rects := CropFrames(meta.frames, meta.anim, sizes);
    bounds, sorted, canvas, outcome := PublishSheet(rects, rasters, palette, records);
  }
}
