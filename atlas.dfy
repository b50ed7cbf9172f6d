/**
 * The atlas compositor. A canvas the size of the packer's bounding box starts
 * fully transparent; crop i is then copied onto it at the position of sorted
 * rectangle i, replacing every canvas pixel it covers (alpha included). A
 * crop that reaches past the canvas edge is clipped.
 *
 * The canvas is a two-dimensional array indexed [y, x]: Length0 is its
 * height and Length1 its width.
 */
module Atlas {
  import opened Colors
  import opened Packing

  /** A decoded image: `rows` holds Height rows of Width pixels each. */
  datatype Raster = Raster(Width: nat, Height: nat, rows: seq<seq<Rgba>>)
  {
    predicate Valid()
    {
      |rows| == Height && forall y :: 0 <= y < |rows| ==> |rows[y]| == Width
    }

    function At(x: nat, y: nat): Rgba
      requires Valid() && x < Width && y < Height
    {
      rows[y][x]
    }
  }

  /** An image placed with its top-left corner at (x0, y0) covers (x, y). */
  predicate Covers(img: Raster, x0: nat, y0: nat, x: int, y: int)
  {
    x0 <= x < x0 + img.Width && y0 <= y < y0 + img.Height
  }

  /** The pixel at (x, y) after copying `img` at (x0, y0) over `under`. */
  function Over(img: Raster, x0: nat, y0: nat, x: int, y: int, under: Rgba): Rgba
    requires img.Valid()
  {
    if Covers(img, x0, y0, x, y) then img.At(x - x0, y - y0) else under
  }

  predicate AllValid(crops: seq<Raster>)
  {
    forall i :: 0 <= i < |crops| ==> crops[i].Valid()
  }

  /** The pixel at (x, y) once the first k crops have been copied onto a
      transparent canvas, crop i at the position of rects[i]. */
  function Layered(crops: seq<Raster>, rects: seq<PackingRectangle>, k: nat, x: int, y: int): Rgba
    requires k <= |crops| <= |rects| && AllValid(crops)
  {
    if k == 0 then Transparent
    else Over(crops[k - 1], rects[k - 1].X, rects[k - 1].Y, x, y, Layered(crops, rects, k - 1, x, y))
  }

  /** Copy composite of `img` onto the canvas at (x0, y0): covered pixels take
      the image's pixel, all others keep theirs. */
  method CompositeCopy(canvas: array2<Rgba>, img: Raster, x0: nat, y0: nat)
    requires img.Valid()
    modifies canvas
    ensures forall y, x :: 0 <= y < canvas.Length0 && 0 <= x < canvas.Length1 ==>
      canvas[y, x] == Over(img, x0, y0, x, y, old(canvas[y, x]))
  {
    var height, width := canvas.Length0, canvas.Length1;
    for y := 0 to height
      invariant forall yy, xx :: 0 <= yy < y && 0 <= xx < width ==>
        canvas[yy, xx] == Over(img, x0, y0, xx, yy, old(canvas[yy, xx]))
      invariant forall yy, xx :: y <= yy < height && 0 <= xx < width ==>
        canvas[yy, xx] == old(canvas[yy, xx])
    {
      for x := 0 to width
        invariant forall yy, xx :: 0 <= yy < y && 0 <= xx < width ==>
          canvas[yy, xx] == Over(img, x0, y0, xx, yy, old(canvas[yy, xx]))
        invariant forall xx :: 0 <= xx < x ==>
          canvas[y, xx] == Over(img, x0, y0, xx, y, old(canvas[y, xx]))
        invariant forall xx :: x <= xx < width ==> canvas[y, xx] == old(canvas[y, xx])
        invariant forall yy, xx :: y < yy < height && 0 <= xx < width ==>
          canvas[yy, xx] == old(canvas[yy, xx])
      {
        if Covers(img, x0, y0, x, y) {
          canvas[y, x] := img.At(x - x0, y - y0);
        }
      }
    }
  }

  /** The compositing loop: a transparent canvas of the bounding-box size with
      every crop copied on in frame order. */
  method BuildAtlas(bounds: Bounds, crops: seq<Raster>, rects: seq<PackingRectangle>)
    returns (canvas: array2<Rgba>)
    requires |crops| == |rects| && AllValid(crops)
    ensures fresh(canvas)
    ensures canvas.Length0 == bounds.Height && canvas.Length1 == bounds.Width
    ensures forall y, x :: 0 <= y < canvas.Length0 && 0 <= x < canvas.Length1 ==>
      canvas[y, x] == Layered(crops, rects, |crops|, x, y)
  {
    canvas := new Rgba[bounds.Height, bounds.Width]((y, x) => Transparent);
    for i := 0 to |crops|
      invariant canvas.Length0 == bounds.Height && canvas.Length1 == bounds.Width
      invariant forall y, x :: 0 <= y < canvas.Length0 && 0 <= x < canvas.Length1 ==>
        canvas[y, x] == Layered(crops, rects, i, x, y)
    {
      CompositeCopy(canvas, crops[i], rects[i].X, rects[i].Y);
    }
  }

  /** A pixel no crop covers stays transparent. */
  lemma {:induction false} UncoveredStaysTransparent(crops: seq<Raster>, rects: seq<PackingRectangle>, k: nat, x: int, y: int)
    requires k <= |crops| <= |rects| && AllValid(crops)
    requires forall i :: 0 <= i < k ==> !Covers(crops[i], rects[i].X, rects[i].Y, x, y)
    ensures Layered(crops, rects, k, x, y) == Transparent
  {
    if k > 0 {
      UncoveredStaysTransparent(crops, rects, k - 1, x, y);
    }
  }

  /** Each crop has the size of its packing rectangle. */
  predicate SizesMatch(crops: seq<Raster>, rects: seq<PackingRectangle>)
  {
    |crops| == |rects| &&
    forall i :: 0 <= i < |crops| ==> crops[i].Width == rects[i].Width && crops[i].Height == rects[i].Height
  }

  /** Pixel (u, v) of crop i is what the canvas shows at its placed position
      once the first k crops (i among them) are copied on. */
  lemma {:induction false} CropPixelShown(crops: seq<Raster>, rects: seq<PackingRectangle>, k: nat, i: nat, u: nat, v: nat)
    requires SizesMatch(crops, rects) && AllValid(crops) && NonOverlapping(rects)
    requires i < k <= |crops| && u < crops[i].Width && v < crops[i].Height
    ensures Layered(crops, rects, k, rects[i].X + u, rects[i].Y + v) == crops[i].At(u, v)
  {
    if i < k - 1 {
      var x, y := rects[i].X + u, rects[i].Y + v;
      if Covers(crops[k - 1], rects[k - 1].X, rects[k - 1].Y, x, y) {
        assert Overlap(rects[i], rects[k - 1]);
      }
      CropPixelShown(crops, rects, k - 1, i, u, v);
    }
  }

  /** The finished atlas: every pixel (u, v) of crop i appears at
      (rects[i].X + u, rects[i].Y + v), which lies inside the canvas, and
      every pixel outside all placed rectangles is transparent. */
  lemma {:induction false} AtlasContents(bounds: Bounds, crops: seq<Raster>, rects: seq<PackingRectangle>)
    requires SizesMatch(crops, rects) && AllValid(crops)
    requires NonOverlapping(rects) && WithinBounds(rects, bounds)
    ensures forall i, u, v :: 0 <= i < |crops| && 0 <= u < crops[i].Width && 0 <= v < crops[i].Height ==>
      rects[i].X + u < bounds.Width && rects[i].Y + v < bounds.Height &&
      Layered(crops, rects, |crops|, rects[i].X + u, rects[i].Y + v) == crops[i].At(u, v)
    ensures forall x, y :: (forall i :: 0 <= i < |rects| ==> !Covers(crops[i], rects[i].X, rects[i].Y, x, y)) ==>
      Layered(crops, rects, |crops|, x, y) == Transparent
  {
    forall i, u, v | 0 <= i < |crops| && 0 <= u < crops[i].Width && 0 <= v < crops[i].Height
      ensures Layered(crops, rects, |crops|, rects[i].X + u, rects[i].Y + v) == crops[i].At(u, v)
    {
      CropPixelShown(crops, rects, |crops|, i, u, v);
    }
    forall x, y | forall i :: 0 <= i < |rects| ==> !Covers(crops[i], rects[i].X, rects[i].Y, x, y)
      ensures Layered(crops, rects, |crops|, x, y) == Transparent
    {
      UncoveredStaysTransparent(crops, rects, |crops|, x, y);
    }
  }
}
