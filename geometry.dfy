/**
 * Frame geometry and the crop arithmetic of the sprite packer.
 *
 * A FrameInfo is a rectangle in the metadata's logical coordinate space. The
 * reference ("anim") geometry gives the logical canvas that a whole source
 * image represents; CropGeometry maps one frame's logical offset and size into
 * the source image's pixel space with one scale factor per axis
 * (image size / reference size) and truncates every coordinate toward zero on
 * its own. The scale is kept as an exact rational: a numerator and the
 * reference size as denominator.
 */
module Geometry {

  /** A rectangle in logical (metadata) units; all four are plain integers. */
  datatype FrameInfo = FrameInfo(Height: int, Width: int, OffsetX: int, OffsetY: int)

  /** The files a frame is read from and written to inside its folder. */
  datatype FramePath = SourcePng(index: nat) | CropPng(index: nat)

  /** What cropping one frame reports back: where the crop went and its size. */
  datatype CroppedImgInfo = CroppedImgInfo(Path: FramePath, Width: nat, Height: nat)

  /** The crop rectangle in source-pixel space. */
  datatype CropRect = CropRect(x: int, y: int, w: nat, h: nat)

  /** q is n / d truncated toward zero (d > 0): |q| is the largest count of d
      that fits in |n|, and q has the sign of n. */
  ghost predicate IsTruncQuotient(n: int, d: int, q: int)
  {
    d > 0 &&
    (n >= 0 ==> 0 <= q && q * d <= n < (q + 1) * d) &&
    (n < 0 ==> q <= 0 && -q * d <= -n < (-q + 1) * d)
  }

  /** Integer cast of the exact rational n / d, rounding toward zero as a
      floating-point-to-integer cast does. */
  function TruncDiv(n: int, d: int): (q: int)
    requires d > 0
    ensures IsTruncQuotient(n, d, q)
  {
    if n >= 0 then
      FloorDivBounds(n, d);
      n / d
    else
      FloorDivBounds(-n, d);
      -((-n) / d)
  }

  /** Euclidean division of a non-negative n brackets n between two multiples of d. */
  lemma FloorDivBounds(n: nat, d: int)
    requires d > 0
    ensures 0 <= n / d && (n / d) * d <= n < (n / d + 1) * d
  {
    var q, r := n / d, n % d;
    assert n == d * q + r && 0 <= r < d;
    assert d * q == q * d;
    assert (q + 1) * d == q * d + d;
  }

  /** The truncated quotient is determined by n and d alone. */
  lemma TruncQuotientUnique(n: int, d: int, q1: int, q2: int)
    requires IsTruncQuotient(n, d, q1) && IsTruncQuotient(n, d, q2)
    ensures q1 == q2
  {
    var a1, a2 := if n >= 0 then q1 else -q1, if n >= 0 then q2 else -q2;
    var m := if n >= 0 then n else -n;
    assert a1 * d <= m < (a1 + 1) * d;
    assert a2 * d <= m < (a2 + 1) * d;
    if a1 < a2 {
      MulLe(a1 + 1, a2, d);
    } else if a2 < a1 {
      MulLe(a2 + 1, a1, d);
    }
  }

  /** Multiplying by a non-negative factor keeps the order. */
  lemma MulLe(a: int, b: int, d: int)
    requires a <= b && 0 <= d
    ensures a * d <= b * d
  {
    assert b * d - a * d == (b - a) * d;
  }

  /** Dividing a multiple of d by d truncates to the exact factor. */
  lemma TruncDivOfMultiple(k: int, d: int)
    requires d > 0
    ensures TruncDiv(k * d, d) == k
  {
    if k >= 0 {
      assert IsTruncQuotient(k * d, d, k) by {
        assert (k + 1) * d == k * d + d;
      }
    } else {
      assert IsTruncQuotient(k * d, d, k) by {
        assert -(k * d) == (-k) * d;
        assert (-k + 1) * d == (-k) * d + d;
      }
    }
    TruncQuotientUnique(k * d, d, TruncDiv(k * d, d), k);
  }

  /** The pixel-space crop rectangle of `frame` in a source image of
      imageW x imageH pixels whose logical canvas is `anim`: the offset is the
      reference offset plus the frame offset, and each coordinate is
      image size * logical value / reference size, truncated toward zero. */
  function CropGeometry(imageW: nat, imageH: nat, frame: FrameInfo, anim: FrameInfo): (c: CropRect)
    requires anim.Width > 0 && anim.Height > 0
    requires frame.Width >= 0 && frame.Height >= 0
    ensures IsTruncQuotient(imageW * (anim.OffsetX + frame.OffsetX), anim.Width, c.x)
    ensures IsTruncQuotient(imageH * (anim.OffsetY + frame.OffsetY), anim.Height, c.y)
    ensures IsTruncQuotient(imageW * frame.Width, anim.Width, c.w)
    ensures IsTruncQuotient(imageH * frame.Height, anim.Height, c.h)
  {
    var w := TruncDiv(imageW * frame.Width, anim.Width);
    var h := TruncDiv(imageH * frame.Height, anim.Height);
    CropRect(TruncDiv(imageW * (anim.OffsetX + frame.OffsetX), anim.Width),
             TruncDiv(imageH * (anim.OffsetY + frame.OffsetY), anim.Height),
             w, h)
  }

  /** With a source image exactly the size of the logical canvas the scale is
      one, and the crop is the raw offsets and sizes. */
  lemma {:induction false} CropAtUnitScale(frame: FrameInfo, anim: FrameInfo)
    requires anim.Width > 0 && anim.Height > 0
    requires frame.Width >= 0 && frame.Height >= 0
    ensures CropGeometry(anim.Width, anim.Height, frame, anim)
         == CropRect(anim.OffsetX + frame.OffsetX, anim.OffsetY + frame.OffsetY, frame.Width, frame.Height)
  {
    var c := CropGeometry(anim.Width, anim.Height, frame, anim);
    assert anim.Width * (anim.OffsetX + frame.OffsetX) == (anim.OffsetX + frame.OffsetX) * anim.Width;
    assert anim.Height * (anim.OffsetY + frame.OffsetY) == (anim.OffsetY + frame.OffsetY) * anim.Height;
    assert anim.Width * frame.Width == frame.Width * anim.Width;
    assert anim.Height * frame.Height == frame.Height * anim.Height;
    TruncDivOfMultiple(anim.OffsetX + frame.OffsetX, anim.Width);
    TruncDivOfMultiple(anim.OffsetY + frame.OffsetY, anim.Height);
    TruncDivOfMultiple(frame.Width, anim.Width);
    TruncDivOfMultiple(frame.Height, anim.Height);
  }

  /** A two-frame folder on a 10 x 10 logical canvas with 10 x 10 source
      images: frames (height 5, width 4, offset 1, 1) and (3, 3, offset 2, 2),
      heights and y-offsets doubled on loading, crop to 4 x 10 and 3 x 6. */
  lemma {:induction false} TwoFrameExample()
    ensures CropGeometry(10, 10, FrameInfo(2 * 5, 4, 1, 2 * 1), FrameInfo(10, 10, 0, 0)) == CropRect(1, 2, 4, 10)
    ensures CropGeometry(10, 10, FrameInfo(2 * 3, 3, 2, 2 * 2), FrameInfo(10, 10, 0, 0)) == CropRect(2, 4, 3, 6)
  {
    CropAtUnitScale(FrameInfo(10, 4, 1, 2), FrameInfo(10, 10, 0, 0));
    CropAtUnitScale(FrameInfo(6, 3, 2, 4), FrameInfo(10, 10, 0, 0));
  }

  /** A frame no larger than the logical canvas crops to at most the image size. */
  lemma CropSizeWithinImage(imageW: nat, imageH: nat, frame: FrameInfo, anim: FrameInfo)
    requires anim.Width > 0 && anim.Height > 0
    requires 0 <= frame.Width <= anim.Width && 0 <= frame.Height <= anim.Height
    ensures CropGeometry(imageW, imageH, frame, anim).w <= imageW
    ensures CropGeometry(imageW, imageH, frame, anim).h <= imageH
  {
    var c := CropGeometry(imageW, imageH, frame, anim);
    ScaledSizeWithin(imageW, frame.Width, anim.Width, c.w);
    ScaledSizeWithin(imageH, frame.Height, anim.Height, c.h);
  }

  /** One axis of CropSizeWithinImage: image * v / ref <= image when v <= ref. */
  lemma ScaledSizeWithin(image: nat, v: int, ref: int, q: int)
    requires 0 <= v <= ref && 0 < ref
    requires IsTruncQuotient(image * v, ref, q)
    ensures q <= image
  {
    assert v * image <= ref * image by { MulLe(v, ref, image); }
    if q > image {
      MulLe(image + 1, q, ref);
    }
  }

  /** Cropping one frame: the returned record names the output file and
      carries the truncated crop width and height. The decoded source image
      is represented by its dimensions; decoding, cropping and writing the
      pixels are left to the image library. */
  function CropImage(outputPath: FramePath, imageW: nat, imageH: nat, frame: FrameInfo, anim: FrameInfo): (r: CroppedImgInfo)
    requires anim.Width > 0 && anim.Height > 0
    requires frame.Width >= 0 && frame.Height >= 0
    ensures r.Path == outputPath
    ensures r.Width == CropGeometry(imageW, imageH, frame, anim).w
    ensures r.Height == CropGeometry(imageW, imageH, frame, anim).h
  {
    var c := CropGeometry(imageW, imageH, frame, anim);
    CroppedImgInfo(outputPath, c.w, c.h)
  }
}
