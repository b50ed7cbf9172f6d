/**
 * The palette post-processing rule. After quantization, every palette entry
 * whose alpha lies strictly between fully transparent (0) and fully opaque
 * (255) is forced to one of two levels: 255 when it is above the cutoff 127,
 * and 127 otherwise. Colour channels are kept, so the palette ends up with at
 * most three alpha levels: 0, 127 and 255.
 */
module Palette {
  import opened Colors

  const FullAlphaThreshold: Byte := 127

  /** The three alpha levels a snapped palette may hold. */
  predicate IsAlphaTier(a: int)
  {
    a == 0 || a == 127 || a == 255
  }

  /** The alpha rule for one entry. Transparency is kept exactly, and an
      entry becomes fully opaque exactly when its alpha exceeds the cutoff. */
  function SnapAlpha(a: Byte): (r: Byte)
    ensures IsAlphaTier(r)
    ensures r == 0 <==> a == 0
    ensures r == 255 <==> a > FullAlphaThreshold
  {
    if 0 < a < 255 then
      if a > FullAlphaThreshold then 255 else 127
    else
      a
  }

  /** One palette entry after snapping: only the alpha channel may change. */
  function SnapEntry(c: Rgba): (d: Rgba)
    ensures d.R == c.R && d.G == c.G && d.B == c.B
    ensures d.A == SnapAlpha(c.A)
  {
    if 0 < c.A < 255 then c.(A := SnapAlpha(c.A)) else c
  }

  /** The loop over the palette entries, rewriting each in place. */
  method SnapPalette(entries: array<Rgba>)
    modifies entries
    ensures forall i :: 0 <= i < entries.Length ==> entries[i] == SnapEntry(old(entries[i]))
  {
    for i := 0 to entries.Length
      invariant forall k :: 0 <= k < i ==> entries[k] == SnapEntry(old(entries[k]))
      invariant forall k :: i <= k < entries.Length ==> entries[k] == old(entries[k])
    {
      var col := entries[i];
      if 0 < col.A < 255 {
        entries[i] := Rgba(col.R, col.G, col.B, if col.A > FullAlphaThreshold then 255 else 127);
      }
    }
  }

  /** The rule case by case: 0 and 255 stay, 1..127 become 127, 128..254 become 255. */
  lemma SnapAlphaCases(a: Byte)
    ensures a == 0 ==> SnapAlpha(a) == 0
    ensures a == 255 ==> SnapAlpha(a) == 255
    ensures 0 < a <= 127 ==> SnapAlpha(a) == 127
    ensures 127 < a < 255 ==> SnapAlpha(a) == 255
  {
  }

  /** Snapping rounds alpha up to the nearest tier: the result is the least
      of 0, 127, 255 that is not below the input. */
  lemma SnapAlphaIsLeastTierAbove(a: Byte, level: int)
    ensures IsAlphaTier(SnapAlpha(a)) && a <= SnapAlpha(a)
    ensures IsAlphaTier(level) && a <= level ==> SnapAlpha(a) <= level
  {
  }

  /** Snapping is monotone in alpha. */
  lemma SnapAlphaMonotone(a: Byte, b: Byte)
    requires a <= b
    ensures SnapAlpha(a) <= SnapAlpha(b)
  {
  }

  /** Snapping twice is snapping once, for an alpha value and for an entry. */
  lemma SnapIdempotent(c: Rgba)
    ensures SnapAlpha(SnapAlpha(c.A)) == SnapAlpha(c.A)
    ensures SnapEntry(SnapEntry(c)) == SnapEntry(c)
  {
  }
}
