/**
 * Packing-rectangle bookkeeping around the external bin packer.
 *
 * Rectangle i is created for frame i with Id = i and the size of crop i.
 * The packer may reorder the array while it assigns positions; ordering the
 * packed rectangles by Id (a stable sort) brings them back into frame order,
 * so that position i again describes frame i.
 */
module Packing {
  import opened Geometry

  /** One rectangle handed to the packer; X and Y are filled in by it. */
  datatype PackingRectangle = PackingRectangle(X: nat, Y: nat, Width: nat, Height: nat, Id: int)

  /** The bounding box the packer reports. */
  datatype Bounds = Bounds(Width: nat, Height: nat)

  /** The pixel size of a decoded source image. */
  datatype ImageSize = ImageSize(Width: nat, Height: nat)

  /** What the packer must keep: the id and the size of a rectangle. */
  function Key(r: PackingRectangle): (int, nat, nat)
  {
    (r.Id, r.Width, r.Height)
  }

  function Keys(s: seq<PackingRectangle>): (ks: seq<(int, nat, nat)>)
    ensures |ks| == |s|
    ensures forall i :: 0 <= i < |s| ==> ks[i] == Key(s[i])
  {
    seq(|s|, i requires 0 <= i < |s| => Key(s[i]))
  }

  /** Two half-open intervals [p, p + m) and [q, q + n) share a point. */
  predicate Intersects(p: int, m: nat, q: int, n: nat)
  {
    0 < m && 0 < n && p < q + n && q < p + m
  }

  /** Two placed rectangles share at least one pixel. */
  predicate Overlap(a: PackingRectangle, b: PackingRectangle)
  {
    Intersects(a.X, a.Width, b.X, b.Width) && Intersects(a.Y, a.Height, b.Y, b.Height)
  }

  predicate NonOverlapping(s: seq<PackingRectangle>)
  {
    forall j, k :: 0 <= j < |s| && 0 <= k < |s| && j != k ==> !Overlap(s[j], s[k])
  }

  predicate WithinBounds(s: seq<PackingRectangle>, b: Bounds)
  {
    forall k :: 0 <= k < |s| ==> s[k].X + s[k].Width <= b.Width && s[k].Y + s[k].Height <= b.Height
  }

  /** What the packer promises: the same rectangles (ids and sizes), in some
      order, at positions that do not overlap and lie inside the bounds. */
  predicate IsPacking(input: seq<PackingRectangle>, output: seq<PackingRectangle>, b: Bounds)
  {
    multiset(Keys(output)) == multiset(Keys(input)) && NonOverlapping(output) && WithinBounds(output, b)
  }

  /** Rectangle i carries Id i. */
  predicate IdsAreIndices(s: seq<PackingRectangle>)
  {
    forall i :: 0 <= i < |s| ==> s[i].Id == i
  }

  /** The setup loop: crop every frame and create its packing rectangle.
      Source image i has size sizes[i]; its crop is written to crop_i.png. */
  method CropFrames(frames: seq<FrameInfo>, anim: FrameInfo, sizes: seq<ImageSize>)
    returns (crops: seq<CroppedImgInfo>, rects: array<PackingRectangle>)
    requires anim.Width > 0 && anim.Height > 0
    requires |sizes| == |frames|
    requires forall i :: 0 <= i < |frames| ==> frames[i].Width >= 0 && frames[i].Height >= 0
    ensures fresh(rects)
    ensures |crops| == |frames| && rects.Length == |frames|
    ensures forall i :: 0 <= i < |frames| ==>
      crops[i] == CropImage(CropPng(i), sizes[i].Width, sizes[i].Height, frames[i], anim)
    ensures forall i :: 0 <= i < |frames| ==>
      rects[i].Id == i && rects[i].Width == crops[i].Width && rects[i].Height == crops[i].Height
  {
    rects := new PackingRectangle[|frames|](_ => PackingRectangle(0, 0, 0, 0, 0));
    crops := [];
    for i := 0 to |frames|
      invariant |crops| == i
      invariant forall k :: 0 <= k < i ==>
        crops[k] == CropImage(CropPng(k), sizes[k].Width, sizes[k].Height, frames[k], anim)
      invariant forall k :: 0 <= k < i ==>
        rects[k].Id == k && rects[k].Width == crops[k].Width && rects[k].Height == crops[k].Height
    {
      var cropped := CropImage(CropPng(i), sizes[i].Width, sizes[i].Height, frames[i], anim);
      crops := crops + [cropped];
      rects[i] := rects[i].(Width := cropped.Width, Height := cropped.Height, Id := i);
    }
  }

  /** Stand-in for the external packer. Callers rely on its contract only;
      this body (every rectangle on one row, left to right) exists to show
      that the contract can be met and is not the library's heuristic. */
  method Pack(rects: array<PackingRectangle>) returns (bounds: Bounds)
    modifies rects
    ensures IsPacking(old(rects[..]), rects[..], bounds)
  {
    var x: nat := 0;
    var height: nat := 0;
    for i := 0 to rects.Length
      invariant forall k :: 0 <= k < rects.Length ==> Key(rects[k]) == Key(old(rects[k]))
      invariant forall k :: 0 <= k < i ==> rects[k].Y == 0 && rects[k].X + rects[k].Width <= x && rects[k].Height <= height
      invariant forall j, k :: 0 <= j < k < i ==> rects[j].X + rects[j].Width <= rects[k].X
    {
      rects[i] := rects[i].(X := x, Y := 0);
      x := x + rects[i].Width;
      if rects[i].Height > height {
        height := rects[i].Height;
      }
    }
    bounds := Bounds(x, height);
    assert Keys(rects[..]) == Keys(old(rects[..]));
  }

  predicate SortedById(s: seq<PackingRectangle>)
  {
    forall j, k :: 0 <= j < k < |s| ==> s[j].Id <= s[k].Id
  }

  /** Inserts r before the first rectangle whose Id is not smaller. */
  function Insert(r: PackingRectangle, s: seq<PackingRectangle>): (t: seq<PackingRectangle>)
    requires SortedById(s)
    ensures SortedById(t)
    ensures multiset(t) == multiset(s) + multiset{r}
  {
    if s == [] then
      [r]
    else if r.Id <= s[0].Id then
      [r] + s
    else
      var rest := Insert(r, s[1..]);
      assert s == [s[0]] + s[1..];
      assert forall k :: 0 <= k < |rest| ==> s[0].Id <= rest[k].Id by {
        forall k | 0 <= k < |rest|
          ensures s[0].Id <= rest[k].Id
        {
          assert rest[k] in multiset(rest);
        }
      }
      [s[0]] + rest
  }

  lemma KeysAppend(a: seq<PackingRectangle>, b: seq<PackingRectangle>)
    ensures Keys(a + b) == Keys(a) + Keys(b)
  {
  }

  /** Rearranging rectangles rearranges their keys the same way. */
  lemma {:induction false} KeysOfPermutation(a: seq<PackingRectangle>, b: seq<PackingRectangle>)
    requires multiset(a) == multiset(b)
    ensures multiset(Keys(a)) == multiset(Keys(b))
    decreases |a|
  {
    if a != [] {
      assert a[0] in multiset(b);
      var k :| 0 <= k < |b| && b[k] == a[0];
      var b' := b[..k] + b[k + 1..];
      assert b == b[..k] + [b[k]] + b[k + 1..];
      assert a == [a[0]] + a[1..];
      assert multiset(b) == multiset(b[..k]) + multiset{b[k]} + multiset(b[k + 1..]);
      assert multiset(b') == multiset(b[..k]) + multiset(b[k + 1..]);
      assert multiset(a) == multiset{a[0]} + multiset(a[1..]);
      assert multiset(a[1..]) == multiset(a) - multiset{a[0]};
      assert multiset(b') == multiset(b) - multiset{b[k]};
      KeysOfPermutation(a[1..], b');
      KeysAppend([a[0]], a[1..]);
      KeysAppend(b[..k] + [b[k]], b[k + 1..]);
      KeysAppend(b[..k], [b[k]]);
      KeysAppend(b[..k], b[k + 1..]);
    }
  }

  /** Ordering by Id, as a stable insertion sort. */
  function SortById(s: seq<PackingRectangle>): (t: seq<PackingRectangle>)
    ensures SortedById(t)
    ensures multiset(t) == multiset(s)
  {
    if s == [] then []
    else
      assert s == [s[0]] + s[1..];
      Insert(s[0], SortById(s[1..]))
  }

  ghost predicate Distinct<T>(s: seq<T>)
  {
    forall j, k :: 0 <= j < k < |s| ==> s[j] != s[k]
  }

  /** In a sequence without repetitions every element occurs at most once. */
  lemma {:induction false} DistinctCount<T>(s: seq<T>, x: T)
    requires Distinct(s)
    ensures multiset(s)[x] <= 1
  {
    if s != [] {
      assert s == [s[0]] + s[1..];
      assert Distinct(s[1..]);
      DistinctCount(s[1..], x);
      if x == s[0] {
        assert x !in s[1..];
      }
    }
  }

  /** An element that occurs at two positions occurs at least twice. */
  lemma DuplicateCount<T>(s: seq<T>, j: nat, k: nat)
    requires j < k < |s| && s[j] == s[k]
    ensures multiset(s)[s[j]] >= 2
  {
    assert s == s[..k] + s[k..];
    assert s[j] in s[..k];
    assert s[k] in s[k..];
  }

  /** Having no repetitions depends only on the multiset of elements. */
  lemma DistinctTransfer<T>(a: seq<T>, b: seq<T>)
    requires Distinct(a) && multiset(a) == multiset(b)
    ensures Distinct(b)
  {
    forall j, k | 0 <= j < k < |b|
      ensures b[j] != b[k]
    {
      if b[j] == b[k] {
        DuplicateCount(b, j, k);
        DistinctCount(a, b[j]);
      }
    }
  }

  /** Strictly increasing ids that all lie in [0, |s|) are exactly 0, 1, ... */
  lemma IncreasingIdsAreIndices(s: seq<PackingRectangle>)
    requires forall k :: 0 <= k < |s| ==> 0 <= s[k].Id < |s|
    requires forall j, k :: 0 <= j < k < |s| ==> s[j].Id < s[k].Id
    ensures IdsAreIndices(s)
  {
    forall i | 0 <= i < |s|
      ensures s[i].Id == i
    {
      IdAtLeast(s, i);
      IdAtMost(s, i);
    }
  }

  lemma {:induction false} IdAtLeast(s: seq<PackingRectangle>, i: nat)
    requires forall k :: 0 <= k < |s| ==> 0 <= s[k].Id
    requires forall j, k :: 0 <= j < k < |s| ==> s[j].Id < s[k].Id
    requires i < |s|
    ensures s[i].Id >= i
  {
    if i > 0 {
      IdAtLeast(s, i - 1);
    }
  }

  lemma {:induction false} IdAtMost(s: seq<PackingRectangle>, i: nat)
    requires forall k :: 0 <= k < |s| ==> s[k].Id < |s|
    requires forall j, k :: 0 <= j < k < |s| ==> s[j].Id < s[k].Id
    requires i < |s|
    ensures s[i].Id <= i
    decreases |s| - i
  {
    if i + 1 < |s| {
      IdAtMost(s, i + 1);
    }
  }

  /** Every key of a rearranged setup is the key of the setup rectangle
      whose index is its id. */
  lemma KeysFollowSetup(setup: seq<PackingRectangle>, s: seq<PackingRectangle>)
    requires IdsAreIndices(setup)
    requires multiset(Keys(s)) == multiset(Keys(setup))
    ensures |s| == |setup|
    ensures forall k :: 0 <= k < |s| ==> 0 <= s[k].Id < |setup| && Key(s[k]) == Key(setup[s[k].Id])
  {
    assert |Keys(s)| == |multiset(Keys(s))| == |multiset(Keys(setup))| == |setup|;
    forall k | 0 <= k < |s|
      ensures 0 <= s[k].Id < |setup| && Key(s[k]) == Key(setup[s[k].Id])
    {
      assert Keys(s)[k] in multiset(Keys(setup));
      var j :| 0 <= j < |setup| && Keys(setup)[j] == Key(s[k]);
    }
  }

  /** A rearranged setup has no two rectangles with the same id. */
  lemma RearrangedIdsDistinct(setup: seq<PackingRectangle>, s: seq<PackingRectangle>)
    requires IdsAreIndices(setup)
    requires multiset(Keys(s)) == multiset(Keys(setup))
    ensures forall j, k :: 0 <= j < k < |s| ==> s[j].Id != s[k].Id
  {
    KeysFollowSetup(setup, s);
    assert Distinct(Keys(setup)) by {
      forall j, k | 0 <= j < k < |setup|
        ensures Keys(setup)[j] != Keys(setup)[k]
      {
        assert Keys(setup)[j].0 == j;
      }
    }
    DistinctTransfer(Keys(setup), Keys(s));
    forall j, k | 0 <= j < k < |s|
      ensures s[j].Id != s[k].Id
    {
      assert Keys(s)[j] != Keys(s)[k];
    }
  }

  /** The id round trip. Rectangles created with Id = index and given to a
      packer that keeps ids and sizes come back, once ordered by Id, in frame
      order: position i holds the packed rectangle of frame i, with frame i's
      size, so the ids are exactly 0 .. N-1, each once. */
  lemma IdRoundTrip(setup: seq<PackingRectangle>, packed: seq<PackingRectangle>)
    requires IdsAreIndices(setup)
    requires multiset(Keys(packed)) == multiset(Keys(setup))
    ensures |SortById(packed)| == |setup|
    ensures forall i :: 0 <= i < |setup| ==>
      var r := SortById(packed)[i];
      r.Id == i && r.Width == setup[i].Width && r.Height == setup[i].Height && r in packed
  {
    var s := SortById(packed);
    KeysOfPermutation(s, packed);
    KeysFollowSetup(setup, s);
    RearrangedIdsDistinct(setup, s);
    IncreasingIdsAreIndices(s);
    forall i | 0 <= i < |s|
      ensures s[i] in packed
    {
      assert s[i] in multiset(s);
    }
  }

  /** The ids of the setup rectangles are exactly 0 .. N-1, each once. */
  lemma IdsArePermutationOfRange(s: seq<PackingRectangle>, id: int)
    requires IdsAreIndices(s)
    ensures (exists k :: 0 <= k < |s| && s[k].Id == id) <==> 0 <= id < |s|
    ensures forall j, k :: 0 <= j < k < |s| ==> s[j].Id != s[k].Id
  {
    if 0 <= id < |s| {
      assert s[id].Id == id;
    }
  }
}
