/**
 * The metadata loader: turns an already-parsed meta.json into the reference
 * geometry and one FrameInfo per entry of extra.frames_info.
 *
 * Every integer field is read as a 16-bit signed value; a field that is
 * absent (or not an integer at all) and one whose value does not fit in 16
 * bits both abort the load. Each frame's height and y-offset are doubled
 * (the sprites are stored at half vertical resolution); the reference
 * geometry is taken as it is. A frame_count that disagrees with the number of
 * entries only raises a warning.
 */
module Metadata {
  import opened Geometry

  const Int16Min: int := -32768
  const Int16Max: int := 32767

  /** One entry of extra.frames_info; None stands for a missing or non-integer field. */
  datatype RawFrame = RawFrame(
    originalHeight: Option<int>,
    originalWidth: Option<int>,
    xOffset: Option<int>,
    yOffset: Option<int>)

  /** The fields of meta.json that are read; framesInfo is None when
      extra.frames_info is missing or is not an array. */
  datatype RawMeta = RawMeta(
    sizeH: Option<int>,
    sizeW: Option<int>,
    offsetX: Option<int>,
    offsetY: Option<int>,
    frameCount: Option<int>,
    framesInfo: Option<seq<RawFrame>>)

  datatype Option<T> = None | Some(value: T)

  datatype FrameKey = OriginalHeight | OriginalWidth | XOffset | YOffset

  /** The document path of a field. */
  datatype Field =
    | SizeH | SizeW | OffsetX | OffsetY | FrameCount | FramesInfo
    | FrameField(index: nat, key: FrameKey)

  datatype ParseError = Missing(field: Field) | NotInt16(field: Field, value: int)

  datatype Result<T> = Ok(value: T) | Err(error: ParseError)

  /** The loaded metadata; countMismatch is the warning about frame_count. */
  datatype Meta = Meta(anim: FrameInfo, frames: seq<FrameInfo>, frameCount: int, countMismatch: bool)

  predicate IsInt16(n: int)
  {
    Int16Min <= n <= Int16Max
  }

  /** Reading one field as a 16-bit integer. */
  function ReadInt16(f: Field, v: Option<int>): (r: Result<int>)
    ensures r.Ok? <==> v.Some? && IsInt16(v.value)
    ensures r.Ok? ==> r.value == v.value
    ensures r.Err? ==> r.error.field == f && (r.error.Missing? <==> v.None?)
  {
    match v
    case None => Err(Missing(f))
    case Some(n) => if IsInt16(n) then Ok(n) else Err(NotInt16(f, n))
  }

  function FrameValue(raw: RawFrame, key: FrameKey): Option<int>
  {
    match key
    case OriginalHeight => raw.originalHeight
    case OriginalWidth => raw.originalWidth
    case XOffset => raw.xOffset
    case YOffset => raw.yOffset
  }

  /** The raw value at a field path of the document, None if it is not there. */
  function Lookup(raw: RawMeta, f: Field): Option<int>
  {
    match f
    case SizeH => raw.sizeH
    case SizeW => raw.sizeW
    case OffsetX => raw.offsetX
    case OffsetY => raw.offsetY
    case FrameCount => raw.frameCount
    case FramesInfo => None
    case FrameField(i, key) =>
      if raw.framesInfo.Some? && i < |raw.framesInfo.value| then FrameValue(raw.framesInfo.value[i], key) else None
  }

  /** A field that can be read as a 16-bit integer. */
  predicate Readable(v: Option<int>)
  {
    v.Some? && IsInt16(v.value)
  }

  predicate FrameReadable(raw: RawFrame)
  {
    Readable(raw.originalHeight) && Readable(raw.originalWidth) &&
    Readable(raw.xOffset) && Readable(raw.yOffset)
  }

  /** The error names a field of `frames` that is missing or out of range. */
  predicate IsFrameError(frames: seq<RawFrame>, e: ParseError)
  {
    e.field.FrameField? && e.field.index < |frames| &&
    var v := FrameValue(frames[e.field.index], e.field.key);
    (e.Missing? ==> v.None?) &&
    (e.NotInt16? ==> v == Some(e.value) && !IsInt16(e.value))
  }

  /** The error names a field of the document that is missing or out of range. */
  predicate IsMetaError(raw: RawMeta, e: ParseError)
  {
    if e.field == FramesInfo then e.Missing? && raw.framesInfo.None?
    else
      var v := Lookup(raw, e.field);
      (e.field.FrameField? ==> raw.framesInfo.Some?) &&
      (e.Missing? ==> v.None?) &&
      (e.NotInt16? ==> v == Some(e.value) && !IsInt16(e.value))
  }

  /** The loop over extra.frames_info: one FrameInfo per entry, in order, with
      height and y-offset doubled. Any unreadable field aborts the loop. */
  method ParseFrames(frames: seq<RawFrame>) returns (r: Result<seq<FrameInfo>>)
    ensures r.Ok? <==> forall i :: 0 <= i < |frames| ==> FrameReadable(frames[i])
    ensures r.Ok? ==> |r.value| == |frames|
    ensures r.Ok? ==> forall i :: 0 <= i < |frames| ==>
      r.value[i].Height == 2 * frames[i].originalHeight.value &&
      r.value[i].Width == frames[i].originalWidth.value &&
      r.value[i].OffsetX == frames[i].xOffset.value &&
      r.value[i].OffsetY == 2 * frames[i].yOffset.value
    ensures r.Err? ==> IsFrameError(frames, r.error)
  {
    var infos: seq<FrameInfo> := [];
    var i := 0;
    while i < |frames|
      invariant 0 <= i <= |frames|
      invariant |infos| == i
      invariant forall k :: 0 <= k < i ==> FrameReadable(frames[k])
      invariant forall k :: 0 <= k < i ==>
        infos[k] == FrameInfo(2 * frames[k].originalHeight.value, frames[k].originalWidth.value,
                              frames[k].xOffset.value, 2 * frames[k].yOffset.value)
    {
      var frame := frames[i];
      var height := ReadInt16(FrameField(i, OriginalHeight), frame.originalHeight);
      if height.Err? { return Err(height.error); }
      var width := ReadInt16(FrameField(i, OriginalWidth), frame.originalWidth);
      if width.Err? { return Err(width.error); }
      var offsetX := ReadInt16(FrameField(i, XOffset), frame.xOffset);
      if offsetX.Err? { return Err(offsetX.error); }
      var offsetY := ReadInt16(FrameField(i, YOffset), frame.yOffset);
      if offsetY.Err? { return Err(offsetY.error); }
      infos := infos + [FrameInfo(height.value * 2, width.value, offsetX.value, offsetY.value * 2)];
      i := i + 1;
    }
    return Ok(infos);
  }

  /** The reference geometry and frame count read from meta.json, in the
      order size.h, size.w, offset.x, offset.y, frame_count. */
  function ParseHeader(raw: RawMeta): (r: Result<(FrameInfo, int)>)
    ensures r.Ok? <==>
      Readable(raw.sizeH) && Readable(raw.sizeW) && Readable(raw.offsetX) &&
      Readable(raw.offsetY) && Readable(raw.frameCount)
    ensures r.Ok? ==>
      r.value.0 == FrameInfo(raw.sizeH.value, raw.sizeW.value, raw.offsetX.value, raw.offsetY.value) &&
      r.value.1 == raw.frameCount.value
    ensures r.Err? ==> IsMetaError(raw, r.error) && !r.error.field.FrameField? && r.error.field != FramesInfo
  {
    var h := ReadInt16(SizeH, raw.sizeH);
    if h.Err? then Err(h.error) else
    var w := ReadInt16(SizeW, raw.sizeW);
    if w.Err? then Err(w.error) else
    var x := ReadInt16(OffsetX, raw.offsetX);
    if x.Err? then Err(x.error) else
    var y := ReadInt16(OffsetY, raw.offsetY);
    if y.Err? then Err(y.error) else
    var n := ReadInt16(FrameCount, raw.frameCount);
    if n.Err? then Err(n.error) else
    Ok((FrameInfo(h.value, w.value, x.value, y.value), n.value))
  }

  /** Loading meta.json. On success the frame list has one entry per element
      of frames_info (not per frame_count), and the warning is raised exactly
      when the two counts differ. */
  method ParseMeta(raw: RawMeta) returns (r: Result<Meta>)
    ensures r.Ok? <==>
      ParseHeader(raw).Ok? && raw.framesInfo.Some? &&
      forall i :: 0 <= i < |raw.framesInfo.value| ==> FrameReadable(raw.framesInfo.value[i])
    ensures r.Ok? ==>
      r.value.anim == ParseHeader(raw).value.0 &&
      r.value.frameCount == raw.frameCount.value &&
      |r.value.frames| == |raw.framesInfo.value| &&
      (r.value.countMismatch <==> |r.value.frames| != r.value.frameCount) &&
      forall i :: 0 <= i < |r.value.frames| ==>
        var f := raw.framesInfo.value[i];
        r.value.frames[i] == FrameInfo(2 * f.originalHeight.value, f.originalWidth.value,
                                       f.xOffset.value, 2 * f.yOffset.value)
    ensures r.Err? ==> IsMetaError(raw, r.error)
  {
    var header := ParseHeader(raw);
    if header.Err? {
      return Err(header.error);
    }
    if raw.framesInfo.None? {
      return Err(Missing(FramesInfo));
    }
    var frames := ParseFrames(raw.framesInfo.value);
    if frames.Err? {
      return Err(frames.error);
    }
    var anim := header.value.0;
    var frameCount := header.value.1;
    var mismatch := |frames.value| != frameCount;
    return Ok(Meta(anim, frames.value, frameCount, mismatch));
  }
}
