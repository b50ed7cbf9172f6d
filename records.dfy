/**
 * The frame-record updater. The consumer document holds one JSON object per
 * frame; record i receives the height, width and sheet position of sorted
 * rectangle i, by position only. Each record is a map from field name to
 * value, and every other field it has is left as it is.
 */
module FrameRecords {
  import opened Packing

  /** A JSON value of a record field; only numbers are written here. */
  datatype JsonValue = Number(n: int) | NonNumber(text: string)

  type FrameRecord = map<string, JsonValue>

  const SpriteHeight: string := "sprite_height"
  const SpriteWidth: string := "sprite_width"
  const SpriteSheetX: string := "sprite_sheet_x"
  const SpriteSheetY: string := "sprite_sheet_y"

  /** The four fields the updater writes. */
  function SpriteFields(): set<string>
  {
    {SpriteHeight, SpriteWidth, SpriteSheetX, SpriteSheetY}
  }

  /** A record after its four sprite fields are assigned from `r` (a field
      that is not there yet is added). */
  function WithSprite(rec: FrameRecord, r: PackingRectangle): (d: FrameRecord)
    ensures d.Keys == rec.Keys + SpriteFields()
    ensures d[SpriteHeight] == Number(r.Height) && d[SpriteWidth] == Number(r.Width)
    ensures d[SpriteSheetX] == Number(r.X) && d[SpriteSheetY] == Number(r.Y)
    ensures forall k :: k in rec && k !in SpriteFields() ==> d[k] == rec[k]
  {
    rec[SpriteHeight := Number(r.Height)][SpriteWidth := Number(r.Width)]
       [SpriteSheetX := Number(r.X)][SpriteSheetY := Number(r.Y)]
  }

  /** Indexing frames[i] past the end of the document's array throws, which
      ends the loop before the document is written back. */
  datatype UpdateOutcome = Updated | IndexOutOfRange(index: nat)

  /** The update loop: for i < |rects|, record i takes rects[i]'s four values.
      When there are more rectangles than records, the records that exist are
      all updated and the loop fails at the first missing index. */
  method UpdateFrameRecords(frames: array<FrameRecord>, rects: seq<PackingRectangle>)
    returns (outcome: UpdateOutcome)
    modifies frames
    ensures outcome == Updated <==> |rects| <= frames.Length
    ensures outcome.IndexOutOfRange? ==> outcome.index == frames.Length
    ensures forall i :: 0 <= i < frames.Length ==>
      frames[i] == if i < |rects| then WithSprite(old(frames[i]), rects[i]) else old(frames[i])
  {
    for i := 0 to |rects|
      invariant i <= frames.Length
      invariant forall k :: 0 <= k < frames.Length ==>
        frames[k] == if k < i then WithSprite(old(frames[k]), rects[k]) else old(frames[k])
    {
      if i >= frames.Length {
        return IndexOutOfRange(i);
      }
      var rec := frames[i];
      rec := rec[SpriteHeight := Number(rects[i].Height)];
      rec := rec[SpriteWidth := Number(rects[i].Width)];
      rec := rec[SpriteSheetX := Number(rects[i].X)];
      rec := rec[SpriteSheetY := Number(rects[i].Y)];
      frames[i] := rec;
    }
    return Updated;
  }
}
