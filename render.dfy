/**
 * The rendering sequence of `main`: allocate the zeroed buffer, drain the
 * workers' messages into it, then unpack it into the image. A panic in the
 * drain ends the program, so no image is produced.
 */
module Render {
  import opened Unsigned
  import opened PackedColour
  import opened Aggregator
  import opened ImageFill

  method Render(width: U32, height: U32, msgs: seq<Message>) returns (outcome: Outcome, img: array2?<Rgb>)
    requires width * height < U32_LIMIT
    ensures outcome == Finished <==> Safe(msgs, width * height, TickStep(width, height))
    ensures outcome == Finished <==> img != null
    ensures img != null ==>
      && fresh(img)
      && img.Length0 == width && img.Length1 == height
      && InBounds(msgs, width * height)
      && forall x, y :: 0 <= x < width && 0 <= y < height ==>
           img[x, y] == Decode(Apply(seq(width * height, _ => 0), msgs)[PixelIndex(x, y, width, height)])
  {
    var buffer := NewBuffer(width, height);
    assert buffer[..] == seq(width * height, _ => 0);
    var pos, ticks;
    outcome, pos, ticks := Drain(buffer, msgs, width, height);
    if outcome == Finished {
      img := FillImage(buffer, width, height);
    } else {
      img := null;
    }
  }
}
