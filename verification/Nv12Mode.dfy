/** The pipeline carrying real pictures: raw NV12 frames in, ARGB frame buffers out. */
module Nv12Mode {
  import opened Common
  import opened Nv12
  import opened Present

  const PIXELS: nat := 921600        // W * H
  const FRAME_BYTES: nat := 1382400  // luma plane followed by half as many chroma bytes

  /** How `main` hands a frame to the converter. */
  function PictureOf(frame: seq<u8>): Picture
    requires |frame| == FRAME_BYTES
  {
    Picture(frame[..PIXELS], frame[PIXELS..], 1280, 1280, 1280, true)
  }

  lemma FrameCovered(frame: seq<u8>)
    requires |frame| == FRAME_BYTES
    ensures Covers(PictureOf(frame), H)
  {
    var p := PictureOf(frame);
    forall row: nat, x: nat | row < H && x < p.w ensures Inside(p, row, x) {
      assert LumaIndex(p, row, x) == row * 1280 + x;
      assert ChromaIndex(p, row, x) == row / 2 * 1280 + Even(x);
    }
  }

  /** The picture a frame stands for. */
  function ImageOf(frame: seq<u8>): seq<u32> {
    if |frame| != FRAME_BYTES then []
    else
      FrameCovered(frame);
      var p := PictureOf(frame);
      seq(PIXELS, i requires 0 <= i < PIXELS => assert Inside(p, Row(i), Col(i)); PixelAt(p, Row(i), Col(i)))
  }

  /** Every pixel of the picture in terms of the raw frame's bytes, by BT.709. */
  lemma ImageBytes(frame: seq<u8>, i: nat)
    requires |frame| == FRAME_BYTES && i < PIXELS
    ensures var uv := PIXELS + i / 1280 / 2 * 1280 + (i % 1280 - i % 1280 % 2);
            && uv + 1 < FRAME_BYTES
            && var y: int, u: int, v: int := frame[i], frame[uv], frame[uv + 1];
               var luma, q := 298 * (y - 16) + 128, ImageOf(frame)[i];
            && q / 0x100_0000 == 255
            && Channel(q / 0x1_0000 % 0x100, luma + 459 * (v - 128))
            && Channel(q / 0x100 % 0x100, luma - 55 * (u - 128) - 136 * (v - 128))
            && Channel(q % 0x100, luma + 541 * (u - 128))
  {
    FrameCovered(frame);
    var p, row, x := PictureOf(frame), i / 1280, i % 1280;
    assert row < 720 && i == row * 1280 + x;
    var k := row / 2 * 1280 + (x - x % 2);
    assert Inside(p, row, x);
    assert p.y[i] == frame[i] && p.uv[k] == frame[PIXELS + k] && p.uv[k + 1] == frame[PIXELS + k + 1];
    PixelBytes(p, row, x);
    assert ImageOf(frame)[i] == PixelAt(p, row, x);
    hide PixelAt, ImageOf, Channel;
  }

  /** Converting all rows overwrites every pixel of the staging buffer, whatever it held before. */
  lemma StagedIsImage(stage: seq<u32>, frame: seq<u8>)
    requires |stage| == PIXELS && |frame| == FRAME_BYTES
    ensures Covers(PictureOf(frame), H)
    ensures ConvertRows(stage, PictureOf(frame), 0, H) == ImageOf(frame)
  {
  }

  /** In every run of `nv12` mode the n-th flip shows the sequential conversion of the n-th complete
      input frame, however many worker threads convert it and in whatever order they write. */
  lemma EveryFlipShowsItsFrame(
    frames: seq<seq<u8>>, limit: nat, s: Pipeline<seq<u8>, seq<u32>>, es: seq<Event<seq<u8>, seq<u32>>>,
    i: nat, stage: seq<u32>, threads: nat, schedule: seq<nat>)
    requires Initial(s) && forall f :: f in frames ==> |f| == FRAME_BYTES
    requires i < |Run(Film(frames, ImageOf, limit), s, es).shown|
    requires |stage| == PIXELS && 1 <= threads <= MAX_THREADS
    ensures i < |frames| && Setup(PictureOf(frames[i]), H, PIXELS)
    ensures Finished(CrewRun(Start(stage, threads, H), PictureOf(frames[i]), H, schedule), H) ==>
              Run(Film(frames, ImageOf, limit), s, es).shown[i]
              == CrewRun(Start(stage, threads, H), PictureOf(frames[i]), H, schedule).out
  {
    ShownInOrder(Film(frames, ImageOf, limit), s, es);
    hide Run, ImageOf, CrewRun, ConvertRows, PictureOf;
    assert frames[i] in frames;
    StagedIsImage(stage, frames[i]);
    assert Setup(PictureOf(frames[i]), H, PIXELS);
    if Finished(CrewRun(Start(stage, threads, H), PictureOf(frames[i]), H, schedule), H) {
      ParallelIsSequential(stage, PictureOf(frames[i]), H, threads, schedule);
    }
  }
}
