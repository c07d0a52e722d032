/** What playback shows of a file the converter wrote. */
module Pipeline {
  import opened Luminance
  import opened Encoder
  import opened Playback

  /** When every image was stored 64 rows high, tick k draws exactly the
      text of image k, and the stream ends after as many ticks as there
      are images. */
  lemma StoredFramesPlayInOrder(images: seq<Image>, ramp: string, k: nat)
    requires |ramp| >= 1
    requires forall i :: 0 <= i < |images| ==> images[i].height == LinesPerFrame
    requires k < |images|
    ensures Window(EncodeAll(images, ramp), CursorAfter(|EncodeAll(images, ramp)|, k)) == EncodeFrame(images[k], ramp)
    ensures CursorAfter(|EncodeAll(images, ramp)|, k) < |EncodeAll(images, ramp)|
    ensures CursorAfter(|EncodeAll(images, ramp)|, |images|) == |EncodeAll(images, ramp)|
  {
    var text := EncodeAll(images, ramp);
    EncodeAllUniform(images, ramp, LinesPerFrame, k);
    CursorAfterTicks(|text|, k);
    CursorAfterTicks(|text|, |images|);
  }

  /** When images are stored fewer than 64 rows high, the first tick already
      draws rows of the second image: frames run together on screen. */
  lemma ShortFramesRunTogether(images: seq<Image>, ramp: string, h: nat)
    requires |ramp| >= 1
    requires 1 <= h < LinesPerFrame
    requires |images| >= 2
    requires forall i :: 0 <= i < |images| ==> images[i].height == h
    ensures Window(EncodeAll(images, ramp), 0)[h] == EncodeFrame(images[1], ramp)[0]
  {
    var text := EncodeAll(images, ramp);
    EncodeAllUniform(images, ramp, h, 1);
    assert text[h] == text[h .. h + h][0];
  }
}
