/** Conversion of an ordered list of image files into the stored text
    animation: every decoded image becomes one line per pixel row and one
    glyph per pixel, and the lines of consecutive images follow each other
    with no header and no separator. */
module Encoder {
  import opened Wrappers
  import opened Luminance
  import Progress
  import Arithmetic

  datatype Raster = Raster(width: nat, height: nat, pixels: seq<seq<Pixel>>)

  /** A decoded image: `height` rows of `width` pixels, pixel (x, y) being
      pixels[y][x] (what Bitmap.GetPixel(x, y) returns). */
  type Image = i: Raster | |i.pixels| == i.height && forall y :: 0 <= y < i.height ==> |i.pixels[y]| == i.width
    witness Raster(0, 0, [])

  /** The output file, as the text writer sees it: the lines already ended
      and the characters written since the last line end. */
  class LineWriter {
    var lines: seq<string>
    var pending: string

    constructor ()
      ensures lines == [] && pending == ""
    {
      lines, pending := [], "";
    }

    method Write(c: char)
      modifies this
      ensures lines == old(lines) && pending == old(pending) + [c]
    {
      pending := pending + [c];
    }

    method WriteLine()
      modifies this
      ensures lines == old(lines) + [old(pending)] && pending == ""
    {
      lines, pending := lines + [pending], "";
    }
  }

  // ---------------------------------------------------------------------
  // Reference definitions

  /** The text of one image: line y holds the glyph of every pixel of row y. */
  function EncodeFrame(img: Image, ramp: string): (text: seq<string>)
    requires |ramp| >= 1
    ensures |text| == img.height
    ensures forall y :: 0 <= y < img.height ==> |text[y]| == img.width
    ensures forall y, x :: 0 <= y < img.height && 0 <= x < img.width ==> text[y][x] == Glyph(img.pixels[y][x], ramp)
  {
    seq(img.height, y requires 0 <= y < img.height => EncodeRow(img.pixels[y], ramp))
  }

  function EncodeRow(row: seq<Pixel>, ramp: string): (line: string)
    requires |ramp| >= 1
    ensures |line| == |row|
    ensures forall x :: 0 <= x < |row| ==> line[x] == Glyph(row[x], ramp)
  {
    seq(|row|, x requires 0 <= x < |row| => Glyph(row[x], ramp))
  }

  /** The text of consecutive images, one after the other. */
  function EncodeAll(images: seq<Image>, ramp: string): (text: seq<string>)
    requires |ramp| >= 1
  {
    if images == [] then []
    else EncodeAll(images[..|images| - 1], ramp) + EncodeFrame(images[|images| - 1], ramp)
  }

  /** Every entry in lo..hi - 1 decodes to an image. */
  predicate DecodesAll<E>(entries: seq<E>, decode: E -> Option<Image>, lo: nat, hi: nat)
    requires lo <= hi <= |entries|
  {
    forall i :: lo <= i < hi ==> decode(entries[i]).Some?
  }

  /** The images of entries lo..hi - 1, in order. */
  function DecodedRange<E>(entries: seq<E>, decode: E -> Option<Image>, lo: nat, hi: nat): (images: seq<Image>)
    requires lo <= hi <= |entries|
    requires DecodesAll(entries, decode, lo, hi)
    ensures |images| == hi - lo
    ensures forall i :: 0 <= i < hi - lo ==> Some(images[i]) == decode(entries[lo + i])
  {
    seq(hi - lo, i requires 0 <= i < hi - lo => decode(entries[lo + i]).value)
  }

  /** The index of the first entry, from 1 on, that does not decode. */
  function FirstUndecodable<E>(entries: seq<E>, decode: E -> Option<Image>): (k: Option<nat>)
    ensures k.None? ==> |entries| <= 1 || DecodesAll(entries, decode, 1, |entries|)
    ensures k.Some? ==> 1 <= k.value < |entries| && decode(entries[k.value]).None? && DecodesAll(entries, decode, 1, k.value)
  {
    if |entries| <= 1 then None else FirstUndecodableFrom(entries, decode, 1)
  }

  function FirstUndecodableFrom<E>(entries: seq<E>, decode: E -> Option<Image>, i: nat): (k: Option<nat>)
    requires 1 <= i <= |entries|
    requires DecodesAll(entries, decode, 1, i)
    ensures k.None? ==> DecodesAll(entries, decode, 1, |entries|)
    ensures k.Some? ==> i <= k.value < |entries| && decode(entries[k.value]).None? && DecodesAll(entries, decode, 1, k.value)
    decreases |entries| - i
  {
    if i == |entries| then None
    else if decode(entries[i]).None? then Some(i)
    else FirstUndecodableFrom(entries, decode, i + 1)
  }

  /** How many entries the run encodes: all but entry 0, or those before the first failure. */
  function EncodedCount<E>(entries: seq<E>, decode: E -> Option<Image>): (n: nat)
  {
    match FirstUndecodable(entries, decode)
    case None => if |entries| <= 1 then 0 else |entries| - 1
    case Some(k) => k - 1
  }

  /** What the run writes: the text of entries 1 .. EncodedCount. */
  function StoredText<E>(entries: seq<E>, decode: E -> Option<Image>, ramp: string): (text: seq<string>)
    requires |ramp| >= 1
  {
    var n := EncodedCount(entries, decode);
    assert n == 0 || DecodesAll(entries, decode, 1, n + 1);
    if n == 0 then [] else EncodeAll(DecodedRange(entries, decode, 1, n + 1), ramp)
  }

  // ---------------------------------------------------------------------
  // The conversion

  /** The conversion loop. `i` counts iterations up to |entries| - 1 while
      `frameIndex`, starting at 1, picks the entry, so entry 0 is never
      decoded. Each image is written row by row; after each image the
      loading bar is drawn for (frameIndex + 1, |entries|), and `reports`
      collects each bar's columns and percentage in drawing order. A decode
      failure stops the loop: `failed` names the entry and `file` is the
      text handed to the writer before it. The program itself then ends
      on an unhandled exception. */
  method GenerateAsciiArt<E>(entries: seq<E>, decode: E -> Option<Image>, ramp: string)
    returns (file: seq<string>, failed: Option<nat>, reports: seq<(map<int, char>, int)>)
    requires |ramp| >= 1
    ensures failed == FirstUndecodable(entries, decode)
    ensures file == StoredText(entries, decode, ramp)
    ensures |reports| == EncodedCount(entries, decode)
    ensures forall k :: 0 <= k < |reports| ==>
      k + 2 <= |entries| && reports[k] == (Progress.BarRow(k + 2, |entries|), Progress.Percent(k + 2, |entries|))
  {
    var writer := new LineWriter();
    var frameIndex := 1;
    var i := 0;
    failed := None;
    reports := [];
    while i < |entries| - 1
      invariant 0 <= i <= if |entries| <= 1 then 0 else |entries| - 1
      invariant frameIndex == i + 1
      invariant |entries| >= 1 ==> DecodesAll(entries, decode, 1, frameIndex)
      invariant |entries| >= 1 ==> writer.lines == EncodeAll(DecodedRange(entries, decode, 1, frameIndex), ramp)
      invariant |entries| == 0 ==> writer.lines == []
      invariant writer.pending == ""
      invariant |reports| == i
      invariant forall k :: 0 <= k < i ==> reports[k] == (Progress.BarRow(k + 2, |entries|), Progress.Percent(k + 2, |entries|))
    {
      var image := decode(entries[frameIndex]);
      if image.None? {
        failed := Some(frameIndex);
        FirstUndecodableFromIs(entries, decode, 1, frameIndex);
        break;
      }
      var img := image.value;
      WriteImage(writer, img, ramp);
      DecodedRangeStep(entries, decode, frameIndex, ramp);
      var bar, percent := Progress.LoadingBar(frameIndex + 1, |entries|);
      reports := reports + [(bar, percent)];
      frameIndex := frameIndex + 1;
      i := i + 1;
    }
    if failed.None? && |entries| > 1 {
      AllDecodableFrom(entries, decode, 1);
    }
    file := writer.lines;
  }

  /** The row loops for one image: one glyph per pixel, a line end after
      each row. */
  method WriteImage(writer: LineWriter, img: Image, ramp: string)
    requires |ramp| >= 1
    requires writer.pending == ""
    modifies writer
    ensures writer.lines == old(writer.lines) + EncodeFrame(img, ramp)
    ensures writer.pending == ""
  {
    ghost var before := writer.lines;
    var y := 0;
    while y < img.height
      invariant 0 <= y <= img.height
      invariant writer.lines == before + EncodeFrame(img, ramp)[..y]
      invariant writer.pending == ""
    {
      var x := 0;
      while x < img.width
        invariant 0 <= x <= img.width
        invariant writer.lines == before + EncodeFrame(img, ramp)[..y]
        invariant writer.pending == EncodeFrame(img, ramp)[y][..x]
      {
        var pixel := Glyph(img.pixels[y][x], ramp);
        writer.Write(pixel);
        x := x + 1;
      }
      assert writer.pending == EncodeFrame(img, ramp)[y];
      writer.WriteLine();
      assert EncodeFrame(img, ramp)[..y + 1] == EncodeFrame(img, ramp)[..y] + [EncodeFrame(img, ramp)[y]];
      y := y + 1;
    }
    assert EncodeFrame(img, ramp)[..img.height] == EncodeFrame(img, ramp);
  }

  // ---------------------------------------------------------------------
  // Helpers for the loop

  /** Decoding one more entry appends its text to the text so far. */
  lemma DecodedRangeStep<E>(entries: seq<E>, decode: E -> Option<Image>, k: nat, ramp: string)
    requires |ramp| >= 1
    requires 1 <= k < |entries|
    requires DecodesAll(entries, decode, 1, k) && decode(entries[k]).Some?
    ensures DecodesAll(entries, decode, 1, k + 1)
    ensures EncodeAll(DecodedRange(entries, decode, 1, k + 1), ramp)
         == EncodeAll(DecodedRange(entries, decode, 1, k), ramp) + EncodeFrame(decode(entries[k]).value, ramp)
  {
    var longer := DecodedRange(entries, decode, 1, k + 1);
    assert longer[..|longer| - 1] == DecodedRange(entries, decode, 1, k);
  }

  /** The first failing entry is the one after a decodable run. */
  lemma {:induction false} FirstUndecodableFromIs<E>(entries: seq<E>, decode: E -> Option<Image>, i: nat, k: nat)
    requires 1 <= i <= k < |entries|
    requires DecodesAll(entries, decode, 1, k) && decode(entries[k]).None?
    ensures FirstUndecodableFrom(entries, decode, i) == Some(k)
    decreases k - i
  {
    if i < k {
      FirstUndecodableFromIs(entries, decode, i + 1, k);
    }
  }

  lemma {:induction false} AllDecodableFrom<E>(entries: seq<E>, decode: E -> Option<Image>, i: nat)
    requires 1 <= i <= |entries|
    requires DecodesAll(entries, decode, 1, |entries|)
    ensures FirstUndecodableFrom(entries, decode, i) == None
    decreases |entries| - i
  {
    if i < |entries| {
      AllDecodableFrom(entries, decode, i + 1);
    }
  }

  // ---------------------------------------------------------------------
  // Properties of the stored text

  /** Entry 0 is never looked at: two entry lists that differ only there
      produce the same file and the same failure. */
  lemma FirstEntryIgnored<E>(entries: seq<E>, other: seq<E>, decode: E -> Option<Image>, ramp: string)
    requires |ramp| >= 1
    requires |entries| == |other|
    requires forall i :: 1 <= i < |entries| ==> entries[i] == other[i]
    ensures FirstUndecodable(entries, decode) == FirstUndecodable(other, decode)
    ensures StoredText(entries, decode, ramp) == StoredText(other, decode, ramp)
  {
    if |entries| > 1 {
      SameFromOn(entries, other, decode, 1);
      var n := EncodedCount(entries, decode);
      if n > 0 {
        assert DecodedRange(entries, decode, 1, n + 1) == DecodedRange(other, decode, 1, n + 1);
      }
    }
  }

  lemma {:induction false} SameFromOn<E>(entries: seq<E>, other: seq<E>, decode: E -> Option<Image>, i: nat)
    requires 1 <= i <= |entries| == |other|
    requires forall j :: 1 <= j < |entries| ==> entries[j] == other[j]
    requires DecodesAll(entries, decode, 1, i) && DecodesAll(other, decode, 1, i)
    ensures FirstUndecodableFrom(entries, decode, i) == FirstUndecodableFrom(other, decode, i)
    decreases |entries| - i
  {
    if i < |entries| && decode(entries[i]).Some? {
      SameFromOn(entries, other, decode, i + 1);
    }
  }

  /** Images of one height h give h lines each. */
  lemma {:induction false} EncodeAllLength(images: seq<Image>, ramp: string, h: nat)
    requires |ramp| >= 1
    requires forall i :: 0 <= i < |images| ==> images[i].height == h
    ensures |EncodeAll(images, ramp)| == h * |images|
  {
    var n := |images|;
    if n > 0 {
      EncodeAllLength(images[..n - 1], ramp, h);
      assert h * n == h * (n - 1) + h;
    }
  }

  /** Images of one height h lie back to back in the stored text: lines
      h*k .. h*k + h - 1 are the text of image k. */
  lemma {:induction false} EncodeAllUniform(images: seq<Image>, ramp: string, h: nat, k: nat)
    requires |ramp| >= 1
    requires forall i :: 0 <= i < |images| ==> images[i].height == h
    requires k < |images|
    ensures |EncodeAll(images, ramp)| == h * |images|
    ensures h * k + h <= h * |images|
    ensures EncodeAll(images, ramp)[h * k .. h * k + h] == EncodeFrame(images[k], ramp)
  {
    var n := |images|;
    var init := images[..n - 1];
    var prefix, last := EncodeAll(init, ramp), EncodeFrame(images[n - 1], ramp);
    assert EncodeAll(images, ramp) == prefix + last;
    EncodeAllLength(init, ramp, h);
    EncodeAllLength(images, ramp, h);
    UniformArith(h, k, n);
    var lo := h * k;
    if k < n - 1 {
      EncodeAllUniform(init, ramp, h, k);
      SliceOfPrefix(prefix, last, lo, lo + h);
      assert init[k] == images[k];
    } else {
      SliceOfRest(prefix, last, lo, lo + h);
    }
  }

  lemma SliceOfRest(a: seq<string>, b: seq<string>, i: nat, j: nat)
    requires i == |a| && j == |a| + |b|
    ensures (a + b)[i..j] == b
  {
  }

  /** The products EncodeAllUniform needs, given k < n. */
  lemma UniformArith(h: nat, k: nat, n: nat)
    requires k < n
    ensures 0 <= h * k && h * k + h <= h * n
    ensures h * n == h * (n - 1) + h
    ensures k < n - 1 ==> h * k + h <= h * (n - 1)
    ensures k == n - 1 ==> h * k == h * (n - 1)
  {
    Arithmetic.MulMono(h, k + 1, n);
    if k < n - 1 {
      Arithmetic.MulMono(h, k + 1, n - 1);
    }
  }

  lemma SliceOfPrefix(a: seq<string>, b: seq<string>, i: nat, j: nat)
    requires i <= j <= |a|
    ensures (a + b)[i..j] == a[i..j]
  {
  }

  /** Every character of the stored text is a glyph of the ramp. */
  lemma {:induction false} EncodeAllUsesRamp(images: seq<Image>, ramp: string, i: nat, x: nat)
    requires |ramp| >= 1
    requires i < |EncodeAll(images, ramp)| && x < |EncodeAll(images, ramp)[i]|
    ensures EncodeAll(images, ramp)[i][x] in ramp
  {
    var n := |images|;
    var prefix := EncodeAll(images[..n - 1], ramp);
    if i < |prefix| {
      EncodeAllUsesRamp(images[..n - 1], ramp, i, x);
    } else {
      var img := images[n - 1];
      var y := i - |prefix|;
      assert EncodeAll(images, ramp)[i] == EncodeFrame(img, ramp)[y];
    }
  }

  /** A 2x2 checkerboard drawn with the two-glyph ramp. */
  lemma Checkerboard()
    ensures var img: Image := Raster(2, 2, [[Black, White], [White, Black]]);
            EncodeFrame(img, MonoRamp) == [" *", "* "]
  {
    var img: Image := Raster(2, 2, [[Black, White], [White, Black]]);
    RampEndpoints();
    var text := EncodeFrame(img, MonoRamp);
    assert text[0] == " *";
    assert text[1] == "* ";
  }
}
