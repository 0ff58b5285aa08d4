/**
 * The two tools decode the same wire format: a frame saved by the live
 * viewer and later opened in the screenshot exporter shows the same
 * colours at the same places.
 */
module Agreement {
  import opened Rgb565
  import ScreenshotExport
  import DisplayStream

  /**
   * For a full frame of `width * height` big-endian samples, pixel `(x, y)`
   * of the exporter's image is row `y`, column `x` of the viewer's array.
   */
  lemma {:induction false} DecodersAgree(data: seq<Byte>, width: nat, height: nat, x: nat, y: nat)
    requires |data| == width * height * 2 && x < width && y < height
    ensures DisplayStream.ConvertImage(data, width, height).Some?
    ensures DisplayStream.Triple(ScreenshotExport.CapturedPixel(data, width, x, y))
      == DisplayStream.ConvertImage(data, width, height).value[y][x]
  {
    DisplayStream.ConvertImageAt(data, width, height, y, x);
    RowStart(x, y, width, height);
    SameSample(data, width * height, y * width + x);
  }

  /** An even-length capture holds exactly half as many samples as bytes. */
  lemma EvenSamples(data: seq<Byte>, n: nat)
    requires |data| == n * 2
    ensures ScreenshotExport.NumSamples(data) == n
  {
    assert |data| + 1 == n * 2 + 1;
  }

  /** Inside a full frame both tools read sample `k` from the same two bytes. */
  lemma SameSample(data: seq<Byte>, n: nat, k: nat)
    requires |data| == n * 2 && k < n
    ensures k < ScreenshotExport.NumSamples(data)
    ensures ScreenshotExport.SampleAt(data, k) == DisplayStream.WireSample(data, k)
  {
    EvenSamples(data, n);
  }

  /** A pixel inside the frame has a sample index inside the frame. */
  lemma RowStart(x: nat, y: nat, width: nat, height: nat)
    requires x < width && y < height
    ensures 0 <= y * width + x < width * height
  {
    ScreenshotExport.MulMono(y + 1, height, width);
    assert (y + 1) * width == y * width + width;
  }

  /** Every pixel of a full frame agrees, and the exporter's loop accepts it. */
  lemma FullFrameAgrees(data: seq<Byte>, width: nat, height: nat)
    requires |data| == width * height * 2
    ensures ScreenshotExport.Fits(data, width, height)
    ensures DisplayStream.ConvertImage(data, width, height).Some?
    ensures forall x, y :: 0 <= x < width && 0 <= y < height ==>
      DisplayStream.Triple(ScreenshotExport.CapturedPixel(data, width, x, y))
        == DisplayStream.ConvertImage(data, width, height).value[y][x]
  {
    DisplayStream.ConvertImageShape(data, width, height);
    EvenSamples(data, width * height);
    forall x, y | 0 <= x < width && 0 <= y < height
      ensures DisplayStream.Triple(ScreenshotExport.CapturedPixel(data, width, x, y))
        == DisplayStream.ConvertImage(data, width, height).value[y][x]
    {
      DecodersAgree(data, width, height, x, y);
    }
  }
}
