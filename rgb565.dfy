/**
 * The RGB565 -> RGB888 colour codec shared by both tools: the scalar
 * `color` of the screenshot exporter and, element by element, the array
 * conversion of the live stream viewer.
 */
module Rgb565 {

  /** One byte of a capture file or of the serial stream. */
  type Byte = b: int | 0 <= b < 0x100

  /** A 16-bit sample: red in bits 11-15, green in bits 5-10, blue in bits 0-4. */
  type Sample = v: int | 0 <= v < 0x1_0000

  /** A colour as the Python code returns it: three unbounded integers. */
  datatype Pixel = Pixel(r: int, g: int, b: int)

  /** The colour of a pixel no sample was written to (a new PIL image is black). */
  const Black := Pixel(0, 0, 0)

  /** `int.from_bytes(bytes([hi, lo]), 'big')`, also NumPy's `'>u2'` element. */
  function BigEndian16(hi: Byte, lo: Byte): Sample
  {
    hi * 0x100 + lo
  }

  function HighByte(v: Sample): Byte { v / 0x100 }

  function LowByte(v: Sample): Byte { v % 0x100 }

  /** Splitting a sample into its two wire bytes undoes `BigEndian16` ... */
  lemma SplitJoin(hi: Byte, lo: Byte)
    ensures HighByte(BigEndian16(hi, lo)) == hi && LowByte(BigEndian16(hi, lo)) == lo
  {
  }

  /** ... and joining the two bytes of a sample gives the sample back. */
  lemma JoinSplit(v: Sample)
    ensures BigEndian16(HighByte(v), LowByte(v)) == v
  {
  }

  // `(v >> 11) & 0x1F`, `(v >> 5) & 0x3F` and `v & 0x1F` on a non-negative integer.
  function Red5(v: Sample): nat { v / 0x800 % 0x20 }

  function Green6(v: Sample): nat { v / 0x20 % 0x40 }

  function Blue5(v: Sample): nat { v % 0x20 }

  /** The sample whose three fields are `r5`, `g6` and `b5`. */
  function Pack(r5: nat, g6: nat, b5: nat): Sample
    requires r5 < 0x20 && g6 < 0x40 && b5 < 0x20
  {
    r5 * 0x800 + g6 * 0x20 + b5
  }

  /** `(c * 255) // 31`: widens a 5-bit field to 8 bits. */
  function Scale5(c: nat): int
    requires c < 0x20
  {
    c * 255 / 31
  }

  /** `(c * 255) // 63`: widens a 6-bit field to 8 bits. */
  function Scale6(c: nat): int
    requires c < 0x40
  {
    c * 255 / 63
  }

  /** The scalar conversion `color(value565)`: every channel lands in [0, 255]. */
  function Color(v: Sample): (p: Pixel)
    ensures 0 <= p.r <= 255 && 0 <= p.g <= 255 && 0 <= p.b <= 255
  {
    Pixel(Scale5(Red5(v)), Scale6(Green6(v)), Scale5(Blue5(v)))
  }

  /** The three fields of a sample determine it: unpacking and packing are inverse. */
  lemma PackUnpack(v: Sample)
    ensures Pack(Red5(v), Green6(v), Blue5(v)) == v
  {
  }

  /**
   * Each channel is computed from its own field alone: whatever the other
   * two fields hold, red is the widened bits 11-15, green the widened bits
   * 5-10 and blue the widened bits 0-4.
   */
  lemma ChannelsAreIndependent(r5: nat, g6: nat, b5: nat)
    requires r5 < 0x20 && g6 < 0x40 && b5 < 0x20
    ensures Red5(Pack(r5, g6, b5)) == r5 && Green6(Pack(r5, g6, b5)) == g6 && Blue5(Pack(r5, g6, b5)) == b5
    ensures Color(Pack(r5, g6, b5)) == Pixel(Scale5(r5), Scale6(g6), Scale5(b5))
  {
    var v := Pack(r5, g6, b5);
    assert v / 0x800 == r5;
    assert v / 0x20 == r5 * 0x40 + g6;
  }

  /** Widening is strictly increasing, so it is monotone and loses nothing. */
  lemma Scale5StrictlyIncreasing(c: nat, d: nat)
    requires c < d < 0x20
    ensures Scale5(c) < Scale5(d)
  {
    assert c * 255 + 255 <= d * 255;
  }

  lemma Scale6StrictlyIncreasing(c: nat, d: nat)
    requires c < d < 0x40
    ensures Scale6(c) < Scale6(d)
  {
    assert c * 255 + 255 <= d * 255;
  }

  /** Each output channel is non-decreasing in its source field. */
  lemma ColorMonotone(v: Sample, w: Sample)
    ensures Red5(v) <= Red5(w) ==> Color(v).r <= Color(w).r
    ensures Green6(v) <= Green6(w) ==> Color(v).g <= Color(w).g
    ensures Blue5(v) <= Blue5(w) ==> Color(v).b <= Color(w).b
  {
    if Red5(v) < Red5(w) { Scale5StrictlyIncreasing(Red5(v), Red5(w)); }
    if Green6(v) < Green6(w) { Scale6StrictlyIncreasing(Green6(v), Green6(w)); }
    if Blue5(v) < Blue5(w) { Scale5StrictlyIncreasing(Blue5(v), Blue5(w)); }
  }

  /** The conversion is lossless: distinct samples give distinct colours. */
  lemma ColorInjective(v: Sample, w: Sample)
    requires Color(v) == Color(w)
    ensures v == w
  {
    if Red5(v) < Red5(w) { Scale5StrictlyIncreasing(Red5(v), Red5(w)); }
    if Red5(w) < Red5(v) { Scale5StrictlyIncreasing(Red5(w), Red5(v)); }
    if Green6(v) < Green6(w) { Scale6StrictlyIncreasing(Green6(v), Green6(w)); }
    if Green6(w) < Green6(v) { Scale6StrictlyIncreasing(Green6(w), Green6(v)); }
    if Blue5(v) < Blue5(w) { Scale5StrictlyIncreasing(Blue5(v), Blue5(w)); }
    if Blue5(w) < Blue5(v) { Scale5StrictlyIncreasing(Blue5(w), Blue5(v)); }
    PackUnpack(v);
    PackUnpack(w);
  }

  /** Black, white, and the three primaries at full scale. */
  lemma ColorFixedPoints()
    ensures Color(0x0000) == Pixel(0, 0, 0)
    ensures Color(0xFFFF) == Pixel(255, 255, 255)
    ensures Color(0xF800) == Pixel(255, 0, 0)
    ensures Color(0x07E0) == Pixel(0, 255, 0)
    ensures Color(0x001F) == Pixel(0, 0, 255)
  {
  }
}
