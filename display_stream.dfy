/**
 * The live stream viewer: the NumPy conversion of a received frame, and
 * the packetised receive loop that pulls a frame over the serial port.
 */
module DisplayStream {
  import opened Wrappers
  import opened Rgb565

  // ---------------------------------------------------------------------
  // Frame conversion (`color_array_convert`, `convert_image`)
  // ---------------------------------------------------------------------

  /** NumPy `uint16` arithmetic wraps modulo 2^16. */
  function ToU16(x: int): int { x % 0x1_0000 }

  /** `.astype(np.uint8)` keeps the low eight bits. */
  function ToU8(x: int): int { x % 0x100 }

  /** An element-wise NumPy expression over an `(H, W)` array. */
  function MapGrid(values: seq<seq<Sample>>, f: Sample -> int): (r: seq<seq<int>>)
    ensures |r| == |values|
    ensures forall i :: 0 <= i < |r| ==> |r[i]| == |values[i]|
    ensures forall i, j :: 0 <= i < |r| && 0 <= j < |r[i]| ==> r[i][j] == f(values[i][j])
  {
    seq(|values|, i requires 0 <= i < |values| =>
      seq(|values[i]|, j requires 0 <= j < |values[i]| => f(values[i][j])))
  }

  /** `np.stack((r, g, b), axis=-1)`: a new last axis of length 3. */
  function Stack3(r: seq<seq<int>>, g: seq<seq<int>>, b: seq<seq<int>>): (rgb: seq<seq<seq<int>>>)
    requires |g| == |r| && |b| == |r|
    requires forall i :: 0 <= i < |r| ==> |g[i]| == |r[i]| && |b[i]| == |r[i]|
    ensures |rgb| == |r|
    ensures forall i :: 0 <= i < |rgb| ==> |rgb[i]| == |r[i]|
    ensures forall i, j :: 0 <= i < |rgb| && 0 <= j < |rgb[i]| ==> rgb[i][j] == [r[i][j], g[i][j], b[i][j]]
  {
    seq(|r|, i requires 0 <= i < |r| =>
      seq(|r[i]|, j requires 0 <= j < |r[i]| => [r[i][j], g[i][j], b[i][j]]))
  }

  /** The red plane: `((values565 >> 11) & 0x1F) * 255 // 31` in `uint16`, cast to `uint8`. */
  function RedPlane(v: Sample): int { ToU8(ToU16(Red5(v) * 255) / 31) }

  /** The green plane: `((values565 >> 5) & 0x3F) * 255 // 63` in `uint16`, cast to `uint8`. */
  function GreenPlane(v: Sample): int { ToU8(ToU16(Green6(v) * 255) / 63) }

  /** The blue plane: `(values565 & 0x1F) * 255 // 31` in `uint16`, cast to `uint8`. */
  function BluePlane(v: Sample): int { ToU8(ToU16(Blue5(v) * 255) / 31) }

  /** `color_array_convert`: the channel planes computed in `uint16`, cast to `uint8`, stacked. */
  function ColorArrayConvert(values: seq<seq<Sample>>): (rgb: seq<seq<seq<int>>>)
    ensures |rgb| == |values|
    ensures forall i :: 0 <= i < |rgb| ==> |rgb[i]| == |values[i]|
    ensures forall i, j :: 0 <= i < |rgb| && 0 <= j < |rgb[i]| ==>
      |rgb[i][j]| == 3 && forall c :: 0 <= c < 3 ==> 0 <= rgb[i][j][c] < 0x100
  {
    Stack3(MapGrid(values, RedPlane), MapGrid(values, GreenPlane), MapGrid(values, BluePlane))
  }

  /** A pixel as the three entries of the last axis. */
  function Triple(p: Pixel): seq<int>
  {
    [p.r, p.g, p.b]
  }

  /** A 5-bit field times 255 fits `uint16`, and its scaled value fits `uint8`. */
  lemma NoWrap5(c: nat)
    requires c < 0x20
    ensures ToU8(ToU16(c * 255) / 31) == Scale5(c)
  {
    assert c * 255 < 0x1_0000;
    assert c * 255 / 31 < 0x100;
  }

  /** A 6-bit field times 255 fits `uint16`, and its scaled value fits `uint8`. */
  lemma NoWrap6(c: nat)
    requires c < 0x40
    ensures ToU8(ToU16(c * 255) / 63) == Scale6(c)
  {
    assert c * 255 < 0x1_0000;
    assert c * 255 / 63 < 0x100;
  }

  /** On one element neither the `uint16` products nor the `uint8` cast wrap. */
  lemma PlanesNoWrap(v: Sample)
    ensures [RedPlane(v), GreenPlane(v), BluePlane(v)] == Triple(Color(v))
  {
    NoWrap5(Red5(v));
    NoWrap6(Green6(v));
    NoWrap5(Blue5(v));
  }

  /**
   * The array form agrees with the scalar `color` on every element: the
   * shape `(H, W)` becomes `(H, W, 3)`, and neither the `uint16` products
   * nor the `uint8` cast ever wrap.
   */
  lemma ColorArrayConvertAgrees(values: seq<seq<Sample>>)
    ensures var rgb := ColorArrayConvert(values);
      && |rgb| == |values|
      && (forall i :: 0 <= i < |rgb| ==> |rgb[i]| == |values[i]|)
      && (forall i, j :: 0 <= i < |rgb| && 0 <= j < |rgb[i]| ==> rgb[i][j] == Triple(Color(values[i][j])))
  {
    var rgb := ColorArrayConvert(values);
    forall i, j | 0 <= i < |rgb| && 0 <= j < |rgb[i]|
      ensures rgb[i][j] == Triple(Color(values[i][j]))
    {
      PlanesNoWrap(values[i][j]);
    }
  }

  /** `np.frombuffer(raw, dtype='>u2')`: `None` where NumPy raises (odd length). */
  function FromBufferBE(raw: seq<Byte>): (r: Option<seq<Sample>>)
    ensures r.Some? <==> |raw| % 2 == 0
    ensures r.Some? ==> 2 * |r.value| == |raw| && forall k :: 0 <= k < |r.value| ==> r.value[k] == WireSample(raw, k)
  {
    if |raw| % 2 != 0 then None
    else Some(seq(|raw| / 2, k requires 0 <= k < |raw| / 2 => BigEndian16(raw[2 * k], raw[2 * k + 1])))
  }

  /** The wire form of a sequence of samples: each one high byte first. */
  function ToBufferBE(samples: seq<Sample>): (raw: seq<Byte>)
    ensures |raw| == 2 * |samples|
    ensures forall k :: 0 <= k < |samples| ==> raw[2 * k] == HighByte(samples[k]) && raw[2 * k + 1] == LowByte(samples[k])
  {
    if samples == [] then []
    else [HighByte(samples[0]), LowByte(samples[0])] + ToBufferBE(samples[1..])
  }

  /** Reading back what was written gives the samples ... */
  lemma FromToBuffer(samples: seq<Sample>)
    ensures FromBufferBE(ToBufferBE(samples)) == Some(samples)
  {
    var raw := ToBufferBE(samples);
    var s := FromBufferBE(raw).value;
    assert |s| == |samples|;
    forall k | 0 <= k < |samples| ensures s[k] == samples[k] {
      JoinSplit(samples[k]);
    }
    assert s == samples;
  }

  /** ... and an even-length buffer is exactly the wire form of what it reads as. */
  lemma ToFromBuffer(raw: seq<Byte>)
    requires |raw| % 2 == 0
    ensures FromBufferBE(raw).Some? && ToBufferBE(FromBufferBE(raw).value) == raw
  {
    var s := FromBufferBE(raw).value;
    var back := ToBufferBE(s);
    assert |back| == |raw|;
    forall n | 0 <= n < |raw| ensures back[n] == raw[n] {
      var k := n / 2;
      assert n == 2 * k || n == 2 * k + 1;
      assert s[k] == BigEndian16(raw[2 * k], raw[2 * k + 1]);
      SplitJoin(raw[2 * k], raw[2 * k + 1]);
    }
    assert back == raw;
  }

  lemma RemoveRow(height: nat, width: nat)
    requires height > 0
    ensures height * width == width + (height - 1) * width
  {
  }

  /** `.reshape((height, width))`: `None` where NumPy raises (wrong element count). */
  function Reshape(flat: seq<Sample>, height: nat, width: nat): (r: Option<seq<seq<Sample>>>)
    ensures r.Some? <==> |flat| == height * width
    ensures r.Some? ==> |r.value| == height && forall i :: 0 <= i < height ==> |r.value[i]| == width
  {
    if |flat| != height * width then None else Some(Rows(flat, height, width))
  }

  /** Cuts `flat` into `height` consecutive rows of `width` elements. */
  function Rows(flat: seq<Sample>, height: nat, width: nat): (rows: seq<seq<Sample>>)
    requires |flat| == height * width
    ensures |rows| == height
    ensures forall i :: 0 <= i < height ==> |rows[i]| == width
  {
    if height == 0 then []
    else
      RemoveRow(height, width);
      [flat[..width]] + Rows(flat[width..], height - 1, width)
  }

  /** Row-major layout: element `(i, j)` of the reshaped array is flat element `i * width + j`. */
  lemma {:induction false} ReshapeAt(flat: seq<Sample>, height: nat, width: nat, i: nat, j: nat)
    requires |flat| == height * width && i < height && j < width
    ensures var r := Rows(flat, height, width);
      0 <= i * width + j < |flat| && r[i][j] == flat[i * width + j]
  {
    RemoveRow(height, width);
    var rest := Rows(flat[width..], height - 1, width);
    assert Rows(flat, height, width) == [flat[..width]] + rest;
    if i > 0 {
      ReshapeAt(flat[width..], height - 1, width, i - 1, j);
      var k := (i - 1) * width + j;
      assert i * width + j == width + k;
      assert rest[i - 1][j] == flat[width..][k];
    } else {
      assert i * width + j == j;
    }
  }

  /** Concatenation of the rows: the inverse of `Reshape`. */
  function Flatten(rows: seq<seq<Sample>>): seq<Sample>
  {
    if rows == [] then [] else rows[0] + Flatten(rows[1..])
  }

  lemma {:induction false} FlattenReshape(flat: seq<Sample>, height: nat, width: nat)
    requires |flat| == height * width
    ensures Reshape(flat, height, width).Some? && Flatten(Reshape(flat, height, width).value) == flat
  {
    if height > 0 {
      RemoveRow(height, width);
      FlattenReshape(flat[width..], height - 1, width);
      assert flat == flat[..width] + flat[width..];
    }
  }

  lemma {:induction false} ReshapeFlatten(rows: seq<seq<Sample>>, width: nat)
    requires forall i :: 0 <= i < |rows| ==> |rows[i]| == width
    ensures |Flatten(rows)| == |rows| * width
    ensures Reshape(Flatten(rows), |rows|, width) == Some(rows)
  {
    if rows != [] {
      ReshapeFlatten(rows[1..], width);
      RemoveRow(|rows|, width);
      var flat := Flatten(rows);
      assert flat[..width] == rows[0];
      assert flat[width..] == Flatten(rows[1..]);
      assert rows == [rows[0]] + rows[1..];
    }
  }

  /** `convert_image(raw_data, width, height)` of the stream viewer, up to the RGB array. */
  function ConvertImage(raw: seq<Byte>, width: nat, height: nat): Option<seq<seq<seq<int>>>>
  {
    match FromBufferBE(raw)
    case None => None
    case Some(flat) =>
      match Reshape(flat, height, width)
      case None => None
      case Some(grid) => Some(ColorArrayConvert(grid))
  }

  /** Sample `k` of a byte buffer, read big-endian from bytes `2k, 2k+1` (0 past the end). */
  function WireSample(raw: seq<Byte>, k: nat): Sample
  {
    if 2 * k + 1 < |raw| then BigEndian16(raw[2 * k], raw[2 * k + 1]) else 0
  }

  /** Pixel `(i, j)` of a successful conversion, from its two bytes. */
  lemma ConvertImageAt(raw: seq<Byte>, width: nat, height: nat, i: nat, j: nat)
    requires |raw| == width * height * 2 && i < height && j < width
    ensures ConvertImage(raw, width, height).Some?
    ensures var img := ConvertImage(raw, width, height).value;
      && |img| == height && |img[i]| == width && 2 * (i * width + j) + 1 < |raw|
      && img[i][j] == Triple(Color(WireSample(raw, i * width + j)))
  {
    var flat := FromBufferBE(raw).value;
    BufferSamples(raw, width * height);
    assert |flat| == height * width;
    var grid := Rows(flat, height, width);
    assert ConvertImage(raw, width, height) == Some(ColorArrayConvert(grid));
    ColorArrayConvertAgrees(grid);
    ReshapeAt(flat, height, width, i, j);
    var k: nat := i * width + j;
    assert k < width * height;
    assert grid[i][j] == flat[k] == WireSample(raw, k);
  }

  /** An even buffer of `2n` bytes reads as `n` samples, sample `k` from bytes `2k, 2k+1`. */
  lemma BufferSamples(raw: seq<Byte>, n: nat)
    requires |raw| == n * 2
    ensures FromBufferBE(raw).Some? && |FromBufferBE(raw).value| == n
    ensures forall k :: 0 <= k < n ==> 2 * k + 1 < |raw| && FromBufferBE(raw).value[k] == WireSample(raw, k)
  {
  }

  /** The conversion succeeds exactly on `width * height * 2` bytes, giving an `(H, W, 3)` array. */
  lemma ConvertImageShape(raw: seq<Byte>, width: nat, height: nat)
    ensures ConvertImage(raw, width, height).Some? <==> |raw| == width * height * 2
    ensures ConvertImage(raw, width, height).Some? ==>
      var img := ConvertImage(raw, width, height).value;
      && |img| == height
      && (forall i :: 0 <= i < height ==> |img[i]| == width)
      && (forall i, j :: 0 <= i < height && 0 <= j < width ==> |img[i][j]| == 3)
  {
    if |raw| == width * height * 2 {
      var flat := FromBufferBE(raw).value;
      assert |flat| == height * width;
      ColorArrayConvertAgrees(Rows(flat, height, width));
    }
  }

  /**
   * Pixel `(i, j)` of a converted frame is the colour of the big-endian
   * sample at bytes `2k, 2k+1` for `k = i * width + j`: row-major order.
   */
  lemma ConvertImageSpec(raw: seq<Byte>, width: nat, height: nat)
    requires |raw| == width * height * 2
    ensures ConvertImage(raw, width, height).Some?
    ensures var img := ConvertImage(raw, width, height).value;
      forall i, j :: 0 <= i < height && 0 <= j < width ==>
        img[i][j] == Triple(Color(WireSample(raw, i * width + j)))
  {
    ConvertImageShape(raw, width, height);
    var img := ConvertImage(raw, width, height).value;
    forall i, j | 0 <= i < height && 0 <= j < width
      ensures img[i][j] == Triple(Color(WireSample(raw, i * width + j)))
    {
      ConvertImageAt(raw, width, height, i, j);
    }
  }

  // ---------------------------------------------------------------------
  // The receive loop (`receive_image`) and the poll (`check_data_available`)
  // ---------------------------------------------------------------------

  const Width := 240
  const Height := 240
  const PacketCount := 16
  const TimeoutMs := 500
  /** The size of one frame on the wire, `width*height*2`. */
  const FrameBytes := 115200
  /** `width*height*2//packetCount`. */
  const PacketSize := 7200
  /** The divisor the deadline test applies to nanoseconds. */
  const NsPerTick := 10_000_000

  /** The literal sizes are the source's formulas, and a frame is a whole number of packets. */
  lemma GeometryConstants()
    ensures FrameBytes == Width * Height * 2
    ensures PacketSize == FrameBytes / PacketCount && FrameBytes == PacketCount * PacketSize
  {
  }

  /** The control words written to the port, each as an ASCII line. */
  datatype Control = Ready | Continue | Retry | End

  /** How a transfer ended: the received bytes, or the deadline passed. */
  datatype Outcome = Completed(raw: seq<Byte>) | TimedOut

  /** The deadline test `(now - start) // 10000000 > timeoutMs`, as `receive_image` evaluates it. */
  predicate DeadlineTest(start: int, now: int)
  {
    (now - start) / NsPerTick > TimeoutMs
  }

  /** A reading is late once `timeoutMs + 1` whole ticks of 10 ms have passed since the start. */
  predicate Late(start: int, now: int)
  {
    now - start >= (TimeoutMs + 1) * NsPerTick
  }

  /**
   * The test counts elapsed time in units of 10 ms, so it fires exactly
   * 5.01 s after the start, not after the 500 ms the name `timeoutMs`
   * suggests.
   */
  lemma LateThreshold(start: int, now: int)
    ensures DeadlineTest(start, now) <==> Late(start, now)
    ensures Late(start, now) <==> now - start >= 5_010_000_000
  {
  }

  /** The clock script: its last reading is past the deadline, as a real clock's eventually is. */
  predicate ClockExpires(start: int, times: seq<int>)
  {
    |times| > 0 && Late(start, times[|times| - 1])
  }

  /** `serial.read(size)` returns at most `size` bytes. */
  function Take(chunk: seq<Byte>, size: nat): seq<Byte>
  {
    if |chunk| <= size then chunk else chunk[..size]
  }

  /** The next scripted response, or nothing once the script is exhausted (a read that times out). */
  function Head(responses: seq<seq<Byte>>): seq<Byte>
  {
    if responses == [] then [] else responses[0]
  }

  function Tail<T>(s: seq<T>): seq<T>
  {
    if s == [] then [] else s[1..]
  }

  function Drop<T>(s: seq<T>, n: nat): seq<T>
  {
    if n <= |s| then s[n..] else []
  }

  /** What a whole run of the loop does. */
  datatype Trace = Trace(log: seq<Control>, outcome: Outcome, steps: nat)

  /**
   * The `while` loop of `receive_image` from the state where `raw` has
   * been accumulated: `responses` are the port's coming reads, `times` the
   * clock readings taken at the end of each iteration, `start` the reading
   * taken before the loop. `log` is every word written from here on,
   * `steps` the number of iterations (one read and one clock reading each).
   */
  function Transfer(responses: seq<seq<Byte>>, times: seq<int>, start: int, raw: seq<Byte>): (t: Trace)
    requires ClockExpires(start, times)
    ensures t.steps <= |times|
    decreases |times|
  {
    if |raw| == FrameBytes then Trace([End], Completed(raw), 0)
    else
      var packet := Take(Head(responses), PacketSize);
      var full := |packet| == PacketSize;
      var raw' := if full then raw + packet else raw;
      var word := if full then Continue else Retry;
      if Late(start, times[0]) then Trace([word], TimedOut, 1)
      else
        var rest := Transfer(Tail(responses), times[1..], start, raw');
        Trace([word] + rest.log, rest.outcome, rest.steps + 1)
  }

  lemma DropTail<T>(s: seq<T>, n: nat)
    ensures Drop(s, n + 1) == Tail(Drop(s, n))
  {
  }

  /**
   * The state of `receive_image` at the head of its loop: `steps`
   * iterations have consumed that many responses and clock readings,
   * written `logged`, and what is left to do is `Transfer` from here, so
   * that the whole run is `total`.
   */
  ghost predicate LoopAt(total: Trace, logged: seq<Control>, steps: nat, responses0: seq<seq<Byte>>, readings0: seq<int>,
                         start: int, responses: seq<seq<Byte>>, readings: seq<int>, raw: seq<Byte>)
  {
    && ClockExpires(start, readings)
    && responses == Drop(responses0, steps)
    && steps <= |readings0| && readings == readings0[steps..]
    && var t := Transfer(responses, readings, start, raw);
       total.log == logged + t.log && total.outcome == t.outcome && total.steps == steps + t.steps
  }

  /**
   * One iteration of the loop, from the loop head where `responses`,
   * `readings`, `raw` and `logged` held: it read `packet`, leaving `raw'`
   * and `logged'`, and either times out, ending the run, or reaches the
   * next loop head.
   */
  lemma LoopStep(total: Trace, logged: seq<Control>, steps: nat, responses0: seq<seq<Byte>>, readings0: seq<int>,
                 start: int, responses: seq<seq<Byte>>, readings: seq<int>, raw: seq<Byte>,
                 packet: seq<Byte>, raw': seq<Byte>, logged': seq<Control>)
    requires LoopAt(total, logged, steps, responses0, readings0, start, responses, readings, raw)
    requires |raw| != FrameBytes
    requires packet == Take(Head(responses), PacketSize)
    requires raw' == if |packet| == PacketSize then raw + packet else raw
    requires logged' == logged + [if |packet| == PacketSize then Continue else Retry]
    ensures |readings| > 0
    ensures Tail(responses) == Drop(responses0, steps + 1) && readings[1..] == readings0[steps + 1..]
    ensures Late(start, readings[0]) ==> total == Trace(logged', TimedOut, steps + 1)
    ensures !Late(start, readings[0]) ==>
      LoopAt(total, logged', steps + 1, responses0, readings0, start, Tail(responses), readings[1..], raw')
  {
    DropTail(responses0, steps);
    assert readings0[steps + 1..] == readings0[steps..][1..];
    var t := Transfer(responses, readings, start, raw);
    var w := if |packet| == PacketSize then Continue else Retry;
    if Late(start, readings[0]) {
      assert t == Trace([w], TimedOut, 1);
    } else {
      TransferNext(responses, readings, start, raw);
      var rest := Transfer(Tail(responses), readings[1..], start, raw');
      Assoc(logged, [w], rest.log);
    }
  }

  lemma Assoc<T>(a: seq<T>, b: seq<T>, c: seq<T>)
    ensures a + (b + c) == (a + b) + c
  {
  }

  /** Dropping the first element, then `n` more, drops `1 + n`. */
  lemma SliceShift<T>(s: seq<T>, n: nat)
    requires 1 + n <= |s|
    ensures s[1..][n..] == s[1 + n..]
  {
  }

  /** At the loop exit the run is complete and only `end` remains to be written. */
  lemma LoopDone(total: Trace, logged: seq<Control>, steps: nat, responses0: seq<seq<Byte>>, readings0: seq<int>,
                 start: int, responses: seq<seq<Byte>>, readings: seq<int>, raw: seq<Byte>)
    requires LoopAt(total, logged, steps, responses0, readings0, start, responses, readings, raw)
    requires |raw| == FrameBytes
    ensures total == Trace(logged + [End], Completed(raw), steps)
  {
  }

  /** A complete frame always converts. */
  lemma FrameConverts(raw: seq<Byte>)
    requires |raw| == FrameBytes
    ensures ConvertImage(raw, Width, Height).Some?
  {
    ConvertImageShape(raw, Width, Height);
  }

  /** The packets the first `n` reads return. */
  function Packets(responses: seq<seq<Byte>>, n: nat): (ps: seq<seq<Byte>>)
    ensures |ps| == n
  {
    if n == 0 then [] else [Take(Head(responses), PacketSize)] + Packets(Tail(responses), n - 1)
  }

  predicate IsFull(packet: seq<Byte>) { |packet| == PacketSize }

  /** The reply to each packet: `continue` after a full one, `retry` after a short one. */
  function Replies(ps: seq<seq<Byte>>): (ws: seq<Control>)
    ensures |ws| == |ps|
  {
    if ps == [] then [] else [if IsFull(ps[0]) then Continue else Retry] + Replies(ps[1..])
  }

  /** The full packets, concatenated in order; short ones are dropped. */
  function Joined(ps: seq<seq<Byte>>): seq<Byte>
  {
    if ps == [] then [] else (if IsFull(ps[0]) then ps[0] else []) + Joined(ps[1..])
  }

  function FullCount(ps: seq<seq<Byte>>): (n: nat)
    ensures n <= |ps|
  {
    if ps == [] then 0 else (if IsFull(ps[0]) then 1 else 0) + FullCount(ps[1..])
  }

  /**
   * Every read is answered by exactly one word, `end` closes a completed
   * transfer and only a completed one, and the frame is the full packets
   * concatenated in arrival order: short reads are discarded.
   */
  lemma {:induction false} TransferTrace(responses: seq<seq<Byte>>, times: seq<int>, start: int, raw: seq<Byte>)
    requires ClockExpires(start, times)
    ensures var t := Transfer(responses, times, start, raw);
      && t.log == Replies(Packets(responses, t.steps)) + (if t.outcome.Completed? then [End] else [])
      && (t.outcome.Completed? ==> t.outcome.raw == raw + Joined(Packets(responses, t.steps)))
    decreases |times|
  {
    var t := Transfer(responses, times, start, raw);
    if |raw| != FrameBytes {
      var packet := Take(Head(responses), PacketSize);
      var w := if IsFull(packet) then Continue else Retry;
      var ps := Packets(responses, t.steps);
      assert ps[0] == packet && Replies(ps)[0] == w;
      if Late(start, times[0]) {
        assert t == Trace([w], TimedOut, 1);
        assert ps == [packet];
      } else {
        var raw' := if IsFull(packet) then raw + packet else raw;
        var rest := Transfer(Tail(responses), times[1..], start, raw');
        TransferTrace(Tail(responses), times[1..], start, raw');
        var rps := Packets(Tail(responses), rest.steps);
        assert t == Trace([w] + rest.log, rest.outcome, rest.steps + 1);
        assert ps[1..] == rps;
        assert Replies(ps) == [w] + Replies(rps);
        var tailWord: seq<Control> := if t.outcome.Completed? then [End] else [];
        Assoc([w], Replies(rps), tailWord);
        if t.outcome.Completed? {
          if IsFull(packet) {
            assert Joined(ps) == packet + Joined(rps);
            Assoc(raw, packet, Joined(rps));
          } else {
            assert Joined(ps) == [] + Joined(rps) == Joined(rps);
          }
        }
      }
    }
  }


  /** The time at which the loop stops is the first late reading; every earlier one was on time. */
  lemma {:induction false} TransferTiming(responses: seq<seq<Byte>>, times: seq<int>, start: int, raw: seq<Byte>)
    requires ClockExpires(start, times)
    ensures var t := Transfer(responses, times, start, raw);
      && t.steps <= |times|
      && (t.outcome.TimedOut? <==> t.steps > 0 && Late(start, times[t.steps - 1]))
      && (forall i :: 0 <= i < t.steps - 1 ==> !Late(start, times[i]))
    decreases |times|
  {
    if |raw| != FrameBytes && !Late(start, times[0]) {
      var packet := Take(Head(responses), PacketSize);
      var raw' := if IsFull(packet) then raw + packet else raw;
      TransferTiming(Tail(responses), times[1..], start, raw');
      var t := Transfer(responses, times, start, raw);
      forall i | 0 <= i < t.steps - 1 ensures !Late(start, times[i]) {
        if i > 0 { assert times[i] == times[1..][i - 1]; }
      }
    }
  }

  lemma {:induction false} JoinedLength(ps: seq<seq<Byte>>)
    ensures |Joined(ps)| == FullCount(ps) * PacketSize
  {
    if ps != [] {
      JoinedLength(ps[1..]);
    }
  }

  lemma {:induction false} RepliesCount(ps: seq<seq<Byte>>)
    ensures multiset(Replies(ps))[Continue] == FullCount(ps)
    ensures multiset(Replies(ps))[Retry] == |ps| - FullCount(ps)
    ensures multiset(Replies(ps))[End] == 0
  {
    if ps != [] {
      RepliesCount(ps[1..]);
      var w := if IsFull(ps[0]) then Continue else Retry;
      assert multiset(Replies(ps)) == multiset{w} + multiset(Replies(ps[1..]));
    }
  }

  /**
   * From an empty buffer, a completed transfer received exactly 16 full
   * packets (one `continue` each) and wrote one `end`; every other read
   * was short and answered by `retry`. A timed-out one wrote no `end`.
   */
  lemma TransferCounts(responses: seq<seq<Byte>>, times: seq<int>, start: int)
    requires ClockExpires(start, times)
    ensures var t := Transfer(responses, times, start, []);
      && (t.outcome.Completed? ==>
            && |t.outcome.raw| == FrameBytes
            && multiset(t.log)[Continue] == PacketCount
            && multiset(t.log)[Retry] == t.steps - PacketCount
            && multiset(t.log)[End] == 1 && t.log[|t.log| - 1] == End)
      && (t.outcome.TimedOut? ==> End !in t.log)
  {
    var t := Transfer(responses, times, start, []);
    TransferTrace(responses, times, start, []);
    TransferCompletesFull(responses, times, start, []);
    var ps := Packets(responses, t.steps);
    JoinedLength(ps);
    RepliesCount(ps);
    if t.outcome.Completed? {
      assert FullCount(ps) * PacketSize == FrameBytes;
      assert multiset(t.log) == multiset(Replies(ps)) + multiset{End};
    }
  }

  /** The loop only leaves with a complete frame. */
  lemma {:induction false} TransferCompletesFull(responses: seq<seq<Byte>>, times: seq<int>, start: int, raw: seq<Byte>)
    requires ClockExpires(start, times)
    ensures var t := Transfer(responses, times, start, raw);
      t.outcome.Completed? ==> |t.outcome.raw| == FrameBytes
    decreases |times|
  {
    if |raw| != FrameBytes && !Late(start, times[0]) {
      var packet := Take(Head(responses), PacketSize);
      TransferCompletesFull(Tail(responses), times[1..], start, if IsFull(packet) then raw + packet else raw);
    }
  }

  /** Lengths that are whole numbers of packets, up to a frame. */
  lemma PacketMultiple(q: nat)
    ensures q * PacketSize + PacketSize == (q + 1) * PacketSize
    ensures q * PacketSize == FrameBytes <==> q == PacketCount
    ensures q <= PacketCount ==> q * PacketSize <= FrameBytes && (q * PacketSize) % PacketSize == 0
  {
  }

  /**
   * The buffer grows a packet at a time and never past a frame: after any
   * number of iterations its length is a multiple of the packet size and
   * at most `FrameBytes`.
   */
  lemma TransferAligned(responses: seq<seq<Byte>>, times: seq<int>, start: int, raw: seq<Byte>, n: nat)
    requires ClockExpires(start, times)
    requires |raw| % PacketSize == 0 && |raw| <= FrameBytes
    requires n <= Transfer(responses, times, start, raw).steps
    ensures var buffer := raw + Joined(Packets(responses, n));
      |buffer| % PacketSize == 0 && |buffer| <= FrameBytes
  {
    var q := |raw| / PacketSize;
    assert |raw| == q * PacketSize;
    PacketMultiple(q);
    PacketsFit(responses, times, start, raw, n, q);
    var ps := Packets(responses, n);
    JoinedLength(ps);
    assert |raw + Joined(ps)| == q * PacketSize + FullCount(ps) * PacketSize == (q + FullCount(ps)) * PacketSize;
    PacketMultiple(q + FullCount(ps));
  }

  /** Counted in packets: the `q` already held plus the full ones still to come make at most a frame. */
  lemma {:induction false} PacketsFit(responses: seq<seq<Byte>>, times: seq<int>, start: int, raw: seq<Byte>, n: nat, q: nat)
    requires ClockExpires(start, times)
    requires |raw| == q * PacketSize && q <= PacketCount
    requires n <= Transfer(responses, times, start, raw).steps
    ensures q + FullCount(Packets(responses, n)) <= PacketCount
    decreases |times|
  {
    if n > 0 {
      PacketMultiple(q);
      assert q < PacketCount;
      var packet := Take(Head(responses), PacketSize);
      var ps := Packets(responses, n);
      assert ps[0] == packet && ps[1..] == Packets(Tail(responses), n - 1);
      var q' := if IsFull(packet) then q + 1 else q;
      if n > 1 {
        assert !Late(start, times[0]);
        TransferNext(responses, times, start, raw);
        PacketsFit(Tail(responses), times[1..], start, if IsFull(packet) then raw + packet else raw, n - 1, q');
      } else {
        assert ps[1..] == [];
      }
    }
  }

  /** One on-time iteration of the loop, whether or not a response is waiting. */
  lemma TransferNext(responses: seq<seq<Byte>>, times: seq<int>, start: int, raw: seq<Byte>)
    requires ClockExpires(start, times) && |raw| != FrameBytes && !Late(start, times[0])
    ensures |times| > 1 && ClockExpires(start, times[1..])
    ensures var packet := Take(Head(responses), PacketSize);
      var rest := Transfer(Tail(responses), times[1..], start, if IsFull(packet) then raw + packet else raw);
      Transfer(responses, times, start, raw)
        == Trace([if IsFull(packet) then Continue else Retry] + rest.log, rest.outcome, rest.steps + 1)
  {
  }

  function Repeat(w: Control, n: nat): (ws: seq<Control>)
    ensures |ws| == n && forall i :: 0 <= i < n ==> ws[i] == w
  {
    if n == 0 then [] else [w] + Repeat(w, n - 1)
  }

  /**
   * A channel that first returns `shorts` short reads and then the `m`
   * full packets still missing, answered on time: the transfer completes,
   * writing `retry` for each short read, `continue` for each packet, then `end`.
   */
  lemma {:induction false} ShortReadsThenPackets(responses: seq<seq<Byte>>, times: seq<int>, start: int, raw: seq<Byte>, shorts: nat, m: nat)
    requires ClockExpires(start, times)
    requires |raw| + m * PacketSize == FrameBytes && (m > 0 || shorts == 0)
    requires shorts + m <= |responses| && shorts + m < |times|
    requires forall i :: 0 <= i < shorts ==> |responses[i]| < PacketSize
    requires forall i :: shorts <= i < shorts + m ==> |responses[i]| >= PacketSize
    requires forall i :: 0 <= i < shorts + m ==> !Late(start, times[i])
    ensures var t := Transfer(responses, times, start, raw);
      t.outcome.Completed? && t.steps == shorts + m &&
      t.log == Repeat(Retry, shorts) + Repeat(Continue, m) + [End]
    decreases shorts
  {
    if shorts > 0 {
      ShortReadsThenPackets(responses[1..], times[1..], start, raw, shorts - 1, m);
      TransferNext(responses, times, start, raw);
      assert Tail(responses) == responses[1..];
      var retries, packets := Repeat(Retry, shorts - 1), Repeat(Continue, m);
      assert Repeat(Retry, shorts) == [Retry] + retries;
      Assoc([Retry], retries + packets, [End]);
      Assoc([Retry], retries, packets);
    } else {
      PacketsThenEnd(responses, times, start, raw, m);
      assert Repeat(Retry, 0) + Repeat(Continue, m) == Repeat(Continue, m);
    }
  }

  /** The `m` missing packets, each on time: `continue` for each, then `end`. */
  lemma {:induction false} PacketsThenEnd(responses: seq<seq<Byte>>, times: seq<int>, start: int, raw: seq<Byte>, m: nat)
    requires ClockExpires(start, times)
    requires |raw| + m * PacketSize == FrameBytes
    requires m <= |responses| && m < |times|
    requires forall i :: 0 <= i < m ==> |responses[i]| >= PacketSize && !Late(start, times[i])
    ensures var t := Transfer(responses, times, start, raw);
      t.outcome.Completed? && t.steps == m && t.log == Repeat(Continue, m) + [End]
    decreases m
  {
    if m > 0 {
      var packet := Take(responses[0], PacketSize);
      assert |raw + packet| + (m - 1) * PacketSize == |raw| + m * PacketSize;
      PacketsThenEnd(responses[1..], times[1..], start, raw + packet, m - 1);
      TransferNext(responses, times, start, raw);
      assert Tail(responses) == responses[1..];
      var packets := Repeat(Continue, m - 1);
      assert Repeat(Continue, m) == [Continue] + packets;
      Assoc([Continue], packets, [End]);
    } else {
      assert |raw| == FrameBytes;
    }
  }

  /** The scenario of two short reads before the sixteen packets: exactly two `retry` words. */
  lemma TwoRetriesScenario(responses: seq<seq<Byte>>, times: seq<int>, start: int)
    requires ClockExpires(start, times)
    requires |responses| >= 2 + PacketCount && |times| > 2 + PacketCount
    requires |responses[0]| < PacketSize && |responses[1]| < PacketSize
    requires forall i :: 2 <= i < 2 + PacketCount ==> |responses[i]| >= PacketSize
    requires forall i :: 0 <= i < 2 + PacketCount ==> !Late(start, times[i])
    ensures var t := Transfer(responses, times, start, []);
      t.outcome.Completed? && multiset(t.log)[Retry] == 2 && multiset(t.log)[End] == 1
  {
    ShortReadsThenPackets(responses, times, start, [], 2, PacketCount);
    TransferCounts(responses, times, start);
  }

  /** The serial port, as the loop sees it: scripted reads and a log of what was written. */
  class SerialPort {
    /** What each coming `read` would return, in order. */
    var responses: seq<seq<Byte>>
    /** The values coming `in_waiting` queries report, in order. */
    var waiting: seq<nat>
    /** Every control word written so far. */
    var written: seq<Control>

    constructor (responses: seq<seq<Byte>>, waiting: seq<nat>)
      ensures this.responses == responses && this.waiting == waiting && written == []
    {
      this.responses := responses;
      this.waiting := waiting;
      written := [];
    }

    /** `writelines([word + "\n"])`. */
    method Write(word: Control)
      modifies this`written
      ensures written == old(written) + [word]
    {
      written := written + [word];
    }

    /** `read(size)`: at most `size` bytes of the next response. */
    method Read(size: nat) returns (data: seq<Byte>)
      modifies this`responses
      ensures data == Take(Head(old(responses)), size)
      ensures responses == Tail(old(responses))
    {
      data := Take(Head(responses), size);
      responses := Tail(responses);
    }

    /** `in_waiting`: 0 once the script is exhausted. */
    method InWaiting() returns (n: nat)
      modifies this`waiting
      ensures n == (if old(waiting) == [] then 0 else old(waiting)[0])
      ensures waiting == Tail(old(waiting))
    {
      n := if waiting == [] then 0 else waiting[0];
      waiting := Tail(waiting);
    }
  }

  /** `time.time_ns()`, as the sequence of readings it will give. */
  class Clock {
    var readings: seq<int>

    constructor (readings: seq<int>)
      ensures this.readings == readings
    {
      this.readings := readings;
    }

    method TimeNs() returns (now: int)
      requires readings != []
      modifies this`readings
      ensures now == old(readings)[0] && readings == old(readings)[1..]
    {
      now := readings[0];
      readings := readings[1..];
    }
  }

  /** The clock will reach the deadline of a transfer started at its next reading. */
  predicate ClockReady(readings: seq<int>)
  {
    |readings| > 0 && ClockExpires(readings[0], readings[1..])
  }

  /** The viewer window's state: its port, its clock and the frame it shows. */
  class StreamWindow {
    const port: SerialPort
    const clock: Clock
    /** The RGB array of the last frame received, before scaling for display. */
    var convertedImage: Option<seq<seq<seq<int>>>>

    constructor (port: SerialPort, clock: Clock)
      ensures this.port == port && this.clock == clock && convertedImage == None
    {
      this.port := port;
      this.clock := clock;
      convertedImage := None;
    }

    /**
     * `receive_image`: writes `continue`, runs the loop, and on success
     * writes `end` and converts the frame; on a timeout it returns at once,
     * leaving the shown frame as it was.
     */
    method ReceiveImage() returns (outcome: Outcome)
      requires ClockReady(clock.readings)
      modifies port`responses, port`written, clock`readings, this`convertedImage
      ensures var start := old(clock.readings)[0];
        var t := Transfer(old(port.responses), old(clock.readings)[1..], start, []);
        && outcome == t.outcome
        && port.written == old(port.written) + [Continue] + t.log
        && port.responses == Drop(old(port.responses), t.steps)
        && clock.readings == old(clock.readings)[1 + t.steps..]
        && convertedImage == if t.outcome.Completed? then ConvertImage(t.outcome.raw, Width, Height) else old(convertedImage)
      ensures outcome.Completed? ==> convertedImage.Some?
    {
      ghost var readingsAll := clock.readings;
      var start := clock.TimeNs();
      port.Write(Continue);
      outcome := PullFrame(start);
      ghost var t := Transfer(old(port.responses), readingsAll[1..], start, []);
      SliceShift(readingsAll, t.steps);
      if outcome.Completed? {
        TransferCompletesFull(old(port.responses), readingsAll[1..], start, []);
        FrameConverts(outcome.raw);
        convertedImage := ConvertImage(outcome.raw, Width, Height);
      }
    }

    /**
     * The loop of `receive_image` and the `end` written after it, run
     * against the port and the clock: what `Transfer` describes.
     */
    method PullFrame(start: int) returns (outcome: Outcome)
      requires ClockExpires(start, clock.readings)
      modifies port`responses, port`written, clock`readings
      ensures var t := Transfer(old(port.responses), old(clock.readings), start, []);
        && outcome == t.outcome
        && port.written == old(port.written) + t.log
        && port.responses == Drop(old(port.responses), t.steps)
        && clock.readings == old(clock.readings)[t.steps..]
    {
      var rawData: seq<Byte> := [];
      ghost var total := Transfer(port.responses, clock.readings, start, []);
      ghost var responses0 := port.responses;
      ghost var readings0 := clock.readings;
      ghost var prefix := port.written;
      ghost var logged: seq<Control> := [];
      ghost var steps: nat := 0;
      assert readings0[0..] == readings0;
      while |rawData| != FrameBytes
        invariant LoopAt(total, logged, steps, responses0, readings0, start, port.responses, clock.readings, rawData)
        invariant port.written == prefix + logged
        decreases |clock.readings|
      {
        var late;
        rawData, late, logged, steps := ReceivePacket(total, logged, steps, responses0, readings0, prefix, start, rawData);
        if late {
          return TimedOut;
        }
      }
      LoopDone(total, logged, steps, responses0, readings0, start, port.responses, clock.readings, rawData);
      port.Write(End);
      assert (prefix + logged) + [End] == prefix + (logged + [End]);
      outcome := Completed(rawData);
    }

    /**
     * One iteration of the loop in `receive_image`: reads a packet, keeps
     * it and answers `continue` if it is full, answers `retry` otherwise,
     * then reads the clock. `late` is the deadline test.
     */
    method ReceivePacket(ghost total: Trace, ghost logged: seq<Control>, ghost steps: nat,
                         ghost responses0: seq<seq<Byte>>, ghost readings0: seq<int>, ghost prefix: seq<Control>,
                         start: int, rawData: seq<Byte>)
      returns (rawData': seq<Byte>, late: bool, ghost logged': seq<Control>, ghost steps': nat)
      requires LoopAt(total, logged, steps, responses0, readings0, start, port.responses, clock.readings, rawData)
      requires |rawData| != FrameBytes && port.written == prefix + logged
      modifies port`responses, port`written, clock`readings
      ensures port.written == prefix + logged' && steps' == steps + 1 && |clock.readings| < old(|clock.readings|)
      ensures late ==> && total == Trace(logged', TimedOut, steps')
                       && port.responses == Drop(responses0, steps') && clock.readings == readings0[steps'..]
      ensures !late ==> LoopAt(total, logged', steps', responses0, readings0, start, port.responses, clock.readings, rawData')
    {
      ghost var responsesBefore, readingsBefore := port.responses, clock.readings;
      var packet := port.Read(PacketSize);
      var word := if |packet| == PacketSize then Continue else Retry;
      rawData' := if |packet| == PacketSize then rawData + packet else rawData;
      port.Write(word);
      logged' := logged + [word];
      assert (prefix + logged) + [word] == prefix + logged';
      LoopStep(total, logged, steps, responses0, readings0, start, responsesBefore, readingsBefore, rawData,
               packet, rawData', logged');
      steps' := steps + 1;
      var now := clock.TimeNs();
      late := (now - start) / NsPerTick > TimeoutMs;
      LateThreshold(start, now);
    }

    /**
     * One poll of `check_data_available`: writes `ready`, and only if the
     * port reports waiting bytes reads the two announcement bytes and
     * receives a frame. `None` means no transfer was started.
     */
    method CheckDataAvailable() returns (result: Option<Outcome>)
      requires ClockReady(clock.readings)
      modifies port, clock`readings, this`convertedImage
      ensures port.waiting == Tail(old(port.waiting))
      ensures var pending := if old(port.waiting) == [] then 0 else old(port.waiting)[0];
        if pending == 0 then
          && result == None
          && port.written == old(port.written) + [Ready]
          && port.responses == old(port.responses)
          && clock.readings == old(clock.readings)
          && convertedImage == old(convertedImage)
        else
          var t := Transfer(Tail(old(port.responses)), old(clock.readings)[1..], old(clock.readings)[0], []);
          && result == Some(t.outcome)
          && port.written == old(port.written) + [Ready, Continue] + t.log
          && port.responses == Drop(Tail(old(port.responses)), t.steps)
          && clock.readings == old(clock.readings)[1 + t.steps..]
          && convertedImage == if t.outcome.Completed? then ConvertImage(t.outcome.raw, Width, Height) else old(convertedImage)
    {
      port.Write(Ready);
      var pending := port.InWaiting();
      if pending > 0 {
        var _ := port.Read(2);
        ghost var t := Transfer(port.responses, clock.readings[1..], clock.readings[0], []);
        var outcome := ReceiveImage();
        assert port.written == old(port.written) + [Ready] + [Continue] + t.log;
        assert old(port.written) + [Ready] + [Continue] == old(port.written) + [Ready, Continue];
        result := Some(outcome);
      } else {
        result := None;
      }
    }
  }
}
