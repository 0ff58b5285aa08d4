# GamePico-Tools: RGB565 decoding and the frame link

GamePico-Tools is a pair of desktop tools for a handheld that drives a
240x240 RGB565 display. The screenshot exporter opens raw capture files
(`.bin`, two big-endian bytes per pixel, row-major) and lets the user step
through a folder of them. The live stream viewer polls the device over a
serial port, pulls one frame in sixteen packets with a
`continue`/`retry`/`end` handshake, and converts it with NumPy.

This project models the logic of both tools:

- `Rgb565` (rgb565.dfy): the big-endian byte pair and the RGB565 to RGB888
  colour formula shared by both tools (`color`, `color_array_convert`).
- `Text` (text.dfy): the parts of Python's `str` and `int` the exporter
  relies on: code-point order and `list.sort`, `str(int)`, `int(str)` and
  `str.endswith`.
- `ScreenshotExport` (screenshot_export.dfy): `convert_image` as a method
  that fills a two-dimensional array, and a `Browser` class holding the
  exporter's file-list state (`loadedFiles`, `selectedFile`, the text of
  the file-number box) with the operations that update it.
- `DisplayStream` (display_stream.dfy): the NumPy conversion of a frame as
  functions over nested sequences, and the receive loop as a `StreamWindow`
  class. The window talks to a `SerialPort` and a `Clock`. The port replays
  a script of read results and logs every control word written to it. The
  clock replays a script of `time_ns()` readings. A `Transfer` function
  states what a whole run of the loop does. `PullFrame` runs the loop one
  `ReceivePacket` iteration at a time, and both are proved against it.
- `Agreement` (agreement.dfy): a frame decoded by the viewer and the same
  bytes decoded by the exporter give the same pixel at every position.

Integer arithmetic follows Python. Shifts and masks of non-negative
values are division and remainder. `//` by a positive constant is Dafny's
`/`. The NumPy `uint16` products and the `uint8` cast are written out as
explicit wrap-arounds, and a lemma shows that neither ever wraps.

The receive loop's deadline test `(now - start) // 10000000 > timeoutMs`
is kept as written. Its unit is 10 ms, so with `timeoutMs = 500` the
transfer gives up once 5.01 s have passed, not after 500 ms
(`DisplayStream.LateThreshold`). A frame header with a version, an id and
a compression flag exists only as the `HeaderData` type
(display_stream.py:22-30). Neither tool reads one, so the model has no
header parser: captures are raw sample streams whose size the caller
supplies.

## Model

| member | source | states |
|---|---|---|
| Rgb565.Color | screenshot_export.py:273-286 | every channel of the converted colour lies in [0, 255] for any 16-bit input |
| Rgb565.ChannelsAreIndependent | screenshot_export.py:277-284 | red is read from bits 11-15 only, green from bits 5-10 only, blue from bits 0-4 only; the colour of a packed triple is the three scaled components |
| Rgb565.PackUnpack | screenshot_export.py:277-279 | the three bit fields together recover the whole 16-bit sample, so no bit is lost or shared |
| Rgb565.ColorFixedPoints | screenshot_export.py:282-284 | 0x0000 is black, 0xFFFF white, 0xF800 pure red, 0x07E0 pure green and 0x001F pure blue |
| Rgb565.ColorMonotone | screenshot_export.py:282-284 | each output channel is non-decreasing in its 5- or 6-bit source component |
| Rgb565.Scale5StrictlyIncreasing | screenshot_export.py:282 | the 5-bit scaling `c*255//31` is strictly increasing on 0..31 |
| Rgb565.Scale6StrictlyIncreasing | screenshot_export.py:283 | the 6-bit scaling `c*255//63` is strictly increasing on 0..63 |
| Rgb565.ColorInjective | screenshot_export.py:273-286 | two samples with the same converted colour are equal: the conversion loses no information |
| Rgb565.SplitJoin | screenshot_export.py:297 | joining two bytes big-endian and splitting the sample again gives back both bytes |
| Rgb565.JoinSplit | display_stream.py:240 | splitting a 16-bit sample into its bytes and joining them big-endian gives back the sample |
| DisplayStream.ColorArrayConvert | display_stream.py:176-194 | keeps the (H, W) shape, adds a last axis of 3, and every entry is a `uint8` value in [0, 255]; `ColorArrayConvertAgrees` states that each element is the scalar colour |
| DisplayStream.ColorArrayConvertAgrees | display_stream.py:176-194 | the array conversion keeps the (H, W) shape, adds a last axis of 3, and gives every element the scalar colour; the `uint16` and `uint8` arithmetic never wraps |
| DisplayStream.FromBufferBE | display_stream.py:240 | `frombuffer(..., '>u2')` succeeds exactly on an even-length buffer, and then yields half as many samples as bytes, sample k read big-endian from bytes 2k and 2k+1 |
| DisplayStream.FromToBuffer | display_stream.py:240 | reading back the big-endian bytes of any sample sequence gives that sequence |
| DisplayStream.ToFromBuffer | display_stream.py:240 | every even-length buffer is accepted and re-encoding its samples gives back the buffer |
| DisplayStream.Reshape | display_stream.py:240 | `reshape((height, width))` succeeds exactly when there are `height*width` samples, and then gives `height` rows of `width` samples |
| DisplayStream.FlattenReshape | display_stream.py:240 | reshaping `height*width` samples to (height, width) succeeds and flattening the rows gives back the samples |
| DisplayStream.ReshapeFlatten | display_stream.py:240 | flattening equal-length rows and reshaping to their shape gives back the rows |
| DisplayStream.ReshapeAt | display_stream.py:240 | after the reshape, row i column j holds sample `i*width + j` |
| DisplayStream.ConvertImage | display_stream.py:238-248 | the viewer's decoding up to the RGB array; when it succeeds and its shape are stated by `ConvertImageShape`, its pixels by `ConvertImageSpec` |
| DisplayStream.ConvertImageShape | display_stream.py:238-248 | the conversion succeeds exactly when the buffer is `width*height*2` bytes long, and then has shape (height, width, 3) |
| DisplayStream.ConvertImageSpec | display_stream.py:238-248 | pixel (i, j) of a converted frame is the colour of the big-endian sample at bytes `2k, 2k+1` with `k = i*width + j` |
| DisplayStream.ConvertImageAt | display_stream.py:238-248 | the same statement for one given row and column |
| DisplayStream.GeometryConstants | display_stream.py:198-213 | a frame is `240*240*2` bytes and a packet is a sixteenth of it, with nothing left over |
| DisplayStream.LateThreshold | display_stream.py:220 | the deadline test as written, with its floor division by 10^7, holds exactly when at least 5.01 s of nanoseconds have elapsed |
| DisplayStream.Transfer | display_stream.py:212-224 | a run of the loop takes one clock reading per iteration and never more than the script holds; `TransferTrace`, `TransferTiming` and `TransferCounts` state which words it writes, when it stops and what frame it returns |
| DisplayStream.TransferTrace | display_stream.py:212-224 | each read is answered by one `continue` (full packet) or one `retry` (short read), in order; `end` is written after a completed transfer and never after a timed-out one; the frame is the full packets concatenated in arrival order |
| DisplayStream.TransferTiming | display_stream.py:220-222 | a transfer times out exactly when the reading taken after its last iteration is late, and every earlier reading was on time |
| DisplayStream.TransferCompletesFull | display_stream.py:212 | the loop only finishes with exactly `width*height*2` bytes |
| DisplayStream.TransferAligned | display_stream.py:213-218 | after any number of iterations the buffer length is a multiple of the packet size and never exceeds a frame |
| DisplayStream.PacketsFit | display_stream.py:212-216 | counted in packets, the packets already held plus the full packets still to come never exceed the sixteen of a frame |
| DisplayStream.TransferCounts | display_stream.py:210-224 | a completed transfer received 16 full packets, wrote one `continue` for each, one `retry` per other read and exactly one `end`, last; a timed-out one wrote no `end` |
| DisplayStream.ShortReadsThenPackets | display_stream.py:212-218 | a channel giving some short reads and then the missing packets on time completes, writing `retry` for each short read, `continue` for each packet, then `end` |
| DisplayStream.PacketsThenEnd | display_stream.py:212-224 | when the missing packets all arrive full and on time, the transfer completes, writing one `continue` per packet and then `end` |
| DisplayStream.TwoRetriesScenario | display_stream.py:212-218 | two short reads followed by sixteen packets complete with exactly two `retry` words and one `end` |
| DisplayStream.FrameConverts | display_stream.py:230 | a completed frame always has the size the conversion accepts |
| DisplayStream.SerialPort.Write | display_stream.py:210 | a write appends its control word to the port's log |
| DisplayStream.SerialPort.Read | display_stream.py:213 | a read returns at most the requested number of bytes of the next response and consumes it |
| DisplayStream.SerialPort.InWaiting | display_stream.py:115 | the query reports the next scripted count, 0 once the script is exhausted |
| DisplayStream.Clock.TimeNs | display_stream.py:206 | each call returns the next reading and consumes it |
| DisplayStream.StreamWindow.ReceiveImage | display_stream.py:197-235 | the method does what `Transfer` describes: it writes one initial `continue` and then the transfer's words; it consumes one read per iteration and one clock reading per iteration plus the start reading; it stores the converted frame after a completed transfer and leaves the shown frame untouched after a timeout |
| DisplayStream.StreamWindow.PullFrame | display_stream.py:212-224 | the loop and the `end` after it do what `Transfer` describes: the same outcome and words written, one response and one clock reading consumed per iteration |
| DisplayStream.StreamWindow.ReceivePacket | display_stream.py:213-222 | one iteration reads a packet, appends it and writes `continue` if it is full, writes `retry` otherwise, then reads the clock; it reports a timeout exactly when the whole transfer ends there timed out, and otherwise keeps the loop in step with `Transfer` |
| DisplayStream.StreamWindow.CheckDataAvailable | display_stream.py:112-118 | a poll writes `ready`; with no bytes waiting it changes nothing else; otherwise it consumes the 2-byte announcement and then behaves as `ReceiveImage` |
| ScreenshotExport.PositionInImage | screenshot_export.py:298 | with the corrected row `k // width`, every sample of a full capture lands inside the image on the pixel whose row-major index is k |
| ScreenshotExport.PositionIndex | screenshot_export.py:298 | `(x, y)` is the position of sample k exactly when `y*width + x == k`, so distinct samples never share a pixel |
| ScreenshotExport.PixelPositionAsWritten | screenshot_export.py:298 | the column `k % size[0]` is always inside the image, but the row `k // size[1]` stays below the height only for `k < height*height`, so a capture wider than high sends samples past the last row |
| ScreenshotExport.AsWrittenAgreesWhenSquare | screenshot_export.py:289 | for the square default size (240, 240) the position as written equals the corrected one |
| ScreenshotExport.AsWrittenMisplacesLastSample | screenshot_export.py:298 | for any non-square size the last sample is sent to row `width - 1` instead of `height - 1` |
| ScreenshotExport.AsWrittenCollision | screenshot_export.py:298 | for size (2, 3) the position as written sends samples 0 and 2 both to pixel (0, 0) |
| ScreenshotExport.ConvertImage | screenshot_export.py:289-301 | the image is black except that pixel (k % width, k // width) holds the colour of sample k, read big-endian (a lone last byte read on its own); with the corrected row `k // width`, the method fails exactly where `putpixel` or `%` would then raise: a zero width, or more samples than pixels |
| ScreenshotExport.BinFiles | screenshot_export.py:246-248 | collects at most one path per listing entry, and every path collected ends in `.bin`; `BinFilesMembers` states exactly which |
| ScreenshotExport.BinFilesMembers | screenshot_export.py:246-248 | the paths collected are exactly `directory + "/" + name` for the listing's regular files whose name ends in `.bin` |
| ScreenshotExport.WrapIndex | screenshot_export.py:135-138 | on a non-empty list the normalised index is always valid, and a valid index is kept |
| ScreenshotExport.WrapIndexCyclic | screenshot_export.py:149-153 | stepping forward or back from a valid index moves cyclically, and the two steps undo each other |
| ScreenshotExport.IndexOf | screenshot_export.py:150 | `list.index`: the first position of the element, absent exactly when the element is not in the list |
| ScreenshotExport.NextPreviousInverse | screenshot_export.py:149-153 | on a list without repeats, the next file followed by the previous one (and the reverse) returns to the starting file |
| ScreenshotExport.ValidateFileNumber | screenshot_export.py:163-191 | the input passes exactly when it is the empty string or parses as an integer n with `0 <= n < len(loadedFiles)` |
| ScreenshotExport.ValidatesIndexString | screenshot_export.py:163-191 | the number text for index i passes validation exactly when `0 <= i < len(loadedFiles)` |
| ScreenshotExport.SeparatorPaddingRejected | screenshot_export.py:163-191 | a number with a U+001C to U+001F separator at either end is refused, whatever files are loaded |
| ScreenshotExport.Browser.SelectFile | screenshot_export.py:134-145 | the number box shows the normalised index; on a non-empty list the selected file is the file at that index; on an empty list the subscript fails after the box was set |
| ScreenshotExport.Browser.NextFile | screenshot_export.py:149-150 | selects the file after the current one, wrapping to the first; fails without change when the current file is not in the list |
| ScreenshotExport.Browser.PreviousFile | screenshot_export.py:152-153 | selects the file before the current one, wrapping to the last; fails without change when the current file is not in the list |
| ScreenshotExport.Browser.NumberEntryChanged | screenshot_export.py:156-160 | an empty box selects file 0, an integer selects that (normalised) index, other text changes nothing |
| ScreenshotExport.Browser.ResetFileNumberBox | screenshot_export.py:193-194 | the box shows the index of the selected file again |
| ScreenshotExport.Browser.AppendCaptures | screenshot_export.py:246-248 | the list gains exactly `BinFiles` of the listing, in listing order, after what it held before |
| ScreenshotExport.Browser.LoadDirectory | screenshot_export.py:245-269 | appends the `.bin` files of the listing in listing order; if any file is loaded the list is sorted and its first file selected, otherwise the selection is untouched |
| ScreenshotExport.Browser.SelectDirectory | screenshot_export.py:213-236 | the list is emptied and, unless the dialog was cancelled, loaded from the chosen folder |
| Text.EndsWithSplit | screenshot_export.py:247 | `s.endswith(suffix)` holds exactly when s is some string followed by suffix |
| Text.SortStrings | screenshot_export.py:251 | the sorted list is in code-point order and a permutation of the input |
| Text.SortedPermutationUnique | screenshot_export.py:251 | two sorted permutations of the same paths are equal, so the sorted order does not depend on the listing order |
| Text.LexLe | screenshot_export.py:251 | a prefix of a string comes before it; `LexLeTotal`, `LexLeTransitive` and `LexLeAntisymmetric` make it the total order `sort` uses |
| Text.LexLeTotal | screenshot_export.py:251 | any two strings are comparable in code-point order |
| Text.LexLeTransitive | screenshot_export.py:251 | code-point order is transitive |
| Text.LexLeAntisymmetric | screenshot_export.py:251 | code-point order is antisymmetric |
| Text.ParseInt | screenshot_export.py:160-166 | `int()` succeeds only on text that holds a decimal digit; `ParseIntToString` and `ParseEmpty` state what it reads back and what it refuses |
| Text.IntToString | screenshot_export.py:140 | `str(i)` is non-empty, starts with `-` exactly for negative i, and with a digit otherwise |
| Text.ParseIntToString | screenshot_export.py:140 | `int(str(i)) == i` for every integer i, so the number `select_file` writes is read back unchanged |
| Text.ParseEmpty | screenshot_export.py:165-169 | `int("")` fails, which is why the empty string is handled apart |
| Text.ParseRejectsSeparators | screenshot_export.py:165-166 | `int()` fails on text that starts or ends with one of U+001C to U+001F, which it does not strip as whitespace |
| Agreement.DecodersAgree | screenshot_export.py:294-298 | for a full frame, pixel (x, y) of the exporter's image equals row y, column x of the viewer's array |
| Agreement.FullFrameAgrees | display_stream.py:238-248 | the same for every pixel at once, and the exporter accepts every full frame |

## Left out

- The Tk/ttkbootstrap widgets, toasts, message boxes and the image preview are user interface only. The file-number box is modelled by its text.
- The PIL and NumPy objects are modelled by their integer content. `ScreenshotExport.ConvertImage` returns an `array2` indexed `[x, y]` as `putpixel` is. `DisplayStream.ConvertImage` returns nested sequences in NumPy's `[row][column][channel]` order.
- DisplayStream.StreamWindow.ReceiveImage: stores the frame at its received size. The 3x nearest-neighbour `resize` and `update_image_frame` (display_stream.py:233-235, 106-109) are image-library calls and are not modelled.
- The `time_ns()` readings that only feed the elapsed-time prints (display_stream.py:226-231) are not consumed by the model, and the prints themselves are left out.
- Opening and enumerating serial ports (`init_serial_port`, `list_serial_ports`) and the exception handlers of `check_data_available` (display_stream.py:119-141) are device I/O. `self.after` rescheduling is left to the caller, who calls `CheckDataAvailable` again.
- The serial port and the clock are scripts given up front. A read past the end of the script returns no bytes, as a serial read that times out does.
- DisplayStream.StreamWindow.ReceiveImage: requires that the clock script ends with a reading past the deadline. A real clock always gets there, and this is what makes the loop terminate in the model.
- The folder dialog (`askdirectory`) and `os.listdir`/`os.path.isfile` are replaced by parameters: the chosen folder and a listing of names with a regular-file flag.
- Reading a capture file is replaced by its bytes. `update_image_preview` (screenshot_export.py:239-242) is file I/O plus a widget update.
- Text.ParseInt: accepts ASCII digits, and strips only the ASCII whitespace `int` strips (the space and `\t` through `\r`; not U+001C to U+001F, which `str.isspace` counts but `int` rejects). Python's `int` also takes other Unicode decimal digits and Unicode spaces. It also parses digit strings of any length, where Python 3.11 and later raise `ValueError` above 4300 digits; a validated file number never gets that long.
- ScreenshotExport.PixelPositionAsWritten: like `ScreenshotExport.PixelPosition`, it works on exact integers, while screenshot_export.py:298 computes the position in floating point (`int((i/2)%size[0])`, `int((i/2)//size[1])`). The two agree for every capture shorter than 2^53 bytes.
- ScreenshotExport.ConvertImage: places sample k at the corrected row `k // width`. The row `k // size[1]` of screenshot_export.py:298 is modelled only by `ScreenshotExport.PixelPositionAsWritten`. The two agree at every square size, including the (240, 240) the exporter uses (`ScreenshotExport.AsWrittenAgreesWhenSquare`). At a non-square size the code as written places pixels differently, or raises where the method succeeds: size (3, 2) with a 12-byte capture is one such case.
- Agreement.DecodersAgree: the exporter side is the corrected decoding. The code as written agrees with the viewer only at square sizes (`ScreenshotExport.AsWrittenAgreesWhenSquare`), including the (240, 240) both tools use.
- Agreement.FullFrameAgrees: same as `Agreement.DecodersAgree`. Its claim that the exporter accepts every full frame holds for the corrected row only: as written, a (3, 2) frame raises.
- `nuke.py` and `flash_free_space.py` are file-system and OS calls with no logic of their own.
- `HeaderData` (display_stream.py:22-30) is a type declaration that no code reads, so there is no header parsing, versioning or compression to model.

## Findings

| source | as written | input that shows it | evidently intended | confidence | as-written member | corrected member |
|---|---|---|---|---|---|---|
| screenshot_export.py:298 | the row of sample k is `k // size[1]`, dividing by the height | `size = (2, 3)` with a 12-byte capture: samples 0 and 2 both go to pixel (0, 0) and row 2 stays black; with `size = (3, 2)` sample 4 (bytes 8-9) is put in row 2 of a 2-row image and `putpixel` raises there, so the last sample is never placed | the row is `k // size[0]`, dividing by the width, as the column `k % size[0]` already does | not executed; latent, since the only caller uses the default square size (240, 240) where both agree | ScreenshotExport.AsWrittenCollision | ScreenshotExport.PositionInImage |
