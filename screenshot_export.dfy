/**
 * The screenshot exporter: decoding a raw RGB565 capture file into an
 * image, and the browser state that walks the list of capture files of a
 * directory.
 */
module ScreenshotExport {
  import opened Wrappers
  import opened Rgb565
  import opened Text

  // ---------------------------------------------------------------------
  // Capture decoding
  // ---------------------------------------------------------------------

  /** How many two-byte reads the decoding loop makes: an odd last byte is a read of its own. */
  function NumSamples(data: seq<Byte>): nat
  {
    (|data| + 1) / 2
  }

  /**
   * Sample `k` of a capture: the bytes `2k, 2k+1` read big-endian; a lone
   * trailing byte is read as its own value (`int.from_bytes` of one byte).
   */
  function SampleAt(data: seq<Byte>, k: nat): Sample
    requires k < NumSamples(data)
  {
    if 2 * k + 1 < |data| then BigEndian16(data[2 * k], data[2 * k + 1]) else data[2 * k]
  }

  /** Where sample `k` goes in an image `width` pixels wide: `(k % width, k // width)`. */
  function PixelPosition(k: nat, width: nat): (nat, nat)
    requires width > 0
  {
    (k % width, k / width)
  }

  /** The position the source computes: `(k % size[0], k // size[1])`. */
  function PixelPositionAsWritten(k: nat, width: nat, height: nat): (p: (nat, nat))
    requires width > 0 && height > 0
    ensures p.0 < width
    ensures p.1 < height <==> k < height * height
  {
    RowBound(k, height, height);
    (k % width, k / height)
  }

  lemma DivMod(k: nat, width: nat)
    requires width > 0
    ensures k == (k / width) * width + k % width && 0 <= k % width < width
  {
  }

  lemma MulMono(a: nat, b: nat, c: nat)
    requires a <= b
    ensures a * c <= b * c
  {
  }

  /** A row index below `height` is exactly a sample index below `width * height`. */
  lemma RowBound(k: nat, width: nat, height: nat)
    requires width > 0
    ensures k / width < height <==> k < width * height
  {
    var q := k / width;
    DivMod(k, width);
    if q < height {
      MulMono(q + 1, height, width);
      assert k < (q + 1) * width;
    } else {
      MulMono(height, q, width);
    }
  }

  /** Row-major positions are the unique decomposition of the sample index. */
  lemma PositionIndex(x: nat, y: nat, width: nat, k: nat)
    requires x < width
    ensures y * width + x == k <==> (x, y) == PixelPosition(k, width)
  {
    DivMod(k, width);
    var q, r := k / width, k % width;
    if y * width + x == k {
      if y < q {
        MulMono(y + 1, q, width);
      } else if y > q {
        MulMono(q + 1, y, width);
      }
    }
  }

  /**
   * The corrected mapping is a bijection between the samples of a full
   * capture and the pixels of the image: sample `k < width * height` lands
   * inside the image, on the pixel whose row-major index is `k`.
   */
  lemma PositionInImage(k: nat, width: nat, height: nat)
    requires width > 0 && k < width * height
    ensures PixelPosition(k, width).0 < width && PixelPosition(k, width).1 < height
    ensures PixelPosition(k, width).1 * width + PixelPosition(k, width).0 == k
  {
    RowBound(k, width, height);
    DivMod(k, width);
  }

  /** For the square image the source always asks for, the two mappings agree. */
  lemma AsWrittenAgreesWhenSquare(k: nat, width: nat)
    requires width > 0
    ensures PixelPositionAsWritten(k, width, width) == PixelPosition(k, width)
  {
  }

  /**
   * For any non-square size the source misplaces the last sample of a full
   * capture: it goes to row `width - 1` instead of row `height - 1`, which
   * is outside the image when `width > height`.
   */
  lemma AsWrittenMisplacesLastSample(width: nat, height: nat)
    requires width > 0 && height > 0 && width != height
    ensures PixelPosition(width * height - 1, width) == (width - 1, height - 1)
    ensures PixelPositionAsWritten(width * height - 1, width, height) == (width - 1, width - 1)
  {
    var k := width * height - 1;
    assert k == (height - 1) * width + (width - 1);
    PositionIndex(width - 1, height - 1, width, k);
    assert k == (width - 1) * height + (height - 1);
    PositionIndex(height - 1, width - 1, height, k);
  }

  /** A 2x3 capture: samples 0 and 2 are both written to pixel (0, 0). */
  lemma AsWrittenCollision()
    ensures PixelPositionAsWritten(0, 2, 3) == PixelPositionAsWritten(2, 2, 3) == (0, 0)
    ensures PixelPosition(2, 2) == (0, 1)
  {
  }

  /** The pixel at column `x`, row `y` after decoding: its sample's colour, or black. */
  function CapturedPixel(data: seq<Byte>, width: nat, x: nat, y: nat): Pixel
  {
    var k := y * width + x;
    if k < NumSamples(data) then Color(SampleAt(data, k)) else Black
  }

  /** The image after the first `done` samples were put. */
  function PartialPixel(data: seq<Byte>, width: nat, x: nat, y: nat, done: nat): Pixel
  {
    var k := y * width + x;
    if k < done && k < NumSamples(data) then Color(SampleAt(data, k)) else Black
  }

  /**
   * The decoding loop runs to the end: a non-empty capture needs a
   * non-zero width (else `%` raises `ZeroDivisionError`) and at most
   * `width * height` samples (else `putpixel` raises `IndexError`).
   */
  predicate Fits(data: seq<Byte>, width: nat, height: nat)
  {
    NumSamples(data) == 0 || (width > 0 && NumSamples(data) <= width * height)
  }

  /**
   * `convert_image(path, size)` applied to the file's bytes: a black
   * `width` x `height` image (indexed `[x, y]` as PIL does), into which
   * sample `k` is put at `PixelPosition(k, width)`. `ok` is false where the
   * source raises, and the image is then meaningless.
   */
  method ConvertImage(data: seq<Byte>, width: nat, height: nat) returns (ok: bool, image: array2<Pixel>)
    ensures fresh(image) && image.Length0 == width && image.Length1 == height
    ensures ok <==> Fits(data, width, height)
    ensures ok ==> forall x, y :: 0 <= x < width && 0 <= y < height ==> image[x, y] == CapturedPixel(data, width, x, y)
  {
    image := new Pixel[width, height]((_, _) => Black);
    var n := NumSamples(data);
    var k := 0;
    while k < n
      invariant 0 <= k <= n
      invariant k > 0 ==> width > 0 && k <= width * height
      invariant forall x, y :: 0 <= x < width && 0 <= y < height ==>
        image[x, y] == PartialPixel(data, width, x, y, k)
    {
      if width == 0 {
        return false, image;
      }
      var (x, y) := PixelPosition(k, width);
      RowBound(k, width, height);
      if y >= height {
        return false, image;
      }
      image[x, y] := Color(SampleAt(data, k));
      forall x', y' | 0 <= x' < width && 0 <= y' < height
        ensures image[x', y'] == PartialPixel(data, width, x', y', k + 1)
      {
        PositionIndex(x', y', width, k);
      }
      k := k + 1;
    }
    if n > 0 {
      assert width > 0;
    }
    ok := true;
  }

  // ---------------------------------------------------------------------
  // File list
  // ---------------------------------------------------------------------

  /** One entry of a directory listing, and whether it is a regular file. */
  datatype DirEntry = DirEntry(name: string, isFile: bool)

  predicate IsCapture(e: DirEntry)
  {
    e.isFile && EndsWith(e.name, ".bin")
  }

  /** The paths `load_directory` appends, in listing order. */
  function BinFiles(directory: string, entries: seq<DirEntry>): (paths: seq<string>)
    ensures |paths| <= |entries|
    ensures forall k :: 0 <= k < |paths| ==> EndsWith(paths[k], ".bin")
  {
    if entries == [] then []
    else
      var e := entries[|entries| - 1];
      var path := directory + "/" + e.name;
      BinFiles(directory, entries[..|entries| - 1]) + (if IsCapture(e) then EndsWithAppend(directory + "/", e.name, ".bin"); [path] else [])
  }

  lemma EndsWithAppend(prefix: string, s: string, suffix: string)
    requires EndsWith(s, suffix)
    ensures EndsWith(prefix + s, suffix)
  {
    assert (prefix + s)[|prefix + s| - |suffix|..] == s[|s| - |suffix|..];
  }

  /** One more entry of the listing adds its path exactly when it is a capture. */
  lemma BinFilesStep(directory: string, entries: seq<DirEntry>, i: nat)
    requires i < |entries|
    ensures BinFiles(directory, entries[..i + 1]) == BinFiles(directory, entries[..i]) +
      if IsCapture(entries[i]) then [directory + "/" + entries[i].name] else []
  {
    assert entries[..i + 1][..i] == entries[..i];
  }

  /** Entry `i` of the listing is a capture whose path is `path`. */
  predicate CaptureAt(directory: string, entries: seq<DirEntry>, i: int, path: string)
  {
    0 <= i < |entries| && IsCapture(entries[i]) && path == directory + "/" + entries[i].name
  }

  /** The paths collected are exactly those of the regular `.bin` files of the listing. */
  lemma {:induction false} BinFilesMembers(directory: string, entries: seq<DirEntry>, path: string)
    ensures path in BinFiles(directory, entries) <==> exists i :: CaptureAt(directory, entries, i, path)
  {
    if entries != [] {
      var init := entries[..|entries| - 1];
      var e := entries[|entries| - 1];
      var last := if IsCapture(e) then [directory + "/" + e.name] else [];
      BinFilesMembers(directory, init, path);
      assert BinFiles(directory, entries) == BinFiles(directory, init) + last;
      if path in last {
        assert CaptureAt(directory, entries, |init|, path);
      }
      if exists i :: CaptureAt(directory, init, i, path) {
        var i :| CaptureAt(directory, init, i, path);
        assert CaptureAt(directory, entries, i, path);
      }
      if exists i :: CaptureAt(directory, entries, i, path) {
        var i :| CaptureAt(directory, entries, i, path);
        if i < |init| {
          assert CaptureAt(directory, init, i, path);
        } else {
          assert path in last;
        }
      }
    }
  }

  /** `select_file`'s normalisation: past the end wraps to 0, below 0 to the last. */
  function WrapIndex(index: int, count: nat): (r: int)
    ensures count > 0 ==> 0 <= r < count
    ensures 0 <= index < count ==> r == index
  {
    if index >= count then 0 else if index < 0 then count - 1 else index
  }

  /** Stepping forward or back from a valid index moves cyclically. */
  lemma WrapIndexCyclic(i: int, count: nat)
    requires 0 <= i < count
    ensures WrapIndex(i + 1, count) == (i + 1) % count
    ensures WrapIndex(i - 1, count) == (i - 1 + count) % count
    ensures WrapIndex(WrapIndex(i + 1, count) - 1, count) == i
    ensures WrapIndex(WrapIndex(i - 1, count) + 1, count) == i
  {
    if i + 1 == count {
      ModWrap(i + 1, count);
    } else {
      ModBelow(i + 1, count);
    }
    if i == 0 {
      ModBelow(i - 1 + count, count);
    } else {
      ModWrap(i - 1 + count, count);
    }
  }

  lemma ModBelow(x: int, n: int)
    requires 0 <= x < n
    ensures x % n == x
  {
  }

  lemma ModWrap(x: int, n: int)
    requires 0 < n <= x < 2 * n
    ensures x % n == x - n
  {
  }

  /** `list.index(x)`: the first position of `x`, `None` where Python raises `ValueError`. */
  function IndexOf(s: seq<string>, x: string): (r: Option<nat>)
    ensures r.None? <==> x !in s
    ensures r.Some? ==> r.value < |s| && s[r.value] == x && forall j :: 0 <= j < r.value ==> s[j] != x
  {
    if s == [] then None
    else if s[0] == x then Some(0)
    else match IndexOf(s[1..], x)
      case None => None
      case Some(i) => Some(i + 1)
  }

  /** No path occurs twice. */
  predicate Distinct(s: seq<string>)
  {
    forall i, j :: 0 <= i < j < |s| ==> s[i] != s[j]
  }

  /**
   * On a list without repeats, `next_file` followed by `previous_file`
   * (and the other way round) comes back to the file it started from.
   */
  lemma NextPreviousInverse(files: seq<string>, i: nat)
    requires Distinct(files) && i < |files|
    ensures var n := WrapIndex(i + 1, |files|);
      0 <= n < |files| && IndexOf(files, files[n]) == Some(n) && WrapIndex(n - 1, |files|) == i
    ensures var p := WrapIndex(i - 1, |files|);
      0 <= p < |files| && IndexOf(files, files[p]) == Some(p) && WrapIndex(p + 1, |files|) == i
  {
    var n := WrapIndex(i + 1, |files|);
    var p := WrapIndex(i - 1, |files|);
    var r := IndexOf(files, files[n]);
    assert r.Some? && files[r.value] == files[n];
    var q := IndexOf(files, files[p]);
    assert q.Some? && files[q.value] == files[p];
  }

  /** `validate_file_number`: the empty string, or an integer in `[0, len(loadedFiles))`. */
  function ValidateFileNumber(loadedFiles: seq<string>, input: string): (valid: bool)
    ensures valid <==> input == "" || (ParseInt(input).Some? && 0 <= ParseInt(input).value < |loadedFiles|)
  {
    ParseEmpty();
    match ParseInt(input)
    case None => input == ""
    case Some(n) => 0 <= n < |loadedFiles|
  }

  /**
   * The number `select_file` writes into the entry box passes its
   * validator exactly when it is the index of a loaded file.
   */
  lemma ValidatesIndexString(loadedFiles: seq<string>, i: int)
    ensures ValidateFileNumber(loadedFiles, IntToString(i)) <==> 0 <= i < |loadedFiles|
  {
    ParseIntToString(i);
  }

  /** A number padded with a separator U+001C to U+001F is refused, whatever the list. */
  lemma SeparatorPaddingRejected(loadedFiles: seq<string>, c: char, s: string)
    requires '\U{1c}' <= c <= '\U{1f}'
    ensures !ValidateFileNumber(loadedFiles, [c] + s)
    ensures !ValidateFileNumber(loadedFiles, s + [c])
  {
    ParseRejectsSeparators(c, s);
  }

  /** The state of the exporter window that the file operations read and write. */
  class Browser {
    var sourceDirectory: string
    var loadedFiles: seq<string>
    var selectedFile: string
    /** The text of the file-number entry box. */
    var selectedFileNumber: string

    constructor ()
      ensures sourceDirectory == "" && loadedFiles == [] && selectedFile == "" && selectedFileNumber == ""
    {
      sourceDirectory := "";
      loadedFiles := [];
      selectedFile := "";
      selectedFileNumber := "";
    }

    /**
     * `select_file(index)`: the number box shows the normalised index; on
     * an empty list the subscript raises (`ok` false) after the box was set,
     * and the selected file is left as it was.
     */
    method SelectFile(index: int) returns (ok: bool)
      modifies this`selectedFile, this`selectedFileNumber
      ensures ok == (|loadedFiles| > 0)
      ensures selectedFileNumber == IntToString(WrapIndex(index, |loadedFiles|))
      ensures selectedFile == if ok then loadedFiles[WrapIndex(index, |loadedFiles|)] else old(selectedFile)
    {
      var i := index;
      if i >= |loadedFiles| {
        i := 0;
      } else if i < 0 {
        i := |loadedFiles| - 1;
      }
      selectedFileNumber := IntToString(i);
      if 0 <= i < |loadedFiles| {
        selectedFile := loadedFiles[i];
        ok := true;
      } else {
        ok := false;
      }
    }

    /** `next_file`: selects the file after the current one, wrapping to the first. */
    method NextFile() returns (ok: bool)
      modifies this`selectedFile, this`selectedFileNumber
      ensures ok == (old(selectedFile) in loadedFiles)
      ensures ok ==> var i := WrapIndex(IndexOf(loadedFiles, old(selectedFile)).value + 1, |loadedFiles|);
        selectedFile == loadedFiles[i] && selectedFileNumber == IntToString(i)
      ensures !ok ==> selectedFile == old(selectedFile) && selectedFileNumber == old(selectedFileNumber)
    {
      match IndexOf(loadedFiles, selectedFile) {
        case None =>
          ok := false;
        case Some(i) =>
          ok := SelectFile(i + 1);
      }
    }

    /** `previous_file`: selects the file before the current one, wrapping to the last. */
    method PreviousFile() returns (ok: bool)
      modifies this`selectedFile, this`selectedFileNumber
      ensures ok == (old(selectedFile) in loadedFiles)
      ensures ok ==> var i := WrapIndex(IndexOf(loadedFiles, old(selectedFile)).value - 1, |loadedFiles|);
        selectedFile == loadedFiles[i] && selectedFileNumber == IntToString(i)
      ensures !ok ==> selectedFile == old(selectedFile) && selectedFileNumber == old(selectedFileNumber)
    {
      match IndexOf(loadedFiles, selectedFile) {
        case None =>
          ok := false;
        case Some(i) =>
          ok := SelectFile(i - 1);
      }
    }

    /** `number_entry_changed`: an empty box selects file 0, a number selects that index. */
    method NumberEntryChanged() returns (ok: bool)
      modifies this`selectedFile, this`selectedFileNumber
      ensures var text := old(selectedFileNumber);
        var target := if text == "" then Some(0) else ParseInt(text);
        && ok == (target.Some? && |loadedFiles| > 0)
        && (target.Some? ==> selectedFileNumber == IntToString(WrapIndex(target.value, |loadedFiles|)))
        && (ok ==> selectedFile == loadedFiles[WrapIndex(target.value, |loadedFiles|)])
        && (!ok ==> selectedFile == old(selectedFile))
        && (target.None? ==> selectedFileNumber == old(selectedFileNumber))
    {
      if selectedFileNumber == "" {
        ok := SelectFile(0);
      } else {
        match ParseInt(selectedFileNumber) {
          case None =>
            ok := false;
          case Some(n) =>
            ok := SelectFile(n);
        }
      }
    }

    /** `reset_file_number_box`: the box shows the index of the selected file again. */
    method ResetFileNumberBox() returns (ok: bool)
      modifies this`selectedFileNumber
      ensures ok == (selectedFile in loadedFiles)
      ensures ok ==> selectedFileNumber == IntToString(IndexOf(loadedFiles, selectedFile).value)
      ensures !ok ==> selectedFileNumber == old(selectedFileNumber)
    {
      match IndexOf(loadedFiles, selectedFile) {
        case None =>
          ok := false;
        case Some(i) =>
          selectedFileNumber := IntToString(i);
          ok := true;
      }
    }

    /** The loop of `load_directory`: appends each regular `.bin` file's path in listing order. */
    method AppendCaptures(listing: seq<DirEntry>)
      modifies this`loadedFiles
      ensures loadedFiles == old(loadedFiles) + BinFiles(sourceDirectory, listing)
    {
      for i := 0 to |listing|
        invariant loadedFiles == old(loadedFiles) + BinFiles(sourceDirectory, listing[..i])
      {
        BinFilesStep(sourceDirectory, listing, i);
        var e := listing[i];
        if e.isFile && EndsWith(e.name, ".bin") {
          loadedFiles := loadedFiles + [sourceDirectory + "/" + e.name];
        }
      }
      assert listing[..|listing|] == listing;
    }

    /**
     * `load_directory`: appends the path of every regular `.bin` file of
     * `listing` (the directory's entries in `os.listdir` order), then, if
     * any path was loaded, sorts the list and selects its first file.
     */
    method LoadDirectory(listing: seq<DirEntry>) returns (found: bool)
      modifies this`loadedFiles, this`selectedFile, this`selectedFileNumber
      ensures var all := old(loadedFiles) + BinFiles(sourceDirectory, listing);
        && found == (|all| > 0)
        && loadedFiles == if found then SortStrings(all) else all
      ensures found ==> Sorted(loadedFiles) && selectedFile == loadedFiles[0] && selectedFileNumber == "0"
      ensures !found ==> selectedFile == old(selectedFile) && selectedFileNumber == old(selectedFileNumber)
    {
      AppendCaptures(listing);
      found := |loadedFiles| > 0;
      if found {
        var sorted := SortStrings(loadedFiles);
        loadedFiles := sorted;
        var _ := SelectFile(0);
        assert WrapIndex(0, |sorted|) == 0;
      }
    }

    /**
     * `select_directory` with the folder the dialog returned (`""` when it
     * was cancelled) and that folder's listing: the list is emptied, then
     * loaded from the chosen folder.
     */
    method SelectDirectory(chosen: string, listing: seq<DirEntry>) returns (found: bool)
      modifies this`sourceDirectory, this`loadedFiles, this`selectedFile, this`selectedFileNumber
      ensures sourceDirectory == chosen
      ensures var paths := if chosen == "" then [] else BinFiles(chosen, listing);
        && found == (|paths| > 0)
        && loadedFiles == if found then SortStrings(paths) else []
      ensures found ==> selectedFile == loadedFiles[0] && selectedFileNumber == "0"
      ensures !found ==> selectedFile == old(selectedFile) && selectedFileNumber == old(selectedFileNumber)
    {
      loadedFiles := [];
      sourceDirectory := chosen;
      if chosen != "" {
        assert [] + BinFiles(chosen, listing) == BinFiles(chosen, listing);
        found := LoadDirectory(listing);
      } else {
        found := false;
      }
    }
  }
}
