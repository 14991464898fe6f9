/**
 The PPM writer of capture_x86.c: it streams the header and the rows, bottom row
 first, to a temporary file and into the hash, and renames the file at the end.
 */
module Capture {
  import opened Wrappers
  import opened Decimal
  import opened Sha256
  import opened Sha256Stream

  const SPACE: byte := 0x20
  const NEWLINE: byte := 0x0a

  /** P6, the dimensions, and the maximum sample value 255. */
  function Header(width: nat, height: nat): Bytes {
    [0x50, 0x36, NEWLINE] + Digits(width) + [SPACE] + Digits(height) + [NEWLINE, 0x32, 0x35, 0x35, NEWLINE]
  }

  /** Row y of the framebuffer without its alpha channel. */
  function Row(rgba: Bytes, width: nat, y: nat): (r: Bytes)
    requires 4 * ((y + 1) * width) <= |rgba|
    ensures |r| == 3 * width
  {
    RowRange(width, y);
    seq(3 * width, i requires 0 <= i < 3 * width => rgba[4 * (y * width) + 4 * (i / 3) + i % 3])
  }

  lemma RowRange(width: nat, y: nat)
    ensures (y + 1) * width == y * width + width
    ensures forall i :: 0 <= i < 3 * width ==> 0 <= 4 * (i / 3) + i % 3 < 4 * width
  {
  }

  lemma RowInside(width: nat, height: nat, y: nat)
    requires y < height
    ensures (y + 1) * width <= height * width
  {
  }

  /** The first n rows of the picture, which are the last n rows of the framebuffer. */
  function Rows(rgba: Bytes, width: nat, height: nat, n: nat): Bytes
    requires n <= height && |rgba| == 4 * (height * width)
  {
    if n == 0 then []
    else
      RowInside(width, height, height - n);
      Rows(rgba, width, height, n - 1) + Row(rgba, width, height - n)
  }

  function Picture(rgba: Bytes, width: nat, height: nat): Bytes
    requires |rgba| == 4 * (height * width)
  {
    Header(width, height) + Rows(rgba, width, height, height)
  }

  lemma {:induction false} RowsLength(rgba: Bytes, width: nat, height: nat, n: nat)
    requires n <= height && |rgba| == 4 * (height * width)
    ensures |Rows(rgba, width, height, n)| == 3 * (n * width)
  {
    if n > 0 {
      RowsLength(rgba, width, height, n - 1);
      RowRange(width, n - 1);
    }
  }

  /** Sample c of pixel x in row y of the picture is that sample in row height - 1 - y of the framebuffer. */
  lemma {:induction false} FlippedPixel(rgba: Bytes, width: nat, height: nat, n: nat, x: nat, y: nat, c: nat)
    requires y < n <= height && x < width && c < 3 && |rgba| == 4 * (height * width)
    ensures var at := 3 * (y * width) + 3 * x + c;
            var from := 4 * ((height - 1 - y) * width) + 4 * x + c;
            0 <= at < |Rows(rgba, width, height, n)| && 0 <= from < |rgba|
            && Rows(rgba, width, height, n)[at] == rgba[from]
  {
    RowsLength(rgba, width, height, n - 1);
    RowInside(width, height, height - 1 - y);
    RowRange(width, height - 1 - y);
    if y == n - 1 {
      assert Row(rgba, width, height - n)[3 * x + c] == rgba[4 * ((height - n) * width) + 4 * x + c];
    } else {
      FlippedPixel(rgba, width, height, n - 1, x, y, c);
    }
  }

  // ---- Writing it ----

  /** The two files the writer touches. */
  class CaptureFiles {
    var temporary: Option<Bytes>
    var output: Option<Bytes>

    constructor ()
      ensures temporary == None && output == None
    {
      temporary, output := None, None;
    }
  }

  /** Which operation fails, if any: a row write fails after the rows before it were written. */
  datatype CaptureFault =
    | NoFault
    | OpenFails
    | HeaderWriteFails
    | RowAllocationFails
    | RowWriteFails(row: nat)
    | FlushFails
    | CloseFails
    | RenameFails

  predicate Succeeds(fault: CaptureFault, height: nat) {
    fault.NoFault? || (fault.RowWriteFails? && fault.row >= height)
  }

  /** The inner loop: one row of samples into the row buffer. */
  method FillRow(row: array<byte>, rgba: Bytes, width: nat, sourceY: nat)
    requires row.Length == 3 * width && 4 * ((sourceY + 1) * width) <= |rgba|
    modifies row
    ensures row[..] == Row(rgba, width, sourceY)
  {
    hide Row;
    RowRange(width, sourceY);
    var source := sourceY * width * 4;
    ghost var r := Row(rgba, width, sourceY);
    for x := 0 to width
      invariant row[..3 * x] == r[..3 * x]
    {
      RowNext(rgba, width, sourceY, x);
      row[3 * x] := rgba[source + x * 4];
      row[3 * x + 1] := rgba[source + x * 4 + 1];
      row[3 * x + 2] := rgba[source + x * 4 + 2];
      assert row[..3 * (x + 1)] == row[..3 * x] + [row[3 * x], row[3 * x + 1], row[3 * x + 2]];
    }
    assert r[..3 * width] == r;
  }

  /** A row is one pixel longer than its front. */
  lemma RowNext(rgba: Bytes, width: nat, y: nat, x: nat)
    requires 4 * ((y + 1) * width) <= |rgba| && x < width
    ensures var r, at := Row(rgba, width, y), y * width * 4 + x * 4;
            at + 2 < |rgba| && r[..3 * (x + 1)] == r[..3 * x] + [rgba[at], rgba[at + 1], rgba[at + 2]]
  {
    RowRange(width, y);
    var r := Row(rgba, width, y);
    PixelParts(x);
    assert r[..3 * (x + 1)] == r[..3 * x] + [r[3 * x], r[3 * x + 1], r[3 * x + 2]];
  }

  lemma PixelParts(x: nat)
    ensures (3 * x) / 3 == (3 * x + 1) / 3 == (3 * x + 2) / 3 == x
    ensures (3 * x) % 3 == 0 && (3 * x + 1) % 3 == 1 && (3 * x + 2) % 3 == 2
  {
  }

  /** fwrite, then the same bytes into the hash. */
  method Emit(files: CaptureFiles, sha: Context, bytes: Bytes)
    requires sha.Valid() && files.temporary == Some(sha.message)
    modifies files, sha, sha.state, sha.block
    ensures sha.Valid() && files.temporary == Some(sha.message)
    ensures sha.message == old(sha.message) + bytes && files.output == old(files.output)
  {
    files.temporary := Some(files.temporary.value + bytes);
    sha.Update(bytes);
  }

  /** The row loop; it reports whether every row was written. */
  method EmitRows(files: CaptureFiles, sha: Context, rgba: Bytes, width: nat, height: nat, fault: CaptureFault) returns (ok: bool)
    requires sha.Valid() && files.temporary == Some(sha.message) && |rgba| == 4 * (height * width)
    modifies files, sha, sha.state, sha.block
    ensures sha.Valid() && files.output == old(files.output)
    ensures ok == !(fault.RowWriteFails? && fault.row < height)
    ensures ok ==> files.temporary == Some(sha.message) && sha.message == old(sha.message) + Rows(rgba, width, height, height)
  {
    hide Context.Valid, Row, Rows;
    var row := new byte[width * 3];
    NoRows(rgba, width, height);
    assert sha.message == old(sha.message) + [];
    for outputY := 0 to height
      invariant sha.Valid() && files.temporary == Some(sha.message) && files.output == old(files.output)
      invariant sha.message == old(sha.message) + Rows(rgba, width, height, outputY)
      invariant fault.RowWriteFails? ==> fault.row >= outputY
    {
      var sourceY := height - outputY - 1;
      RowInside(width, height, sourceY);
      FillRow(row, rgba, width, sourceY);
      if fault == RowWriteFails(outputY) {
        return false;
      }
      Emit(files, sha, row[..]);
      RowsNext(rgba, width, height, outputY);
      assert sha.message == old(sha.message) + (Rows(rgba, width, height, outputY) + Row(rgba, width, sourceY));
    }
    return true;
  }

  lemma NoRows(rgba: Bytes, width: nat, height: nat)
    requires |rgba| == 4 * (height * width)
    ensures Rows(rgba, width, height, 0) == []
  {
  }

  lemma RowsNext(rgba: Bytes, width: nat, height: nat, n: nat)
    requires n < height && |rgba| == 4 * (height * width)
    ensures (height - n - 1 + 1) * width <= height * width
    ensures Rows(rgba, width, height, n + 1) == Rows(rgba, width, height, n) + Row(rgba, width, height - n - 1)
  {
    hide Row;
    RowInside(width, height, height - n - 1);
  }

  /**
   asm2_capture_write_ppm: on success the output file is the picture and the digest
   is the hash of exactly its bytes; on any failure the output file is untouched and
   no temporary file is left.
   */
  method WritePpm(files: CaptureFiles, rgba: Bytes, width: nat, height: nat, fault: CaptureFault)
    returns (digest: Option<Bytes>, written: nat)
    requires 0 < width && 0 < height && |rgba| == 4 * (height * width)
    modifies files
    ensures digest.Some? == Succeeds(fault, height)
    ensures digest.Some? ==> files.output == Some(Picture(rgba, width, height))
    ensures digest.Some? ==> digest == Some(Hash(Picture(rgba, width, height))) && written == |Picture(rgba, width, height)|
    ensures digest.None? ==> files.output == old(files.output)
    ensures fault.OpenFails? || files.temporary == None
  {
    hide Hash, Header, Rows, Context.Valid;
    if fault.OpenFails? {
      return None, 0;
    }
    files.temporary := Some([]);
    var sha := new Context();
    var header := Header(width, height);
    if fault.HeaderWriteFails? {
      files.temporary := None;
      return None, 0;
    }
    Emit(files, sha, header);
    if fault.RowAllocationFails? {
      files.temporary := None;
      return None, 0;
    }
    var ok := EmitRows(files, sha, rgba, width, height, fault);
    if !ok || fault.FlushFails? || fault.CloseFails? || fault.RenameFails? {
      files.temporary := None;
      return None, 0;
    }
    assert [] + header == header;
    files.output, files.temporary := files.temporary, None;
    var bytes := sha.Final();
    RowsLength(rgba, width, height, height);
    return Some(bytes), |header| + 3 * (height * width);
  }
}
