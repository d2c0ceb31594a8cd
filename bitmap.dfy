/**
 * The Windows bitmap writer of Types/Bitmap.cs: a flat array of pixels addressed row after
 * row, and its serialisation as a 14-byte BITMAPFILEHEADER, a 40-byte BITMAPINFOHEADER and
 * 24-bit pixel rows padded to a multiple of four bytes. The conversion of each float pixel to
 * a byte colour is taken as done: the array holds the converted colours.
 */
module Bitmaps {
  import opened Machine
  import opened Sequences
  import opened Colors

  /** `Vector3.Zero` once converted: black. */
  const Black: Color := Color(0, 0, 0, 255)

  const PixelDataOffset: int := 54
  const HeaderSize: int := 40
  const BitsPerPixel: int := 24
  const PlaneCount: int := 1
  const PixelsPerMeter: int := 2835

  /** The zero bytes that pad a row. */
  function Zeros(n: nat): (r: seq<byte>)
    ensures |r| == n
  {
    if n == 0 then [] else [0] + Zeros(n - 1)
  }

  /** Every padding byte is zero. */
  lemma {:induction false} ZerosAreZero(n: nat)
    ensures forall k :: 0 <= k < n ==> Zeros(n)[k] == 0
  {
    if n > 0 {
      ZerosAreZero(n - 1);
    }
  }

  /** Bytes added to each row of 3 * width bytes. */
  function Padding(width: nat): nat
  {
    (4 - width * 3 % 4) % 4
  }

  function RowSize(width: nat): nat
  {
    width * 3 + Padding(width)
  }

  function DataSize(width: nat, height: nat): nat
  {
    RowSize(width) * height
  }

  function FileSize(width: nat, height: nat): nat
  {
    PixelDataOffset + DataSize(width, height)
  }

  /** A row is padded by at most three bytes to a multiple of four, and not at all when it already is one. */
  lemma PaddingBounds(width: nat)
    ensures 0 <= Padding(width) <= 3
    ensures RowSize(width) % 4 == 0
    ensures Padding(width) == 0 <==> width % 4 == 0
  {
    var q, m := width / 4, width % 4;
    assert width == 4 * q + m;
    var k, r := if m == 0 then 3 * q else if m == 1 then 3 * q else if m == 2 then 3 * q + 1 else 3 * q + 2,
      if m == 0 then 0 else if m == 1 then 3 else if m == 2 then 2 else 1;
    assert width * 3 == 4 * k + r;
    FourRemainder(width * 3, k, r);
    FourRemainder(RowSize(width), if r == 0 then k else k + 1, 0);
  }

  /** `4 * k + r` with `r` in 0..3 leaves the remainder `r`. */
  lemma FourRemainder(x: nat, k: nat, r: nat)
    requires x == 4 * k + r && r < 4
    ensures x % 4 == r
  {
  }

  /**
   * The sizes fit the header's signed 32-bit fields, so that the source's `int` arithmetic
   * does not wrap; larger images are not modelled.
   */
  predicate Representable(width: int, height: int)
  {
    0 <= width && 0 <= height < TwoTo31 && 3 * width + 3 < TwoTo31 && FileSize(width, height) < TwoTo31
  }

  /** Field values that fit the header's signed 32-bit fields. */
  predicate Fields(width: int, height: int, dataSize: int)
  {
    0 <= width < TwoTo31 && 0 <= height < TwoTo31 && 0 <= dataSize && PixelDataOffset + dataSize < TwoTo31
  }

  /** The header fields in the order `Write` emits them, the file size being 54 + `dataSize`. */
  function Header(width: int, height: int, dataSize: int): (r: seq<byte>)
    requires Fields(width, height, dataSize)
    ensures |r| == PixelDataOffset
  {
    [0x42, 0x4D] + LittleEndian32(PixelDataOffset + dataSize) + LittleEndian32(0) + LittleEndian32(PixelDataOffset)
    + LittleEndian32(HeaderSize) + LittleEndian32(width) + LittleEndian32(height)
    + LittleEndian16(PlaneCount) + LittleEndian16(BitsPerPixel)
    + LittleEndian32(0) + LittleEndian32(dataSize)
    + LittleEndian32(PixelsPerMeter) + LittleEndian32(PixelsPerMeter)
    + LittleEndian32(0) + LittleEndian32(0)
  }

  /**
   * Read back at the offsets of the BMP format, the header holds the magic "BM", the file
   * size, the offset of the pixels, the size of the info header, the dimensions, one plane,
   * 24 bits per pixel and the size of the pixel data.
   */
  lemma HeaderLayout(width: int, height: int, dataSize: int)
    requires Fields(width, height, dataSize)
    ensures var h := Header(width, height, dataSize);
      && h[0..2] == [0x42, 0x4D]
      && UInt32FromLittleEndian(h[2..6]) == PixelDataOffset + dataSize
      && UInt32FromLittleEndian(h[10..14]) == PixelDataOffset == |h|
      && UInt32FromLittleEndian(h[14..18]) == HeaderSize
      && UInt32FromLittleEndian(h[18..22]) == width
      && UInt32FromLittleEndian(h[22..26]) == height
      && UInt16FromLittleEndian(h[26..28]) == PlaneCount
      && UInt16FromLittleEndian(h[28..30]) == BitsPerPixel
      && UInt32FromLittleEndian(h[34..38]) == dataSize
  {
    var h := Header(width, height, dataSize);
    HeaderPieces(width, height, dataSize);
    LittleEndian32ReadsBack(h[2..6], PixelDataOffset + dataSize);
    LittleEndian32ReadsBack(h[10..14], PixelDataOffset);
    LittleEndian32ReadsBack(h[14..18], HeaderSize);
    LittleEndian32ReadsBack(h[18..22], width);
    LittleEndian32ReadsBack(h[22..26], height);
    LittleEndian16ReadsBack(h[26..28], PlaneCount);
    LittleEndian16ReadsBack(h[28..30], BitsPerPixel);
    LittleEndian32ReadsBack(h[34..38], dataSize);
  }

  /** Where each field of the header sits. */
  lemma HeaderPieces(width: int, height: int, dataSize: int)
    requires Fields(width, height, dataSize)
    ensures var h := Header(width, height, dataSize);
      && h[0..2] == [0x42, 0x4D]
      && h[2..6] == LittleEndian32(PixelDataOffset + dataSize)
      && h[10..14] == LittleEndian32(PixelDataOffset)
      && h[14..18] == LittleEndian32(HeaderSize)
      && h[18..22] == LittleEndian32(width)
      && h[22..26] == LittleEndian32(height)
      && h[26..28] == LittleEndian16(PlaneCount)
      && h[28..30] == LittleEndian16(BitsPerPixel)
      && h[34..38] == LittleEndian32(dataSize)
  {
    var h := Header(width, height, dataSize);
    var fileHeader := [0x42, 0x4D] + LittleEndian32(PixelDataOffset + dataSize) + LittleEndian32(0) + LittleEndian32(PixelDataOffset);
    var dims := LittleEndian32(HeaderSize) + LittleEndian32(width) + LittleEndian32(height);
    var format := LittleEndian16(PlaneCount) + LittleEndian16(BitsPerPixel);
    var sizes := LittleEndian32(0) + LittleEndian32(dataSize);
    var tail := LittleEndian32(PixelsPerMeter) + LittleEndian32(PixelsPerMeter) + LittleEndian32(0) + LittleEndian32(0);
    assert h == fileHeader + dims + format + sizes + tail;
    assert h[..14] == fileHeader;
    assert h[14..26] == dims;
    assert h[26..30] == format;
    assert h[30..38] == sizes;
  }

  /** Each colour as three bytes, blue, green, red (alpha is dropped). */
  function PixelBytes(ps: seq<Color>): (r: seq<byte>)
    ensures |r| == 3 * |ps|
  {
    if ps == [] then [] else PixelBytes(ps[..|ps| - 1]) + [ps[|ps| - 1].b, ps[|ps| - 1].g, ps[|ps| - 1].r]
  }

  /** Pixel `k` is serialised as bytes 3k, 3k + 1 and 3k + 2, in the order B, G, R. */
  lemma {:induction false} PixelBytesAt(ps: seq<Color>, k: nat)
    requires k < |ps|
    ensures PixelBytes(ps)[3 * k..3 * k + 3] == [ps[k].b, ps[k].g, ps[k].r]
    decreases |ps|
  {
    var n := |ps| - 1;
    if k < n {
      PixelBytesAt(ps[..n], k);
      assert ps[..n][k] == ps[k];
      assert PixelBytes(ps)[..3 * n] == PixelBytes(ps[..n]);
    }
  }

  /**
   * `count` chunks of `step` bytes, each followed by `pad` zero bytes. A chunk that would run
   * past the end of `bytes` ends the rows; `RowsLength` shows this does not happen when
   * `bytes` holds exactly `count` chunks.
   */
  function Rows(bytes: seq<byte>, step: nat, count: nat, pad: nat): seq<byte>
    decreases count
  {
    if count == 0 || |bytes| < step then []
    else bytes[..step] + Zeros(pad) + Rows(bytes[step..], step, count - 1, pad)
  }

  /** Exactly `count` chunks come out when `bytes` holds that many. */
  lemma {:induction false} RowsLength(bytes: seq<byte>, step: nat, count: nat, pad: nat)
    requires |bytes| == step * count
    ensures |Rows(bytes, step, count, pad)| == count * (step + pad)
    decreases count
  {
    if count > 0 {
      RowsUnfold(bytes, step, count, pad);
      RowsLength(bytes[step..], step, count - 1, pad);
      MulSucc(count - 1, step + pad);
    }
  }

  /** `Rows` peeled once: the first chunk and its padding, then the rest. */
  lemma RowsUnfold(bytes: seq<byte>, step: nat, count: nat, pad: nat)
    requires |bytes| == step * count && count > 0
    ensures step <= |bytes| && |bytes[step..]| == step * (count - 1)
    ensures Rows(bytes, step, count, pad) == bytes[..step] + Zeros(pad) + Rows(bytes[step..], step, count - 1, pad)
  {
    MulSucc(count - 1, step);
    MultiplyMonotone(0, count - 1, step);
  }

  /** Where chunk `k` starts when chunks are `w` apart: k * w, counted up one chunk at a time. */
  function Offset(k: nat, w: nat): nat
  {
    if k == 0 then 0 else Offset(k - 1, w) + w
  }

  lemma {:induction false} OffsetIsProduct(k: nat, w: nat)
    ensures Offset(k, w) == k * w
  {
    if k > 0 {
      OffsetIsProduct(k - 1, w);
      MulSucc(k - 1, w);
    }
  }

  /**
   * At offset `at` of `f` stand the `step` bytes found at offset `from` of `bytes`, followed
   * by `pad` zeros.
   */
  predicate RowAt(f: seq<byte>, at: nat, bytes: seq<byte>, from: nat, step: nat, pad: nat)
  {
    && at + step + pad <= |f| && from + step <= |bytes|
    && f[at..at + step] == bytes[from..from + step]
    && f[at + step..at + step + pad] == Zeros(pad)
  }

  /** Chunk `k` of the output is chunk `k` of the input, followed by the padding. */
  lemma {:induction false} RowsAt(bytes: seq<byte>, step: nat, count: nat, pad: nat, k: nat)
    requires |bytes| == step * count && k < count
    ensures RowAt(Rows(bytes, step, count, pad), Offset(k, step + pad), bytes, Offset(k, step), step, pad)
    decreases k
  {
    RowsUnfold(bytes, step, count, pad);
    var head, rest := bytes[..step] + Zeros(pad), Rows(bytes[step..], step, count - 1, pad);
    if k == 0 {
      assert RowAt(head, 0, bytes, 0, step, pad);
      RowPrefix(Rows(bytes, step, count, pad), head, rest, bytes, step, pad);
    } else {
      RowsAt(bytes[step..], step, count - 1, pad, k - 1);
      RowDrop(rest, Offset(k - 1, step + pad), bytes, Offset(k - 1, step), Offset(k, step), step, pad);
      RowShift(Rows(bytes, step, count, pad), head, rest, Offset(k - 1, step + pad), Offset(k, step + pad), bytes, Offset(k, step), step, pad);
    }
  }

  /** A row at the start of `head` stays there when `rest` follows. */
  lemma RowPrefix(f: seq<byte>, head: seq<byte>, rest: seq<byte>, bytes: seq<byte>, step: nat, pad: nat)
    requires f == head + rest && RowAt(head, 0, bytes, 0, step, pad)
    ensures RowAt(f, 0, bytes, 0, step, pad)
  {
    assert f[0..step + pad] == head[0..step + pad];
  }

  /** A row of `rest` is found `|head|` bytes further on in `head + rest`. */
  lemma RowShift(f: seq<byte>, head: seq<byte>, rest: seq<byte>, at: nat, at': nat, bytes: seq<byte>, from: nat, step: nat, pad: nat)
    requires f == head + rest && at' == |head| + at && RowAt(rest, at, bytes, from, step, pad)
    ensures RowAt(f, at', bytes, from, step, pad)
  {
    SliceOfAppend(head, rest, at', at' + step);
    SliceOfAppend(head, rest, at' + step, at' + step + pad);
  }

  /** A row taken from the bytes after the first `step` is taken from `step` bytes further on in all of them. */
  lemma RowDrop(f: seq<byte>, at: nat, bytes: seq<byte>, from: nat, from': nat, step: nat, pad: nat)
    requires step <= |bytes| && from' == step + from && RowAt(f, at, bytes[step..], from, step, pad)
    ensures RowAt(f, at, bytes, from', step, pad)
  {
    SliceOfSlice(bytes, step, from, from + step);
  }

  /**
   * The row loop of `Write`: chunks of `step` bytes from the start of `bytes`, the index
   * moving on by `step` while it is inside the array, each chunk followed by the padding.
   */
  method EmitRows(bytes: seq<byte>, step: nat, count: nat, pad: nat) returns (out: seq<byte>)
    requires |bytes| == step * count && (step > 0 || pad == 0)
    ensures out == Rows(bytes, step, count, pad)
  {
    out := [];
    var offset := 0;
    ghost var left: nat := count;
    if step == 0 {
      EmptyRows(bytes, count, pad);
      return;
    }
    OffsetIsProduct(count, step);
    assert bytes[offset..] == bytes;
    while offset < |bytes|
      invariant 0 <= offset <= |bytes| && |bytes| - offset == Offset(left, step)
      invariant out + Rows(bytes[offset..], step, left, pad) == Rows(bytes, step, count, pad)
      decreases left
    {
      EmitStep(bytes, offset, step, count, left, pad, out);
      out := WriteRow(out, bytes[offset..offset + step], pad);
      offset := offset + step;
      left := left - 1;
    }
    assert left == 0;
    assert bytes[offset..] == [];
  }

  /** One row written: its bytes, then `pad` zero bytes when there is padding. */
  method WriteRow(out: seq<byte>, chunk: seq<byte>, pad: nat) returns (next: seq<byte>)
    ensures next == out + chunk + Zeros(pad)
  {
    next := out + chunk;
    if pad > 0 {
      next := next + Zeros(pad);
    } else {
      assert next + [] == next;
    }
  }

  /** One turn of the row loop: what has been emitted, the next chunk, its padding and the rows after it make up all the rows. */
  lemma EmitStep(bytes: seq<byte>, offset: nat, step: nat, count: nat, left: nat, pad: nat, before: seq<byte>)
    requires offset < |bytes| && step > 0 && |bytes| - offset == Offset(left, step)
    requires before + Rows(bytes[offset..], step, left, pad) == Rows(bytes, step, count, pad)
    ensures left > 0 && offset + step <= |bytes| && |bytes| - (offset + step) == Offset(left - 1, step)
    ensures before + bytes[offset..offset + step] + Zeros(pad) + Rows(bytes[offset + step..], step, left - 1, pad)
      == Rows(bytes, step, count, pad)
  {
    OffsetIsProduct(left, step);
    RowsFrom(bytes, offset, step, left, pad);
    Regroup(before, bytes[offset..offset + step], Zeros(pad), Rows(bytes[offset + step..], step, left - 1, pad));
  }

  /** One turn of the row loop: a chunk is left, and `Rows` of what is left starts with it. */
  lemma RowsFrom(bytes: seq<byte>, offset: nat, step: nat, left: int, pad: nat)
    requires offset < |bytes| && step > 0 && |bytes| - offset == step * left
    ensures left > 0 && offset + step <= |bytes| && |bytes| - (offset + step) == step * (left - 1)
    ensures Rows(bytes[offset..], step, left, pad)
      == bytes[offset..offset + step] + Zeros(pad) + Rows(bytes[offset + step..], step, left - 1, pad)
  {
    PositiveFactor(step, left);
    MulSucc(left - 1, step);
    RowsUnfold(bytes[offset..], step, left, pad);
    SliceOfSlice(bytes, offset, step, |bytes| - offset);
    SliceOfSlice(bytes, offset, 0, step);
    assert bytes[offset..][step..] == bytes[offset + step..];
  }

  lemma EmptyRows(bytes: seq<byte>, count: nat, pad: nat)
    requires |bytes| == 0 && pad == 0
    ensures Rows(bytes, 0, count, pad) == []
  {
  }

  /** The file the corrected `Write` produces: the header, then `height` rows of 3 * width pixel bytes and the padding. */
  function File(width: nat, height: nat, pixels: seq<Color>): seq<byte>
    requires Representable(width, height)
  {
    Header(width, height, DataSize(width, height)) + Rows(PixelBytes(pixels), 3 * width, height, Padding(width))
  }

  /** The file the source's `Write` produces: its loop moves on by `width` bytes, so it emits 3 * height chunks of `width` bytes. */
  function FileAsWritten(width: nat, height: nat, pixels: seq<Color>): seq<byte>
    requires Representable(width, height)
  {
    Header(width, height, DataSize(width, height)) + Rows(PixelBytes(pixels), width, 3 * height, Padding(width))
  }

  /** The three ways of counting the pixel bytes agree. */
  lemma PixelByteCount(width: nat, height: nat)
    ensures 3 * (width * height) == (3 * width) * height == width * (3 * height)
  {
  }

  /** The pixel bytes make `height` rows of `3 * width` bytes, and an empty row has no padding. */
  lemma RowLayout(width: nat, height: nat, pixels: seq<Color>)
    requires |pixels| == width * height
    ensures |PixelBytes(pixels)| == (3 * width) * height && (3 * width > 0 || Padding(width) == 0)
  {
    PixelByteCount(width, height);
  }

  /** The corrected file is as long as its header says. */
  lemma FileLength(width: nat, height: nat, pixels: seq<Color>)
    requires Representable(width, height) && |pixels| == width * height
    ensures |File(width, height, pixels)| == FileSize(width, height)
  {
    var step, pad := 3 * width, Padding(width);
    var bytes := PixelBytes(pixels);
    PixelByteCount(width, height);
    assert |bytes| == step * height;
    RowsLength(bytes, step, height, pad);
    RowCount(step, pad, height, RowSize(width), DataSize(width, height));
  }

  /** The rows take `count` times a row's size. */
  lemma RowCount(step: int, pad: int, count: int, rowSize: int, dataSize: int)
    requires rowSize == step + pad && dataSize == rowSize * count
    ensures count * (step + pad) == dataSize
  {
  }

  /**
   * Row `y` of the corrected file starts at PixelDataOffset + y * RowSize and holds the B, G, R
   * bytes of the pixels of row `y`, then zeros up to the next multiple of four.
   */
  lemma FileRow(width: nat, height: nat, pixels: seq<Color>, y: nat, f: seq<byte>)
    requires Representable(width, height) && |pixels| == width * height && y < height
    requires f == File(width, height, pixels)
    ensures RowAt(f, PixelDataOffset + Offset(y, 3 * width + Padding(width)), PixelBytes(pixels), Offset(y, 3 * width), 3 * width, Padding(width))
  {
    PixelBytesCount(width, height, pixels);
    FileRowFromCount(width, height, pixels, y, f);
  }

  /** `FileRow` once the pixel bytes are counted. */
  lemma FileRowFromCount(width: nat, height: nat, pixels: seq<Color>, y: nat, f: seq<byte>)
    requires Representable(width, height) && |PixelBytes(pixels)| == (3 * width) * height && y < height
    requires f == Header(width, height, DataSize(width, height)) + Rows(PixelBytes(pixels), 3 * width, height, Padding(width))
    ensures RowAt(f, PixelDataOffset + Offset(y, 3 * width + Padding(width)), PixelBytes(pixels), Offset(y, 3 * width), 3 * width, Padding(width))
  {
    RowsAt(PixelBytes(pixels), 3 * width, height, Padding(width), y);
    RowShift(f, Header(width, height, DataSize(width, height)), Rows(PixelBytes(pixels), 3 * width, height, Padding(width)),
      Offset(y, 3 * width + Padding(width)), PixelDataOffset + Offset(y, 3 * width + Padding(width)),
      PixelBytes(pixels), Offset(y, 3 * width), 3 * width, Padding(width));
  }

  lemma PixelBytesCount(width: nat, height: nat, pixels: seq<Color>)
    requires |pixels| == width * height
    ensures |PixelBytes(pixels)| == (3 * width) * height
  {
    PixelByteCount(width, height);
  }

  /**
   * The file the source writes has the size its header announces exactly when no row needs
   * padding or there are no rows: each padding is written three times per row of pixels.
   */
  lemma AsWrittenSize(width: nat, height: nat, pixels: seq<Color>)
    requires Representable(width, height) && |pixels| == width * height
    ensures |FileAsWritten(width, height, pixels)| == FileSize(width, height) + 2 * height * Padding(width)
    ensures |FileAsWritten(width, height, pixels)| == FileSize(width, height) <==> height == 0 || width % 4 == 0
  {
    PaddingBounds(width);
    AsWrittenLength(width, height, pixels);
    SizeGap(width, height, Padding(width), |FileAsWritten(width, height, pixels)|, FileSize(width, height));
  }

  /** The source's loop emits 3 * height chunks of `width` bytes and their padding. */
  lemma AsWrittenLength(width: nat, height: nat, pixels: seq<Color>)
    requires Representable(width, height) && |pixels| == width * height
    ensures |FileAsWritten(width, height, pixels)| == PixelDataOffset + (3 * height) * (width + Padding(width))
  {
    PixelByteCount(width, height);
    RowsLength(PixelBytes(pixels), width, 3 * height, Padding(width));
  }

  /** The size of the padding gap: 3h(w + p) = (3w + p)h + 2hp, and 2hp is zero only when h or p is. */
  lemma SizeGap(w: nat, h: nat, p: nat, written: int, announced: int)
    requires written == PixelDataOffset + (3 * h) * (w + p) && announced == PixelDataOffset + (w * 3 + p) * h
    ensures written == announced + 2 * h * p
    ensures written == announced <==> h == 0 || p == 0
  {
    assert (3 * h) * (w + p) == 3 * h * w + 3 * h * p;
    assert (w * 3 + p) * h == 3 * h * w + h * p;
    if h > 0 && p > 0 {
      MultiplyMonotone(1, h, p);
    }
  }

  /** A one-pixel image: the source writes 60 bytes for a file whose header says 58. */
  lemma OnePixelAsWritten(c: Color)
    ensures Representable(1, 1)
    ensures |FileAsWritten(1, 1, [c])| == 60 && FileSize(1, 1) == 58
  {
    AsWrittenSize(1, 1, [c]);
  }

  class Bitmap {
    const width: int
    const height: int
    const data: array<Color>

    /** The array holds one pixel per position, and every position in bounds has its pixel. */
    ghost predicate Valid()
    {
      && data.Length == width * height
      && forall x, y :: IsInBounds(x, y) ==> 0 <= Index(x, y) < data.Length
    }

    /** `Bitmap(width, height)`: every pixel black. */
    constructor (width: int, height: int)
      requires 0 <= width && 0 <= height
      ensures this.width == width && this.height == height
      ensures fresh(data) && Valid()
      ensures forall i :: 0 <= i < data.Length ==> data[i] == Black
    {
      this.width := width;
      this.height := height;
      data := new Color[width * height](_ => Black);
      new;
      forall x, y | IsInBounds(x, y) ensures 0 <= Index(x, y) < data.Length {
        MultiplyMonotone(y + 1, height, width);
        assert (y + 1) * width == y * width + width;
      }
    }

    function Index(x: int, y: int): int
    {
      y * width + x
    }

    predicate IsInBounds(x: int, y: int)
    {
      x >= 0 && x < width && y >= 0 && y < height
    }

    /** The indexer's getter. */
    function Get(x: int, y: int): (r: Color)
      requires Valid()
      reads data
      ensures IsInBounds(x, y) ==> r == data[y * width + x]
      ensures !IsInBounds(x, y) ==> r == Black
    {
      if IsInBounds(x, y) then data[Index(x, y)] else Black
    }

    /** The indexer's setter: in bounds one pixel is written and read back, out of bounds nothing happens. */
    method Set(x: int, y: int, value: Color)
      requires Valid()
      modifies data
      ensures IsInBounds(x, y) ==> data[..] == old(data[..])[Index(x, y) := value] && Get(x, y) == value
      ensures !IsInBounds(x, y) ==> unchanged(data)
    {
      if IsInBounds(x, y) {
        data[Index(x, y)] := value;
      }
    }

    /** `Write` as the source has it: the header, then the pixel bytes in chunks of `width`. */
    method WriteAsWritten() returns (bytes: seq<byte>)
      requires Valid() && Representable(width, height)
      ensures bytes == FileAsWritten(width, height, data[..])
    {
      var pixelBytes := PixelBytes(data[..]);
      var padding := Padding(width);
      PaddingBounds(width);
      PixelByteCount(width, height);
      assert |pixelBytes| == width * (3 * height);
      var rows := EmitRows(pixelBytes, width, 3 * height, padding);
      bytes := Header(width, height, DataSize(width, height)) + rows;
    }

    /** `Write` with the row loop moving on by a whole row, 3 * width bytes. */
    method Write() returns (bytes: seq<byte>)
      requires Valid() && Representable(width, height)
      ensures bytes == File(width, height, data[..])
      ensures |bytes| == FileSize(width, height)
    {
      FileLength(width, height, data[..]);
      var pixelBytes := PixelBytes(data[..]);
      var padding := Padding(width);
      RowLayout(width, height, data[..]);
      var rows := EmitRows(pixelBytes, 3 * width, height, padding);
      bytes := Header(width, height, DataSize(width, height)) + rows;
    }
  }
}
