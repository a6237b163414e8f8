// The pixel data handled by the viewer: frames as the NDI receiver hands them
// over (rows `lineStride` bytes apart) and pictures as the widget stores them
// (QImage, Format_RGBA8888, rows tightly packed at `width * 4` bytes).

module Frames {

  type byte = bv8

  /** Bytes per RGBA8888 pixel; a QImage row of this format is `width * 4` bytes. */
  const BytesPerPixel: nat := 4

  /** A received video frame: `xres` x `yres` pixels, the first byte of row `y`
      at `y * lineStride` in `data` (the buffer behind `p_data`). */
  datatype Frame = Frame(xres: nat, yres: nat, lineStride: nat, data: seq<byte>)

  /** Bytes copied out of every source row. */
  function RowBytes(f: Frame): nat
  {
    f.xres * BytesPerPixel
  }

  /** Offset in `f.data` of byte `i` of source row `y`: the copy loop's `source`
      pointer has advanced `y` times by `lineStride` when it copies row `y`. */
  function ReadOffset(f: Frame, y: nat, i: nat): nat
  {
    y * f.lineStride + i
  }

  /** The `source` pointer of the next row is one stride further on. */
  lemma NextRowOffset(f: Frame, y: nat)
    ensures ReadOffset(f, y + 1, 0) == ReadOffset(f, y, 0) + f.lineStride
  {
  }

  /** The frame's buffer holds every byte the copy reads: the end of the last row. */
  predicate Covers(f: Frame)
  {
    f.xres == 0 || f.yres == 0 || ReadOffset(f, f.yres - 1, RowBytes(f)) <= |f.data|
  }

  lemma MulMono(a: nat, b: nat, c: nat)
    requires a <= b
    ensures a * c <= b * c
  {
  }

  /** Every byte the copy reads lies below the end of the last source row, and
      `Covers` asks for no more than that: the last byte of the last row is read. */
  lemma CoversIsTight(f: Frame)
    ensures Covers(f) <==>
      forall y: nat, i: nat | y < f.yres && i < RowBytes(f) :: ReadOffset(f, y, i) < |f.data|
  {
    if Covers(f) {
      forall y: nat, i: nat | y < f.yres && i < RowBytes(f)
        ensures ReadOffset(f, y, i) < |f.data|
      {
        MulMono(y, f.yres - 1, f.lineStride);
      }
    }
    if f.xres != 0 && f.yres != 0 && !Covers(f) {
      assert ReadOffset(f, f.yres - 1, RowBytes(f) - 1) >= |f.data|;
    }
  }

  /** The bytes `memcpy(dest, src + start, n)` reads. */
  function Span(src: seq<byte>, start: nat, n: nat): (r: seq<byte>)
    requires n == 0 || start + n <= |src|
    ensures |r| == n
  {
    if n == 0 then [] else src[start..start + n]
  }

  lemma RowInBounds(f: Frame, y: nat)
    requires Covers(f) && y < f.yres && RowBytes(f) > 0
    ensures ReadOffset(f, y, RowBytes(f)) <= |f.data|
  {
    MulMono(y, f.yres - 1, f.lineStride);
  }

  /** Source row `y`: the `xres * 4` bytes starting at `y * lineStride`. */
  function Row(f: Frame, y: nat): (r: seq<byte>)
    requires Covers(f) && y < f.yres
    ensures |r| == RowBytes(f)
  {
    if RowBytes(f) > 0 then RowInBounds(f, y); Span(f.data, ReadOffset(f, y, 0), RowBytes(f))
    else []
  }

  /** The first `n` source rows, each cut to `xres * 4` bytes and laid end to end:
      what the copy leaves in the first `n` rows of the destination. */
  function Packed(f: Frame, n: nat): (r: seq<byte>)
    requires Covers(f) && n <= f.yres
    ensures |r| == n * RowBytes(f)
  {
    if n == 0 then [] else Packed(f, n - 1) + Row(f, n - 1)
  }

  /** Byte `i` of destination row `y` is byte `i` of source row `y`. */
  lemma {:induction false} PackedAt(f: Frame, n: nat, y: nat, i: nat)
    requires Covers(f) && n <= f.yres && y < n && i < RowBytes(f)
    ensures y * RowBytes(f) + i < |Packed(f, n)| && ReadOffset(f, y, i) < |f.data|
    ensures Packed(f, n)[y * RowBytes(f) + i] == f.data[ReadOffset(f, y, i)]
  {
    var rb := RowBytes(f);
    var prefix, last := Packed(f, n - 1), Row(f, n - 1);
    assert Packed(f, n) == prefix + last;
    var start := y * rb;
    if y == n - 1 {
      assert start == |prefix|;
      RowInBounds(f, y);
      assert last[i] == f.data[ReadOffset(f, y, i)];
    } else {
      MulMono(y + 1, n - 1, rb);
      assert (y + 1) * rb == start + rb;
      PackedAt(f, n - 1, y, i);
      assert start + i < |prefix|;
    }
  }

  /** A source whose stride is exactly the row width is copied verbatim. */
  lemma {:induction false} PackedTightSource(f: Frame, n: nat)
    requires Covers(f) && n <= f.yres && f.lineStride == RowBytes(f)
    ensures n * RowBytes(f) <= |f.data| || RowBytes(f) == 0
    ensures RowBytes(f) > 0 ==> Packed(f, n) == f.data[..n * RowBytes(f)]
  {
    var rb := RowBytes(f);
    if n > 0 && rb > 0 {
      PackedTightSource(f, n - 1);
      RowInBounds(f, n - 1);
      assert (n - 1) * rb + rb == n * rb;
      assert f.data[..n * rb] == f.data[..(n - 1) * rb] + f.data[(n - 1) * rb..n * rb];
    }
  }

  /** A stored image: a null QImage is 0 x 0 with no bytes. */
  datatype Picture = Picture(width: nat, height: nat, bits: seq<byte>)
  {
    predicate IsNull()
    {
      width == 0
    }

    /** The bytes match the dimensions, and only a 0 x 0 image is null. */
    ghost predicate Valid()
    {
      |bits| == width * height * BytesPerPixel && (width == 0 <==> height == 0)
    }
  }

  /** Offset of the first byte of `scanLine(y)` in an image `width` pixels wide. */
  function LineStart(width: nat, y: nat): nat
  {
    y * (width * BytesPerPixel)
  }

  /** Row `y` of a `width` x `height` image lies inside its bytes. */
  lemma LineFits(width: nat, height: nat, y: nat)
    requires y < height || width == 0
    ensures LineStart(width, y) + width * BytesPerPixel <= width * height * BytesPerPixel
  {
    if width != 0 {
      MulMono(y + 1, height, width * BytesPerPixel);
    }
  }

  /** An image's bytes are `height` rows of `width * 4`. */
  lemma ImageBytes(width: nat, height: nat)
    ensures width * height * BytesPerPixel == height * (width * BytesPerPixel)
  {
  }

  /** The row after row `y` starts `rowBytes` further on and still fits. */
  lemma NextLine(y: nat, height: nat, rowBytes: nat)
    requires y < height
    ensures (y + 1) * rowBytes == y * rowBytes + rowBytes <= height * rowBytes
  {
    MulMono(y + 1, height, rowBytes);
  }

  const NullPicture := Picture(0, 0, [])

  /** What the slot holds after frame `f` is written into it: an `xres` x `yres`
      image whose rows are the frame's rows, or a null image when the frame has
      no pixels (Qt refuses to allocate a 0-wide or 0-high image). */
  function Stored(f: Frame): (p: Picture)
    requires Covers(f)
    ensures p.Valid()
    ensures p.IsNull() <==> f.xres == 0 || f.yres == 0
    ensures !p.IsNull() ==> p.width == f.xres && p.height == f.yres
  {
    if f.xres == 0 || f.yres == 0 then NullPicture
    else Picture(f.xres, f.yres, Packed(f, f.yres))
  }

  /** Row correspondence: for every `y < yres` and `i < xres * 4`, byte `i` of
      stored row `y` is the source byte at `y * lineStride + i`. */
  lemma StoredScanLines(f: Frame, y: nat, i: nat)
    requires Covers(f) && y < f.yres && i < RowBytes(f)
    ensures LineStart(Stored(f).width, y) + i < |Stored(f).bits| && ReadOffset(f, y, i) < |f.data|
    ensures Stored(f).bits[LineStart(Stored(f).width, y) + i] == f.data[ReadOffset(f, y, i)]
  {
    PackedAt(f, f.yres, y, i);
  }
}
