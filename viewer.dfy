// The viewer widget: its image slot `d_image`, the capture loop that writes
// into it and the paint handler that reads it. The mutex is left abstract:
// each write and each read of the slot is one atomic step.

module Viewer {

  import opened Wrappers
  import opened Frames
  import opened Capture

  /** A QImage in Format_RGBA8888: `height` rows of `width * 4` bytes, row `y`
      starting at `y * width * 4`. A null image is 0 x 0. */
  class Image {
    const width: nat
    const height: nat
    const bits: array<byte>

    ghost predicate Valid()
    {
      bits.Length == width * height * BytesPerPixel && (width == 0 <==> height == 0)
    }

    predicate IsNull()
    {
      width == 0
    }

    function Value(): (p: Picture)
      reads bits
    {
      Picture(width, height, bits[..])
    }

    /** A new `w` x `h` RGBA8888 QImage: a 0-wide or 0-high request gives a
        null image. The pixel bytes are left unspecified, as Qt leaves them. */
    constructor (w: nat, h: nat)
      ensures Valid() && fresh(bits)
      ensures w == 0 || h == 0 ==> IsNull()
      ensures w != 0 && h != 0 ==> width == w && height == h
    {
      if w == 0 || h == 0 {
        width, height := 0, 0;
        bits := new byte[0];
      } else {
        width, height := w, h;
        bits := new byte[w * h * BytesPerPixel];
      }
    }

    /** `memcpy(scanLine(y), src + start, n)`: the first `n` bytes of row `y`
        take the `n` bytes at `start`; the rest of the image is unchanged. On a
        null image `scanLine` is a null pointer and only `n == 0` is safe. */
    method CopyToLine(y: nat, src: seq<byte>, start: nat, n: nat)
      requires Valid()
      requires y < height || width == 0
      requires n <= width * BytesPerPixel
      requires n == 0 || start + n <= |src|
      modifies bits
      ensures LineStart(width, y) + n <= bits.Length
      ensures bits[..LineStart(width, y)] == old(bits[..LineStart(width, y)])
      ensures bits[LineStart(width, y)..LineStart(width, y) + n] == Span(src, start, n)
      ensures bits[LineStart(width, y) + n..] == old(bits[LineStart(width, y) + n..])
    {
      var at := LineStart(width, y);
      LineFits(width, height, y);
      forall k | 0 <= k < n {
        bits[at + k] := src[start + k];
      }
    }
    /** The row loop of the video branch: `yres` times, `memcpy` `xres * 4`
        bytes from `source` into `scanLine(y)`, then advance `source` by
        `lineStride`. The image already has the frame's dimensions (or is null
        when the frame has no pixels). */
    method CopyFrame(f: Frame)
      requires Valid() && Covers(f)
      requires (width == f.xres && height == f.yres) || (IsNull() && (f.xres == 0 || f.yres == 0))
      modifies bits
      ensures Value() == Stored(f)
    {
      var rowBytes := RowBytes(f);
      if !IsNull() {
        ImageBytes(width, height);
      }
      assert bits.Length == f.yres * rowBytes;
      var source := 0;
      var y := 0;
      ghost var done := 0;
      while y < f.yres
        invariant y <= f.yres
        invariant source == ReadOffset(f, y, 0)
        invariant done == y * rowBytes <= bits.Length
        invariant bits[..done] == Packed(f, y)
      {
        if rowBytes > 0 {
          RowInBounds(f, y);
        }
        CopyToLine(y, f.data, source, rowBytes);
        assert LineStart(width, y) == done;
        assert bits[..done + rowBytes] == bits[..done] + bits[done..done + rowBytes];
        assert bits[..done + rowBytes] == Packed(f, y + 1);
        NextRowOffset(f, y);
        NextLine(y, f.yres, rowBytes);
        source := source + f.lineStride;
        done := done + rowBytes;
        y := y + 1;
      }
      assert bits[..] == bits[..done];
    }
  }

  class Widget {
    /** `d_image`: the latest-frame slot. */
    var image: Image
    /** The events whose SDK buffers the loop has freed, in order. */
    var freed: seq<Event>

    ghost predicate Valid()
      reads this
    {
      image.Valid()
    }

    ghost function State(): Viewer
      reads this, image.bits
    {
      Viewer(image.Value(), freed)
    }

    constructor ()
      ensures Valid() && State() == Initial()
      ensures fresh(image) && fresh(image.bits)
    {
      image := new Image(0, 0);
      freed := [];
    }

    /** The video branch of the capture loop: replace the image when the frame's
        dimensions differ from it, then copy the frame's rows into it. */
    method StoreVideo(f: Frame)
      requires Valid() && Covers(f)
      modifies image.bits, this`image
      ensures Valid() && freed == old(freed)
      ensures image.Value() == Stored(f)
      ensures f.xres != old(image.width) || f.yres != old(image.height) ==> fresh(image) && fresh(image.bits)
      ensures f.xres == old(image.width) && f.yres == old(image.height) ==> image == old(image)
    {
      if f.xres != image.width || f.yres != image.height {
        image := new Image(f.xres, f.yres);
      }
      image.CopyFrame(f);
    }

    /** `NDIlib_recv_free_*` on the event's buffer. */
    method Free(e: Event)
      modifies this`freed
      ensures freed == old(freed) + [e]
    {
      freed := freed + [e];
    }

    /** One pass through the `switch` on the capture result. */
    method Capture(e: Event)
      requires Valid() && WellFormed(e)
      modifies image.bits, this
      ensures Valid() && State() == Step(old(State()), e)
      ensures image.bits == old(image.bits) || fresh(image.bits)
    {
      match e {
        case NoData =>
        case Video(f) =>
          StoreVideo(f);
          Free(e);
        case Audio =>
          Free(e);
        case Metadata =>
          Free(e);
        case StatusChange =>
        case Other =>
      }
    }

    /** The capture loop over the events the receiver delivers until stopped. */
    method Work(events: seq<Event>)
      requires Valid() && AllWellFormed(events)
      modifies image.bits, this
      ensures Valid() && State() == Run(old(State()), events)
      ensures image.bits == old(image.bits) || fresh(image.bits)
    {
      var k := 0;
      while k < |events|
        invariant k <= |events|
        invariant Valid()
        invariant image.bits == old(image.bits) || fresh(image.bits)
        invariant State() == Run(old(State()), events[..k])
      {
        assert WellFormed(events[k]);
        assert events[..k + 1][..k] == events[..k];
        Capture(events[k]);
        k := k + 1;
      }
      assert events[..k] == events;
    }

    /** `paintEvent`: nothing to draw while the image is null, the stored image
        (before scaling to the widget) otherwise. */
    method Paint() returns (r: Option<Picture>)
      requires Valid()
      ensures r == Snapshot(image.Value())
    {
      if image.IsNull() {
        return None;
      }
      r := Some(image.Value());
    }
  }

  /** A widget is built, its capture thread receives a video frame, an audio
      frame and an empty poll, and the widget is painted: paint shows the frame
      and the two SDK buffers were freed in order. */
  method ViewerSession(f: Frame) returns (shown: Option<Picture>, freed: seq<Event>)
    requires Covers(f) && f.xres > 0 && f.yres > 0
    ensures shown == Some(Stored(f))
    ensures freed == [Video(f), Audio]
  {
    var w := new Widget();
    var events := [Video(f), Audio, NoData];
    w.Work(events);
    RunKeepsLatest(Initial(), events);
    RunFreesBuffers(Initial(), events);
    assert events[..2] == [Video(f), Audio];
    assert events[..2][..1] == [Video(f)];
    assert LastVideo(events) == LastVideo([Video(f), Audio]) == Some(f);
    assert Buffered([Video(f)]) == Buffered([]) + [Video(f)];
    assert Buffered(events) == Buffered([Video(f), Audio]) == Buffered([Video(f)]) + [Audio];
    shown := w.Paint();
    freed := w.freed;
  }
}
