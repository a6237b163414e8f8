# NDI viewer: latest-frame slot

This project models the one piece of logic in the `ndi-tools` viewer
(`viewer/viewer.cpp`) that is not glue around the NDI SDK or Qt:

- **The latest-frame slot.** The widget's `d_image` is an RGBA8888 `QImage`.
  Rows are tightly packed: row `y` starts at byte `y * width * 4`.
  When a video frame arrives, the image is replaced by a fresh `xres` x `yres` image only when the frame's dimensions differ.
  Then `yres` rows of `xres * 4` bytes are copied out of the frame buffer.
  The source position advances by `line_stride_in_bytes` per row.
- **The capture loop.** Each iteration receives one frame type.
  Only video writes the slot.
  Video, audio and metadata frames have their SDK buffer freed.
  No-data, status-change and any other type free nothing.
- **The paint guard.** Paint draws nothing while the image is null.
  Otherwise it draws the stored image.

Modules:

- `Frames` (`frames.dfy`) specifies the copy on values. `Frame` is the received frame, `Picture` is a stored image, `Packed` gives the rows as they are laid out after the copy, and `Stored` gives the whole image after a write.
- `Capture` (`capture.dfy`) specifies the loop. `Event` is the kind of frame a capture returned. `Step` is one pass through the `switch`, and `Run` runs it over a sequence of events. `Snapshot` is what paint draws.
- `Viewer` (`viewer.dfy`) is the imperative model. `Image` is a class holding `width`, `height` and a byte `array`. `Widget` holds `d_image` and a log of freed buffers. Its methods follow `Widget::work` and `Widget::paintEvent` and are proved against the functions above.
- `Wrappers` (`wrappers.dfy`) holds `Option`.

The mutex is abstract: each write into the slot and each read of it is one
atomic step. The SDK is abstract too. A capture call's result is an `Event`.
Each call to one of the SDK's free functions appends the event to the widget's
`freed` log. The `d_stop` flag is modelled as the end of the finite event
sequence given to `Work`.

Two behaviours of the code are modelled as they are:

- The code accepts 0-wide or 0-high frames. Qt makes such a `QImage` null (0 x 0), so the slot becomes null. `Stored` models this.
- The code never needs `line_stride_in_bytes >= xres * 4`. It reads only the bytes the rows cover, so the model requires only `Covers`.

## Model

| member | source | states |
|---|---|---|
| `Frames.CoversIsTight` | viewer/viewer.cpp:130-137 | The copy reads byte `y * lineStride + i` for `y < yres` and `i < xres * 4`. Every such read lies inside the buffer exactly when the buffer holds at least `(yres - 1) * lineStride + xres * 4` bytes. |
| `Frames.Row` | viewer/viewer.cpp:134-136 | Source row `y` is the `xres * 4` bytes starting `y` strides into the buffer. |
| `Frames.Packed` | viewer/viewer.cpp:132-137 | The first `n` copied rows, laid end to end, are `n * xres * 4` bytes long. |
| `Frames.PackedAt` | viewer/viewer.cpp:132-137 | Byte `i` of destination row `y` (offset `y * xres * 4 + i`) equals source byte `y * lineStride + i`. That source byte lies inside the buffer. |
| `Frames.PackedTightSource` | viewer/viewer.cpp:132-137 | When the stride equals the row width, the destination is the first `xres * yres * 4` source bytes, verbatim. |
| `Frames.Stored` | viewer/viewer.cpp:125-128 | After a video write the image is valid. It is null exactly when the frame has no pixels. Otherwise its width and height are the frame's `xres` and `yres`. |
| `Frames.StoredScanLines` | viewer/viewer.cpp:125-137 | For every `y < yres` and `i < xres * 4`, byte `i` of stored scan line `y` is source byte `y * lineStride + i`. |
| `Frames.LineFits` | viewer/viewer.cpp:134-135 | Scan line `y < height` of a `width`-pixel RGBA image, `width * 4` bytes from `y * width * 4`, lies inside the image's `width * height * 4` bytes. |
| `Viewer.Image.constructor` | viewer/viewer.cpp:127 | A new image has the requested dimensions, or is null when either is 0. Its byte array is fresh. |
| `Viewer.Image.CopyToLine` | viewer/viewer.cpp:134-135 | The `memcpy` into a scan line writes the `n` source bytes at the start of row `y`. Every other image byte is unchanged. |
| `Viewer.Image.CopyFrame` | viewer/viewer.cpp:130-137 | The row loop leaves the image equal to `Stored(f)`. Every byte is overwritten, so nothing of the previous frame survives. |
| `Viewer.Widget.StoreVideo` | viewer/viewer.cpp:123-139 | The slot holds `Stored(f)` afterwards. A fresh image (and byte array) is allocated exactly when `xres` or `yres` differs from the old image. Otherwise the old image object and buffer are reused. |
| `Viewer.Widget.Free` | viewer/viewer.cpp:141 | Freeing an event's SDK buffer appends that event to the `freed` log. |
| `Viewer.Widget.Capture` | viewer/viewer.cpp:111-168 | One iteration moves the widget's state (image, freed log) to `Step` of the old state and the event. |
| `Viewer.Widget.Work` | viewer/viewer.cpp:104-169 | The capture loop moves the state to `Run` of the old state over the events received before the stop. |
| `Viewer.Widget.Paint` | viewer/viewer.cpp:184-188 | Paint yields nothing while the image is null, and the stored image otherwise. |
| `Viewer.Widget.constructor` | viewer/viewer.cpp:197-200 | A new widget has a null image and has freed nothing. Its image and byte array are fresh, so the capture loop may write them. |
| `Viewer.ViewerSession` | viewer/viewer.cpp:38-41 | A new widget whose capture loop receives a video frame, an audio frame and an empty poll paints exactly that frame. The video and audio buffers were freed, in that order. |
| `Capture.RunFreesBuffers` | viewer/viewer.cpp:111-168 | Over any sequence of events, the freed log grows by exactly the video, audio and metadata events, once each, in arrival order. No-data, status-change and other events free nothing. |
| `Capture.BufferedCount` | viewer/viewer.cpp:141-163 | At most one buffer is freed per event. One is freed for every event exactly when every event is video, audio or metadata. |
| `Capture.RunKeepsLatest` | viewer/viewer.cpp:119-146 | Latest wins: after any sequence of events the slot holds `Stored` of the last video frame, or the earlier image if no video came. |
| `Capture.NoVideoKeepsImage` | viewer/viewer.cpp:149-167 | Events of kind none, audio, metadata, status-change or any other kind leave the stored image unchanged. |
| `Capture.PaintShowsLatest` | viewer/viewer.cpp:184-188 | From a new widget, paint draws nothing until a video frame with pixels has been stored. After that it draws exactly the latest stored frame. |

## Left out

- NDI SDK calls are not modelled: initialisation, source discovery, receiver creation, tally, the hardware-acceleration metadata, capture, free and destroy (`viewer/viewer.cpp:53-102`, `172-175`). They are calls into a closed library. Capture becomes the `Event` input and each free becomes an entry in the `freed` log.
- Threads, the mutex and the atomic stop flags are not modelled. Each slot write and each slot read is assumed atomic under the lock. The stop flag is the end of the event sequence.
- The `SIGINT` handler that sets `exit_loop` is never installed. The discovery loop at `viewer/viewer.cpp:68` tests `exit_loop`, not `d_stop`. A widget destroyed before any source appears therefore waits in its destructor until a source appears, and forever if none ever does. Discovery is outside the model, so this is noted here and not proved.
- Qt painting and aspect-ratio scaling (`viewer/viewer.cpp:180`, `190-192`) are not modelled. They are GUI toolkit work with floating-point scaling. `Paint` returns the image before scaling.
- `printf` logging, `update()` repaint requests and `main` are not modelled (`ViewerSession` plays the part of a client that builds a widget, runs its loop and paints). They are I/O and event-loop plumbing.
- Resource leaks on the early returns at `viewer/viewer.cpp:63`, `75` and `86` are not modelled. They concern SDK lifetime.
- Frame dimensions and strides are natural numbers. Negative strides (bottom-up images) and the C `int` overflow of `xres * 4` are not modelled. The SDK delivers non-negative strides.
- A failed `QImage` allocation is not modelled. Qt returns a null image when it runs out of memory, and the row copy would then write through a null scan line.
- `Viewer.Image.constructor` leaves the new image's bytes unspecified, as Qt does. Nothing depends on them, because the row loop overwrites all of them.
