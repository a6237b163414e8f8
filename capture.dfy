// One iteration of the receiver's capture loop, as a step over the kind of
// frame `NDIlib_recv_capture_v2` returned, and the paint guard that reads the
// slot. The NDI SDK is abstract: its result is an `Event`, and each call to one
// of its free functions is recorded in the `freed` log.

module Capture {

  import opened Wrappers
  import opened Frames

  /** What one capture call returned. `Other` stands for every frame type the
      loop's `switch` sends to its `default` branch. */
  datatype Event = NoData | Video(frame: Frame) | Audio | Metadata | StatusChange | Other

  /** The event carries an SDK-owned buffer that the loop has to free. */
  predicate HoldsBuffer(e: Event)
  {
    e.Video? || e.Audio? || e.Metadata?
  }

  /** The SDK hands over a video buffer holding every row it describes. */
  predicate WellFormed(e: Event)
  {
    e.Video? ==> Covers(e.frame)
  }

  predicate AllWellFormed(events: seq<Event>)
  {
    forall k :: 0 <= k < |events| ==> WellFormed(events[k])
  }

  /** The widget's state: the image slot, and the events whose buffers were freed. */
  datatype Viewer = Viewer(image: Picture, freed: seq<Event>)

  /** A new widget: a null image, nothing freed. */
  function Initial(): Viewer
  {
    Viewer(NullPicture, [])
  }

  /** One pass through the capture loop's `switch`. */
  function Step(s: Viewer, e: Event): Viewer
    requires WellFormed(e)
  {
    match e
    case Video(f) => Viewer(Stored(f), s.freed + [e])
    case Audio => Viewer(s.image, s.freed + [e])
    case Metadata => Viewer(s.image, s.freed + [e])
    case NoData => s
    case StatusChange => s
    case Other => s
  }

  /** The loop run over `events`, in order. */
  function Run(s: Viewer, events: seq<Event>): Viewer
    requires AllWellFormed(events)
    decreases |events|
  {
    if events == [] then s
    else Step(Run(s, events[..|events| - 1]), events[|events| - 1])
  }

  /** The buffer-carrying events of `events`, in order. */
  function Buffered(events: seq<Event>): (r: seq<Event>)
    decreases |events|
  {
    if events == [] then []
    else
      var last := events[|events| - 1];
      Buffered(events[..|events| - 1]) + (if HoldsBuffer(last) then [last] else [])
  }

  /** The frame of the last video event, if there is one. */
  function LastVideo(events: seq<Event>): Option<Frame>
    decreases |events|
  {
    if events == [] then None
    else if events[|events| - 1].Video? then Some(events[|events| - 1].frame)
    else LastVideo(events[..|events| - 1])
  }

  /** What paint draws: nothing while the image is null, the image otherwise. */
  function Snapshot(p: Picture): Option<Picture>
  {
    if p.IsNull() then None else Some(p)
  }

  /** Every video, audio and metadata event has its buffer freed once, in the
      order received; no-data, status-change and other events free nothing. */
  lemma {:induction false} RunFreesBuffers(s: Viewer, events: seq<Event>)
    requires AllWellFormed(events)
    ensures Run(s, events).freed == s.freed + Buffered(events)
  {
    if events != [] {
      RunFreesBuffers(s, events[..|events| - 1]);
    }
  }

  /** Latest wins: after the loop the slot holds the last video frame, and when
      no video event came the image is the one before. */
  lemma {:induction false} RunKeepsLatest(s: Viewer, events: seq<Event>)
    requires AllWellFormed(events)
    ensures LastVideo(events).Some? ==> Covers(LastVideo(events).value)
    ensures Run(s, events).image ==
      match LastVideo(events)
      case None => s.image
      case Some(f) => Stored(f)
  {
    if events != [] {
      assert WellFormed(events[|events| - 1]);
      RunKeepsLatest(s, events[..|events| - 1]);
    }
  }

  /** The number of freed buffers grows by exactly the number of
      buffer-carrying events. */
  lemma {:induction false} BufferedCount(events: seq<Event>)
    ensures |Buffered(events)| <= |events|
    ensures |Buffered(events)| == |events| <==> forall k :: 0 <= k < |events| ==> HoldsBuffer(events[k])
  {
    if events != [] {
      var init := events[..|events| - 1];
      BufferedCount(init);
      if forall k :: 0 <= k < |events| ==> HoldsBuffer(events[k]) {
        assert forall k :: 0 <= k < |init| ==> HoldsBuffer(init[k]);
      } else if HoldsBuffer(events[|events| - 1]) {
        assert !forall k :: 0 <= k < |init| ==> HoldsBuffer(init[k]);
      }
    }
  }

  /** Paint draws nothing until a video frame with pixels has been stored, and
      afterwards draws exactly the latest one. */
  lemma {:induction false} PaintShowsLatest(events: seq<Event>)
    requires AllWellFormed(events)
    ensures LastVideo(events).Some? ==> Covers(LastVideo(events).value)
    ensures Snapshot(Run(Initial(), events).image) ==
      match LastVideo(events)
      case None => None
      case Some(f) => if f.xres == 0 || f.yres == 0 then None else Some(Stored(f))
  {
    RunKeepsLatest(Initial(), events);
  }

  /** Events without video never touch the slot. */
  lemma {:induction false} NoVideoKeepsImage(s: Viewer, events: seq<Event>)
    requires AllWellFormed(events)
    requires forall k :: 0 <= k < |events| ==> !events[k].Video?
    ensures Run(s, events).image == s.image
  {
    RunKeepsLatest(s, events);
    NoVideoNoLast(events);
  }

  lemma {:induction false} NoVideoNoLast(events: seq<Event>)
    requires forall k :: 0 <= k < |events| ==> !events[k].Video?
    ensures LastVideo(events) == None
  {
    if events != [] {
      NoVideoNoLast(events[..|events| - 1]);
    }
  }
}
