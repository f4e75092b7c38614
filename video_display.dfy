/** The video path of timg (src/video-display.cc): the pixel-format remap done
    before creating the scaler, the search for the first video stream, the
    strided copy of a scaled RGB picture into the framebuffer, and the
    deadline-paced playback loop.

    libav/libswscale are foreign: what they report (whether a file opens, the
    stream kinds, the decoder's `frameFinished`, the scaled picture bytes, the
    scaler's initial colour-space details) is input to the model. The clock and
    the interrupt flag are sequences of readings; the terminal canvas is an
    output trace of events. */
module VideoDisplay {
  import opened Wrappers
  import opened TimgTime

  newtype byte = x: int | 0 <= x < 256

  /** One framebuffer pixel. */
  datatype Rgb = Rgb(r: byte, g: byte, b: byte)

  // ---------------------------------------------------------------- pixel formats

  /** The libav pixel formats the remap distinguishes; every other format is
      `OtherFormat`. The `YUVJ` formats are the deprecated full-range ("JPEG")
      variants of the planar `YUV` formats. */
  datatype PixelFormat =
    | YUV420P | YUV422P | YUV444P | YUV440P
    | YUVJ420P | YUVJ422P | YUVJ444P | YUVJ440P
    | RGB24
    | OtherFormat(id: int)

  predicate IsFullRangeVariant(f: PixelFormat)
  {
    f.YUVJ420P? || f.YUVJ422P? || f.YUVJ444P? || f.YUVJ440P?
  }

  /** The deprecated full-range format that has the same layout as `f`, if any. */
  function FullRangeVariant(f: PixelFormat): Option<PixelFormat>
  {
    match f
    case YUV420P => Some(YUVJ420P)
    case YUV422P => Some(YUVJ422P)
    case YUV444P => Some(YUVJ444P)
    case YUV440P => Some(YUVJ440P)
    case _ => None
  }

  /** The remap's result: the format handed to the scaler, and whether the source
      range has to be set to "extended" by hand. */
  datatype Remapped = Remapped(format: PixelFormat, extendedRange: bool)

  /** The `switch` at the top of `CreateSWSContext`. */
  function RemapPixelFormat(f: PixelFormat): (r: Remapped)
    ensures r.extendedRange <==> IsFullRangeVariant(f)
    ensures !IsFullRangeVariant(r.format)
    ensures r.extendedRange ==> FullRangeVariant(r.format) == Some(f)
    ensures !r.extendedRange ==> r.format == f
  {
    match f
    case YUVJ420P => Remapped(YUV420P, true)
    case YUVJ422P => Remapped(YUV422P, true)
    case YUVJ444P => Remapped(YUV444P, true)
    case YUVJ440P => Remapped(YUV440P, true)
    case _ => Remapped(f, false)
  }

  /** `SWS_CS_DEFAULT`, the colour-space whose coefficient table
      `sws_getCoefficients` is asked for. */
  const SwsCsDefault: int := 5

  /** What `sws_getColorspaceDetails` reads and `sws_setColorspaceDetails` writes;
      a coefficient table is identified by its colour-space number. */
  datatype ColorspaceDetails = ColorspaceDetails(
    srcTable: int, srcRange: int, dstTable: int, dstRange: int,
    brightness: int, contrast: int, saturation: int)

  /** A created scaler context: source and destination geometry and format. */
  datatype Scaler = Scaler(
    srcWidth: int, srcHeight: int, srcFormat: PixelFormat,
    dstWidth: int, dstHeight: int, dstFormat: PixelFormat,
    colorspace: ColorspaceDetails)

  /** `CreateSWSContext`: remap the codec's format, create a bilinear scaler to
      RGB24 (`created` and `initial` stand for what `sws_getContext` returns),
      and for a full-range source read-modify-write the colour-space details so
      that the source range becomes 1. */
  function CreateSwsContext(codecFormat: PixelFormat, codecWidth: int, codecHeight: int,
                            displayWidth: int, displayHeight: int,
                            created: bool, initial: ColorspaceDetails): (r: Option<Scaler>)
    ensures r.Some? <==> created
    ensures r.Some? ==> !IsFullRangeVariant(r.value.srcFormat) && r.value.dstFormat == RGB24
    ensures r.Some? ==> r.value.srcWidth == codecWidth && r.value.srcHeight == codecHeight
    ensures r.Some? ==> r.value.dstWidth == displayWidth && r.value.dstHeight == displayHeight
    ensures r.Some? && IsFullRangeVariant(codecFormat) ==>
      FullRangeVariant(r.value.srcFormat) == Some(codecFormat) &&
      r.value.colorspace == initial.(srcTable := SwsCsDefault, srcRange := 1, dstTable := SwsCsDefault)
    ensures r.Some? && !IsFullRangeVariant(codecFormat) ==>
      r.value.srcFormat == codecFormat && r.value.colorspace == initial
  {
    var remapped := RemapPixelFormat(codecFormat);
    if !created then None
    else
      var colorspace :=
        if remapped.extendedRange
        then ColorspaceDetails(SwsCsDefault, 1, SwsCsDefault, initial.dstRange,
                               initial.brightness, initial.contrast, initial.saturation)
        else initial;
      Some(Scaler(codecWidth, codecHeight, remapped.format,
                  displayWidth, displayHeight, RGB24, colorspace))
  }

  // ---------------------------------------------------------------- streams

  datatype MediaType = Video | Audio | Data | Subtitle | Attachment | UnknownMedia

  /** What libav reports about the codec of one stream. */
  datatype Codec = Codec(
    width: int, height: int, format: PixelFormat,
    decoderFound: bool,    // avcodec_find_decoder returned a decoder
    contextCopied: bool,   // avcodec_copy_context returned 0
    opens: bool)           // avcodec_open2 returned >= 0

  /** One stream of the container; `frameNanos` is the frame duration in
      nanoseconds that the frame-rate computation yields. */
  datatype Stream = Stream(kind: MediaType, frameNanos: int, codec: Codec)

  /** What opening one file yields: the container's outcomes, the geometry
      `ScaleWithOptions` picks, the line size of the RGB24 output picture, and
      the outcome of `sws_getContext`. */
  datatype Container = Container(
    opens: bool, hasStreamInfo: bool, streams: seq<Stream>,
    scaledWidth: nat, scaledHeight: nat, outputLinesize: nat,
    scalerCreated: bool, scalerDefaults: ColorspaceDetails)

  /** The index of the first video stream, or -1 when there is none. */
  function FirstVideo(streams: seq<Stream>): (i: int)
    ensures i == -1 <==> forall j :: 0 <= j < |streams| ==> streams[j].kind != Video
    ensures i != -1 ==> 0 <= i < |streams| && streams[i].kind == Video
    ensures i != -1 ==> forall j :: 0 <= j < i ==> streams[j].kind != Video
  {
    if streams == [] then -1
    else if streams[0].kind == Video then 0
    else
      var rest := FirstVideo(streams[1..]);
      assert forall j :: 1 <= j < |streams| ==> streams[j] == streams[1..][j - 1];
      if rest == -1 then -1 else rest + 1
  }

  /** The search loop of `LoadAndScale`. */
  method FindFirstVideoStream(streams: seq<Stream>) returns (desired: int)
    ensures desired == FirstVideo(streams)
    ensures desired == -1 <==> forall j :: 0 <= j < |streams| ==> streams[j].kind != Video
    ensures desired != -1 ==> 0 <= desired < |streams| && streams[desired].kind == Video
    ensures desired != -1 ==> forall j :: 0 <= j < desired ==> streams[j].kind != Video
  {
    desired := -1;
    var i := 0;
    while i < |streams|
      invariant 0 <= i <= |streams|
      invariant forall j :: 0 <= j < i ==> streams[j].kind != Video
    {
      if streams[i].kind == Video {
        desired := i;
        return;
      }
      i := i + 1;
    }
  }

  /** Whether `LoadAndScale` succeeds on a container. */
  predicate Loads(c: Container)
  {
    && c.opens && c.hasStreamInfo
    && FirstVideo(c.streams) != -1
    && c.streams[FirstVideo(c.streams)].codec.decoderFound
    && c.streams[FirstVideo(c.streams)].codec.contextCopied
    && c.streams[FirstVideo(c.streams)].codec.opens
    && c.scalerCreated
  }

  // ---------------------------------------------------------------- the RGB24 picture

  /** A packed RGB picture of `height` rows, `linesize` bytes apart, holds
      `width` pixels of 3 bytes in each row. */
  predicate FrameCovers(plane: seq<byte>, linesize: int, width: nat, height: nat)
  {
    0 <= linesize &&
    (width == 0 || height == 0 || (height - 1) * linesize + 3 * width <= |plane|)
  }

  lemma OffsetInPlane(plane: seq<byte>, linesize: int, width: nat, height: nat, x: nat, y: nat)
    requires FrameCovers(plane, linesize, width, height) && x < width && y < height
    ensures 0 <= y * linesize + 3 * x && y * linesize + 3 * x + 2 < |plane|
  {
    assert (height - 1) * linesize - y * linesize == (height - 1 - y) * linesize;
    assert 0 <= (height - 1 - y) * linesize;
  }

  /** Pixel (x, y) of the picture: the RGB triple at byte `y * linesize + 3 * x`. */
  function PixelAt(plane: seq<byte>, linesize: int, width: nat, height: nat, x: nat, y: nat): Rgb
    requires FrameCovers(plane, linesize, width, height) && x < width && y < height
  {
    OffsetInPlane(plane, linesize, width, height, x, y);
    var o := y * linesize + 3 * x;
    Rgb(plane[o], plane[o + 1], plane[o + 2])
  }

  /** The framebuffer (rows by columns) holds exactly the given picture. */
  ghost predicate Shows(fb: array2<Rgb>, plane: seq<byte>, linesize: int)
    reads fb
    requires FrameCovers(plane, linesize, fb.Length1, fb.Length0)
  {
    forall y, x :: 0 <= y < fb.Length0 && 0 <= x < fb.Length1 ==>
      fb[y, x] == PixelAt(plane, linesize, fb.Length1, fb.Length0, x, y)
  }

  /** The framebuffer shows the last picture, when there is one. */
  ghost predicate ShowsLast(fb: array2<Rgb>, last: Option<seq<byte>>, linesize: int)
    reads fb
  {
    last.Some? ==> FrameCovers(last.value, linesize, fb.Length1, fb.Length0) && Shows(fb, last.value, linesize)
  }

  // ---------------------------------------------------------------- playback pacing

  /** One packet `av_read_frame` delivers: its stream, whether decoding it
      completed a frame, and the RGB24 picture `sws_scale` makes of that frame. */
  datatype Packet = Packet(streamIndex: int, frameFinished: bool, picture: seq<byte>)

  /** What `Play` does to the canvas and the clock. */
  datatype CanvasEvent =
    | JumpUp(pixels: int)         // canvas->JumpUpPixels(pixels)
    | Send                        // canvas->Send(*framebuffer_)
    | WaitUntil(deadline: Timespec)

  /** The pacing state: the next deadline, whether no frame has been sent yet,
      and the events so far. */
  datatype Pacing = Pacing(deadline: Timespec, isFirst: bool, trace: seq<CanvasEvent>)

  /** One iteration of the playback loop on packet `p`. */
  function PlayStep(s: Pacing, p: Packet, desired: int, frame: Duration, height: int): Pacing
  {
    if p.streamIndex != desired then s
    else
      var deadline := Sum(s.deadline, frame);
      var shown := if !p.frameFinished then [] else if s.isFirst then [Send] else [JumpUp(height), Send];
      Pacing(deadline, s.isFirst && !p.frameFinished, s.trace + shown + [WaitUntil(deadline)])
  }

  /** The pacing state after the loop has handled all of `ps`. */
  function PlayPackets(s: Pacing, ps: seq<Packet>, desired: int, frame: Duration, height: int): Pacing
  {
    if ps == [] then s
    else PlayStep(PlayPackets(s, ps[..|ps| - 1], desired, frame, height), ps[|ps| - 1], desired, frame, height)
  }

  /** Handling one more packet is one more step; the last picture changes only
      for a finished frame of the desired stream. */
  lemma PlaySnoc(s: Pacing, ps: seq<Packet>, p: Packet, desired: int, frame: Duration, height: int)
    ensures PlayPackets(s, ps + [p], desired, frame, height) == PlayStep(PlayPackets(s, ps, desired, frame, height), p, desired, frame, height)
    ensures LastPicture(ps + [p], desired)
         == if p.streamIndex == desired && p.frameFinished then Some(p.picture) else LastPicture(ps, desired)
  {
    assert (ps + [p])[..|ps|] == ps;
  }

  function CountDesired(ps: seq<Packet>, desired: int): nat
  {
    if ps == [] then 0
    else CountDesired(ps[..|ps| - 1], desired) + (if ps[|ps| - 1].streamIndex == desired then 1 else 0)
  }

  function CountFinished(ps: seq<Packet>, desired: int): nat
  {
    if ps == [] then 0
    else CountFinished(ps[..|ps| - 1], desired)
         + (if ps[|ps| - 1].streamIndex == desired && ps[|ps| - 1].frameFinished then 1 else 0)
  }

  /** The packets of stream `desired`, in order. */
  function OnlyStream(ps: seq<Packet>, desired: int): seq<Packet>
  {
    if ps == [] then []
    else OnlyStream(ps[..|ps| - 1], desired) + (if ps[|ps| - 1].streamIndex == desired then [ps[|ps| - 1]] else [])
  }

  /** The picture of the last completed frame of stream `desired`, if any. */
  function LastPicture(ps: seq<Packet>, desired: int): Option<seq<byte>>
  {
    if ps == [] then None
    else if ps[|ps| - 1].streamIndex == desired && ps[|ps| - 1].frameFinished then Some(ps[|ps| - 1].picture)
    else LastPicture(ps[..|ps| - 1], desired)
  }

  /** The deadlines of the WaitUntil events of a trace, in order. */
  function Waits(tr: seq<CanvasEvent>): seq<Timespec>
  {
    if tr == [] then []
    else Waits(tr[..|tr| - 1]) + (if tr[|tr| - 1].WaitUntil? then [tr[|tr| - 1].deadline] else [])
  }

  function CountSends(tr: seq<CanvasEvent>): nat
  {
    if tr == [] then 0
    else CountSends(tr[..|tr| - 1]) + (if tr[|tr| - 1] == Send then 1 else 0)
  }

  /** The k-th deadline (k = 1..n) of a loop that starts from `t0` and adds `frame` each time. */
  function Deadlines(t0: Timespec, frame: Duration, n: nat): seq<Timespec>
  {
    if n == 0 then [] else Deadlines(t0, frame, n - 1) + [DeadlineAfter(t0, frame, n)]
  }

  lemma {:induction false} DeadlinesAt(t0: Timespec, frame: Duration, n: nat, k: nat)
    requires k < n
    ensures |Deadlines(t0, frame, n)| == n
    ensures Deadlines(t0, frame, n)[k] == DeadlineAfter(t0, frame, k + 1)
    ensures Nanoseconds(Deadlines(t0, frame, n)[k]) == Nanoseconds(t0) + (k + 1) * DurationNanos(frame)
  {
    if k < n - 1 {
      DeadlinesAt(t0, frame, n - 1, k);
    } else {
      DeadlinesLength(t0, frame, n - 1);
    }
    DeadlineAfterNanoseconds(t0, frame, k + 1);
  }

  lemma {:induction false} DeadlinesLength(t0: Timespec, frame: Duration, n: nat)
    ensures |Deadlines(t0, frame, n)| == n
  {
    if n > 0 {
      DeadlinesLength(t0, frame, n - 1);
    }
  }

  /** After the loop has handled packets `ps`, the deadline is the start deadline
      advanced by one frame duration per packet of the desired stream: it is
      never re-seeded from the clock. */
  lemma {:induction false} PlayDeadline(s: Pacing, ps: seq<Packet>, desired: int, frame: Duration, height: int)
    ensures PlayPackets(s, ps, desired, frame, height).deadline
         == DeadlineAfter(s.deadline, frame, CountDesired(ps, desired))
    ensures Nanoseconds(PlayPackets(s, ps, desired, frame, height).deadline)
         == Nanoseconds(s.deadline) + CountDesired(ps, desired) * DurationNanos(frame)
  {
    if ps != [] {
      PlayDeadline(s, ps[..|ps| - 1], desired, frame, height);
    }
    DeadlineAfterNanoseconds(s.deadline, frame, CountDesired(ps, desired));
  }

  /** Appending one event adds its deadline to the waits when it is a wait, and
      one to the Send count when it is a Send. */
  lemma AppendEvent(tr: seq<CanvasEvent>, e: CanvasEvent)
    ensures Waits(tr + [e]) == Waits(tr) + (if e.WaitUntil? then [e.deadline] else [])
    ensures CountSends(tr + [e]) == CountSends(tr) + (if e == Send then 1 else 0)
  {
    assert (tr + [e])[..|tr|] == tr;
  }

  /** The events of a desired-stream packet whose frame is not finished: one
      wait and no Send. */
  lemma WaitOnly(tr: seq<CanvasEvent>, d: Timespec)
    ensures Waits(tr + [] + [WaitUntil(d)]) == Waits(tr) + [d]
    ensures CountSends(tr + [] + [WaitUntil(d)]) == CountSends(tr)
  {
    assert tr + [] + [WaitUntil(d)] == tr + [WaitUntil(d)];
    AppendEvent(tr, WaitUntil(d));
  }

  /** The events of the first finished frame: a Send, then a wait. */
  lemma SendThenWait(tr: seq<CanvasEvent>, d: Timespec)
    ensures Waits(tr + [Send] + [WaitUntil(d)]) == Waits(tr) + [d]
    ensures CountSends(tr + [Send] + [WaitUntil(d)]) == CountSends(tr) + 1
  {
    AppendEvent(tr, Send);
    AppendEvent(tr + [Send], WaitUntil(d));
  }

  /** The events of a later finished frame: a jump up, a Send, then a wait. */
  lemma JumpSendThenWait(tr: seq<CanvasEvent>, height: int, d: Timespec)
    ensures Waits(tr + [JumpUp(height), Send] + [WaitUntil(d)]) == Waits(tr) + [d]
    ensures CountSends(tr + [JumpUp(height), Send] + [WaitUntil(d)]) == CountSends(tr) + 1
  {
    AppendEvent(tr, JumpUp(height));
    AppendEvent(tr + [JumpUp(height)], Send);
    assert tr + [JumpUp(height)] + [Send] == tr + [JumpUp(height), Send];
    AppendEvent(tr + [JumpUp(height), Send], WaitUntil(d));
  }

  /** The events one step adds: a wait at the advanced deadline and, for a
      finished frame, one Send, for a desired-stream packet; nothing otherwise. */
  lemma PlayStepEvents(s: Pacing, p: Packet, desired: int, frame: Duration, height: int)
    ensures var s' := PlayStep(s, p, desired, frame, height);
            Waits(s'.trace) == Waits(s.trace) + (if p.streamIndex == desired then [Sum(s.deadline, frame)] else [])
    ensures var s' := PlayStep(s, p, desired, frame, height);
            CountSends(s'.trace) == CountSends(s.trace) + (if p.streamIndex == desired && p.frameFinished then 1 else 0)
  {
    if p.streamIndex == desired {
      if !p.frameFinished {
        WaitOnly(s.trace, Sum(s.deadline, frame));
      } else if s.isFirst {
        SendThenWait(s.trace, Sum(s.deadline, frame));
      } else {
        JumpSendThenWait(s.trace, height, Sum(s.deadline, frame));
      }
    }
  }

  /** Every desired-stream packet, finished or not, adds exactly one wait, at the
      next deadline. */
  lemma {:induction false} PlayWaits(s: Pacing, ps: seq<Packet>, desired: int, frame: Duration, height: int)
    ensures Waits(PlayPackets(s, ps, desired, frame, height).trace)
         == Waits(s.trace) + Deadlines(s.deadline, frame, CountDesired(ps, desired))
  {
    if ps != [] {
      var init := ps[..|ps| - 1];
      var p := ps[|ps| - 1];
      PlayWaits(s, init, desired, frame, height);
      PlayDeadline(s, init, desired, frame, height);
      PlayStepEvents(PlayPackets(s, init, desired, frame, height), p, desired, frame, height);
    }
  }

  /** Only finished frames of the desired stream are sent, each exactly once. */
  lemma {:induction false} PlaySends(s: Pacing, ps: seq<Packet>, desired: int, frame: Duration, height: int)
    ensures CountSends(PlayPackets(s, ps, desired, frame, height).trace)
         == CountSends(s.trace) + CountFinished(ps, desired)
  {
    if ps != [] {
      var init := ps[..|ps| - 1];
      PlaySends(s, init, desired, frame, height);
      PlayStepEvents(PlayPackets(s, init, desired, frame, height), ps[|ps| - 1], desired, frame, height);
    }
  }

  /** Packets of other streams change nothing: no deadline move, no wait, no output. */
  lemma {:induction false} PlayIgnoresOtherStreams(s: Pacing, ps: seq<Packet>, desired: int, frame: Duration, height: int)
    ensures PlayPackets(s, ps, desired, frame, height) == PlayPackets(s, OnlyStream(ps, desired), desired, frame, height)
  {
    if ps != [] {
      var init := ps[..|ps| - 1];
      var p := ps[|ps| - 1];
      PlayIgnoresOtherStreams(s, init, desired, frame, height);
      if p.streamIndex == desired {
        var only := OnlyStream(init, desired) + [p];
        assert OnlyStream(ps, desired) == only;
        assert only[..|only| - 1] == OnlyStream(init, desired);
        assert only[|only| - 1] == p;
      } else {
        assert OnlyStream(ps, desired) == OnlyStream(init, desired) + [];
        assert OnlyStream(init, desired) + [] == OnlyStream(init, desired);
      }
    }
  }

  /** The shape of the output: every JumpUp is by the framebuffer height, comes
      after some earlier Send and is followed at once by a Send; every Send but
      the first is preceded at once by a JumpUp; `isFirst` holds until a Send. */
  ghost predicate JumpsPrecedeSends(tr: seq<CanvasEvent>, isFirst: bool, height: int)
  {
    && (isFirst <==> Send !in tr)
    && (forall k :: 0 <= k < |tr| && tr[k].JumpUp? ==>
          k + 1 < |tr| && tr[k + 1] == Send && tr[k].pixels == height && Send in tr[..k])
    && (forall k :: 0 <= k < |tr| && tr[k] == Send && Send in tr[..k] ==>
          0 < k && tr[k - 1] == JumpUp(height))
  }

  lemma WaitKeepsShape(tr: seq<CanvasEvent>, isFirst: bool, height: int, w: CanvasEvent)
    requires JumpsPrecedeSends(tr, isFirst, height) && w.WaitUntil?
    ensures JumpsPrecedeSends(tr + [w], isFirst, height)
  {
    var tr' := tr + [w];
    forall k | 0 <= k < |tr'| && tr'[k].JumpUp?
      ensures k + 1 < |tr'| && tr'[k + 1] == Send && tr'[k].pixels == height && Send in tr'[..k]
    {
      assert tr'[..k] == tr[..k];
    }
    forall k | 0 <= k < |tr'| && tr'[k] == Send && Send in tr'[..k]
      ensures 0 < k && tr'[k - 1] == JumpUp(height)
    {
      assert tr'[..k] == tr[..k];
    }
    assert Send in tr' <==> Send in tr by {
      assert forall e :: e in tr' <==> e in tr || e == w;
    }
  }

  lemma FirstSendKeepsShape(tr: seq<CanvasEvent>, height: int)
    requires JumpsPrecedeSends(tr, true, height)
    ensures JumpsPrecedeSends(tr + [Send], false, height)
  {
    var tr' := tr + [Send];
    assert forall k :: 0 <= k <= |tr| ==> tr'[..k] == tr[..k] && tr[..k] <= tr;
    assert forall k :: 0 <= k < |tr| ==> tr[k] != Send && Send !in tr[..k];
    assert forall k :: 0 <= k < |tr| ==> !tr[k].JumpUp?;
    assert tr'[..|tr|] == tr;
  }

  lemma LaterSendKeepsShape(tr: seq<CanvasEvent>, height: int)
    requires JumpsPrecedeSends(tr, false, height)
    ensures JumpsPrecedeSends(tr + [JumpUp(height), Send], false, height)
  {
    var n := |tr|;
    var tr' := tr + [JumpUp(height), Send];
    assert Send in tr;
    forall k | 0 <= k < |tr'| && tr'[k].JumpUp?
      ensures k + 1 < |tr'| && tr'[k + 1] == Send && tr'[k].pixels == height && Send in tr'[..k]
    {
      if k < n {
        assert tr'[..k] == tr[..k];
      } else {
        assert tr'[..k] == tr;
      }
    }
    forall k | 0 <= k < |tr'| && tr'[k] == Send && Send in tr'[..k]
      ensures 0 < k && tr'[k - 1] == JumpUp(height)
    {
      if k < n {
        assert tr'[..k] == tr[..k];
      }
    }
  }

  lemma PlayStepKeepsShape(s: Pacing, p: Packet, desired: int, frame: Duration, height: int)
    requires JumpsPrecedeSends(s.trace, s.isFirst, height)
    ensures var s' := PlayStep(s, p, desired, frame, height);
            JumpsPrecedeSends(s'.trace, s'.isFirst, height)
  {
    if p.streamIndex == desired {
      var w := WaitUntil(Sum(s.deadline, frame));
      if !p.frameFinished {
        WaitKeepsShape(s.trace, s.isFirst, height, w);
        assert s.trace + [] + [w] == s.trace + [w];
      } else if s.isFirst {
        FirstSendKeepsShape(s.trace, height);
        WaitKeepsShape(s.trace + [Send], false, height, w);
      } else {
        LaterSendKeepsShape(s.trace, height);
        WaitKeepsShape(s.trace + [JumpUp(height), Send], false, height, w);
      }
    }
  }

  /** Starting from no output, the playback loop's trace has the shape above. */
  lemma {:induction false} PlayShape(t0: Timespec, ps: seq<Packet>, desired: int, frame: Duration, height: int)
    ensures var s := PlayPackets(Pacing(t0, true, []), ps, desired, frame, height);
            JumpsPrecedeSends(s.trace, s.isFirst, height)
  {
    if ps != [] {
      PlayShape(t0, ps[..|ps| - 1], desired, frame, height);
      PlayStepKeepsShape(PlayPackets(Pacing(t0, true, []), ps[..|ps| - 1], desired, frame, height),
                         ps[|ps| - 1], desired, frame, height);
    }
  }

  // ---------------------------------------------------------------- the loader

  /** `timg::VideoLoader`: the state `LoadAndScale` sets up and `Play` uses. */
  class VideoLoader {
    var desiredStream: int
    var frameDuration: Duration
    var outputLinesize: int
    var framebuffer: array2?<Rgb>
    var scaler: Option<Scaler>

    /** A loader that has not loaded anything. */
    constructor ()
      ensures desiredStream == -1 && framebuffer == null && scaler == None
    {
      desiredStream := -1;
      frameDuration := Duration(0, 0);
      outputLinesize := 0;
      framebuffer := null;
      scaler := None;
    }

    /** `VideoLoader::LoadAndScale`: open, find the first video stream, set the
        frame duration, open its decoder, allocate the framebuffer at the scaled
        size and create the scaler; any failing step returns false. */
    method LoadAndScale(c: Container) returns (ok: bool)
      modifies this
      ensures ok <==> Loads(c)
      ensures c.opens && c.hasStreamInfo ==> desiredStream == FirstVideo(c.streams)
      ensures ok ==> 0 <= desiredStream < |c.streams|
      ensures ok ==> frameDuration == Nanos(c.streams[desiredStream].frameNanos)
      ensures ok ==> framebuffer != null && fresh(framebuffer)
      ensures ok ==> framebuffer.Length0 == c.scaledHeight && framebuffer.Length1 == c.scaledWidth
      ensures ok ==> outputLinesize == c.outputLinesize
      ensures ok ==> scaler == CreateSwsContext(c.streams[desiredStream].codec.format,
                                               c.streams[desiredStream].codec.width,
                                               c.streams[desiredStream].codec.height,
                                               c.scaledWidth, c.scaledHeight,
                                               c.scalerCreated, c.scalerDefaults)
    {
      ok := false;
      if !c.opens {
        return;
      }
      if !c.hasStreamInfo {
        return;
      }
      desiredStream := FindFirstVideoStream(c.streams);
      if desiredStream == -1 {
        return;
      }
      var stream := c.streams[desiredStream];
      frameDuration := Nanos(stream.frameNanos);
      if !stream.codec.decoderFound {
        return;
      }
      if !stream.codec.contextCopied {
        return;
      }
      if !stream.codec.opens {
        return;
      }
      outputLinesize := c.outputLinesize;
      framebuffer := new Rgb[c.scaledHeight, c.scaledWidth];
      scaler := CreateSwsContext(stream.codec.format, stream.codec.width, stream.codec.height,
                                 c.scaledWidth, c.scaledHeight, c.scalerCreated, c.scalerDefaults);
      if scaler.None? {
        return;
      }
      ok := true;
    }

    /** `VideoLoader::CopyToFramebuffer`: row by row, pixel by pixel. */
    method CopyToFramebuffer(plane: seq<byte>, linesize: int)
      requires framebuffer != null
      requires FrameCovers(plane, linesize, framebuffer.Length1, framebuffer.Length0)
      modifies framebuffer
      ensures Shows(framebuffer, plane, linesize)
    {
      var fb := framebuffer;
      var y := 0;
      while y < fb.Length0
        invariant 0 <= y <= fb.Length0
        invariant forall yy, xx :: 0 <= yy < y && 0 <= xx < fb.Length1 ==>
          fb[yy, xx] == PixelAt(plane, linesize, fb.Length1, fb.Length0, xx, yy)
      {
        var x := 0;
        while x < fb.Length1
          invariant 0 <= x <= fb.Length1
          invariant forall yy, xx :: 0 <= yy < y && 0 <= xx < fb.Length1 ==>
            fb[yy, xx] == PixelAt(plane, linesize, fb.Length1, fb.Length0, xx, yy)
          invariant forall xx :: 0 <= xx < x ==>
            fb[y, xx] == PixelAt(plane, linesize, fb.Length1, fb.Length0, xx, y)
        {
          fb[y, x] := PixelAt(plane, linesize, fb.Length1, fb.Length0, x, y);
          x := x + 1;
        }
        y := y + 1;
      }
    }

    /** The finished-frame branch of `Play`: copy the picture into the
        framebuffer, jump up over the previous frame unless this is the first,
        and send. */
    method ShowFrame(picture: seq<byte>, isFirst: bool, trace: seq<CanvasEvent>) returns (shown: seq<CanvasEvent>)
      requires framebuffer != null
      requires FrameCovers(picture, outputLinesize, framebuffer.Length1, framebuffer.Length0)
      modifies framebuffer
      ensures Shows(framebuffer, picture, outputLinesize)
      ensures shown == trace + (if isFirst then [Send] else [JumpUp(framebuffer.Length0), Send])
    {
      CopyToFramebuffer(picture, outputLinesize);
      shown := trace;
      if !isFirst {
        shown := shown + [JumpUp(framebuffer.Length0)];
      }
      shown := shown + [Send];
    }

    /** The body of the playback loop for one packet: for the desired stream,
        advance the deadline by one frame, show a finished frame, then wait. */
    method PlayPacket(packet: Packet, endNextFrame: Time, isFirst: bool, trace: seq<CanvasEvent>)
      returns (stillFirst: bool, stepped: seq<CanvasEvent>)
      requires framebuffer != null
      requires packet.streamIndex == desiredStream && packet.frameFinished ==>
        FrameCovers(packet.picture, outputLinesize, framebuffer.Length1, framebuffer.Length0)
      modifies framebuffer, endNextFrame
      ensures Pacing(endNextFrame.Stamp(), stillFirst, stepped)
           == PlayStep(Pacing(old(endNextFrame.Stamp()), isFirst, trace), packet, desiredStream, frameDuration, framebuffer.Length0)
      ensures packet.streamIndex == desiredStream && packet.frameFinished ==> Shows(framebuffer, packet.picture, outputLinesize)
      ensures !(packet.streamIndex == desiredStream && packet.frameFinished) ==> unchanged(framebuffer)
    {
      stillFirst, stepped := isFirst, trace;
      if packet.streamIndex == desiredStream {
        endNextFrame.Add(frameDuration);
        if packet.frameFinished {
          stepped := ShowFrame(packet.picture, isFirst, stepped);
          stillFirst := false;
        }
        stepped := stepped + [WaitUntil(endNextFrame.Stamp())];
      }
    }

    /** `VideoLoader::Play`. `start` is the clock reading that fixes the end time,
        `seed` the reading taken when the frame deadline is constructed, and
        `clock[i]`, `interrupt[i]` the readings at the i-th loop test. */
    method Play(duration: Duration, start: Timespec, seed: Timespec,
                clock: seq<Timespec>, interrupt: seq<bool>, packets: seq<Packet>)
      returns (trace: seq<CanvasEvent>, consumed: nat)
      requires framebuffer != null
      requires |clock| > |packets| && |interrupt| > |packets|
      requires forall i :: 0 <= i < |packets| && packets[i].streamIndex == desiredStream && packets[i].frameFinished ==>
        FrameCovers(packets[i].picture, outputLinesize, framebuffer.Length1, framebuffer.Length0)
      modifies framebuffer
      ensures consumed <= |packets|
      ensures forall j :: 0 <= j < consumed ==> Less(clock[j], Sum(start, duration)) && !interrupt[j]
      ensures !(Less(clock[consumed], Sum(start, duration)) && !interrupt[consumed] && consumed < |packets|)
      ensures trace == PlayPackets(Pacing(seed, true, []), packets[..consumed],
                                   desiredStream, frameDuration, framebuffer.Length0).trace
      ensures ShowsLast(framebuffer, LastPicture(packets[..consumed], desiredStream), outputLinesize)
      ensures LastPicture(packets[..consumed], desiredStream).None? ==> unchanged(framebuffer)
    {
      var startTime := new Time(start);
      var endTime := Plus(startTime, duration);
      var endNextFrame := new Time(seed);
      var isFirst := true;
      trace := [];
      consumed := 0;
      var end := endTime.Stamp();
      while Less(clock[consumed], end) && !interrupt[consumed] && consumed < |packets|
        invariant 0 <= consumed <= |packets|
        invariant forall j :: 0 <= j < consumed ==> Less(clock[j], Sum(start, duration)) && !interrupt[j]
        invariant PlayPackets(Pacing(seed, true, []), packets[..consumed], desiredStream, frameDuration, framebuffer.Length0)
               == Pacing(endNextFrame.Stamp(), isFirst, trace)
        invariant ShowsLast(framebuffer, LastPicture(packets[..consumed], desiredStream), outputLinesize)
        invariant LastPicture(packets[..consumed], desiredStream).None? ==> unchanged(framebuffer)
        modifies framebuffer, endNextFrame
        decreases |packets| - consumed
      {
        var packet := packets[consumed];
        assert packets[..consumed + 1] == packets[..consumed] + [packet];
        PlaySnoc(Pacing(seed, true, []), packets[..consumed], packet, desiredStream, frameDuration, framebuffer.Length0);
        isFirst, trace := PlayPacket(packet, endNextFrame, isFirst, trace);
        consumed := consumed + 1;
      }
    }
  }
}
