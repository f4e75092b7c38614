# timg core, modelled in Dafny

timg is a terminal image and video viewer. This project models three parts of
its core, with proofs about each.

- **Time and Duration** (`timg_time.dfy`, module `TimgTime`).
  - The `Duration` factories `Millis`, `Micros`, `Nanos` and `InfiniteFuture`.
  - The lexicographic `<` and `>=` on points in time.
  - `Time::Add`, which changes the time in place, and `operator+`, which copies and then adds.
  - C's truncating `/` and `%` are written out as `CDiv` and `CRem`.
  - `Time` is a class with `sec` and `nsec` fields. Its value is the `Timespec` datatype.
- **Video playback** (`video_display.dfy`, module `VideoDisplay`).
  - The pixel-format remap and colour-range override done when the scaler is created.
  - The search for the first video stream, and `VideoLoader::LoadAndScale`.
  - `VideoLoader::CopyToFramebuffer`, a strided copy of a packed RGB24 picture into the framebuffer (an `array2`).
  - `VideoLoader::Play`, the deadline-paced playback loop. The clock, the interrupt flag and the decoded packets are sequences of readings. The canvas is an output trace of `JumpUp`, `Send` and `WaitUntil` events.
  - Play is proved against the reference function `PlayPackets`. Lemmas about that function state the pacing properties:
    - the deadline is the construction time plus k frame durations;
    - each packet of the chosen stream waits exactly once;
    - each finished frame is sent exactly once;
    - packets of other streams do nothing;
    - each Send after the first follows a jump up by the framebuffer height.
- **The driver** (`timg.dfy`, module `Timg`).
  - `GetBoolenEnv`, with C's `atoi` written out.
  - The effect of each command-line option, given as the values `getopt` and `sscanf` parse.
  - The post-processing: size and file-count validation, switching scrolling off when there is no movement, and deriving the fill flags.
  - The loop over the files: image loader first, then the video loader. The exit code latches to 1 on a failure, and the loop stops on interrupt.
  - `RunTimg` puts these together as `main`. It shows that when the cursor is hidden it is switched off once before the files and on once after them.
  - What the loaders achieve on each file is an input (`FileOutcome`). The output is a trace of `Event`s.

`wrappers.dfy` holds the `Option` datatype.

## Model

| member | source | states |
|---|---|---|
| TimgTime.CDiv | src/timg-time.h:39-47 | C's `/` by a positive constant: the quotient truncated toward zero, bracketing the dividend from below for `a >= 0` and from above for `a < 0` |
| TimgTime.CRem | src/timg-time.h:39-47 | C's `%` by a positive constant: quotient times divisor plus remainder is the dividend, and the remainder lies strictly between `-b` and `b` |
| TimgTime.Millis | src/timg-time.h:39-41 | the duration is `ms * 1e6` ns in total; the nanoseconds lie in [0, 1e9) for `ms >= 0` and in (-1e9, 0] for a negative count (C truncation) |
| TimgTime.Micros | src/timg-time.h:42-44 | as written: for `usec >= 0` the seconds are `usec / 1000` and the nanoseconds `(usec % 1e6) * 1000`, in [0, 1e9) |
| TimgTime.MicrosCorrected | src/timg-time.h:42-44 | the intended factory: `usec * 1000` ns in total, nanoseconds in range by sign |
| TimgTime.MicrosAgreesOnlyBelowOneMillisecond | src/timg-time.h:42-44 | for `usec >= 0`, `Micros` equals the intended factory exactly when `usec < 1000` |
| TimgTime.MicrosOneSecondIsThousandSeconds | src/timg-time.h:42-44 | `Micros(1000000)` is 1000 s, while one second was meant |
| TimgTime.Nanos | src/timg-time.h:45-47 | the duration is `n` ns in total; nanoseconds in [0, 1e9) for `n >= 0`, in (-1e9, 0] otherwise |
| TimgTime.InfiniteFuture | src/timg-time.h:48-50 | 1e9 seconds and 0 nanoseconds |
| TimgTime.Nanoseconds | src/timg-time.h:76-78 | definition of `nanoseconds()`; its agreement with the order is `LessMatchesNanoseconds` |
| TimgTime.Less | src/timg-time.h:80-84 | definition of `operator<`: seconds first, then nanoseconds; its properties are in `LessIsStrictTotalOrder` and `LessMatchesNanoseconds` |
| TimgTime.AtLeast | src/timg-time.h:86 | definition of `operator>=` as the negation of `<`; its properties are in `LessIsStrictTotalOrder` |
| TimgTime.LessIsStrictTotalOrder | src/timg-time.h:80-86 | `<` is irreflexive, asymmetric, transitive and total up to equality; `>=` holds exactly for equal or later times |
| TimgTime.LessMatchesNanoseconds | src/timg-time.h:76-84 | with both nanosecond parts in [0, 1e9), `a < b` iff `a.nanoseconds() < b.nanoseconds()` |
| TimgTime.Carry | src/timg-time.h:91-94 | the carry loop keeps the nanosecond total, leaves at most 1e9 ns (1e9 itself can stay), and changes nothing when there is no excess |
| TimgTime.Sum | src/timg-time.h:88-95 | the value `Add` produces: total nanoseconds are the sum, nanoseconds at most 1e9 |
| TimgTime.SumCarriesAtMostOnce | src/timg-time.h:88-95 | with both nanosecond parts in [0, 1e9) the loop carries at most one second and leaves nanoseconds in [0, 1e9], upper bound included |
| TimgTime.SumCanLeaveFullSecond | src/timg-time.h:80-95 | 0.5 s + 0.5 s leaves (0 s, 1e9 ns), which `<` puts before the equal instant (1 s, 0 ns) |
| TimgTime.DeadlineAfterNanoseconds | src/timg-time.h:88-95 | adding `d` to a time `k` times moves it by exactly `k * d` nanoseconds |
| TimgTime.Time.constructor | src/timg-time.h:61-72 | a time holds the clock reading it was created from |
| TimgTime.Time.Copy | src/timg-time.h:74 | the copy holds the same value |
| TimgTime.Time.Add | src/timg-time.h:88-95 | the new value is `Sum(old value, d)`: the total grows by `d` and the nanoseconds end at most 1e9 |
| TimgTime.Plus | src/timg-time.h:111-115 | returns a new time holding `Sum(t, d)` and leaves `t` unchanged |
| VideoDisplay.RemapPixelFormat | src/video-display.cc:41-52 | the extended-range flag is set iff the input is a YUVJ format; the result is never YUVJ; a YUVJ input maps to its YUV counterpart; any other format passes through |
| VideoDisplay.CreateSwsContext | src/video-display.cc:39-72 | a scaler exists iff libswscale created one; it scales from the codec size and the remapped format to the display size in RGB24; the source range is overridden to 1 with default tables iff the format was YUVJ, and otherwise the details are left alone |
| VideoDisplay.FirstVideo | src/video-display.cc:106-116 | -1 iff no stream is video; otherwise the smallest index of a video stream |
| VideoDisplay.FindFirstVideoStream | src/video-display.cc:106-116 | the search loop returns `FirstVideo`: the smallest video index, or -1 when there is none |
| VideoDisplay.Loads | src/video-display.cc:91-178 | definition of when `LoadAndScale` succeeds; `VideoLoader.LoadAndScale` is proved to return it |
| VideoDisplay.VideoLoader.constructor | src/video-display.cc:80-89 | a loader starts with no stream chosen, no framebuffer and no scaler, the state the destructor releases; the constructor itself is in `video-display.h`, which is not part of this model |
| VideoDisplay.VideoLoader.LoadAndScale | src/video-display.cc:91-178 | succeeds iff the file opens, has stream info, has a video stream, its decoder is found, copied and opened, and a scaler is created; on success the chosen stream is the first video stream, the frame duration comes from it, and a new framebuffer of the scaled size and the scaler are in place |
| VideoDisplay.OffsetInPlane | src/video-display.cc:180-188 | every pixel of the framebuffer lies inside the picture's first plane |
| VideoDisplay.VideoLoader.CopyToFramebuffer | src/video-display.cc:180-188 | afterwards every framebuffer pixel (x, y) is the RGB triple at byte `y * linesize + 3 * x` |
| VideoDisplay.DeadlinesAt | src/video-display.cc:198-221 | the k-th deadline of a loop seeded at `t0` is `t0 + (k + 1) * frame` |
| VideoDisplay.DeadlinesLength | src/video-display.cc:198-221 | the n-packet deadline sequence has n entries |
| VideoDisplay.PlayStep | src/video-display.cc:202-221 | definition of one loop iteration; `VideoLoader.PlayPacket` is proved to perform it, and its effects are in `PlayStepEvents` and `PlayStepKeepsShape` |
| VideoDisplay.PlayPackets | src/video-display.cc:199-224 | definition of the whole loop as a fold of `PlayStep`; `VideoLoader.Play` is proved to produce it, and its properties are in `PlayDeadline`, `PlayWaits`, `PlaySends`, `PlayIgnoresOtherStreams` and `PlayShape` |
| VideoDisplay.PlayDeadline | src/video-display.cc:198-205 | after k desired-stream packets the deadline is `t0 + k * frame`, never re-seeded from the clock |
| VideoDisplay.PlaySnoc | src/video-display.cc:199-221 | one more packet is one more loop iteration; the last shown picture changes only for a finished frame of the desired stream, and then becomes that frame's |
| VideoDisplay.AppendEvent | src/video-display.cc:217-221 | one more event adds its deadline to the waits if it is a wait, and adds one to the Send count if it is a Send |
| VideoDisplay.WaitOnly | src/video-display.cc:205-221 | a packet whose frame is not finished adds one wait and no Send |
| VideoDisplay.SendThenWait | src/video-display.cc:217-221 | the first finished frame adds one Send and then one wait |
| VideoDisplay.JumpSendThenWait | src/video-display.cc:217-221 | a later finished frame adds a jump up, one Send and then one wait |
| VideoDisplay.PlayStepEvents | src/video-display.cc:202-221 | one packet of the desired stream adds one wait at the advanced deadline, and one Send when its frame is finished; other packets add nothing |
| VideoDisplay.PlayWaits | src/video-display.cc:205-221 | the waits of the loop are exactly the deadlines `t0 + k * frame`, one per desired-stream packet, finished or not |
| VideoDisplay.PlaySends | src/video-display.cc:210-219 | the number of Sends equals the number of finished frames of the desired stream |
| VideoDisplay.PlayIgnoresOtherStreams | src/video-display.cc:202 | playing all packets equals playing only the desired stream's: other packets change no deadline, wait or output |
| VideoDisplay.WaitKeepsShape | src/video-display.cc:221 | a wait keeps the jump-up/Send shape of the trace |
| VideoDisplay.FirstSendKeepsShape | src/video-display.cc:217-219 | the first Send, without a jump, keeps the shape and ends `is_first` |
| VideoDisplay.LaterSendKeepsShape | src/video-display.cc:217-219 | a later Send, preceded by a jump up by the framebuffer height, keeps the shape |
| VideoDisplay.PlayStepKeepsShape | src/video-display.cc:202-221 | one loop iteration keeps the shape |
| VideoDisplay.PlayShape | src/video-display.cc:195-219 | the whole trace has the shape: each jump up is by the framebuffer height, follows an earlier Send and comes right before a Send; each Send after the first comes right after a jump up; `is_first` holds until the first Send |
| VideoDisplay.VideoLoader.ShowFrame | src/video-display.cc:216-219 | the framebuffer shows the picture, and the trace gains a Send, preceded by a jump up by the framebuffer height unless it is the first frame |
| VideoDisplay.VideoLoader.PlayPacket | src/video-display.cc:202-221 | one iteration moves the deadline and the events exactly as `PlayStep`; the framebuffer shows a finished frame of the desired stream and is untouched otherwise |
| VideoDisplay.VideoLoader.Play | src/video-display.cc:190-226 | the end time is fixed once; every iteration ran with the clock before the end time and no interrupt, and the loop stops at the first test that fails or at the end of the packets; the trace is that of `PlayPackets` from the seeded deadline; the framebuffer shows the last finished frame, or is untouched if there was none |
| Timg.DigitsValue | src/timg.cc:100-103 | the value of a digit string is zero iff every digit is '0' |
| Timg.Atoi | src/timg.cc:100-103 | `atoi` is zero iff the digits it reads after white space and a sign are all '0' |
| Timg.GetBoolenEnv | src/timg.cc:100-103 | true iff the variable is set and the number it starts with has a digit other than '0' |
| Timg.Defaults | src/timg.cc:108-133 | definition of the values before option parsing; its geometry is stated by `TerminalGeometry` |
| Timg.ApplyOption | src/timg.cc:135-223 | definition of the effect of one option; its properties are in `ApplyToggles`, `ApplyHideCursor` and `ApplyKeepsGeometry` |
| Timg.ParseAll | src/timg.cc:135-223 | definition of the `getopt` loop as a fold of `ApplyOption`; its properties are in `ParseExitsAtFirstTerminating`, the parity lemmas, `HideCursorUnlessKept` and `GeometryDefaultsToTerminal` |
| Timg.ParseAllSnoc | src/timg.cc:135-223 | parsing one more option applies it to the values parsed so far |
| Timg.ParseAllPrefixContinues | src/timg.cc:135-223 | parsing that got past an option also got past all the options before it, and its result is that option applied to what they produced |
| Timg.ParseExitsAtFirstTerminating | src/timg.cc:137-221 | parsing returns iff some option is a bad `-g`, a bad `-d`, `-v`, `-h` or unknown; the code is that of the first such option, 0 for `-v` and 1 otherwise |
| Timg.ApplyToggles | src/timg.cc:189-200 | one option flips upscale iff it is `-U`, and flips filename printing iff it is `-F` |
| Timg.TogglesAreInvolutions | src/timg.cc:189-200 | giving `-U` or `-F` twice restores the value |
| Timg.UpscaleFollowsParity | src/timg.cc:189-191 | after parsing, upscale is flipped from its initial value iff `-U` was given an odd number of times |
| Timg.FilenameFollowsParity | src/timg.cc:198-200 | after parsing, filename printing is flipped from its initial value iff `-F` was given an odd number of times |
| Timg.ApplyHideCursor | src/timg.cc:201-203 | one option shows the cursor iff it is `-E`, and no option hides it again |
| Timg.HideCursorUnlessKept | src/timg.cc:118-203 | after parsing, the cursor is hidden iff it was and `-E` was not given |
| Timg.GeometryDefaultsToTerminal | src/timg.cc:120-142 | without `-g`, parsing leaves width and height as they were |
| Timg.ApplyKeepsGeometry | src/timg.cc:135-223 | every option except `-g` leaves width and height as they were |
| Timg.TerminalGeometry | src/timg.cc:108-121 | without `-g`, the width is the terminal's column count and the height `2 * (rows - 1)` |
| Timg.FinishOptions | src/timg.cc:225-250 | the usage path (code 1) is taken iff width < 1, height < 1 or there is no file; otherwise scrolling stays on iff requested and dx:dy is not 0:0, fill width iff fit width or scrolling with dy != 0, fill height iff scrolling with dx != 0, and nothing else changes |
| Timg.ScrollFillsOrthogonalAxis | src/timg.cc:247-250 | while scrolling, the axis across the movement is filled |
| Timg.Fails | src/timg.cc:268-297 | definition of a file that no loader tried could load; used by `LoadFailedExactly` and `DispatchFiles` |
| Timg.FileEvents | src/timg.cc:262-297 | definition of the events of one file; `LoadFile` is proved to produce them, and `FileEventsWait` states their order |
| Timg.FilesEvents | src/timg.cc:261-304 | definition of the events of the processed files, in order; `DispatchFiles` is proved to produce them, and their properties are in `LoadFailedExactly`, `WaitFollowsStillImage` and `FilesEventsKeepCursor` |
| Timg.FileEventsWait | src/timg.cc:280-282 | within one file, a wait between images comes right after a still image |
| Timg.WaitFollowsStillImage | src/timg.cc:268-283 | across the loop, every wait between images comes right after a non-animated image |
| Timg.LoadFailedExactly | src/timg.cc:268-297 | a load failure is reported for file i iff it was processed and every loader tried on it failed |
| Timg.SomeLoadFailedExactly | src/timg.cc:268-297 | some failure is reported iff some processed file failed |
| Timg.FilesEventsKeepCursor | src/timg.cc:261-304 | the file loop never touches the cursor, opens no canvas and prints no final new line |
| Timg.LoadFile | src/timg.cc:264-297 | one file: the filename when asked, then the image when image loading is on and it loads, else the video, else a failure, which is flagged exactly when every loader tried failed |
| Timg.DispatchFiles | src/timg.cc:251-304 | files are processed in order until the first interrupt; the events are those of the processed files; the exit code is 1 iff some processed file failed every loader and is 0 otherwise |
| Timg.Framed | src/timg.cc:256-310 | definition of what `main` shows around the file loop; its cursor and failure properties are in `FramedCursor`, `FramedFailures` and `FramedRun` |
| Timg.CursorEventsAppend | src/timg.cc:256-308 | the cursor events of a concatenation are those of its parts, in order |
| Timg.NoCursorEvents | src/timg.cc:261-304 | a trace without cursor events has none to list |
| Timg.CursorEventsAround | src/timg.cc:256-308 | events without cursor changes between two parts add none to theirs |
| Timg.OpeningCursor | src/timg.cc:256-259 | before the files the only cursor event is the switch-off, when the cursor is hidden |
| Timg.ClosingCursor | src/timg.cc:306-310 | after the files the only cursor event is the switch-on, when the cursor is hidden |
| Timg.FramedCursor | src/timg.cc:256-308 | the cursor events of the run are exactly off-then-on when the cursor is hidden, and none otherwise |
| Timg.FramedFailures | src/timg.cc:256-310 | the frame around the file loop adds no failure and drops no file event |
| Timg.FilesEventsSnoc | src/timg.cc:261-304 | one more file appends its own events to those of the files before it |
| Timg.FramedRun | src/timg.cc:256-310 | around the processed files the cursor goes off and on exactly once when hidden, and a failure is shown iff the exit code is 1 |
| Timg.HandleOptions | src/timg.cc:114-250 | definition of all option handling: the `getopt` fold from the defaults, then the checks and derivations after it |
| Timg.RunTimg | src/timg.cc:105-313 | the exit code is 0 or 1; there is no output iff option handling returns, with the option's code or 1 for a rejected size or a missing file; otherwise the files are started in order until the first interrupt, the output is exactly the frame around their events (the canvas first, with the `TIMG_USE_UPPER_BLOCK` setting; the cursor off before and on after them unless `-E` was given; a new line after an interrupt), its cursor events are exactly off-then-on or none, and the exit code is 1 iff some started file could not be loaded, which is exactly when a failure is shown |

## Left out

- The clock and sleep calls in `Time()` and `WaitUntil` are left out. Clock readings are inputs, and a wait is a recorded `WaitUntil` event.
- All libav and libswscale calls are foreign. This covers opening, stream info, decoding, `sws_scale`, `sws_getContext`, the colour-space calls, allocation, freeing and the destructor. What they report is an input, and the scaled picture of a finished frame is given with its packet.
- The frame rate (`av_q2d`, `1e9 / fps`) is floating point. The frame duration is `Nanos` of a given nanosecond count per stream.
- `VideoLoader::Init` is omitted. It only initialises the libav network layer.
- `getopt`, `sscanf`, `atof` and `roundf` parsing is left out. Each option arrives with the values they parse, and `-w`/`-t` arrive already rounded to milliseconds.
- The partial assignment of width by a failing `-g` is not modelled, because `main` returns at once in that case.
- The `getopt` loop is the fold `ParseAll` rather than a loop method.
- `ioctl` is omitted: the terminal size is what it left in the zeroed `winsize`. The message chosen on a rejected size, all `printf`/`fprintf` output and the usage text are not modelled.
- Magick initialisation, signal registration and the asynchronous handler are omitted. The interrupt flag is a sequence of readings.
- The image loader, `ScaleWithOptions` and `TerminalCanvas` have no bodies in this model. Their outcomes are inputs, and canvas calls are events with no content. The pictures sent are stated through the framebuffer instead.
- The initial `DisplayOptions` values come from a header that is not part of this model, so they are a parameter.
- `do_clear` is never set, so the clear-screen call is never made and is not modelled.
- Video support is taken to be compiled in (`WITH_TIMG_VIDEO`). Without it, `-V` only prints a message and no video loader is tried.
- Integer width is not modelled. C's `long` and `int` are unbounded integers, so 64-bit overflow in `nanoseconds()` and 32-bit overflow in `atoi` are out of scope.
- The `Time` and `Duration` values are not range-checked. A nanosecond part of exactly 1e9 can reach `WaitUntil`. The model records that deadline as it is and does not model what `clock_nanosleep` does with it.

## Findings

| source | as written | input that shows it | evidently intended | confidence | as-written member | corrected member |
|---|---|---|---|---|---|---|
| src/timg-time.h:43 | `Micros` takes the seconds as `usec / 1000` | `Micros(1000000)` is 1000 s, not 1 s | seconds `usec / 1000000`, so the total is `usec * 1000` ns | high; not executed | TimgTime.MicrosOneSecondIsThousandSeconds | TimgTime.MicrosCorrected |
