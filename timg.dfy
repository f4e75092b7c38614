/** The driver of timg (src/timg.cc `main`): the boolean environment toggle,
    the effect of each command-line option on the option values, the
    post-processing of those values (size validation, scroll and fill
    derivation), and the loop over the files with its exit code.

    What `getopt`, `sscanf`, `atof` and `roundf` parse is given as a sequence of
    `CommandOption`s carrying the parsed values; the terminal size is what
    `ioctl` left in the (zero-initialised) `winsize`; what the image and video
    loaders achieve on each file is a `FileOutcome`; the interrupt flag is a
    sequence of readings. The output is a trace of `Event`s. Video support is
    taken to be compiled in. */
module Timg {
  import opened Wrappers
  import opened TimgTime

  // ---------------------------------------------------------------- GetBoolenEnv

  /** C's `isspace` in the "C" locale. */
  predicate IsSpace(c: char)
  {
    c == ' ' || 9 <= c as int <= 13
  }

  predicate IsDigit(c: char)
  {
    '0' <= c <= '9'
  }

  function SkipSpaces(s: string): (r: string)
    ensures |r| <= |s| && r == s[|s| - |r|..]
    ensures r == [] || !IsSpace(r[0])
  {
    if s != [] && IsSpace(s[0]) then SkipSpaces(s[1..]) else s
  }

  function SkipSign(s: string): string
  {
    if s != [] && (s[0] == '+' || s[0] == '-') then s[1..] else s
  }

  /** The longest prefix of `s` made of decimal digits. */
  function LeadingDigits(s: string): (ds: string)
    ensures ds <= s
    ensures forall k :: 0 <= k < |ds| ==> IsDigit(ds[k])
    ensures |ds| == |s| || !IsDigit(s[|ds|])
  {
    if s != [] && IsDigit(s[0]) then [s[0]] + LeadingDigits(s[1..]) else []
  }

  /** The value of a string of decimal digits; it is zero exactly when every
      digit is '0'. */
  function DigitsValue(ds: string): (n: nat)
    requires forall k :: 0 <= k < |ds| ==> IsDigit(ds[k])
    ensures n == 0 <==> forall k :: 0 <= k < |ds| ==> ds[k] == '0'
  {
    if ds == [] then 0
    else
      var init := ds[..|ds| - 1];
      assert forall k :: 0 <= k < |init| ==> init[k] == ds[k];
      var last := ds[|ds| - 1] as int - '0' as int;
      assert IsDigit(ds[|ds| - 1]);
      10 * DigitsValue(init) + last
  }

  /** The digits `atoi` reads: after leading white space and one optional sign. */
  function AtoiDigits(s: string): string
  {
    LeadingDigits(SkipSign(SkipSpaces(s)))
  }

  /** C's `atoi` (overflow, which C leaves undefined, is not modelled). */
  function Atoi(s: string): (n: int)
    ensures n == 0 <==> forall k :: 0 <= k < |AtoiDigits(s)| ==> AtoiDigits(s)[k] == '0'
  {
    var t := SkipSpaces(s);
    var v: int := DigitsValue(AtoiDigits(s));
    if t != [] && t[0] == '-' then -v else v
  }

  /** `GetBoolenEnv`: the variable is set and `atoi` of it is not zero, that is,
      the number it starts with has a digit other than '0'. */
  function GetBoolenEnv(value: Option<string>): (on: bool)
    ensures on <==> (value.Some? &&
                     exists k :: 0 <= k < |AtoiDigits(value.value)| && AtoiDigits(value.value)[k] != '0')
  {
    value.Some? && Atoi(value.value) != 0
  }

  // ---------------------------------------------------------------- options

  /** The display options `main` hands to the loaders. Their initial values come
      from a header that is not part of this model, so they are a parameter. */
  datatype DisplayOptions = DisplayOptions(
    antialias: bool, centerHorizontally: bool, upscale: bool,
    autoTrimImage: bool, cropBorder: int,
    fillWidth: bool, fillHeight: bool)

  /** The option variables of `main`. */
  datatype Settings = Settings(
    width: int, height: int, maxFrames: int,
    bgColor: Option<string>, patternColor: Option<string>,
    duration: Duration, betweenImages: Duration, scrollDelay: Duration,
    loops: int, dx: int, dy: int,
    doScroll: bool, fitWidth: bool, doImageLoading: bool,
    showFilename: bool, hideCursor: bool,
    display: DisplayOptions)

  /** The values before option parsing, from a terminal of `cols` columns and
      `rows` rows: the height is in pixels, two per row, leaving one row free. */
  function Defaults(cols: int, rows: int, display: DisplayOptions): Settings
  {
    Settings(cols, 2 * (rows - 1), -1, None, None,
             InfiniteFuture(), Millis(0), Millis(50),
             -1, 1, 0,
             false, false, true,
             false, true,
             display)
  }

  /** One option as `getopt` and the argument parsing deliver it. */
  datatype CommandOption =
    | Geometry(w: int, h: int)          // -g<w>x<h>, both numbers read
    | BadGeometry                       // -g with fewer than two numbers
    | WaitMs(waitMs: int)               // -w<seconds>, rounded to milliseconds
    | DurationMs(durationMs: int)       // -t<seconds>, rounded to milliseconds
    | Cycles(cycles: int)               // -c<num>
    | Frames(frames: int)               // -f<num>
    | NoAntialias                       // -a
    | Background(color: string)         // -b<str>
    | Pattern(color: string)            // -B<str>
    | Scroll(delayMs: Option<int>)      // -s[<ms>]
    | VideoOnly                         // -V
    | Delta(deltaX: int, deltaY: Option<int>)  // -d<dx>[:<dy>]
    | BadDelta                          // -d without a number
    | Center                            // -C
    | ToggleUpscale                     // -U
    | Trim(border: Option<int>)         // -T[<pre-crop>]
    | ToggleFilename                    // -F
    | KeepCursor                        // -E
    | FitWidth                          // -W
    | Version                           // -v
    | Usage                             // -h and any unknown option

  /** Either the option values so far, or `main` returns with `code`. */
  datatype Parsed = Continue(settings: Settings) | Exit(code: int)

  /** The `switch` on one option. */
  function ApplyOption(s: Settings, o: CommandOption): Parsed
  {
    match o
    case Geometry(w, h) => Continue(s.(width := w, height := h))
    case BadGeometry => Exit(1)
    case WaitMs(ms) => Continue(s.(betweenImages := Millis(ms)))
    case DurationMs(ms) => Continue(s.(duration := Millis(ms)))
    case Cycles(n) => Continue(s.(loops := n))
    case Frames(n) => Continue(s.(maxFrames := n))
    case NoAntialias => Continue(s.(display := s.display.(antialias := false)))
    case Background(c) => Continue(s.(bgColor := Some(c)))
    case Pattern(c) => Continue(s.(patternColor := Some(c)))
    case Scroll(delay) =>
      Continue(s.(doScroll := true, scrollDelay := if delay.Some? then Millis(delay.value) else s.scrollDelay))
    case VideoOnly => Continue(s.(doImageLoading := false))
    case Delta(x, y) => Continue(s.(dx := x, dy := if y.Some? then y.value else s.dy))
    case BadDelta => Exit(1)
    case Center => Continue(s.(display := s.display.(centerHorizontally := true)))
    case ToggleUpscale => Continue(s.(display := s.display.(upscale := !s.display.upscale)))
    case Trim(border) =>
      Continue(s.(display := s.display.(autoTrimImage := true,
                                        cropBorder := if border.Some? then border.value else s.display.cropBorder)))
    case ToggleFilename => Continue(s.(showFilename := !s.showFilename))
    case KeepCursor => Continue(s.(hideCursor := false))
    case FitWidth => Continue(s.(fitWidth := true))
    case Version => Exit(0)
    case Usage => Exit(1)
  }

  /** The `getopt` loop over all options: stops at the first that returns. */
  function ParseAll(s: Settings, opts: seq<CommandOption>): Parsed
  {
    if opts == [] then Continue(s)
    else
      match ParseAll(s, opts[..|opts| - 1])
      case Exit(code) => Exit(code)
      case Continue(t) => ApplyOption(t, opts[|opts| - 1])
  }

  /** Parsing one more option applies it to the values parsed so far. */
  lemma ParseAllSnoc(s: Settings, init: seq<CommandOption>, last: CommandOption)
    requires ParseAll(s, init).Continue?
    ensures ParseAll(s, init + [last]) == ApplyOption(ParseAll(s, init).settings, last)
  {
    assert (init + [last])[..|init|] == init;
  }

  /** Parsing continues after some options only if it continued after all
      but the last, and then the last one is applied to what came before. */
  lemma ParseAllPrefixContinues(s: Settings, opts: seq<CommandOption>)
    requires opts != [] && ParseAll(s, opts).Continue?
    ensures ParseAll(s, opts[..|opts| - 1]).Continue?
    ensures ParseAll(s, opts) == ApplyOption(ParseAll(s, opts[..|opts| - 1]).settings, opts[|opts| - 1])
  {
  }

  /** The options on which `main` returns during parsing. */
  predicate Terminates(o: CommandOption)
  {
    o.BadGeometry? || o.BadDelta? || o.Version? || o.Usage?
  }

  /** Parsing ends in a return exactly when some option returns; the code is that
      of the first such option: 0 for -v, 1 (the usage text) otherwise. */
  lemma {:induction false} ParseExitsAtFirstTerminating(s: Settings, opts: seq<CommandOption>)
    ensures ParseAll(s, opts).Exit? <==> exists k :: 0 <= k < |opts| && Terminates(opts[k])
    ensures ParseAll(s, opts).Exit? ==>
      exists k :: 0 <= k < |opts| && Terminates(opts[k]) && (forall j :: 0 <= j < k ==> !Terminates(opts[j])) &&
        ParseAll(s, opts).code == (if opts[k].Version? then 0 else 1)
  {
    if opts != [] {
      var init := opts[..|opts| - 1];
      ParseExitsAtFirstTerminating(s, init);
      assert forall k :: 0 <= k < |init| ==> init[k] == opts[k];
      if ParseAll(s, init).Exit? {
        var k :| 0 <= k < |init| && Terminates(init[k]) && (forall j :: 0 <= j < k ==> !Terminates(init[j])) &&
          ParseAll(s, init).code == (if init[k].Version? then 0 else 1);
        assert Terminates(opts[k]);
      } else {
        assert forall k :: 0 <= k < |init| ==> !Terminates(opts[k]);
        if Terminates(opts[|opts| - 1]) {
          assert Terminates(opts[|opts| - 1]) && (forall j :: 0 <= j < |opts| - 1 ==> !Terminates(opts[j]));
        }
      }
    }
  }

  /** -U and -F toggle: giving one twice restores the value. */
  lemma TogglesAreInvolutions(s: Settings)
    ensures ApplyOption(ApplyOption(s, ToggleUpscale).settings, ToggleUpscale) == Continue(s)
    ensures ApplyOption(ApplyOption(s, ToggleFilename).settings, ToggleFilename) == Continue(s)
  {
  }

  /** One option changes the upscale flag and the filename flag exactly when
      it is the matching toggle, and then flips it. */
  lemma ApplyToggles(t: Settings, o: CommandOption)
    requires ApplyOption(t, o).Continue?
    ensures ApplyOption(t, o).settings.display.upscale == (t.display.upscale != (o == ToggleUpscale))
    ensures ApplyOption(t, o).settings.showFilename == (t.showFilename != (o == ToggleFilename))
  {
    match o
    case ToggleUpscale =>
    case ToggleFilename =>
    case _ =>
  }

  /** How many times `o` occurs in `opts`. */
  function CountOption(opts: seq<CommandOption>, o: CommandOption): nat
  {
    if opts == [] then 0
    else CountOption(opts[..|opts| - 1], o) + (if opts[|opts| - 1] == o then 1 else 0)
  }

  /** After parsing, upscale is flipped from its initial value exactly when
      -U was given an odd number of times. */
  lemma {:induction false} UpscaleFollowsParity(s: Settings, opts: seq<CommandOption>)
    requires ParseAll(s, opts).Continue?
    ensures ParseAll(s, opts).settings.display.upscale
         == (s.display.upscale != (CountOption(opts, ToggleUpscale) % 2 == 1))
  {
    if opts != [] {
      var init, last := opts[..|opts| - 1], opts[|opts| - 1];
      ParseAllPrefixContinues(s, opts);
      UpscaleFollowsParity(s, init);
      ApplyToggles(ParseAll(s, init).settings, last);
    }
  }

  /** After parsing, filename printing is flipped from its initial value
      exactly when -F was given an odd number of times. */
  lemma {:induction false} FilenameFollowsParity(s: Settings, opts: seq<CommandOption>)
    requires ParseAll(s, opts).Continue?
    ensures ParseAll(s, opts).settings.showFilename
         == (s.showFilename != (CountOption(opts, ToggleFilename) % 2 == 1))
  {
    if opts != [] {
      var init, last := opts[..|opts| - 1], opts[|opts| - 1];
      ParseAllPrefixContinues(s, opts);
      FilenameFollowsParity(s, init);
      ApplyToggles(ParseAll(s, init).settings, last);
    }
  }

  /** Only -E shows the cursor. */
  lemma ApplyHideCursor(t: Settings, o: CommandOption)
    requires ApplyOption(t, o).Continue?
    ensures ApplyOption(t, o).settings.hideCursor == (t.hideCursor && o != KeepCursor)
  {
    match o
    case KeepCursor =>
    case _ =>
  }

  /** After parsing, the cursor is hidden iff it was and -E was not given. */
  lemma {:induction false} HideCursorUnlessKept(s: Settings, opts: seq<CommandOption>)
    requires ParseAll(s, opts).Continue?
    ensures ParseAll(s, opts).settings.hideCursor == (s.hideCursor && KeepCursor !in opts)
  {
    if opts != [] {
      var init, last := opts[..|opts| - 1], opts[|opts| - 1];
      ParseAllPrefixContinues(s, opts);
      HideCursorUnlessKept(s, init);
      ApplyHideCursor(ParseAll(s, init).settings, last);
    }
  }

  /** Only -g changes the geometry. */
  lemma ApplyKeepsGeometry(t: Settings, o: CommandOption)
    requires ApplyOption(t, o).Continue? && !o.Geometry?
    ensures ApplyOption(t, o).settings.width == t.width
    ensures ApplyOption(t, o).settings.height == t.height
  {
    match o
    case Scroll(_) =>
    case Delta(_, _) =>
    case Trim(_) =>
    case _ =>
  }

  /** Without -g, the pixel geometry is the terminal's: its column count wide
      and twice one less than its row count high. */
  lemma {:induction false} GeometryDefaultsToTerminal(s: Settings, opts: seq<CommandOption>)
    requires ParseAll(s, opts).Continue?
    requires forall k :: 0 <= k < |opts| ==> !opts[k].Geometry?
    ensures ParseAll(s, opts).settings.width == s.width
    ensures ParseAll(s, opts).settings.height == s.height
  {
    if opts != [] {
      var init, last := opts[..|opts| - 1], opts[|opts| - 1];
      ParseAllPrefixContinues(s, opts);
      GeometryDefaultsToTerminal(s, init);
      ApplyKeepsGeometry(ParseAll(s, init).settings, last);
    }
  }

  lemma TerminalGeometry(cols: int, rows: int, display: DisplayOptions, opts: seq<CommandOption>)
    requires ParseAll(Defaults(cols, rows, display), opts).Continue?
    requires forall k :: 0 <= k < |opts| ==> !opts[k].Geometry?
    ensures ParseAll(Defaults(cols, rows, display), opts).settings.width == cols
    ensures ParseAll(Defaults(cols, rows, display), opts).settings.height == 2 * (rows - 1)
  {
    GeometryDefaultsToTerminal(Defaults(cols, rows, display), opts);
  }

  /** What `main` does after the options: reject a size below 1x1 or a missing
      file name with the usage text (return 1), switch scrolling off when there
      is no movement, and fill the axis orthogonal to the scroll. */
  function FinishOptions(s: Settings, fileCount: nat): (r: Parsed)
    ensures r.Exit? <==> s.width < 1 || s.height < 1 || fileCount == 0
    ensures r.Exit? ==> r.code == 1
    ensures r.Continue? ==> (r.settings.doScroll <==> s.doScroll && (s.dx != 0 || s.dy != 0))
    ensures r.Continue? ==> (r.settings.display.fillWidth <==> s.fitWidth || (s.doScroll && s.dy != 0))
    ensures r.Continue? ==> (r.settings.display.fillHeight <==> s.doScroll && s.dx != 0)
    ensures r.Continue? && s.dx == 0 && s.dy == 0 ==>
      !r.settings.doScroll && !r.settings.display.fillHeight && r.settings.display.fillWidth == s.fitWidth
    ensures r.Continue? ==>
      r.settings.(doScroll := s.doScroll, display := s.display) == s &&
      r.settings.display.(fillWidth := s.display.fillWidth, fillHeight := s.display.fillHeight) == s.display
  {
    if s.width < 1 || s.height < 1 then Exit(1)
    else if fileCount == 0 then Exit(1)
    else
      var scroll := if s.dx == 0 && s.dy == 0 then false else s.doScroll;
      Continue(s.(doScroll := scroll,
                  display := s.display.(fillWidth := s.fitWidth || (scroll && s.dy != 0),
                                        fillHeight := scroll && s.dx != 0)))
  }

  /** When the image scrolls, the axis across the scroll is filled: scrolling
      horizontally fills the height, vertically the width. */
  lemma ScrollFillsOrthogonalAxis(s: Settings, fileCount: nat)
    requires FinishOptions(s, fileCount).Continue?
    ensures var t := FinishOptions(s, fileCount).settings;
      t.doScroll ==> (t.dx != 0 ==> t.display.fillHeight) && (t.dy != 0 ==> t.display.fillWidth) &&
                     (t.display.fillWidth || t.display.fillHeight)
  {
  }

  // ---------------------------------------------------------------- the file loop

  /** What the loaders achieve on one file: whether the image loader loads it
      (and whether it is an animation), and whether the video loader does. */
  datatype FileOutcome = FileOutcome(imageLoads: bool, isAnimation: bool, videoLoads: bool)

  /** What `main` does that a user sees. */
  datatype Event =
    | OpenCanvas(upperBlock: bool)
    | CursorOff
    | CursorOn
    | PrintFilename(file: nat)
    | ShowImage(file: nat, scrolled: bool, animated: bool)   // Scroll or Display
    | WaitBetween(pause: Duration)
    | PlayVideo(file: nat)
    | LoadFailed(file: nat)
    | NewLine

  /** No loader that was tried could load the file. */
  predicate Fails(s: Settings, f: FileOutcome)
  {
    !(s.doImageLoading && f.imageLoads) && !f.videoLoads
  }

  /** The events of file number `i`: image first (when image loading is on),
      then video, else a load failure. */
  function FileEvents(s: Settings, i: nat, f: FileOutcome): seq<Event>
  {
    (if s.showFilename then [PrintFilename(i)] else [])
    + if s.doImageLoading && f.imageLoads then
        [ShowImage(i, s.doScroll, f.isAnimation)] + (if f.isAnimation then [] else [WaitBetween(s.betweenImages)])
      else if f.videoLoads then [PlayVideo(i)]
      else [LoadFailed(i)]
  }

  /** The events of the files, in order. */
  function FilesEvents(s: Settings, files: seq<FileOutcome>): seq<Event>
  {
    if files == [] then []
    else FilesEvents(s, files[..|files| - 1]) + FileEvents(s, |files| - 1, files[|files| - 1])
  }

  /** The file loop itself never touches the cursor or the canvas set-up. */
  lemma {:induction false} FilesEventsKeepCursor(s: Settings, files: seq<FileOutcome>)
    ensures forall e :: e in FilesEvents(s, files) ==>
      !e.CursorOff? && !e.CursorOn? && !e.OpenCanvas? && !e.NewLine?
  {
    if files != [] {
      FilesEventsKeepCursor(s, files[..|files| - 1]);
    }
  }

  /** Within one file's events, a wait directly follows a still image. */
  lemma FileEventsWait(s: Settings, i: nat, f: FileOutcome)
    ensures var fe := FileEvents(s, i, f);
      forall j :: 0 <= j < |fe| && fe[j].WaitBetween? ==>
        0 < j && fe[j - 1] == ShowImage(i, s.doScroll, false)
  {
    var name := if s.showFilename then [PrintFilename(i)] else [];
    var fe := FileEvents(s, i, f);
    if s.doImageLoading && f.imageLoads && !f.isAnimation {
      assert fe == name + [ShowImage(i, s.doScroll, false), WaitBetween(s.betweenImages)];
    } else {
      assert forall j :: 0 <= j < |fe| ==> !fe[j].WaitBetween?;
    }
  }

  /** Every wait between images in `tr` comes right after a still image. */
  predicate WaitsFollowStillImages(tr: seq<Event>)
  {
    forall k :: 0 <= k < |tr| && tr[k].WaitBetween? ==> 0 < k && tr[k - 1].ShowImage? && !tr[k - 1].animated
  }

  /** A wait between images is only ever right after a still (non-animated) image. */
  lemma {:induction false} WaitFollowsStillImage(s: Settings, files: seq<FileOutcome>)
    ensures WaitsFollowStillImages(FilesEvents(s, files))
  {
    if files != [] {
      var before := FilesEvents(s, files[..|files| - 1]);
      WaitFollowsStillImage(s, files[..|files| - 1]);
      var fe := FileEvents(s, |files| - 1, files[|files| - 1]);
      FileEventsWait(s, |files| - 1, files[|files| - 1]);
      var tr := before + fe;
      assert tr == FilesEvents(s, files);
      forall k | 0 <= k < |tr| && tr[k].WaitBetween?
        ensures 0 < k && tr[k - 1].ShowImage? && !tr[k - 1].animated
      {
        if k < |before| {
          assert before[k].WaitBetween?;
          assert 0 < k;
          assert tr[k - 1] == before[k - 1];
        } else {
          var j := k - |before|;
          assert fe[j].WaitBetween?;
          assert tr[k - 1] == fe[j - 1];
        }
      }
    }
  }

  /** A load failure is reported for file `i` exactly when every loader tried on
      it failed. */
  lemma {:induction false} LoadFailedExactly(s: Settings, files: seq<FileOutcome>, i: nat)
    ensures LoadFailed(i) in FilesEvents(s, files) <==> i < |files| && Fails(s, files[i])
  {
    if files != [] {
      var init := files[..|files| - 1];
      LoadFailedExactly(s, init, i);
      var fe := FileEvents(s, |files| - 1, files[|files| - 1]);
      assert LoadFailed(i) in fe <==> i == |files| - 1 && Fails(s, files[|files| - 1]);
      assert LoadFailed(i) in FilesEvents(s, files) <==> LoadFailed(i) in FilesEvents(s, init) || LoadFailed(i) in fe;
    }
  }

  /** The events of one more file follow those of the files before it. */
  lemma FilesEventsSnoc(s: Settings, files: seq<FileOutcome>, n: nat)
    requires n < |files|
    ensures FilesEvents(s, files[..n + 1]) == FilesEvents(s, files[..n]) + FileEvents(s, n, files[n])
  {
    assert files[..n + 1][..n] == files[..n];
  }

  /** The file loop reports some load failure exactly when some file fails. */
  lemma SomeLoadFailedExactly(s: Settings, files: seq<FileOutcome>)
    ensures (exists e :: e in FilesEvents(s, files) && e.LoadFailed?) <==>
            (exists j :: 0 <= j < |files| && Fails(s, files[j]))
  {
    if j :| 0 <= j < |files| && Fails(s, files[j]) {
      LoadFailedExactly(s, files, j);
    }
    forall e | e in FilesEvents(s, files) && e.LoadFailed?
      ensures exists j :: 0 <= j < |files| && Fails(s, files[j])
    {
      LoadFailedExactly(s, files, e.file);
    }
  }

  /** The `for` loop over the file names; `interrupt[i]` is the flag's value
      when the loop tests it before file `i`. */
  method DispatchFiles(s: Settings, files: seq<FileOutcome>, interrupt: seq<bool>)
    returns (exitCode: int, processed: nat, events: seq<Event>)
    requires |interrupt| >= |files|
    ensures processed <= |files|
    ensures forall j :: 0 <= j < processed ==> !interrupt[j]
    ensures processed == |files| || interrupt[processed]
    ensures events == FilesEvents(s, files[..processed])
    ensures exitCode == 0 || exitCode == 1
    ensures exitCode == 1 <==> exists j :: 0 <= j < processed && Fails(s, files[j])
  {
    exitCode := 0;
    processed := 0;
    events := [];
    while processed < |files| && !interrupt[processed]
      invariant 0 <= processed <= |files|
      invariant forall j :: 0 <= j < processed ==> !interrupt[j]
      invariant events == FilesEvents(s, files[..processed])
      invariant exitCode == 0 || exitCode == 1
      invariant exitCode == 1 <==> exists j :: 0 <= j < processed && Fails(s, files[j])
    {
      FilesEventsSnoc(s, files, processed);
      var shown, failed := LoadFile(s, processed, files[processed]);
      events := events + shown;
      if failed {
        exitCode := 1;
      }
      processed := processed + 1;
    }
  }

  /** The body of the file loop for file number `i`, in the statement-by-statement
      form `main` has: the image loader first when image loading is on, then
      the video loader, and a failure when neither loaded the file. It exists
      to give the loop body its imperative form; what it produces is stated by
      `FileEvents`. */
  method LoadFile(s: Settings, i: nat, f: FileOutcome) returns (shown: seq<Event>, failed: bool)
    ensures shown == FileEvents(s, i, f)
    ensures failed <==> Fails(s, f)
  {
    shown := [];
    failed := false;
    if s.showFilename {
      shown := shown + [PrintFilename(i)];
    }
    if s.doImageLoading && f.imageLoads {
      shown := shown + [ShowImage(i, s.doScroll, f.isAnimation)];
      if !f.isAnimation {
        shown := shown + [WaitBetween(s.betweenImages)];
      }
    } else if f.videoLoads {
      shown := shown + [PlayVideo(i)];
    } else {
      shown := shown + [LoadFailed(i)];
      failed := true;
    }
  }

  /** What `main` shows around the file loop: the canvas, the cursor switched
      off and on again when it is hidden, and a final new line after an
      interrupt. */
  function Framed(upperBlock: bool, hideCursor: bool, interrupted: bool, fileEvents: seq<Event>): seq<Event>
  {
    [OpenCanvas(upperBlock)] + (if hideCursor then [CursorOff] else [])
    + fileEvents
    + (if hideCursor then [CursorOn] else []) + (if interrupted then [NewLine] else [])
  }

  predicate IsCursorEvent(e: Event)
  {
    e.CursorOff? || e.CursorOn?
  }

  /** The cursor events of a trace, in order. */
  function CursorEvents(tr: seq<Event>): seq<Event>
  {
    if tr == [] then []
    else CursorEvents(tr[..|tr| - 1]) + (if IsCursorEvent(tr[|tr| - 1]) then [tr[|tr| - 1]] else [])
  }

  lemma {:induction false} CursorEventsAppend(a: seq<Event>, b: seq<Event>)
    ensures CursorEvents(a + b) == CursorEvents(a) + CursorEvents(b)
    decreases |b|
  {
    if b == [] {
      assert a + b == a;
    } else {
      assert (a + b)[..|a + b| - 1] == a + b[..|b| - 1];
      CursorEventsAppend(a, b[..|b| - 1]);
    }
  }

  lemma CursorEventsSingle(e: Event)
    ensures CursorEvents([e]) == if IsCursorEvent(e) then [e] else []
  {
    assert [e][..0] == [];
  }

  lemma {:induction false} NoCursorEvents(tr: seq<Event>)
    requires forall e :: e in tr ==> !IsCursorEvent(e)
    ensures CursorEvents(tr) == []
  {
    if tr != [] {
      assert tr[|tr| - 1] in tr;
      assert forall e :: e in tr[..|tr| - 1] ==> e in tr;
      NoCursorEvents(tr[..|tr| - 1]);
    }
  }

  /** A middle part without cursor events adds none. */
  lemma CursorEventsAround(a: seq<Event>, m: seq<Event>, b: seq<Event>)
    requires CursorEvents(m) == []
    ensures CursorEvents(a + m + b) == CursorEvents(a) + CursorEvents(b)
  {
    CursorEventsAppend(a, m);
    CursorEventsAppend(a + m, b);
    assert CursorEvents(a) + [] == CursorEvents(a);
  }

  lemma CursorEventsPair(x: Event, y: Event)
    ensures CursorEvents([x, y]) == CursorEvents([x]) + CursorEvents([y])
  {
    assert [x, y] == [x] + [y];
    CursorEventsAppend([x], [y]);
  }

  /** Before the files: the canvas, then the cursor off when it is hidden. */
  lemma OpeningCursor(upperBlock: bool, hideCursor: bool)
    ensures CursorEvents([OpenCanvas(upperBlock)] + (if hideCursor then [CursorOff] else []))
         == if hideCursor then [CursorOff] else []
  {
    CursorEventsSingle(OpenCanvas(upperBlock));
    if hideCursor {
      CursorEventsPair(OpenCanvas(upperBlock), CursorOff);
      CursorEventsSingle(CursorOff);
      assert [OpenCanvas(upperBlock)] + [CursorOff] == [OpenCanvas(upperBlock), CursorOff];
    } else {
      assert [OpenCanvas(upperBlock)] + [] == [OpenCanvas(upperBlock)];
    }
  }

  /** After the files: the cursor on when it is hidden, then the new line
      after an interrupt. */
  lemma ClosingCursor(hideCursor: bool, interrupted: bool)
    ensures CursorEvents((if hideCursor then [CursorOn] else []) + (if interrupted then [NewLine] else []))
         == if hideCursor then [CursorOn] else []
  {
    CursorEventsSingle(CursorOn);
    CursorEventsSingle(NewLine);
    if hideCursor && interrupted {
      CursorEventsPair(CursorOn, NewLine);
      assert [CursorOn] + [NewLine] == [CursorOn, NewLine];
    } else if hideCursor {
      assert [CursorOn] + [] == [CursorOn];
    } else if interrupted {
      assert [] + [NewLine] == [NewLine];
    } else {
      assert CursorEvents([]) == [];
    }
  }

  /** The frame switches the cursor off before the files and on after them
      when it is hidden, and does not touch it otherwise. */
  lemma FramedCursor(upperBlock: bool, hideCursor: bool, interrupted: bool, fileEvents: seq<Event>)
    requires CursorEvents(fileEvents) == []
    ensures CursorEvents(Framed(upperBlock, hideCursor, interrupted, fileEvents))
         == if hideCursor then [CursorOff, CursorOn] else []
  {
    var before := [OpenCanvas(upperBlock)] + (if hideCursor then [CursorOff] else []);
    var after := (if hideCursor then [CursorOn] else []) + (if interrupted then [NewLine] else []);
    assert Framed(upperBlock, hideCursor, interrupted, fileEvents) == before + fileEvents + after;
    CursorEventsAround(before, fileEvents, after);
    OpeningCursor(upperBlock, hideCursor);
    ClosingCursor(hideCursor, interrupted);
    if hideCursor {
      assert [CursorOff] + [CursorOn] == [CursorOff, CursorOn];
    } else {
      var none: seq<Event> := [];
      assert none + none == none;
    }
  }

  /** The frame adds no load failure of its own. */
  lemma FramedFailures(upperBlock: bool, hideCursor: bool, interrupted: bool, fileEvents: seq<Event>)
    ensures forall e :: e in Framed(upperBlock, hideCursor, interrupted, fileEvents) && e.LoadFailed? ==> e in fileEvents
    ensures forall e :: e in fileEvents ==> e in Framed(upperBlock, hideCursor, interrupted, fileEvents)
  {
  }

  /** The frame around the events of the first `processed` files switches the
      cursor off and on once when it is hidden, and it holds a load failure exactly when one of those
      files fails. */
  lemma FramedRun(upperBlock: bool, interrupted: bool, s: Settings, files: seq<FileOutcome>,
                  processed: nat, exitCode: int)
    requires processed <= |files|
    requires exitCode == 1 <==> exists j :: 0 <= j < processed && Fails(s, files[j])
    ensures var ev := Framed(upperBlock, s.hideCursor, interrupted, FilesEvents(s, files[..processed]));
      CursorEvents(ev) == (if s.hideCursor then [CursorOff, CursorOn] else []) &&
      (exitCode == 1 <==> exists e :: e in ev && e.LoadFailed?)
  {
    var fileEvents := FilesEvents(s, files[..processed]);
    FilesEventsKeepCursor(s, files[..processed]);
    assert forall e :: e in fileEvents ==> !IsCursorEvent(e);
    NoCursorEvents(fileEvents);
    FramedCursor(upperBlock, s.hideCursor, interrupted, fileEvents);
    FramedFailures(upperBlock, s.hideCursor, interrupted, fileEvents);
    SomeLoadFailedExactly(s, files[..processed]);
    assert forall j :: 0 <= j < processed ==> files[..processed][j] == files[j];
  }

  /** All of `main`'s option handling: the `getopt` loop from the defaults,
      then the checks and derivations after it. */
  function HandleOptions(cols: int, rows: int, display: DisplayOptions, opts: seq<CommandOption>,
                         fileCount: nat): Parsed
  {
    match ParseAll(Defaults(cols, rows, display), opts)
    case Exit(code) => Exit(code)
    case Continue(t) => FinishOptions(t, fileCount)
  }

  /** `main`. `cols` and `rows` are what `ioctl` left in the zero-initialised
      `winsize`; `upperBlockEnv` is `TIMG_USE_UPPER_BLOCK`; `interrupt[i]` is the
      flag when the loop tests it before file `i`, and `interrupt[|files|]` its
      value after the last file (the handler only ever sets it). `processed` is
      the number of files the loop started. */
  method RunTimg(cols: int, rows: int, upperBlockEnv: Option<string>, display: DisplayOptions,
                 opts: seq<CommandOption>, files: seq<FileOutcome>, interrupt: seq<bool>)
    returns (exitCode: int, processed: nat, events: seq<Event>)
    requires |interrupt| > |files|
    ensures exitCode == 0 || exitCode == 1
    ensures events == [] <==> HandleOptions(cols, rows, display, opts, |files|).Exit?
    ensures ParseAll(Defaults(cols, rows, display), opts).Exit? ==>
      exitCode == ParseAll(Defaults(cols, rows, display), opts).code
    ensures ParseAll(Defaults(cols, rows, display), opts).Continue? &&
            FinishOptions(ParseAll(Defaults(cols, rows, display), opts).settings, |files|).Exit? ==>
      exitCode == 1
    ensures HandleOptions(cols, rows, display, opts, |files|).Exit? ==> processed == 0
    ensures processed <= |files|
    ensures forall j :: 0 <= j < processed ==> !interrupt[j]
    ensures HandleOptions(cols, rows, display, opts, |files|).Continue? ==>
      var s := HandleOptions(cols, rows, display, opts, |files|).settings;
      (processed == |files| || interrupt[processed]) &&
      events == Framed(GetBoolenEnv(upperBlockEnv), KeepCursor !in opts, interrupt[processed],
                       FilesEvents(s, files[..processed])) &&
      (exitCode == 1 <==> exists j :: 0 <= j < processed && Fails(s, files[j]))
    ensures events != [] ==> events[0] == OpenCanvas(GetBoolenEnv(upperBlockEnv))
    ensures events != [] ==> (exitCode == 1 <==> exists e :: e in events && e.LoadFailed?)
    ensures events != [] ==> CursorEvents(events) == if KeepCursor in opts then [] else [CursorOff, CursorOn]
  {
    var upperBlock := GetBoolenEnv(upperBlockEnv);
    var parsed := ParseAll(Defaults(cols, rows, display), opts);
    if parsed.Exit? {
      ParseExitsAtFirstTerminating(Defaults(cols, rows, display), opts);
      return parsed.code, 0, [];
    }
    var finished := FinishOptions(parsed.settings, |files|);
    if finished.Exit? {
      return 1, 0, [];
    }
    var s := finished.settings;
    HideCursorUnlessKept(Defaults(cols, rows, display), opts);
    assert s.hideCursor == parsed.settings.hideCursor;
    var fileEvents: seq<Event>;
    exitCode, processed, fileEvents := DispatchFiles(s, files, interrupt);
    events := Framed(upperBlock, s.hideCursor, interrupt[processed], fileEvents);

    FramedRun(upperBlock, interrupt[processed], s, files, processed, exitCode);
  }
}
