/**
 * The screenshot plugin's method handler (linux/runner/screen_capture.cc):
 * handle_capture_screen (lines 20-116) and the dispatch on the method name in
 * method_call_cb (lines 121-130). What X11 and malloc return is given as an
 * Environment; the foreign calls that acquire or release something, or that can
 * fail, are recorded as a trace of events in the order they are made.
 */
module ScreenCapture {
  import opened Wrappers
  import opened MonitorSelection
  import opened PixelConversion

  /** What the foreign calls of one capture return. */
  datatype Environment = Environment(
    displayOpens: bool,          // XOpenDisplay returns a display (line 21)
    cursor: Point,               // XQueryPointer's root coordinates (lines 34-35)
    monitors: seq<Monitor>,      // XRRGetMonitors; a null list is [] (lines 40-43)
    rootWidth: int,              // XGetWindowAttributes of the root (lines 68-71)
    rootHeight: int,
    image: Option<seq<bv32>>,    // XGetImage: None for null, else the packed words (lines 75-80, 96)
    allocates: bool)             // malloc of the RGBA buffer succeeds (lines 88-89)

  /** The foreign calls whose order the handler guarantees. */
  datatype Event =
    | OpenDisplay
    | GetImage(region: Region)
    | CloseDisplay
    | AllocatePixels(bytes: int)
    | DestroyImage

  /** The response sent back over the method channel. */
  datatype Outcome =
    | Success(width: int, height: int, pixels: seq<bv8>)
    | Error(code: string, message: string)
    | NotImplemented

  datatype Response = Response(outcome: Outcome, trace: seq<Event>)

  /** The name that selects the capture (line 125). */
  const CaptureScreenMethod := "captureScreen"

  function RegionFor(env: Environment): Region {
    SelectRegion(env.monitors, env.cursor, env.rootWidth, env.rootHeight)
  }

  function PixelCount(env: Environment): int {
    RegionFor(env).width * RegionFor(env).height
  }

  /**
   * What the X server guarantees and the conversion loop relies on: sizes are
   * non-negative, and a grabbed image holds at least cap_w * cap_h packed words.
   */
  predicate ValidEnvironment(env: Environment) {
    && (forall m :: m in env.monitors ==> m.width >= 0 && m.height >= 0)
    && env.rootWidth >= 0 && env.rootHeight >= 0
    && (env.image.Some? ==> |env.image.value| >= PixelCount(env))
  }

  lemma PixelCountNonNegative(env: Environment)
    requires ValidEnvironment(env)
    ensures PixelCount(env) >= 0
  {
  }

  /** The response handle_capture_screen produces, path by path. */
  function CaptureScreen(env: Environment): Response
    requires ValidEnvironment(env)
  {
    if !env.displayOpens then
      Response(Error("NO_DISPLAY", "Cannot open X display"), [OpenDisplay])
    else
      var region := RegionFor(env);
      var grabbed := [OpenDisplay, GetImage(region), CloseDisplay];
      match env.image
      case None =>
        Response(Error("CAPTURE_FAILED", "XGetImage returned null"), grabbed)
      case Some(words) =>
        PixelCountNonNegative(env);
        var n := PixelCount(env);
        if !env.allocates then
          Response(Error("OOM", "malloc failed"), grabbed + [AllocatePixels(n * 4), DestroyImage])
        else
          Response(Success(region.width, region.height, Rgba(words[..n])),
                   grabbed + [AllocatePixels(n * 4), DestroyImage])
  }

  /** handle_capture_screen with its early returns. */
  method HandleCaptureScreen(env: Environment) returns (resp: Response)
    requires ValidEnvironment(env)
    ensures resp == CaptureScreen(env)
  {
    var trace := [OpenDisplay];
    if !env.displayOpens {
      return Response(Error("NO_DISPLAY", "Cannot open X display"), trace);
    }
    var region := SelectCaptureRegion(env.monitors, env.cursor, env.rootWidth, env.rootHeight);
    trace := trace + [GetImage(region)];
    var image := env.image;
    trace := trace + [CloseDisplay];
    if image.None? {
      return Response(Error("CAPTURE_FAILED", "XGetImage returned null"), trace);
    }
    PixelCountNonNegative(env);
    var numPixels := region.width * region.height;
    trace := trace + [AllocatePixels(numPixels * 4)];
    if !env.allocates {
      trace := trace + [DestroyImage];
      return Response(Error("OOM", "malloc failed"), trace);
    }
    var rgba := ConvertPixels(image.value, numPixels);
    trace := trace + [DestroyImage];
    resp := Response(Success(region.width, region.height, rgba[..]), trace);
  }

  /** method_call_cb: "captureScreen" runs the capture, any other name is not implemented. */
  method MethodCallCb(name: string, env: Environment) returns (resp: Response)
    requires name == CaptureScreenMethod ==> ValidEnvironment(env)
    ensures name == CaptureScreenMethod ==> resp == CaptureScreen(env)
    ensures name != CaptureScreenMethod ==> resp == Response(NotImplemented, [])
  {
    if name == CaptureScreenMethod {
      resp := HandleCaptureScreen(env);
    } else {
      resp := Response(NotImplemented, []);
    }
  }

  /** A display failure answers NO_DISPLAY and makes no call after XOpenDisplay. */
  lemma NoDisplayStopsEarly(env: Environment)
    requires ValidEnvironment(env)
    ensures CaptureScreen(env).outcome.Error? && CaptureScreen(env).outcome.code == "NO_DISPLAY"
            <==> !env.displayOpens
    ensures !env.displayOpens ==> CaptureScreen(env).trace == [OpenDisplay]
  {
  }

  /** A null image answers CAPTURE_FAILED after the display is closed, and nothing is allocated. */
  lemma NullImageFailsCapture(env: Environment)
    requires ValidEnvironment(env)
    ensures CaptureScreen(env).outcome.Error? && CaptureScreen(env).outcome.code == "CAPTURE_FAILED"
            <==> env.displayOpens && env.image.None?
    ensures env.displayOpens && env.image.None? ==>
              CaptureScreen(env).trace == [OpenDisplay, GetImage(RegionFor(env)), CloseDisplay]
  {
  }

  /** An allocation failure answers OOM, and the image is destroyed before the answer. */
  lemma AllocationFailureReleasesImage(env: Environment)
    requires ValidEnvironment(env)
    ensures CaptureScreen(env).outcome.Error? && CaptureScreen(env).outcome.code == "OOM"
            <==> env.displayOpens && env.image.Some? && !env.allocates
    ensures env.displayOpens && env.image.Some? && !env.allocates ==>
              var t := CaptureScreen(env).trace;
              |t| == 5 && t[3] == AllocatePixels(PixelCount(env) * 4) && t[4] == DestroyImage
  {
  }

  /**
   * A successful capture has the selected region's size and exactly width * height * 4
   * bytes, pixel i converted from the i-th image word.
   */
  lemma SuccessShape(env: Environment)
    requires ValidEnvironment(env)
    ensures CaptureScreen(env).outcome.Success? <==> env.displayOpens && env.image.Some? && env.allocates
    ensures CaptureScreen(env).outcome.Success? ==>
              var o := CaptureScreen(env).outcome;
              && o.width == RegionFor(env).width && o.height == RegionFor(env).height
              && |o.pixels| == o.width * o.height * 4
              && CaptureScreen(env).trace[3] == AllocatePixels(|o.pixels|)
              && forall i :: 0 <= i < o.width * o.height ==>
                   PixelWritten(o.pixels, i, env.image.value[i])
  {
    if CaptureScreen(env).outcome.Success? {
      var o := CaptureScreen(env).outcome;
      PixelCountNonNegative(env);
      var n := PixelCount(env);
      assert n == o.width * o.height;
      var words := env.image.value[..n];
      assert o.pixels == Rgba(words) && |words| == n;
      forall i | 0 <= i < n
        ensures PixelWritten(o.pixels, i, env.image.value[i])
      {
        RgbaPixel(words, i);
      }
    }
  }

  /** In every successful capture every alpha byte is 0xFF. */
  lemma SuccessIsOpaque(env: Environment, k: nat)
    requires ValidEnvironment(env)
    requires CaptureScreen(env).outcome.Success?
    requires k < |CaptureScreen(env).outcome.pixels| && k % 4 == 3
    ensures CaptureScreen(env).outcome.pixels[k] == 0xFF
  {
    var words := env.image.value[..PixelCount(env)];
    AlphaOpaque(words, k);
  }

  /** Once the display opened, it is closed exactly once, right after the grab, on every path. */
  lemma DisplayClosedOnEveryPath(env: Environment)
    requires ValidEnvironment(env) && env.displayOpens
    ensures var t := CaptureScreen(env).trace;
      |t| >= 3 && t[..3] == [OpenDisplay, GetImage(RegionFor(env)), CloseDisplay] &&
      CloseDisplay !in t[3..] && (DestroyImage in t <==> env.image.Some?)
  {
  }

  /** Two successful captures with the same layout, cursor and root size have the same size. */
  lemma SameLayoutSameSize(env1: Environment, env2: Environment)
    requires ValidEnvironment(env1) && ValidEnvironment(env2)
    requires env1.monitors == env2.monitors && env1.cursor == env2.cursor
    requires env1.rootWidth == env2.rootWidth && env1.rootHeight == env2.rootHeight
    requires CaptureScreen(env1).outcome.Success? && CaptureScreen(env2).outcome.Success?
    ensures CaptureScreen(env1).outcome.width == CaptureScreen(env2).outcome.width
    ensures CaptureScreen(env1).outcome.height == CaptureScreen(env2).outcome.height
  {
  }
}
