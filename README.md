# Screen capture plugin (Linux runner) — Dafny model

This project models the core of the Linux screenshot plugin in
`linux/runner/screen_capture.cc`: the method handler that captures the monitor
under the mouse cursor and answers with its width, height and RGBA pixels.

- `monitor_selection.dfy` (module `MonitorSelection`): the choice of the capture
  region. The first monitor whose half-open rectangle contains the cursor wins.
  Otherwise the first monitor is used. Otherwise the root window's size is used.
  `SelectRegion` follows the source step by step, including its `cap_w == 0`
  sentinel. `SelectCaptureRegion` is the search loop with its `break`, proved to
  compute `SelectRegion`.
- `pixel_conversion.dfy` (module `PixelConversion`): the conversion of packed
  `0xXXRRGGBB` words into R, G, B, 0xFF bytes. `ConvertPixels` allocates the
  byte array and fills it in a loop. It is proved equal to the pure `Rgba`.
- `screen_capture.dfy` (module `ScreenCapture`): `handle_capture_screen` with its
  early returns, and the dispatch on the method name in `method_call_cb`. What
  X11 and `malloc` return is an `Environment` value. Five foreign calls are
  recorded, in order, as a trace: `OpenDisplay`, `GetImage(region)`,
  `CloseDisplay`, `AllocatePixels(bytes)` and `DestroyImage`. These are the calls
  whose failure ends the handler, and the releases on those error paths.
  The trace shows the error ordering. `CaptureScreen` is the
  specification of the handler, path by path, and the lemmas beside it state
  the guarantees.
- `wrappers.dfy` (module `Wrappers`): an `Option` type for results that may be null.

Behaviour kept from the code where a plain description of the plugin would say otherwise:

- The out-of-memory error code is `"OOM"`, as the code sends it (line 91), not `OUT_OF_MEMORY`.
- Suppose no monitor contains the cursor and the first monitor has width 0. Then
  the root fallback at lines 67-72 replaces only the width and height. The
  region keeps the first monitor's origin rather than `(0, 0)`
  (`ZeroWidthFirstKeepsOrigin`).
- The display is closed right after the grab (line 78), before the image is
  checked. So `CAPTURE_FAILED` and `OOM` are both answered with the display
  already closed. The image is destroyed only on the `OOM` and success paths.
- Nothing forces a successful capture to have a positive width and height: a
  root window of size 0 gives an empty buffer.

## Model

| member | source | states |
|---|---|---|
| MonitorSelection.FirstContainingFrom | linux/runner/screen_capture.cc:44-55 | the search from index `from` returns the first index whose monitor contains the cursor, or None when no monitor from there on contains it |
| MonitorSelection.FirstContaining | linux/runner/screen_capture.cc:44-55 | the loop stops at the first monitor in enumeration order that contains the cursor, or at none when no monitor contains it |
| MonitorSelection.ContainedMeansPositiveWidth | linux/runner/screen_capture.cc:47-57 | a monitor that contains a point has positive width and height, so a found monitor is never mistaken for the `cap_w == 0` sentinel |
| MonitorSelection.SelectCaptureRegion | linux/runner/screen_capture.cc:38-72 | the loop with `break`, the first-monitor fallback and the root fallback compute exactly `SelectRegion` |
| MonitorSelection.FirstMatchWins | linux/runner/screen_capture.cc:44-55 | when monitor i contains the cursor and no earlier one does, the region is monitor i |
| MonitorSelection.EdgesAreOutside | linux/runner/screen_capture.cc:47-48 | containment is half-open: a cursor at `x == mx + mw` or `y == my + mh` is not inside the monitor |
| MonitorSelection.NoMatchTakesFirstMonitor | linux/runner/screen_capture.cc:56-62 | with monitors but none containing the cursor, and a first monitor of non-zero width, the region is the first monitor |
| MonitorSelection.ZeroWidthFirstKeepsOrigin | linux/runner/screen_capture.cc:56-72 | with no monitor containing the cursor and a first monitor of width 0, the region is the first monitor's origin with the root window's width and height |
| MonitorSelection.NoMonitorsTakesRoot | linux/runner/screen_capture.cc:38-43 | with no monitors the region is `(0, 0, root width, root height)` |
| MonitorSelection.RegionSizeComesFromInputs | linux/runner/screen_capture.cc:38-72 | the region's size is either the root window's size or the size of one of the monitors |
| MonitorSelection.RegionSizeNonNegative | linux/runner/screen_capture.cc:38-72 | monitors and a root window of non-negative size give a region of non-negative width and height |
| MonitorSelection.DualMonitorExamples | linux/runner/screen_capture.cc:43-72 | two side-by-side 1920x1080 monitors: the cursor at (100,100) selects the left one, at (2000,100) the right one, at (-50,-50) the first one; no monitors and a 2560x1440 root select `(0,0,2560,1440)` |
| PixelConversion.PixelToRgba | linux/runner/screen_capture.cc:98-102 | one pixel becomes four bytes whose last, the alpha, is 0xFF |
| PixelConversion.PackThenConvert | linux/runner/screen_capture.cc:98-102 | converting a word packed as `0xXXRRGGBB` gives back `[RR, GG, BB, 0xFF]` whatever the top byte XX |
| PixelConversion.TopByteIgnored | linux/runner/screen_capture.cc:98-102 | two words that agree on their low 24 bits convert to the same bytes |
| PixelConversion.ConvertExample | linux/runner/screen_capture.cc:98-102 | the word `0x00112233` converts to `[0x11, 0x22, 0x33, 0xFF]` |
| PixelConversion.Rgba | linux/runner/screen_capture.cc:87-88 | the converted buffer holds four bytes per word |
| PixelConversion.RgbaPixel | linux/runner/screen_capture.cc:97-103 | bytes `4i`, `4i+1`, `4i+2`, `4i+3` are bits 16-23, 8-15 and 0-7 of word i, then 0xFF |
| PixelConversion.AlphaOpaque | linux/runner/screen_capture.cc:102 | every byte at an offset `4i + 3` is 0xFF |
| PixelConversion.GroupsMakeRgba | linux/runner/screen_capture.cc:96-103 | a buffer of four bytes per word whose every group holds R, G, B and 0xFF of its word is exactly the converted buffer `Rgba` |
| PixelConversion.ConvertPixels | linux/runner/screen_capture.cc:87-103 | the loop allocates `numPixels * 4` bytes and leaves in them exactly the conversion of the first `numPixels` words; its invariant says every group written so far holds its pixel's R, G, B and 0xFF |
| ScreenCapture.PixelCountNonNegative | linux/runner/screen_capture.cc:87 | with non-negative monitor and root sizes, `cap_w * cap_h` is non-negative |
| ScreenCapture.HandleCaptureScreen | linux/runner/screen_capture.cc:20-116 | the handler with its early returns produces exactly the response and call order of `CaptureScreen` |
| ScreenCapture.MethodCallCb | linux/runner/screen_capture.cc:121-130 | `"captureScreen"` runs the capture; every other name is answered not-implemented, with no foreign call |
| ScreenCapture.NoDisplayStopsEarly | linux/runner/screen_capture.cc:21-26 | the answer is `NO_DISPLAY` exactly when the display does not open, and then no call follows `XOpenDisplay` |
| ScreenCapture.NullImageFailsCapture | linux/runner/screen_capture.cc:75-84 | the answer is `CAPTURE_FAILED` exactly when the display opens and the grab returns null; the display is then closed and nothing is allocated |
| ScreenCapture.AllocationFailureReleasesImage | linux/runner/screen_capture.cc:87-94 | the answer is `OOM` exactly when the grab succeeds and the allocation fails; the image is destroyed after the failed allocation and before the answer |
| ScreenCapture.SuccessShape | linux/runner/screen_capture.cc:87-115 | success happens exactly when all three foreign steps succeed; it has the selected region's size, `width * height * 4` bytes, that same byte count allocated, and the group of pixel i converted from word i |
| ScreenCapture.SuccessIsOpaque | linux/runner/screen_capture.cc:102 | every alpha byte of a successful capture is 0xFF |
| ScreenCapture.DisplayClosedOnEveryPath | linux/runner/screen_capture.cc:75-104 | once the display opens, the grab is followed by closing it exactly once, and the image is destroyed exactly when it was obtained |
| ScreenCapture.SameLayoutSameSize | linux/runner/screen_capture.cc:38-72 | two successful captures with the same monitors, cursor and root size have the same width and height |

## Left out

- The X11 and XRandR calls (`XOpenDisplay`, `XQueryPointer`, `XRRGetMonitors`, `XGetWindowAttributes`, `XGetImage`, `XDestroyImage`, `XCloseDisplay`) are foreign I/O. Their results are the fields of `Environment`.
- The queries `XQueryPointer`, `XRRGetMonitors` and `XGetWindowAttributes` are not trace events. None of them has an error path of its own. A null monitor list takes the no-monitor branch (line 43). The status results of `XQueryPointer` and `XGetWindowAttributes` are ignored (lines 34, 69).
- The releases `XRRFreeMonitors` (line 63) and `free(rgba)` (line 113) are not trace events. Neither one sits on an error path, and no response depends on them.
- A failed `XGetWindowAttributes` is outside the model. It leaves `attr` uninitialised (line 69), so `cap_w`/`cap_h` at lines 70-71 could hold any value. The model takes the root size as an input, and `ValidEnvironment` requires it to be non-negative.
- A null monitor list and an empty one take the same branch (line 43), so both are the empty sequence.
- If the pointer query cannot report a position, the source silently keeps `(0, 0)`. The cursor is an input, so this case is simply the input `(0, 0)`.
- The Flutter method-channel machinery is host-runtime plumbing with no logic: building the `FlValue` map, the `fl_method_call_respond_*` calls, `screenshot_plugin_register` and the global channel handle. The answer is the `Outcome` value.
- `malloc`/`free` and the cast of `image->data` are host memory details. The image is a sequence of 32-bit words already in native order. Allocation success is a boolean input.
- ScreenCapture.ValidEnvironment: C `int` overflow in `mx + mw` and `cap_w * cap_h * 4` is not modelled. Integers are mathematical. Monitor and root sizes are required to be non-negative, as the X server reports them, and a grabbed image must hold at least `cap_w * cap_h` words, since that is what the loop reads.
