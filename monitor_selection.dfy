/**
 * Choice of the capture region in handle_capture_screen
 * (linux/runner/screen_capture.cc, lines 38-72): the first monitor that contains
 * the cursor, else the first monitor, else the root window. The locals
 * cap_x/cap_y/cap_w/cap_h start at zero and `cap_w == 0` stands for "nothing chosen yet".
 */
module MonitorSelection {
  import opened Wrappers

  /** One entry of the XRandR monitor list: origin and size in root-window coordinates. */
  datatype Monitor = Monitor(x: int, y: int, width: int, height: int)

  /** The cursor position reported by the pointer query. */
  datatype Point = Point(x: int, y: int)

  /** The rectangle handed to the pixel grab (cap_x, cap_y, cap_w, cap_h). */
  datatype Region = Region(x: int, y: int, width: int, height: int)

  /** Half-open containment, the condition at lines 47-48. */
  predicate Contains(m: Monitor, p: Point) {
    p.x >= m.x && p.x < m.x + m.width &&
    p.y >= m.y && p.y < m.y + m.height
  }

  function RegionOf(m: Monitor): Region {
    Region(m.x, m.y, m.width, m.height)
  }

  /** Index of the first monitor at or after `from` that contains `p`. */
  function FirstContainingFrom(monitors: seq<Monitor>, p: Point, from: nat): (r: Option<nat>)
    requires from <= |monitors|
    ensures r.Some? ==> from <= r.value < |monitors| && Contains(monitors[r.value], p)
    ensures r.Some? ==> forall j :: from <= j < r.value ==> !Contains(monitors[j], p)
    ensures r.None? ==> forall j :: from <= j < |monitors| ==> !Contains(monitors[j], p)
    decreases |monitors| - from
  {
    if from == |monitors| then None
    else if Contains(monitors[from], p) then Some(from)
    else FirstContainingFrom(monitors, p, from + 1)
  }

  /** The monitor the search loop at lines 44-55 stops at, if any. */
  function FirstContaining(monitors: seq<Monitor>, p: Point): (r: Option<nat>)
    ensures r.Some? ==> r.value < |monitors| && Contains(monitors[r.value], p)
    ensures r.Some? ==> forall j :: 0 <= j < r.value ==> !Contains(monitors[j], p)
    ensures r.None? ==> forall j :: 0 <= j < |monitors| ==> !Contains(monitors[j], p)
  {
    FirstContainingFrom(monitors, p, 0)
  }

  /** A monitor that contains some point has a positive width, so a hit never looks like the sentinel. */
  lemma ContainedMeansPositiveWidth(m: Monitor, p: Point)
    requires Contains(m, p)
    ensures m.width > 0 && m.height > 0
  {
  }

  /**
   * The region lines 38-72 compute, step by step as the source does: the search result
   * (or the all-zero initial value), then the first monitor if cap_w is still 0, then the
   * root size for cap_w/cap_h only if cap_w is still 0.
   */
  function SelectRegion(monitors: seq<Monitor>, cursor: Point, rootWidth: int, rootHeight: int): Region {
    var searched :=
      if |monitors| > 0 then
        match FirstContaining(monitors, cursor)
        case Some(i) => RegionOf(monitors[i])
        case None => Region(0, 0, 0, 0)
      else Region(0, 0, 0, 0);
    var withFirst :=
      if |monitors| > 0 && searched.width == 0 then RegionOf(monitors[0]) else searched;
    if withFirst.width == 0 then withFirst.(width := rootWidth, height := rootHeight) else withFirst
  }

  /** The loop of lines 38-72 with its `break`, proved to compute SelectRegion. */
  method SelectCaptureRegion(monitors: seq<Monitor>, cursor: Point, rootWidth: int, rootHeight: int)
    returns (r: Region)
    ensures r == SelectRegion(monitors, cursor, rootWidth, rootHeight)
  {
    var capX, capY, capW, capH := 0, 0, 0, 0;
    if |monitors| > 0 {
      var i := 0;
      while i < |monitors|
        invariant 0 <= i <= |monitors|
        invariant forall j :: 0 <= j < i ==> !Contains(monitors[j], cursor)
        invariant capX == 0 && capY == 0 && capW == 0 && capH == 0
      {
        var m := monitors[i];
        if cursor.x >= m.x && cursor.x < m.x + m.width &&
           cursor.y >= m.y && cursor.y < m.y + m.height {
          capX, capY, capW, capH := m.x, m.y, m.width, m.height;
          assert FirstContaining(monitors, cursor) == Some(i);
          break;
        }
        i := i + 1;
      }
      if capW == 0 {
        capX, capY, capW, capH := monitors[0].x, monitors[0].y, monitors[0].width, monitors[0].height;
      }
    }
    if capW == 0 {
      capW, capH := rootWidth, rootHeight;
    }
    r := Region(capX, capY, capW, capH);
  }

  /** When some monitor contains the cursor, the region is the first such monitor. */
  lemma FirstMatchWins(monitors: seq<Monitor>, cursor: Point, rootWidth: int, rootHeight: int, i: nat)
    requires i < |monitors| && Contains(monitors[i], cursor)
    requires forall j :: 0 <= j < i ==> !Contains(monitors[j], cursor)
    ensures SelectRegion(monitors, cursor, rootWidth, rootHeight) == RegionOf(monitors[i])
  {
    ContainedMeansPositiveWidth(monitors[i], cursor);
  }

  /** Containment is half-open: the right and bottom edges are outside the monitor. */
  lemma EdgesAreOutside(m: Monitor, p: Point)
    requires p.x == m.x + m.width || p.y == m.y + m.height
    ensures !Contains(m, p)
  {
  }

  /** No monitor contains the cursor and the first has a non-zero width: the first monitor. */
  lemma NoMatchTakesFirstMonitor(monitors: seq<Monitor>, cursor: Point, rootWidth: int, rootHeight: int)
    requires |monitors| > 0 && monitors[0].width != 0
    requires forall j :: 0 <= j < |monitors| ==> !Contains(monitors[j], cursor)
    ensures SelectRegion(monitors, cursor, rootWidth, rootHeight) == RegionOf(monitors[0])
  {
  }

  /**
   * No monitor contains the cursor and the first has width 0: the root fallback replaces
   * only the width and height, so the origin stays that of the first monitor.
   */
  lemma ZeroWidthFirstKeepsOrigin(monitors: seq<Monitor>, cursor: Point, rootWidth: int, rootHeight: int)
    requires |monitors| > 0 && monitors[0].width == 0
    requires forall j :: 0 <= j < |monitors| ==> !Contains(monitors[j], cursor)
    ensures SelectRegion(monitors, cursor, rootWidth, rootHeight) ==
            Region(monitors[0].x, monitors[0].y, rootWidth, rootHeight)
  {
  }

  /** Without monitors the region is the whole root window. */
  lemma NoMonitorsTakesRoot(cursor: Point, rootWidth: int, rootHeight: int)
    ensures SelectRegion([], cursor, rootWidth, rootHeight) == Region(0, 0, rootWidth, rootHeight)
  {
  }

  /** The region always has the size of a monitor or of the root window. */
  lemma RegionSizeComesFromInputs(monitors: seq<Monitor>, cursor: Point, rootWidth: int, rootHeight: int)
    ensures var r := SelectRegion(monitors, cursor, rootWidth, rootHeight);
      (r.width, r.height) == (rootWidth, rootHeight) ||
      exists i :: 0 <= i < |monitors| && (r.width, r.height) == (monitors[i].width, monitors[i].height)
  {
  }

  /** Monitors and a root window of non-negative size give a region of non-negative size. */
  lemma RegionSizeNonNegative(monitors: seq<Monitor>, cursor: Point, rootWidth: int, rootHeight: int)
    requires forall m :: m in monitors ==> m.width >= 0 && m.height >= 0
    requires rootWidth >= 0 && rootHeight >= 0
    ensures var r := SelectRegion(monitors, cursor, rootWidth, rootHeight);
      r.width >= 0 && r.height >= 0
  {
  }

  /** A side-by-side pair of 1920x1080 monitors, the cursor on the left, on the right, and off both. */
  lemma DualMonitorExamples()
    ensures var ms := [Monitor(0, 0, 1920, 1080), Monitor(1920, 0, 1920, 1080)];
      SelectRegion(ms, Point(100, 100), 5000, 5000) == Region(0, 0, 1920, 1080) &&
      SelectRegion(ms, Point(2000, 100), 5000, 5000) == Region(1920, 0, 1920, 1080) &&
      SelectRegion(ms, Point(-50, -50), 5000, 5000) == Region(0, 0, 1920, 1080) &&
      SelectRegion([], Point(100, 100), 2560, 1440) == Region(0, 0, 2560, 1440)
  {
  }
}
