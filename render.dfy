/**
 * One iteration of the UI refresh loop: when the window holds samples, the
 * label shows the newest reading, point `i` of the chart's fixed list of
 * `MaxDataPoints` points becomes `(i, temperature_data[i])`, and the x-axis
 * bounds are recomputed from the window length.
 */
module Render {
  import Telemetry

  /** A chart point (`LineChartDataPoint`): slot index and temperature. */
  datatype Point = Point(x: int, y: real)

  /** The "current temperature" text: a placeholder, or the newest reading. */
  datatype Label = Waiting | Current(temp: Telemetry.Temperature)

  function Max(a: int, b: int): (r: int)
    ensures a <= r && b <= r && (r == a || r == b)
  {
    if a < b then b else a
  }

  /**
   * The x-axis range a tick sets for a window of `len` samples. The range is
   * always `MaxDataPoints` wide and contains every index of the window; for a
   * window that fits the deque it is exactly `[0, MaxDataPoints]`.
   */
  function AxisBounds(len: nat): (r: (int, int))
    ensures r.1 - r.0 == Telemetry.MaxDataPoints
    ensures 0 <= r.0 <= len <= r.1
    ensures len <= Telemetry.MaxDataPoints ==> r == (0, Telemetry.MaxDataPoints)
  {
    (Max(0, len - Telemetry.MaxDataPoints), Max(Telemetry.MaxDataPoints, len))
  }

  /** The points as first built: `(i, 0)` for every slot `i`. */
  function InitialPoints(n: nat): (r: seq<Point>)
    ensures |r| == n && forall i :: 0 <= i < n ==> r[i] == Point(i, 0.0)
  {
    seq(n, i => Point(i, 0.0))
  }

  /** `pts` with slot `i` overwritten by `(i, temps[i])` for each `i < |temps|`. */
  function Plotted(pts: seq<Point>, temps: seq<Telemetry.Temperature>): (r: seq<Point>)
    requires |temps| <= |pts|
    ensures |r| == |pts|
  {
    seq(|pts|, i requires 0 <= i < |pts| => if i < |temps| then Point(i, temps[i]) else pts[i])
  }

  /** `Plotted` slot by slot: the window's slots are overwritten, the rest kept. */
  lemma PlottedBySlot(before: seq<Point>, temps: seq<Telemetry.Temperature>, after: seq<Point>)
    requires |temps| <= |before| == |after|
    requires forall j :: 0 <= j < |temps| ==> after[j] == Point(j, temps[j])
    requires forall j :: |temps| <= j < |after| ==> after[j] == before[j]
    ensures after == Plotted(before, temps)
  {
  }

  /**
   * A tick over a window at least as long as the previous one overwrites
   * everything the previous tick wrote; in particular two ticks over the same
   * window leave the points as one tick does.
   */
  lemma PlottedAbsorbs(pts: seq<Point>, a: seq<Telemetry.Temperature>, b: seq<Telemetry.Temperature>)
    requires |a| <= |b| <= |pts|
    ensures Plotted(Plotted(pts, a), b) == Plotted(pts, b)
  {
  }

  /** The points after one tick over each window of `ticks`, in order. */
  function RepaintAll(pts: seq<Point>, ticks: seq<seq<Telemetry.Temperature>>): (r: seq<Point>)
    requires forall j :: 0 <= j < |ticks| ==> |ticks[j]| <= |pts|
    ensures |r| == |pts|
    decreases |ticks|
  {
    if ticks == [] then pts else RepaintAll(Plotted(pts, ticks[0]), ticks[1..])
  }

  /**
   * The deques never shrink, so successive ticks see windows of
   * non-decreasing length; then the chart shows exactly the latest window,
   * with every slot beyond it still as it was before the first tick.
   */
  lemma {:induction false} RepaintShowsLatest(pts: seq<Point>, ticks: seq<seq<Telemetry.Temperature>>)
    requires ticks != []
    requires forall j :: 0 <= j < |ticks| ==> |ticks[j]| <= |pts|
    requires forall i, j :: 0 <= i < j < |ticks| ==> |ticks[i]| <= |ticks[j]|
    ensures RepaintAll(pts, ticks) == Plotted(pts, ticks[|ticks| - 1])
    decreases |ticks|
  {
    var p := Plotted(pts, ticks[0]);
    assert RepaintAll(pts, ticks) == RepaintAll(p, ticks[1..]);
    if |ticks| > 1 {
      RepaintShowsLatest(p, ticks[1..]);
      PlottedAbsorbs(pts, ticks[0], ticks[|ticks| - 1]);
    } else {
      assert ticks[1..] == [];
    }
  }

  /**
   * From the initial points, after ticks over windows of non-decreasing
   * length, slot `i` holds sample `i` of the latest window, and every slot
   * the latest window does not reach is still drawn at `(i, 0)`.
   */
  lemma ChartAfterTicks(ticks: seq<seq<Telemetry.Temperature>>, i: nat)
    requires ticks != []
    requires forall j :: 0 <= j < |ticks| ==> |ticks[j]| <= Telemetry.MaxDataPoints
    requires forall j, k :: 0 <= j < k < |ticks| ==> |ticks[j]| <= |ticks[k]|
    requires i < Telemetry.MaxDataPoints
    ensures var last := ticks[|ticks| - 1];
      |RepaintAll(InitialPoints(Telemetry.MaxDataPoints), ticks)| == Telemetry.MaxDataPoints &&
      RepaintAll(InitialPoints(Telemetry.MaxDataPoints), ticks)[i] ==
        if i < |last| then Point(i, last[i]) else Point(i, 0.0)
  {
    RepaintShowsLatest(InitialPoints(Telemetry.MaxDataPoints), ticks);
  }

  /** The chart, its single data series' points, and the current-value label. */
  class Chart {
    /** `data_series.data_points`: the list object is never replaced. */
    const dataPoints: array<Point>
    var minX: int
    var maxX: int
    /** The y-range is configured once and never recomputed. */
    const minY: int
    const maxY: int
    var currentTemp: Label

    /**
     * The point list keeps `MaxDataPoints` slots whose x-coordinate is the
     * slot index, and the x-range stays `[0, MaxDataPoints]`.
     */
    ghost predicate Valid()
      reads this, dataPoints
    {
      dataPoints.Length == Telemetry.MaxDataPoints &&
      (forall i :: 0 <= i < dataPoints.Length ==> dataPoints[i].x == i) &&
      minX == 0 && maxX == Telemetry.MaxDataPoints
    }

    /** The chart as configured before the refresh loop starts. */
    constructor ()
      ensures Valid() && fresh(dataPoints)
      ensures dataPoints[..] == InitialPoints(Telemetry.MaxDataPoints)
      ensures minY == -50 && maxY == 100
      ensures currentTemp == Waiting
    {
      dataPoints := new Point[Telemetry.MaxDataPoints](i => Point(i, 0.0));
      minX, maxX := 0, Telemetry.MaxDataPoints;
      minY, maxY := -50, 100;
      currentTemp := Waiting;
    }

    /**
     * The body of one refresh over the samples `temps` of the window. On an
     * empty window nothing changes; otherwise slots below the window length
     * are overwritten with the window's samples, the others are left alone,
     * the label shows the newest sample and the axis bounds follow the length.
     */
    method Plot(temps: seq<Telemetry.Temperature>)
      requires Valid() && |temps| <= Telemetry.MaxDataPoints
      modifies this, dataPoints
      ensures Valid()
      ensures dataPoints[..] == Plotted(old(dataPoints[..]), temps)
      ensures forall i :: 0 <= i < |temps| ==> dataPoints[i] == Point(i, temps[i])
      ensures forall i :: |temps| <= i < dataPoints.Length ==> dataPoints[i] == old(dataPoints[i])
      ensures temps == [] ==> currentTemp == old(currentTemp) && minX == old(minX) && maxX == old(maxX)
      ensures temps != [] ==>
        currentTemp == Current(temps[|temps| - 1]) && (minX, maxX) == AxisBounds(|temps|)
    {
      var n := |temps|;
      ghost var before := dataPoints[..];
      if n > 0 {
        currentTemp := Current(temps[n - 1]);
        var i := 0;
        while i < n
          modifies dataPoints
          invariant 0 <= i <= n
          invariant forall j :: 0 <= j < i ==> dataPoints[j] == Point(j, temps[j])
          invariant forall j :: i <= j < dataPoints.Length ==> dataPoints[j] == before[j]
        {
          dataPoints[i] := Point(i, temps[i]);
          i := i + 1;
        }
        var bounds := AxisBounds(n);
        minX, maxX := bounds.0, bounds.1;
      }
      PlottedBySlot(before, temps, dataPoints[..]);
    }

    /**
     * One iteration of the refresh loop over the window `w`: it plots the
     * window's current samples and only reads `w`.
     */
    method Tick(w: Telemetry.Window)
      requires Valid() && w.Valid()
      modifies this, dataPoints
      ensures Valid()
      ensures unchanged(w)
      ensures dataPoints[..] == Plotted(old(dataPoints[..]), w.temperatureData)
      ensures forall i :: 0 <= i < |w.temperatureData| ==> dataPoints[i] == Point(i, w.temperatureData[i])
      ensures forall i :: |w.temperatureData| <= i < dataPoints.Length ==> dataPoints[i] == old(dataPoints[i])
      ensures w.temperatureData == [] ==> currentTemp == old(currentTemp) && minX == old(minX) && maxX == old(maxX)
      ensures w.temperatureData != [] ==>
        currentTemp == Current(w.temperatureData[|w.temperatureData| - 1]) &&
        (minX, maxX) == AxisBounds(|w.temperatureData|)
    {
      Plot(w.temperatureData);
    }
  }
}
