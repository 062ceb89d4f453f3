# Live MQTT temperature monitor — verified model of its sample window

The monitor subscribes to an MQTT topic carrying temperature readings. It keeps
the most recent `MAX_DATA_POINTS` (50) readings and their arrival times in two
bounded deques. A UI thread redraws a line chart of them twice a second. This
Dafny project models that core as sequential steps:

- `deque.dfy` (module `BoundedDeque`): how `deque(maxlen=k).append` behaves,
  on sequences. `LastN` is the reference definition ("the last `k` of
  everything appended"), and lemmas relate repeated appends to it.
- `telemetry.dfy` (module `Telemetry`): class `Window`, the two module-level
  deques `temperature_data` and `timestamps`. It has `Append` and the message
  callback `OnMessage`. Ghost fields record every reading ever appended.
  `Valid()` says that each deque is the last 50 of that history and that the
  two deques have the same length, at most 50.
- `render.dfy` (module `Render`): class `Chart`, holding the fixed 50-slot
  point array, the x-axis bounds, the y-axis constants and the current-value
  label. `Tick` is one pass of the body of the refresh loop; it reads the
  window and hands its samples to `Plot`, which does the drawing. `Plotted` and
  `RepaintAll` describe the points after one tick and after many ticks.
- `wrappers.dfy`: the `Option` type that the abstract payload parser returns.

Behaviour of the code that the model makes explicit:

- The x-range does not follow the window. For any window of at most 50
  samples the bounds are `[0, 50]` (`Render.AxisBounds`), because
  `max(0, len - 50)` and `max(50, len)` are constant while `len <= 50`.
- The point list always has 50 entries. Slots beyond the window keep their
  initial `(i, 0)` (`Render.ChartAfterTicks`).
- The deques are shared between the MQTT thread and the UI thread without a
  lock. The model treats every operation as one atomic step.

## Model

| member | source | states |
|---|---|---|
| BoundedDeque.LastN | src/flet_mqtt_tempgraph.py:13-14 | the retained window is a suffix of the input of length `min(len, maxlen)` |
| BoundedDeque.Append | src/flet_mqtt_tempgraph.py:13-14 | `append` on a bounded deque equals keeping the last `maxlen` of old contents plus the new element; length never shrinks and never exceeds `maxlen`; the newest element is the appended one (a `maxlen` 0 deque stays empty) |
| BoundedDeque.LastNOfSuffix | src/flet_mqtt_tempgraph.py:13 | a long enough suffix has the same last `k` elements as the whole sequence |
| BoundedDeque.LastNAbsorbs | src/flet_mqtt_tempgraph.py:13 | evicting early does not change the window: `LastN(LastN(a) + b) == LastN(a + b)` |
| BoundedDeque.AppendAll | src/flet_mqtt_tempgraph.py:10-14 | after any run of successive appends (lines 25-26, one per message) the deque holds the last `min(n, maxlen)` values in arrival order |
| BoundedDeque.CapacityThreeScenario | src/flet_mqtt_tempgraph.py:13 | capacity 3 fed 21, 22, 23, 24 holds 22, 23, 24 |
| Telemetry.Window.Valid | src/flet_mqtt_tempgraph.py:13-14 | the deque invariant: each deque is the last 50 of everything appended to it, and the two have equal length, at most 50 |
| Telemetry.Window.constructor | src/flet_mqtt_tempgraph.py:13-14 | both deques start empty, with no history |
| Telemetry.Window.Append | src/flet_mqtt_tempgraph.py:25-26 | both deques get one bounded append; the newest reading and timestamp are the given ones; the invariant (last 50 of history, equal lengths, at most 50) is kept |
| Telemetry.Window.OnMessage | src/flet_mqtt_tempgraph.py:21-28 | a payload that does not parse leaves both deques and the history unchanged; a parsed one appends the value and the supplied time, which become the newest entries |
| Render.AxisBounds | src/flet_mqtt_tempgraph.py:104-105 | the x-range is always 50 wide and contains every window index; for a window of at most 50 samples it is exactly `[0, 50]` |
| Render.InitialPoints | src/flet_mqtt_tempgraph.py:71-73 | the initial list has `n` points, point `i` being `(i, 0)` |
| Render.Plotted | src/flet_mqtt_tempgraph.py:100-101 | the closed form of the `enumerate` loop; its contract says the list keeps its length, and `Render.Chart.Plot`'s ensures give the slot-wise reading (slot `i < len` becomes `(i, temps[i])`, the rest is kept) |
| Render.RepaintAll | src/flet_mqtt_tempgraph.py:94-101 | the points after a sequence of loop iterations, one tick per window; the list keeps its length |
| Render.PlottedAbsorbs | src/flet_mqtt_tempgraph.py:100-101 | a tick over a window at least as long as the last one overwrites all the last one wrote (so repeating a tick is idempotent) |
| Render.RepaintShowsLatest | src/flet_mqtt_tempgraph.py:94-101 | over windows of non-decreasing length, the points after many ticks are those after one tick over the latest window |
| Render.ChartAfterTicks | src/flet_mqtt_tempgraph.py:71-73 | starting from the initial points, slot `i` shows sample `i` of the latest window, or `(i, 0)` beyond its length |
| Render.Chart.constructor | src/flet_mqtt_tempgraph.py:52-74 | 50 points `(i, 0)`, x-range `[0, 50]`, y-range `[-50, 100]`, label waiting for data |
| Render.Chart.Plot | src/flet_mqtt_tempgraph.py:95-105 | on an empty window nothing changes; otherwise `dataPoints[i] == (i, temperature_data[i])` for `i < len`, every other slot is untouched, the label shows the newest sample, and the axis bounds are `AxisBounds(len)`; every write is in bounds and the chart invariant (slot x equals index, x-range `[0, 50]`) is kept |
| Render.Chart.Tick | src/flet_mqtt_tempgraph.py:94-105 | one loop iteration over the shared window: the same outcome as `Plot` on the window's samples, and the window itself is left unchanged |

## Left out

- MQTT client setup, `on_connect`/`subscribe`, `connect` and `loop_forever`, with the broker and topic constants: network I/O through a foreign library.
- The background threads and the unsynchronised sharing of the deques between them: concurrency. Each callback and each tick is one sequential step.
- The `while True` loop with `time.sleep(0.5)`: one iteration is `Chart.Tick`, and a sequence of iterations is `RepaintAll`.
- Flet page layout, styling, `chart.update()`, `current_temp.update()` and `ft.app`: presentation through a foreign library.
- Payload decoding and `float()` parsing: `OnMessage` takes them as an abstract function from payload bytes to an optional reading.
- The `:.1f` formatting of the label: the label holds the reading itself.
- `time.time()`: the time is an input parameter of `OnMessage`, an opaque real.
- Python floats, both readings and times, are modelled as `real`. `float()` also accepts `inf` and `nan`, which have no `real` counterpart. Nothing in the core computes on these values.
- The `print` diagnostics: logging with no effect on state.
