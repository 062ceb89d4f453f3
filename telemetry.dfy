/**
 * The shared sample window of the temperature monitor: the two module-level
 * deques `temperature_data` and `timestamps`, both created with
 * `maxlen=MAX_DATA_POINTS`, and the MQTT message callback that feeds them.
 */
module Telemetry {
  import opened Wrappers
  import BoundedDeque

  /** `MAX_DATA_POINTS`: the capacity of both deques and the chart's width. */
  const MaxDataPoints: nat := 50

  type Temperature = real
  /** A reading of the wall clock, in seconds; its value is opaque here. */
  type Seconds = real
  /** The raw bytes of an MQTT message payload. */
  type Payload = seq<bv8>

  class Window {
    var temperatureData: seq<Temperature>
    var timestamps: seq<Seconds>
    /** Every reading ever appended, and the time each was appended at. */
    ghost var received: seq<Temperature>
    ghost var receivedAt: seq<Seconds>

    /**
     * Each deque holds the last `MaxDataPoints` of everything appended to it,
     * and the two have always been appended together.
     */
    ghost predicate Valid()
      reads this
      ensures Valid() ==> |temperatureData| == |timestamps| <= MaxDataPoints
    {
      |received| == |receivedAt| &&
      temperatureData == BoundedDeque.LastN(received, MaxDataPoints) &&
      timestamps == BoundedDeque.LastN(receivedAt, MaxDataPoints)
    }

    /** Both deques start empty. */
    constructor ()
      ensures Valid()
      ensures temperatureData == [] && timestamps == []
      ensures received == [] && receivedAt == []
    {
      temperatureData, timestamps := [], [];
      received, receivedAt := [], [];
    }

    /**
     * Appends a reading and its time to the two deques; a full deque drops its
     * oldest entry first.
     */
    method Append(temp: Temperature, now: Seconds)
      requires Valid()
      modifies this
      ensures Valid()
      ensures received == old(received) + [temp] && receivedAt == old(receivedAt) + [now]
      ensures temperatureData == BoundedDeque.Append(old(temperatureData), temp, MaxDataPoints)
      ensures timestamps == BoundedDeque.Append(old(timestamps), now, MaxDataPoints)
      ensures temperatureData[|temperatureData| - 1] == temp
      ensures timestamps[|timestamps| - 1] == now
    {
      BoundedDeque.LastNAbsorbs(received, [temp], MaxDataPoints);
      BoundedDeque.LastNAbsorbs(receivedAt, [now], MaxDataPoints);
      temperatureData := BoundedDeque.Append(temperatureData, temp, MaxDataPoints);
      timestamps := BoundedDeque.Append(timestamps, now, MaxDataPoints);
      received := received + [temp];
      receivedAt := receivedAt + [now];
    }

    /**
     * The message callback. `parse` stands for decoding the payload and
     * converting it with `float()`; `now` is the value the clock returns.
     * A payload that does not parse is only logged: nothing is appended.
     */
    method OnMessage(payload: Payload, parse: Payload -> Option<Temperature>, now: Seconds)
      requires Valid()
      modifies this
      ensures Valid()
      ensures parse(payload).None? ==>
        temperatureData == old(temperatureData) && timestamps == old(timestamps) &&
        received == old(received) && receivedAt == old(receivedAt)
      ensures parse(payload).Some? ==>
        received == old(received) + [parse(payload).value] &&
        receivedAt == old(receivedAt) + [now] &&
        temperatureData == BoundedDeque.Append(old(temperatureData), parse(payload).value, MaxDataPoints) &&
        timestamps == BoundedDeque.Append(old(timestamps), now, MaxDataPoints) &&
        temperatureData[|temperatureData| - 1] == parse(payload).value &&
        timestamps[|timestamps| - 1] == now
    {
      match parse(payload)
      case Some(temp) =>
        Append(temp, now);
      case None =>
    }
  }
}
