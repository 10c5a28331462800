/** `YoungerThan` of `report/report.go`: an event is younger than a
    duration when its time, in Unix seconds, is after the Unix second of
    "now minus the duration", truncated to uint32. The clock reading is a
    parameter, in nanoseconds since the Unix epoch. */
module Window {
  import opened Ints
  import opened Ev

  const NANOS_PER_SECOND: int := 1_000_000_000

  /** `Time.Unix()`: whole seconds, rounded down (also before the epoch). */
  function UnixSeconds(nanos: int): int {
    nanos / NANOS_PER_SECOND
  }

  /** The time bound: `uint32(time.Now().Add(-d).Unix())`. */
  function Cutoff(d: int, nowNanos: int): uint32 {
    ToUint32(UnixSeconds(nowNanos - d))
  }

  function YoungerThan(e: Ev, d: int, nowNanos: int): bool {
    e.time > Cutoff(d, nowNanos)
  }

  /** While "now minus the duration" lies in the seconds a uint32 can
      count, an event is younger exactly when the start of its second is
      after that instant. */
  lemma YoungerMeansAfter(e: Ev, d: int, nowNanos: int)
    requires 0 <= nowNanos - d < TWO_TO_THE_32 * NANOS_PER_SECOND
    ensures YoungerThan(e, d, nowNanos) <==> e.time * NANOS_PER_SECOND > nowNanos - d
  {
    var x := nowNanos - d;
    var q := x / NANOS_PER_SECOND;
    assert x == q * NANOS_PER_SECOND + x % NANOS_PER_SECOND;
    assert 0 <= q < TWO_TO_THE_32;
    assert Cutoff(d, nowNanos) == q;
    if e.time > q {
      assert e.time * NANOS_PER_SECOND >= (q + 1) * NANOS_PER_SECOND;
    } else {
      assert e.time * NANOS_PER_SECOND <= q * NANOS_PER_SECOND;
    }
  }

  /** An event stamped with the cutoff second itself is not younger. */
  lemma AtCutoffNotYounger(e: Ev, d: int, nowNanos: int)
    requires e.time == Cutoff(d, nowNanos)
    ensures !YoungerThan(e, d, nowNanos)
  {
  }

  /** A later event is younger too. */
  lemma YoungerMonotone(e: Ev, e': Ev, d: int, nowNanos: int)
    requires YoungerThan(e, d, nowNanos) && e'.time >= e.time
    ensures YoungerThan(e', d, nowNanos)
  {
  }

  /** Only the event's time matters. */
  lemma YoungerOnlyTime(e: Ev, e': Ev, d: int, nowNanos: int)
    requires e'.time == e.time
    ensures YoungerThan(e', d, nowNanos) == YoungerThan(e, d, nowNanos)
  {
  }

  /** A longer duration reaches further back, while the cutoff does not
      wrap: whatever is younger than `d1` is younger than `d2 >= d1`. */
  lemma LongerWindowContains(e: Ev, d1: int, d2: int, nowNanos: int)
    requires d1 <= d2
    requires 0 <= nowNanos - d2 && nowNanos - d1 < TWO_TO_THE_32 * NANOS_PER_SECOND
    ensures YoungerThan(e, d1, nowNanos) ==> YoungerThan(e, d2, nowNanos)
  {
    YoungerMeansAfter(e, d1, nowNanos);
    YoungerMeansAfter(e, d2, nowNanos);
  }
}
