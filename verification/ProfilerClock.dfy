/** Unwrapping of the 32-bit cycle counter by the profiler host. */
module ProfilerClock {

  const RAW_MAX: nat := 0x1_0000_0000

  datatype Clock = Clock(overflows: nat, afterHalf: bool)

  const FRESH := Clock(0, false)

  /** The host compares against 0.2, 0.6 and 0.9 of the range; no counter value lies on a threshold, so
      scaling by ten states the same comparisons over integers. */
  function Observe(c: Clock, raw: nat): Clock {
    var c := if c.afterHalf && 10 * raw < 2 * RAW_MAX then Clock(c.overflows + 1, false) else c;
    if 10 * raw > 6 * RAW_MAX && 10 * raw < 9 * RAW_MAX then c.(afterHalf := true) else c
  }

  /** The thresholds as counter values: 0.2, 0.6 and 0.9 of the range lie between two of them each. */
  lemma Thresholds(c: Clock, raw: nat)
    ensures var d := Observe(c, raw);
            && d.overflows == c.overflows + (if c.afterHalf && raw <= 858993459 then 1 else 0)
            && (d.afterHalf <==> 2576980378 <= raw <= 3865470566 || (c.afterHalf && raw > 858993459))
  {}

  /** The host's clock after the events at the given true ticks. */
  function ObserveAll(ticks: seq<nat>): Clock {
    if ticks == [] then FRESH
    else Observe(ObserveAll(ticks[..|ticks| - 1]), ticks[|ticks| - 1] % RAW_MAX)
  }

  /** The tick the host computes for the last event. */
  function Computed(ticks: seq<nat>): nat
    requires ticks != []
  {
    ticks[|ticks| - 1] % RAW_MAX + ObserveAll(ticks).overflows * RAW_MAX
  }

  /** Events in order, less than a fifth of the range apart, the first before the first wrap. */
  ghost predicate Dense(ticks: seq<nat>) {
    && (ticks != [] ==> ticks[0] < RAW_MAX)
    && forall i :: 0 < i < |ticks| ==> ticks[i - 1] <= ticks[i] && 5 * (ticks[i] - ticks[i - 1]) < RAW_MAX
  }

  predicate StartsLate(ticks: seq<nat>)
    requires ticks != []
  {
    10 * ticks[0] >= 9 * RAW_MAX
  }

  /** What the clock holds once in step: `lag` wraps were missed, and the flag tells the upper part. */
  ghost predicate InStep(c: Clock, tick: nat, lag: nat) {
    && c.overflows + lag == tick / RAW_MAX
    && (c.afterHalf <==> 10 * (tick % RAW_MAX) > 6 * RAW_MAX)
  }

  lemma NextInStep(c: Clock, tick: nat, next: nat, lag: nat)
    requires InStep(c, tick, lag)
    requires tick <= next && 5 * (next - tick) < RAW_MAX
    ensures InStep(Observe(c, next % RAW_MAX), next, lag)
  {}

  lemma NextLate(c: Clock, tick: nat, next: nat)
    requires c == FRESH && 10 * tick >= 9 * RAW_MAX && tick < RAW_MAX
    requires tick <= next && 5 * (next - tick) < RAW_MAX
    ensures var c' := Observe(c, next % RAW_MAX);
            if next < RAW_MAX then c' == FRESH else InStep(c', next, 1)
  {}

  lemma {:induction false} ClockState(ticks: seq<nat>)
    requires ticks != [] && Dense(ticks)
    ensures ticks[0] <= ticks[|ticks| - 1]
    ensures var c, tick := ObserveAll(ticks), ticks[|ticks| - 1];
            if !StartsLate(ticks) then InStep(c, tick, 0)
            else if tick < RAW_MAX then c == FRESH
            else InStep(c, tick, 1)
  {
    var n := |ticks| - 1;
    if n == 0 {
      assert ticks[..0] == [];
    } else {
      ClockState(ticks[..n]);
      assert ticks[..n][n - 1] == ticks[n - 1];
      var c := ObserveAll(ticks[..n]);
      if !StartsLate(ticks) {
        NextInStep(c, ticks[n - 1], ticks[n], 0);
      } else if ticks[n - 1] < RAW_MAX {
        NextLate(c, ticks[n - 1], ticks[n]);
      } else {
        NextInStep(c, ticks[n - 1], ticks[n], 1);
      }
    }
  }

  /** Over any number of wraps the computed tick is the true one, unless the first event came in the last
      tenth of the range and the counter has wrapped since; then it is one range short. */
  lemma UnwrapExact(ticks: seq<nat>)
    requires ticks != [] && Dense(ticks)
    ensures var tick := ticks[|ticks| - 1];
            Computed(ticks) == if StartsLate(ticks) && tick >= RAW_MAX then tick - RAW_MAX else tick
  {
    ClockState(ticks);
    var tick := ticks[|ticks| - 1];
    assert tick == tick % RAW_MAX + (tick / RAW_MAX) * RAW_MAX;
  }

  lemma PrefixExact(ticks: seq<nat>, i: nat)
    requires ticks != [] && Dense(ticks) && 0 < i <= |ticks|
    ensures Computed(ticks[..i]) ==
            if StartsLate(ticks) && ticks[i - 1] >= RAW_MAX then ticks[i - 1] - RAW_MAX else ticks[i - 1]
  {
    UnwrapExact(ticks[..i]);
  }

  /** A whole run is reconstructed exactly if and only if it starts below 0.9 of the range or ends before
      the first wrap. */
  lemma UnwrapExactIff(ticks: seq<nat>)
    requires ticks != [] && Dense(ticks)
    ensures (forall i :: 0 < i <= |ticks| ==> Computed(ticks[..i]) == ticks[i - 1]) <==>
            !StartsLate(ticks) || ticks[|ticks| - 1] < RAW_MAX
  {
    if !StartsLate(ticks) || ticks[|ticks| - 1] < RAW_MAX {
      forall i | 0 < i <= |ticks| ensures Computed(ticks[..i]) == ticks[i - 1] {
        PrefixExact(ticks, i);
        Ascending(ticks, i - 1);
      }
    } else {
      PrefixExact(ticks, |ticks|);
    }
  }

  lemma {:induction false} Ascending(ticks: seq<nat>, i: nat)
    requires i < |ticks| && Dense(ticks)
    ensures ticks[i] <= ticks[|ticks| - 1]
    decreases |ticks| - i
  {
    if i + 1 < |ticks| {
      Ascending(ticks, i + 1);
    }
  }
}
