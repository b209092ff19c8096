/**
 The simulated timestamp column of the benchmark script.

 A timestamp is an integer number of minutes since the script's fixed start,
 1993-12-09 00:00; calendar arithmetic is not modelled, only the minute count.
 */
module Dates {

  /** Minutes between two consecutive generated timestamps (a 60-minute timedelta). */
  const StepMinutes: int := 60

  /** Minutes in the one-hour timedelta that `add_hour` adds. */
  const HourMinutes: int := 60

  /** The fixed start 1993-12-09 00:00, as minute 0. */
  const Epoch: int := 0

  /** Number of timestamps the script generates. */
  const SimulatedCount: nat := 2000000

  /** The generation loop: starting from `start`, `count` times advance the
      clock by one step and append the new value. The start itself is never
      appended, so element `i` lies `i + 1` steps after the start. */
  method GenerateDates(start: int, count: nat) returns (dates: seq<int>)
    ensures |dates| == count
    ensures forall i :: 0 <= i < count ==> dates[i] == start + (i + 1) * StepMinutes
    ensures forall i :: 0 < i < count ==> dates[i] - dates[i - 1] == StepMinutes
  {
    var x := start;
    dates := [];
    var i := 0;
    while i < count
      invariant 0 <= i <= count
      invariant |dates| == i
      invariant x == start + i * StepMinutes
      invariant forall j :: 0 <= j < i ==> dates[j] == start + (j + 1) * StepMinutes
    {
      x := x + StepMinutes;
      dates := dates + [x];
      i := i + 1;
    }
  }

  /** Adds exactly one hour to a timestamp; pure, with no failure case. */
  function AddHour(t: int): (r: int)
    ensures r - t == HourMinutes
  {
    t + HourMinutes
  }
}
