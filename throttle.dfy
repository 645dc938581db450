/**
 * The 500 ms throttle of `AppState::maybe_broadcast_topology`
 * (backend/src/state.rs): a topology message goes out only when at least
 * 500 ms have passed, by saturating subtraction, since the last one.
 */
module Throttle {
  import opened Shapes

  const TopologyIntervalMs: nat := 500

  /** `now_ms.saturating_sub(last) >= 500`. */
  function Due(last: nat, now: nat): (d: bool)
    ensures d <==> now >= last + TopologyIntervalMs
  {
    SatSub(now, last) >= TopologyIntervalMs
  }

  /** The times at which a run of calls at `nows` emits, starting from `last`. */
  function Emissions(last: nat, nows: seq<nat>): seq<nat>
    decreases |nows|
  {
    if |nows| == 0 then []
    else if Due(last, nows[0]) then [nows[0]] + Emissions(nows[0], nows[1..])
    else Emissions(last, nows[1..])
  }

  /**
   * Over any run of calls, with clocks that may go backwards, the first
   * emission is 500 ms after the stored time, consecutive emissions are at
   * least 500 ms apart, and each happens at the time of some call.
   */
  lemma {:induction false} EmissionsSpaced(last: nat, nows: seq<nat>)
    ensures var e := Emissions(last, nows);
      && (|e| > 0 ==> e[0] >= last + TopologyIntervalMs)
      && (forall i :: 0 <= i < |e| - 1 ==> e[i] + TopologyIntervalMs <= e[i + 1])
      && (forall i :: 0 <= i < |e| ==> e[i] in nows)
    decreases |nows|
  {
    if |nows| > 0 {
      if Due(last, nows[0]) {
        EmissionsSpaced(nows[0], nows[1..]);
        var rest := Emissions(nows[0], nows[1..]);
        assert Emissions(last, nows) == [nows[0]] + rest;
        assert forall j :: 0 <= j < |rest| ==> rest[j] in nows[1..];
      } else {
        EmissionsSpaced(last, nows[1..]);
        var rest := Emissions(last, nows[1..]);
        assert forall j :: 0 <= j < |rest| ==> rest[j] in nows[1..];
      }
    }
  }
}
