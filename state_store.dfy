/** The server's one piece of mutable state: the current snapshot, replaced
    wholesale on refresh and read by every state and simulate request. */
module StateStore {
  import opened Numeric
  import opened Hall
  import opened Aggregator
  import opened Generator
  import opened Simulator

  datatype Option<T> = None | Some(value: T)

  /** The delta a simulate request asks for: its `delta` field, or 0 when
      the field is absent. */
  function RequestedDelta(delta: Option<real>): (d: real)
    ensures delta.Some? ==> d == delta.value
    ensures delta.None? ==> d == 0.0
  {
    match delta
    case None => 0.0
    case Some(d) => d
  }

  class StateStore {
    /** `currentState`. */
    var current: Snapshot

    ghost predicate Valid()
      reads this
    {
      Consistent(current)
    }

    /** Start-up: the first snapshot is generated from the start-up draws. */
    constructor (draws: Draws)
      requires ValidDraws(draws)
      ensures Valid()
      ensures current.currentSetpoint == RoundTenth(draws.setpoint)
      ensures var base := BaseRacks(RackCount, draws.thresholds, draws.inlets);
        current.racks == Injected(base, MarginOrder(base), draws.offsets, RiskCount)
    {
      var s := BuildInitialState(draws);
      current := s;
      new;
      assert current == s;
    }

    /** `GET /api/state`: the current snapshot, unchanged. */
    method State() returns (s: Snapshot)
      requires Valid()
      ensures Consistent(s) && s == current
    {
      s := current;
    }

    /** `POST /api/refresh`: a fresh snapshot replaces the current one and is
        returned. */
    method Refresh(draws: Draws) returns (s: Snapshot)
      requires ValidDraws(draws)
      modifies this
      ensures Valid() && current == s
      ensures s.currentSetpoint == RoundTenth(draws.setpoint)
      ensures var base := BaseRacks(RackCount, draws.thresholds, draws.inlets);
        s.racks == Injected(base, MarginOrder(base), draws.offsets, RiskCount)
    {
      s := BuildInitialState(draws);
      current := s;
    }

    /** `POST /api/simulate`: a projection of the current snapshot; the store
        itself is left as it was. */
    method Simulate(delta: Option<real>) returns (r: SimulationResult)
      requires Valid()
      ensures r == SimulateChange(current, RequestedDelta(delta))
      ensures |r.postRacks| == |current.racks|
    {
      r := SimulateChange(current, RequestedDelta(delta));
    }
  }
}
