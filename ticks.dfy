/** The movement pass of one animation frame (the `update` closure of
    `Simulation.run`), on values.

    The active drones are visited in list order. Each one decides on a step
    given the positions of all the other active drones at that moment (so a
    drone sees the new positions of the drones visited before it) and moves by
    that step at once. A decision that raises ends the pass early. */
module Ticks {
  import opened Wrappers
  import opened Geometry
  import opened Steering

  /** What the pass reads and writes of one active drone. */
  datatype Agent = Agent(pos: Vec, destination: Option<Vec>)

  function Positions(agents: seq<Agent>): (r: seq<Vec>)
    ensures |r| == |agents|
    ensures forall k :: 0 <= k < |agents| ==> r[k] == agents[k].pos
  {
    seq(|agents|, k requires 0 <= k < |agents| => agents[k].pos)
  }

  /** Every element but the one at `k`, in order: the neighbour list
      `[d for d in active_drones if d != drone]` when the elements are distinct. */
  function Others<T>(xs: seq<T>, k: nat): (r: seq<T>)
    requires k < |xs|
    ensures |r| == |xs| - 1
    ensures forall m :: 0 <= m < k ==> r[m] == xs[m]
    ensures forall m :: k <= m < |r| ==> r[m] == xs[m + 1]
  {
    xs[..k] + xs[k + 1..]
  }

  /** Every destination that is set is one of `destinations`. */
  predicate DestinationsIn(agents: seq<Agent>, destinations: seq<Vec>)
  {
    forall k :: 0 <= k < |agents| && agents[k].destination.Some? ==> agents[k].destination.value in destinations
  }

  /** Drone `k` decides and moves; `None` when its decision raises. */
  function Step(agents: seq<Agent>, k: nat, destinations: seq<Vec>, pick: nat, sqrt: real -> real)
    : (r: Option<seq<Agent>>)
    requires IsSqrt(sqrt) && k < |agents|
    ensures r.None? <==> agents[k].destination.None? && |destinations| == 0
    ensures r.Some? ==> |r.value| == |agents|
    ensures r.Some? ==> forall i :: 0 <= i < |agents| && i != k ==> r.value[i] == agents[i]
    ensures r.Some? ==> NormSq(Sub(r.value[k].pos, agents[k].pos)) <= 1.0
    ensures r.Some? && DestinationsIn(agents, destinations) ==> DestinationsIn(r.value, destinations)
  {
    var a := agents[k];
    var decision := Decide(a.pos, a.destination, destinations, pick, Positions(Others(agents, k)), sqrt);
    if decision.None? then None
    else Some(Move(agents, k, decision.value))
  }

  /** `Step` spelled out. */
  lemma StepDecides(agents: seq<Agent>, k: nat, destinations: seq<Vec>, pick: nat, sqrt: real -> real)
    requires IsSqrt(sqrt) && k < |agents|
    ensures var d := Decide(agents[k].pos, agents[k].destination, destinations, pick, Positions(Others(agents, k)), sqrt);
      Step(agents, k, destinations, pick, sqrt) == if d.None? then None else Some(Move(agents, k, d.value))
  {
  }

  /** Drone `k` takes the decision `d`: it moves by the step and takes the
      destination; every other drone is left alone. */
  function Move(agents: seq<Agent>, k: nat, d: Decision): (r: seq<Agent>)
    requires k < |agents|
    ensures |r| == |agents|
    ensures forall i :: 0 <= i < |agents| && i != k ==> r[i] == agents[i]
    ensures Sub(r[k].pos, agents[k].pos) == d.step && r[k].destination == d.destination
  {
    var a := agents[k];
    assert Sub(Add(a.pos, d.step), a.pos) == d.step;
    agents[k := Agent(Add(a.pos, d.step), d.destination)]
  }

  /** The pass from drone `k` on, drone `i` using the pick `pick(i)`. The
      result is the agents afterwards and whether the pass ran to the end; a
      pass that stops leaves the raising drone and those after it as they were. */
  function Pass(agents: seq<Agent>, k: nat, destinations: seq<Vec>, pick: nat -> nat, sqrt: real -> real)
    : (r: (seq<Agent>, bool))
    requires IsSqrt(sqrt) && k <= |agents|
    ensures |r.0| == |agents|
    ensures forall i :: 0 <= i < k ==> r.0[i] == agents[i]
    ensures forall i :: k <= i < |agents| ==> NormSq(Sub(r.0[i].pos, agents[i].pos)) <= 1.0
    ensures !r.1 ==> |destinations| == 0
    ensures DestinationsIn(agents, destinations) ==> DestinationsIn(r.0, destinations)
    decreases |agents| - k
  {
    if k == |agents| then (agents, true)
    else
      match Step(agents, k, destinations, pick(k), sqrt)
      case None =>
        assert forall i :: k <= i < |agents| ==> Sub(agents[i].pos, agents[i].pos) == Zero;
        (agents, false)
      case Some(next) => Pass(next, k + 1, destinations, pick, sqrt)
  }

  /** One step of `Pass`: when drone `k` has moved from `before` to `after`,
      the pass from `k + 1` on `after` is the pass from `k` on `before`; when
      its decision raised, the pass stops at `k`. */
  lemma PassStep(before: seq<Agent>, after: seq<Agent>, k: nat, ok: bool,
                 destinations: seq<Vec>, pick: nat -> nat, sqrt: real -> real)
    requires IsSqrt(sqrt) && k < |before|
    requires var s := Step(before, k, destinations, pick(k), sqrt);
      ok == s.Some? && after == if ok then s.value else before
    ensures |after| == |before|
    ensures ok ==> Pass(after, k + 1, destinations, pick, sqrt) == Pass(before, k, destinations, pick, sqrt)
    ensures !ok ==> Pass(before, k, destinations, pick, sqrt) == (before, false)
  {
  }
}
