/** The `Drone` and `Simulation` classes of the drone simulation, with the
    state they update in place: positions, destinations and `dead` flags of the
    drones, and the simulation's list of active drones.

    Each method is proved against the value-level specification of the module
    it mirrors: `Collisions` for `check_collisions`, `Steering` for
    `default_decision` and `avoid_collisions`, `Ticks` for the movement pass of
    `update`. Random picks and the square root are parameters. */
module DroneSim {
  import opened Wrappers
  import opened Geometry
  import opened Choices
  import opened Collisions
  import opened Steering
  import opened Ticks

  class Drone {
    const id: nat
    var x: real
    var y: real
    var destination: Option<Vec>
    /** The drone's physical size. */
    const radius: real := Radius
    /** The distance inside which neighbours repel the drone; it is the same
        for every drone, so the steering rules use `SafeDistance` itself. */
    const safeDistance: real := SafeDistance
    var dead: bool

    /** A new drone at `(x, y)`, alive and with no destination. */
    constructor (id: nat, x: real, y: real)
      ensures this.id == id && this.x == x && this.y == y
      ensures destination == None && !dead
    {
      this.id := id;
      this.x := x;
      this.y := y;
      destination := None;
      dead := false;
    }

    function Pos(): Vec
      reads this
    {
      Vec(x, y)
    }
  }

  /** No drone appears twice: the first is not among the rest, and the rest
      are distinct. (Stated by recursion so that it is not unfolded into a
      statement about every pair of positions wherever it is mentioned;
      `DistinctIff` gives that statement where it is needed.) */
  predicate Distinct(ds: seq<Drone>)
  {
    |ds| == 0 || (ds[0] !in ds[1..] && Distinct(ds[1..]))
  }

  /** `Distinct` holds exactly when no two positions of `ds` hold the same drone. */
  lemma {:induction false} DistinctIff(ds: seq<Drone>)
    ensures Distinct(ds) <==> forall a, b :: 0 <= a < b < |ds| ==> ds[a] != ds[b]
  {
    if |ds| > 0 {
      var rest := ds[1..];
      DistinctIff(rest);
      if Distinct(ds) {
        forall a, b | 0 <= a < b < |ds|
          ensures ds[a] != ds[b]
        {
          assert ds[b] == rest[b - 1];
          if a > 0 {
            assert ds[a] == rest[a - 1];
          }
        }
      }
      if forall a, b :: 0 <= a < b < |ds| ==> ds[a] != ds[b] {
        forall a, b | 0 <= a < b < |rest|
          ensures rest[a] != rest[b]
        {
          assert rest[a] == ds[a + 1] && rest[b] == ds[b + 1];
        }
        forall j | 0 <= j < |rest|
          ensures rest[j] != ds[0]
        {
          assert rest[j] == ds[j + 1];
        }
      }
    }
  }

  /** The `dead` flags of `ds`, in order. */
  function Flags(ds: seq<Drone>): (r: seq<bool>)
    reads set d | d in ds
    ensures |r| == |ds|
    ensures forall k :: 0 <= k < |ds| ==> r[k] == ds[k].dead
  {
    seq(|ds|, k requires 0 <= k < |ds| reads set d | d in ds => ds[k].dead)
  }

  /** What the movement pass sees of `ds`: positions and destinations. */
  function Agents(ds: seq<Drone>): (r: seq<Agent>)
    reads set d | d in ds
    ensures |r| == |ds|
    ensures forall k :: 0 <= k < |ds| ==> r[k] == Agent(ds[k].Pos(), ds[k].destination)
  {
    seq(|ds|, k requires 0 <= k < |ds| reads set d | d in ds => Agent(ds[k].Pos(), ds[k].destination))
  }

  /** The positions of `ds`, in order. */
  function PositionsOf(ds: seq<Drone>): (r: seq<Vec>)
    reads set d | d in ds
    ensures |r| == |ds|
    ensures forall k :: 0 <= k < |ds| ==> r[k] == ds[k].Pos()
  {
    Positions(Agents(ds))
  }

  lemma AgentsOfOthers(ds: seq<Drone>, k: nat)
    requires k < |ds|
    ensures Positions(Others(Agents(ds), k)) == PositionsOf(Others(ds, k))
  {
  }

  /** In a list without repeats, the drone at `i` is at no other position. */
  lemma DistinctAt(ds: seq<Drone>, i: nat)
    requires Distinct(ds) && i < |ds|
    ensures forall k :: 0 <= k < |ds| && k != i ==> ds[k] != ds[i]
  {
    DistinctIff(ds);
  }

  /** Dropping the dead from a list without repeats leaves a list without repeats. */
  lemma KeepDistinct(ds: seq<Drone>, dead: seq<bool>)
    requires |ds| == |dead| && Distinct(ds)
    ensures Distinct(Keep(ds, dead))
  {
    var r, live := Keep(ds, dead), LiveIndices(dead);
    DistinctIff(ds);
    forall a, b | 0 <= a < b < |r|
      ensures r[a] != r[b]
    {
      assert live[a] < live[b];
    }
    DistinctIff(r);
  }

  /** Drone `k` of `ds` has id `k`. */
  predicate Numbered(ds: seq<Drone>)
  {
    forall k :: 0 <= k < |ds| ==> ds[k].id == k
  }

  /** No flag is set. */
  predicate Alive(dead: seq<bool>)
  {
    forall k :: 0 <= k < |dead| ==> !dead[k]
  }

  /** Every drone of `ds` outside `active` is dead, and its destination, if
      set, is one of `destinations`. */
  ghost predicate Settled(ds: seq<Drone>, active: seq<Drone>, destinations: seq<Vec>)
    reads set d | d in ds && d !in active
  {
    forall d :: d in ds && d !in active ==>
      d.dead && (d.destination.Some? ==> d.destination.value in destinations)
  }

  /** The drones kept by dropping the dead are alive, and keep their
      destinations. */
  lemma KeepAlive(active: seq<Drone>, destinations: seq<Vec>)
    ensures Alive(Flags(Keep(active, Flags(active))))
    ensures DestinationsIn(Agents(active), destinations) ==>
      DestinationsIn(Agents(Keep(active, Flags(active))), destinations)
  {
    var flags, kept := Flags(active), Keep(active, Flags(active));
    var live := LiveIndices(flags);
    assert forall m :: 0 <= m < |kept| ==> kept[m] == active[live[m]] && !flags[live[m]];
  }

  /** The drones dropped from `active` for being dead join the settled drones
      outside it. */
  lemma KeepSettled(ds: seq<Drone>, active: seq<Drone>, destinations: seq<Vec>)
    requires Settled(ds, active, destinations) && DestinationsIn(Agents(active), destinations)
    ensures Settled(ds, Keep(active, Flags(active)), destinations)
  {
    var flags, agents, kept := Flags(active), Agents(active), Keep(active, Flags(active));
    KeepMembers(active, flags);
    forall d | d in ds && d !in kept
      ensures d.dead && (d.destination.Some? ==> d.destination.value in destinations)
    {
      if d in active {
        var k :| 0 <= k < |active| && active[k] == d;
        assert flags[k] && agents[k].destination == d.destination;
      }
    }
  }

  class Simulation {
    var drones: seq<Drone>
    const sources: seq<Vec>
    const destinations: seq<Vec>
    var currentStep: int
    var activeDrones: seq<Drone>

    /** The roster's invariant: drone `k` has id `k`; the active drones are
        drones of the roster, without repeats, all alive, and every drone
        outside them is dead; every destination that is set is one of
        `destinations`. */
    ghost predicate Valid()
      reads this, set d | d in drones
    {
      Numbered(drones) &&
      (forall k :: 0 <= k < |activeDrones| ==> activeDrones[k] in drones) &&
      Distinct(activeDrones) &&
      Alive(Flags(activeDrones)) &&
      DestinationsIn(Agents(activeDrones), destinations) &&
      Settled(drones, activeDrones, destinations)
    }

    /** `Simulation.__init__`: `numDrones` new drones with ids `0, 1, ...`,
        drone `k` placed at the source picked by `pick(k)`; all are active. */
    constructor (numDrones: nat, sources: seq<Vec>, destinations: seq<Vec>, pick: nat -> nat)
      requires numDrones == 0 || |sources| > 0
      ensures this.sources == sources && this.destinations == destinations
      ensures |drones| == numDrones
      ensures forall k :: 0 <= k < numDrones ==>
        fresh(drones[k]) && drones[k].Pos() == Choice(sources, pick(k)).value &&
        drones[k].destination == None && !drones[k].dead
      ensures activeDrones == drones && currentStep == 0
      ensures Valid()
    {
      this.sources := sources;
      this.destinations := destinations;
      var ds: seq<Drone> := [];
      for i := 0 to numDrones
        invariant |ds| == i
        invariant forall k :: 0 <= k < i ==>
          fresh(ds[k]) && ds[k].id == k && ds[k].Pos() == Choice(sources, pick(k)).value &&
          ds[k].destination == None && !ds[k].dead
      {
        var source := Choice(sources, pick(i)).value;
        var drone := new Drone(i, source.x, source.y);
        ds := ds + [drone];
      }
      forall a, b | 0 <= a < b < |ds|
        ensures ds[a] != ds[b]
      {
        assert ds[a].id != ds[b].id;
      }
      DistinctIff(ds);
      drones := ds;
      currentStep := 0;
      activeDrones := ds;
    }

    /** `avoid_collisions`: the summed repulsion of the neighbours, scaled to
        unit length when it is not zero. */
    method AvoidCollisions(drone: Drone, neighbors: seq<Drone>, sqrt: real -> real) returns (r: Vec)
      requires IsSqrt(sqrt)
      ensures r == Avoidance(drone.Pos(), PositionsOf(neighbors), sqrt)
    {
      ghost var others := PositionsOf(neighbors);
      var avoid := Zero;
      for k := 0 to |neighbors|
        invariant avoid == Repulsion(drone.Pos(), others[..k], sqrt)
      {
        RepulsionSnoc(drone.Pos(), others, k, sqrt);
        avoid := Add(avoid, Push(drone.Pos(), neighbors[k].Pos(), sqrt));
      }
      assert others[..|neighbors|] == others;
      var magnitude := sqrt(NormSq(avoid));
      if magnitude > 0.0 {
        avoid := Vec(avoid.x / magnitude, avoid.y / magnitude);
      }
      return avoid;
    }

    /** `default_decision`: the step the drone takes, after picking a
        destination if it has none and clearing it on arrival; `None` where
        the source raises because there is nothing to pick. */
    method DefaultDecision(drone: Drone, neighbors: seq<Drone>, pick: nat, sqrt: real -> real)
      returns (r: Option<Vec>)
      requires IsSqrt(sqrt)
      modifies drone`destination
      ensures var decision := Decide(old(drone.Pos()), old(drone.destination), destinations, pick,
                                     old(PositionsOf(neighbors)), sqrt);
        (decision.None? ==> r.None? && drone.destination == old(drone.destination)) &&
        (decision.Some? ==> r == Some(decision.value.step) && drone.destination == decision.value.destination)
    {
      var target := drone.destination;
      if target.None? {
        target := Choice(destinations, pick);
        if target.None? {
          return None;
        }
      }
      // Nothing below reads the destination field, so it is written once, at
      // the end, rather than first on the pick and again on arrival.
      var arrived, step := Toward(drone, target.value, neighbors, sqrt);
      if arrived {
        drone.destination := None;
        return Some(Zero);
      }
      drone.destination := target;
      return Some(step);
    }

    /** The rest of `default_decision` once the destination is `target`: the
        arrival test, then the goal direction blended with the avoidance
        direction and scaled to unit length. */
    method Toward(drone: Drone, target: Vec, neighbors: seq<Drone>, sqrt: real -> real)
      returns (arrived: bool, step: Vec)
      requires IsSqrt(sqrt)
      ensures arrived ==> Steer(drone.Pos(), target, PositionsOf(neighbors), sqrt) == Decision(None, Zero)
      ensures !arrived ==> Steer(drone.Pos(), target, PositionsOf(neighbors), sqrt) == Decision(Some(target), step)
    {
      var delta := Sub(target, drone.Pos());
      var distance := sqrt(NormSq(delta));
      if distance < ArrivalDistance {
        SteerArrives(drone.Pos(), target, PositionsOf(neighbors), sqrt);
        return true, Zero;
      }
      SteerMoves(drone.Pos(), target, PositionsOf(neighbors), sqrt);
      var goal := Vec(delta.x / distance, delta.y / distance);
      var avoid := AvoidCollisions(drone, neighbors, sqrt);
      var blended := Blend(goal, avoid);
      NormalizeDef(blended, sqrt);
      var magnitude := sqrt(NormSq(blended));
      if magnitude > 0.0 {
        blended := Vec(blended.x / magnitude, blended.y / magnitude);
      }
      return false, blended;
    }

    /** The `update` callback of `run` for frame `frame`, on a valid roster:
        see `Advance`. The roster stays valid: the active list is still the
        living drones, and destinations are still picks from `destinations`. */
    method Update(frame: int, pick: nat -> nat, sqrt: real -> real) returns (ok: bool)
      requires Valid() && IsSqrt(sqrt)
      modifies this`currentStep, this`activeDrones
      modifies activeDrones`x, activeDrones`y, activeDrones`destination, activeDrones`dead
      ensures Valid()
      ensures currentStep == frame
      ensures |activeDrones| <= |old(activeDrones)|
      ensures var pass := Pass(old(Agents(activeDrones)), 0, destinations, pick, sqrt);
        ok == pass.1 && Agents(old(activeDrones)) == pass.0
      ensures ok ==> Flags(old(activeDrones)) == Scan(PositionsOf(old(activeDrones)), old(Flags(activeDrones)))
      ensures ok ==> activeDrones == Keep(old(activeDrones), Flags(old(activeDrones)))
      ensures !ok ==> activeDrones == old(activeDrones) && Flags(activeDrones) == old(Flags(activeDrones))
    {
      ghost var active, alive := activeDrones, Flags(activeDrones);
      ok := Advance(frame, pick, sqrt);
      Restored(active, alive, ok);
    }

    /** The roster is valid after a frame that changed only the drones of
        `active`, the active list before it: those whose pass ran to the end
        were scanned and the dead dropped; after a raising pass the list is
        unchanged and still alive. */
    lemma Restored(active: seq<Drone>, alive: seq<bool>, ok: bool)
      requires Numbered(drones)
      requires Distinct(active) && forall k :: 0 <= k < |active| ==> active[k] in drones
      requires Settled(drones, active, destinations)
      requires DestinationsIn(Agents(active), destinations)
      requires Alive(alive)
      requires ok ==> activeDrones == Keep(active, Flags(active))
      requires !ok ==> activeDrones == active && Flags(active) == alive
      ensures Valid()
    {
      if ok {
        KeepMembers(active, Flags(active));
        KeepDistinct(active, Flags(active));
        KeepAlive(active, destinations);
        KeepSettled(drones, active, destinations);
      }
    }

    /** One frame of `update`: the step counter is set to `frame`; every active
        drone in turn decides with `default_decision` (drone `i` of the list
        using the pick `pick(i)`) and moves by the step, seeing the others
        where they are at that moment; then collisions are checked. `ok` is
        false where a decision raises, which ends the frame at that drone,
        before the collision check. */
    method Advance(frame: int, pick: nat -> nat, sqrt: real -> real) returns (ok: bool)
      requires IsSqrt(sqrt) && Distinct(activeDrones)
      modifies this`currentStep, this`activeDrones
      modifies activeDrones`x, activeDrones`y, activeDrones`destination, activeDrones`dead
      ensures currentStep == frame
      ensures var pass := Pass(old(Agents(activeDrones)), 0, destinations, pick, sqrt);
        ok == pass.1 && Agents(old(activeDrones)) == pass.0
      ensures ok ==> Flags(old(activeDrones)) == Scan(PositionsOf(old(activeDrones)), old(Flags(activeDrones)))
      ensures ok ==> activeDrones == Keep(old(activeDrones), Flags(old(activeDrones)))
      ensures !ok ==> activeDrones == old(activeDrones) && Flags(activeDrones) == old(Flags(activeDrones))
    {
      ghost var agents, flags := Agents(activeDrones), Flags(activeDrones);
      currentStep := frame;
      assert Agents(activeDrones) == agents && Flags(activeDrones) == flags;
      var act := activeDrones;
      ok := MoveAll(act, pick, sqrt);
      ghost var moved := Agents(act);
      if ok {
        CheckCollisions(sqrt);
      }
      assert Agents(act) == moved;
    }

    /** The movement pass of `update`: each drone of `act` in turn decides
        with `default_decision` and moves. `ok` is false where a decision raises,
        which ends the pass at that drone. The `dead` flags are not touched. */
    method MoveAll(act: seq<Drone>, pick: nat -> nat, sqrt: real -> real) returns (ok: bool)
      requires IsSqrt(sqrt) && Distinct(act)
      modifies act`x, act`y, act`destination
      ensures var pass := Pass(old(Agents(act)), 0, destinations, pick, sqrt);
        ok == pass.1 && Agents(act) == pass.0
      ensures Flags(act) == old(Flags(act))
    {
      ghost var start := Agents(act);
      ghost var flags := Flags(act);
      ghost var cur := start;
      ok := true;
      for i := 0 to |act|
        invariant Agents(act) == cur && |cur| == |act|
        invariant Pass(cur, i, destinations, pick, sqrt) == Pass(start, 0, destinations, pick, sqrt)
        invariant Flags(act) == flags
        invariant ok
      {
        ok := Turn(act, i, act[i], pick(i), sqrt);
        ghost var next := Agents(act);
        PassStep(cur, next, i, ok, destinations, pick, sqrt);
        if !ok {
          return;
        }
        cur := next;
      }
    }

    /** Drone `act[i]`'s turn in `update`: its neighbours, its decision, its
        move. `ok` is false where the decision raises; the drone is then left
        as it was. */
    method Turn(act: seq<Drone>, i: nat, drone: Drone, pick: nat, sqrt: real -> real) returns (ok: bool)
      requires IsSqrt(sqrt) && Distinct(act) && i < |act| && act[i] == drone
      modifies drone`x, drone`y, drone`destination
      ensures var step := Step(old(Agents(act)), i, destinations, pick, sqrt);
        ok == step.Some? && Agents(act) == if ok then step.value else old(Agents(act))
      ensures Flags(act) == old(Flags(act))
    {
      ghost var agents := Agents(act);
      StepDecides(agents, i, destinations, pick, sqrt);
      var step := Consult(act, i, drone, pick, sqrt);
      if step.None? {
        return false;
      }
      Shift(act, i, drone, step.value);
      return true;
    }

    /** The decision half of a turn: the neighbours of `act[i]` and its
        `default_decision`, which may set or clear its destination. */
    method Consult(act: seq<Drone>, i: nat, drone: Drone, pick: nat, sqrt: real -> real) returns (step: Option<Vec>)
      requires IsSqrt(sqrt) && Distinct(act) && i < |act| && act[i] == drone
      modifies drone`destination
      ensures var agents := old(Agents(act));
        var d := Decide(agents[i].pos, agents[i].destination, destinations, pick, Positions(Others(agents, i)), sqrt);
        step.None? == d.None? &&
        (d.None? ==> Agents(act) == agents) &&
        (d.Some? ==> step.value == d.value.step && Agents(act) == agents[i := Agent(agents[i].pos, d.value.destination)])
      ensures Flags(act) == old(Flags(act))
    {
      AgentsOfOthers(act, i);
      DistinctAt(act, i);
      var neighbors := Neighbors(act, drone);
      step := DefaultDecision(drone, neighbors, pick, sqrt);
    }

    /** `check_collisions`: the pairwise scan over the active drones, setting
        `dead` on both members of each colliding pair of living drones, then
        dropping the dead from the active list. */
    method CheckCollisions(sqrt: real -> real)
      requires IsSqrt(sqrt) && Distinct(activeDrones)
      modifies this`activeDrones, activeDrones`dead
      ensures Flags(old(activeDrones)) == Scan(PositionsOf(old(activeDrones)), old(Flags(activeDrones)))
      ensures activeDrones == Keep(old(activeDrones), Flags(old(activeDrones)))
      ensures |activeDrones| <= |old(activeDrones)|
      ensures Agents(old(activeDrones)) == old(Agents(activeDrones))
    {
      var act := activeDrones;
      MarkCollisions(act, sqrt);
      var kept := Living(act);
      ghost var flags, agents, positions := Flags(act), Agents(act), PositionsOf(act);
      activeDrones := kept;
      assert Flags(act) == flags && Agents(act) == agents && PositionsOf(act) == positions;
    }
  }

  /** The drone at `act[i]` moves by `step`; nothing else changes. */
  method Shift(act: seq<Drone>, i: nat, drone: Drone, step: Vec)
    requires Distinct(act) && i < |act| && act[i] == drone
    modifies drone`x, drone`y
    ensures Agents(act) == old(Agents(act))[i := Agent(Add(old(drone.Pos()), step), drone.destination)]
    ensures Flags(act) == old(Flags(act))
  {
    DistinctAt(act, i);
    drone.x := drone.x + step.x;
    drone.y := drone.y + step.y;
  }

  /** The nested loops of `check_collisions`: every living drone, in list
      order, marks itself and each later living drone it collides with. */
  method MarkCollisions(act: seq<Drone>, sqrt: real -> real)
    requires IsSqrt(sqrt) && Distinct(act)
    modifies act`dead
    ensures Flags(act) == Scan(old(PositionsOf(act)), old(Flags(act)))
    ensures Agents(act) == old(Agents(act)) && PositionsOf(act) == old(PositionsOf(act))
  {
    ghost var pos := PositionsOf(act);
    ghost var d0 := Flags(act);
    ghost var agents := Agents(act);
    for i := 0 to |act|
      invariant Agents(act) == agents
      invariant PositionsOf(act) == pos
      invariant Outer(pos, Flags(act), i) == Scan(pos, d0)
    {
      if !act[i].dead {
        MarkPartners(act, i, sqrt);
      }
    }
  }

  /** The inner loop of `check_collisions` for the living drone `act[i]`. */
  method MarkPartners(act: seq<Drone>, i: nat, sqrt: real -> real)
    requires IsSqrt(sqrt) && Distinct(act) && i < |act| && !act[i].dead
    modifies act`dead
    ensures Flags(act) == Inner(PositionsOf(act), old(Flags(act)), i, i + 1)
    ensures Agents(act) == old(Agents(act))
  {
    ghost var pos := PositionsOf(act);
    ghost var before := Flags(act);
    var drone := act[i];
    ghost var agents := Agents(act);
    for j := i + 1 to |act|
      invariant Agents(act) == agents
      invariant PositionsOf(act) == pos
      invariant Inner(pos, Flags(act), i, j) == Inner(pos, before, i, i + 1)
    {
      var other := act[j];
      if !other.dead {
        var distance := sqrt(NormSq(Sub(drone.Pos(), other.Pos())));
        CollideIffClose(sqrt, pos[i], pos[j]);
        if distance < drone.radius + other.radius {
          Kill(act, i, j, drone, other);
        }
      }
    }
  }

  /** Both drones of the colliding pair `act[i]`, `act[j]` are marked dead;
      nothing else changes. */
  method Kill(act: seq<Drone>, i: nat, j: nat, drone: Drone, other: Drone)
    requires Distinct(act) && i < j < |act| && act[i] == drone && act[j] == other
    modifies drone`dead, other`dead
    ensures Flags(act) == old(Flags(act))[i := true][j := true]
    ensures Agents(act) == old(Agents(act))
    ensures PositionsOf(act) == old(PositionsOf(act))
  {
    DistinctAt(act, i);
    DistinctAt(act, j);
    drone.dead := true;
    other.dead := true;
  }

  /** The surviving drones, in order: `[d for d in active_drones if not d.dead]`. */
  method Living(act: seq<Drone>) returns (kept: seq<Drone>)
    ensures kept == Keep(act, Flags(act))
  {
    kept := [];
    for k := 0 to |act|
      invariant kept == Keep(act[..k], Flags(act)[..k])
    {
      if !act[k].dead {
        kept := kept + [act[k]];
      }
      assert act[..k + 1][..k] == act[..k];
      assert Flags(act)[..k + 1][..k] == Flags(act)[..k];
    }
    assert act[..|act|] == act;
    assert Flags(act)[..|act|] == Flags(act);
  }

  /** `[d for d in active_drones if d != drone]`: the other drones, in order. */
  method Neighbors(act: seq<Drone>, drone: Drone) returns (r: seq<Drone>)
    requires Distinct(act) && drone in act
    ensures forall i :: 0 <= i < |act| && act[i] == drone ==> r == Others(act, i)
  {
    r := [];
    ghost var k :| 0 <= k < |act| && act[k] == drone;
    DistinctAt(act, k);
    for j := 0 to |act|
      invariant r == if j <= k then act[..j] else act[..k] + act[k + 1..j]
    {
      if act[j] != drone {
        r := r + [act[j]];
      }
    }
  }
}
