/** A random pick from a list, as `random.choice` makes it: the caller supplies
    the index the generator would have produced. */
module Choices {
  import opened Wrappers

  /** `random.choice(xs)`: an element of `xs`, or `None` where the source
      raises `IndexError` because `xs` is empty. */
  function Choice<T>(xs: seq<T>, k: nat): (r: Option<T>)
    ensures r.None? <==> |xs| == 0
    ensures r.Some? ==> r.value in xs
  {
    if |xs| == 0 then None else Some(xs[k % |xs|])
  }
}

/** The steering rules of `default_decision` and `avoid_collisions`, on values. */
module Steering {
  import opened Wrappers
  import opened Geometry
  import opened Choices
  import Collisions

  /** A drone's `safe_distance`: twice its radius. */
  const SafeDistance: real := 2.0 * Collisions.Radius
  /** A drone closer than this to its destination has arrived. */
  const ArrivalDistance: real := 1.0
  /** The distance used for a neighbour at exactly the drone's own position. */
  const ZeroClamp: real := 0.01
  /** The weights of the goal direction and of the avoidance direction. */
  const GoalWeight: real := 0.7
  const AvoidWeight: real := 0.3

  /** Whether `other` is strictly closer to `self` than the safe distance.
      The source compares `sqrt(d) < safe_distance`; `Push` shows the two agree. */
  predicate Near(self: Vec, other: Vec)
  {
    NormSq(Sub(self, other)) < Sq(SafeDistance)
  }

  /** The repulsion one neighbour exerts on `self`: nothing from a neighbour at
      the safe distance or beyond and nothing from a coincident one; otherwise a
      push straight away from the neighbour, of strength
      `(safe_distance - distance) ** 2`. */
  function Push(self: Vec, other: Vec, sqrt: real -> real): (r: Vec)
    requires IsSqrt(sqrt)
    ensures !Near(self, other) ==> r == Zero
    ensures self == other ==> r == Zero
  {
    var d := Sub(self, other);
    var distance := sqrt(NormSq(d));
    SqrtLessIff(sqrt, NormSq(d), SafeDistance);
    SqrtZeroIff(sqrt, NormSq(d));
    if distance < SafeDistance then
      var clamped := if distance == 0.0 then ZeroClamp else distance;
      var force := Sq(SafeDistance - clamped);
      PushAway(d, clamped, force);
      NoPushWithoutOffset(d, clamped, force);
      Vec(d.x / clamped * force, d.y / clamped * force)
    else
      Zero
  }

  /** A neighbour inside the safe distance, other than a coincident one,
      pushes the drone straight away from itself. */
  lemma PushPointsAway(self: Vec, other: Vec, sqrt: real -> real)
    requires IsSqrt(sqrt) && Near(self, other) && self != other
    ensures exists c: real :: 0.0 < c && Push(self, other, sqrt) == Scale(c, Sub(self, other))
  {
    Apart(self, other);
    var d := Sub(self, other);
    var distance := sqrt(NormSq(d));
    NearRoot(self, other, sqrt);
    var force := Sq(SafeDistance - distance);
    assert Push(self, other, sqrt) == Vec(d.x / distance * force, d.y / distance * force);
    PushAway(d, distance, force);
    assert 0.0 < force / distance;
  }

  /** The distance to a near, distinct neighbour lies strictly between zero
      and the safe distance. */
  lemma NearRoot(self: Vec, other: Vec, sqrt: real -> real)
    requires IsSqrt(sqrt) && Near(self, other) && 0.0 < NormSq(Sub(self, other))
    ensures 0.0 < sqrt(NormSq(Sub(self, other))) < SafeDistance
  {
    SqrtLessIff(sqrt, NormSq(Sub(self, other)), SafeDistance);
    SqrtZeroIff(sqrt, NormSq(Sub(self, other)));
  }

  lemma NoPushWithoutOffset(d: Vec, distance: real, force: real)
    requires distance != 0.0
    ensures d == Zero ==> Vec(d.x / distance * force, d.y / distance * force) == Zero
  {
    if d == Zero {
      assert d.x / distance == 0.0 && d.y / distance == 0.0;
    }
  }

  lemma PushAway(d: Vec, distance: real, force: real)
    requires 0.0 < distance
    ensures Vec(d.x / distance * force, d.y / distance * force) == Scale(force / distance, d)
    ensures 0.0 < force ==> 0.0 < force / distance
  {
  }

  /** No neighbour is strictly closer than the safe distance. */
  predicate AllFar(self: Vec, others: seq<Vec>)
  {
    forall k :: 0 <= k < |others| ==> !Near(self, others[k])
  }

  /** The summed repulsion of `others` on `self`, accumulated in list order. */
  function Repulsion(self: Vec, others: seq<Vec>, sqrt: real -> real): (r: Vec)
    requires IsSqrt(sqrt)
    ensures AllFar(self, others) ==> r == Zero
    decreases |others|
  {
    if |others| == 0 then Zero
    else
      var init := others[..|others| - 1];
      var p := Push(self, others[|others| - 1], sqrt);
      assert AllFar(self, others) ==> AllFar(self, init) && p == Zero;
      Add(Repulsion(self, init, sqrt), p)
  }

  /** Accumulating one more neighbour adds its push. */
  lemma RepulsionSnoc(self: Vec, others: seq<Vec>, k: nat, sqrt: real -> real)
    requires IsSqrt(sqrt) && k < |others|
    ensures Repulsion(self, others[..k + 1], sqrt) == Add(Repulsion(self, others[..k], sqrt), Push(self, others[k], sqrt))
  {
    assert others[..k + 1][..k] == others[..k];
  }

  /** The direction returned by `avoid_collisions`: the repulsion scaled to unit
      length, or zero when there is none. */
  function Avoidance(self: Vec, others: seq<Vec>, sqrt: real -> real): (r: Vec)
    requires IsSqrt(sqrt)
    ensures r == Zero || NormSq(r) == 1.0
    ensures AllFar(self, others) ==> r == Zero
  {
    Normalize(Repulsion(self, others, sqrt), sqrt)
  }

  /** The destination the drone steers to: its own, or when it has none a pick
      from `destinations` (none at all when that list is empty). */
  function Target(destination: Option<Vec>, destinations: seq<Vec>, pick: nat): (r: Option<Vec>)
    ensures r.None? <==> destination.None? && |destinations| == 0
    ensures r.Some? && destination.None? ==> r.value in destinations
  {
    if destination.Some? then destination else Choice(destinations, pick)
  }

  /** The drone is closer to `target` than the arrival distance. */
  predicate Arrived(pos: Vec, target: Vec)
  {
    NormSq(Sub(target, pos)) < Sq(ArrivalDistance)
  }

  /** The outcome of `default_decision`: the drone's destination afterwards and
      the step it returns. */
  datatype Decision = Decision(destination: Option<Vec>, step: Vec)

  /** `default_decision` once the destination is known to be `target`: at
      arrival the destination is cleared and the drone stays put; otherwise it
      keeps the destination and takes a unit step. */
  function Steer(pos: Vec, target: Vec, neighbours: seq<Vec>, sqrt: real -> real): (r: Decision)
    requires IsSqrt(sqrt)
    ensures Arrived(pos, target) ==> r == Decision(None, Zero)
    ensures !Arrived(pos, target) ==> r.destination == Some(target) && NormSq(r.step) == 1.0
  {
    var delta := Sub(target, pos);
    var distance := sqrt(NormSq(delta));
    RootFacts(sqrt, NormSq(delta));
    SqrtLessIff(sqrt, NormSq(delta), ArrivalDistance);
    if distance < ArrivalDistance then
      Decision(None, Zero)
    else
      var goal := Vec(delta.x / distance, delta.y / distance);
      var avoid := Avoidance(pos, neighbours, sqrt);
      var blend := Blend(goal, avoid);
      UnitAfterDivision(delta.x, delta.y, distance);
      BlendNonZero(goal, avoid);
      Decision(Some(target), Normalize(blend, sqrt))
  }

  /** `Steer` at arrival. */
  lemma SteerArrives(pos: Vec, target: Vec, neighbours: seq<Vec>, sqrt: real -> real)
    requires IsSqrt(sqrt) && sqrt(NormSq(Sub(target, pos))) < ArrivalDistance
    ensures Steer(pos, target, neighbours, sqrt) == Decision(None, Zero)
  {
  }

  /** `Steer` short of arrival, spelled out. */
  lemma SteerMoves(pos: Vec, target: Vec, neighbours: seq<Vec>, sqrt: real -> real)
    requires IsSqrt(sqrt) && !(sqrt(NormSq(Sub(target, pos))) < ArrivalDistance)
    ensures var delta := Sub(target, pos);
      var distance := sqrt(NormSq(delta));
      Steer(pos, target, neighbours, sqrt) ==
        Decision(Some(target), Normalize(Blend(Vec(delta.x / distance, delta.y / distance), Avoidance(pos, neighbours, sqrt)), sqrt))
  {
  }

  /** The weighted sum of the goal and avoidance directions. */
  function Blend(goal: Vec, avoid: Vec): Vec
  {
    Vec(GoalWeight * goal.x + AvoidWeight * avoid.x, GoalWeight * goal.y + AvoidWeight * avoid.y)
  }

  /** `default_decision` for a drone at `pos` with destination `destination`
      and neighbours at `neighbours`; `None` where the source raises because it
      must pick from an empty `destinations`. */
  function Decide(pos: Vec, destination: Option<Vec>, destinations: seq<Vec>, pick: nat,
                  neighbours: seq<Vec>, sqrt: real -> real): (r: Option<Decision>)
    requires IsSqrt(sqrt)
    ensures r.None? <==> destination.None? && |destinations| == 0
    ensures r.Some? ==> var target := Target(destination, destinations, pick).value;
      if Arrived(pos, target) then r.value == Decision(None, Zero)
      else r.value.destination == Some(target) && NormSq(r.value.step) == 1.0
    ensures r.Some? && r.value.destination.Some? && (destination.Some? ==> destination.value in destinations) ==>
      r.value.destination.value in destinations
  {
    match Target(destination, destinations, pick)
    case None => None
    case Some(target) => Some(Steer(pos, target, neighbours, sqrt))
  }

  /** A weighted blend of a unit goal direction with a unit or zero avoidance
      direction never cancels out, since the goal carries the larger weight. */
  lemma BlendNonZero(goal: Vec, avoid: Vec)
    requires NormSq(goal) == 1.0
    requires avoid == Zero || NormSq(avoid) == 1.0
    ensures Blend(goal, avoid) != Zero
  {
    if Blend(goal, avoid) == Zero {
      var c := -AvoidWeight / GoalWeight;
      assert goal == Scale(c, avoid);
      NormSqScale(c, avoid);
      assert false;
    }
  }

  /** With no neighbour inside the safe distance, a drone that has not arrived
      takes a unit step straight toward its destination. */
  lemma SteerHeadsStraight(pos: Vec, target: Vec, neighbours: seq<Vec>, sqrt: real -> real)
    requires IsSqrt(sqrt) && !Arrived(pos, target) && AllFar(pos, neighbours)
    ensures Steer(pos, target, neighbours, sqrt) == Decision(Some(target), Normalize(Sub(target, pos), sqrt))
  {
    var delta := Sub(target, pos);
    var distance := sqrt(NormSq(delta));
    RootFacts(sqrt, NormSq(delta));
    SqrtLessIff(sqrt, NormSq(delta), ArrivalDistance);
    var goal := Vec(delta.x / distance, delta.y / distance);
    UnitAfterDivision(delta.x, delta.y, distance);
    assert Blend(goal, Zero) == Scale(GoalWeight, goal);
    NormalizeUnitMultiple(GoalWeight, goal, sqrt);
  }
}
