# Drone simulation: a verified model of the simulation core

`main.py` simulates drones in the plane. Each drone is placed at a randomly
chosen source. In every animation frame, each active drone in turn:

- picks a destination when it has none;
- stops and clears it on arrival, that is, within distance 1;
- otherwise takes a unit step. The step blends the direction to its
  destination (weight 0.7) with a repulsion from neighbours closer than its
  safe distance (weight 0.3).

After every drone has moved, a pairwise scan marks dead both drones of each
colliding pair whose drones are both still alive when they are compared. Two
drones collide when they are closer than the sum of their radii. The dead are
then dropped from the active list, so the list never grows.

The project models that core in Dafny.

- `geometry.dfy` covers plane vectors over exact reals, and square roots
  supplied as a parameter `sqrt` with `IsSqrt(sqrt)`.
- `collisions.dfy` specifies the collision scan (`Scan`) and the rebuilding
  of the active list (`Keep`), as functions on values.
- `steering.dfy` specifies `random.choice` (`Choice`), `avoid_collisions`
  (`Avoidance`) and `default_decision` (`Decide`), as functions on values.
- `ticks.dfy` specifies the movement pass of a frame (`Pass`) on values.
  Each drone decides on the positions the others have at that moment, so
  drones visited later see the drones visited earlier after their move.
- `simulation.dfy` holds the classes `Drone` and `Simulation`, whose methods
  update positions, destinations, `dead` flags and the active list in place.
  Every method is proved against the value-level functions above.

The main results:

- No two drones that survive a scan collide (`KeptApart`).
- Every drone a scan kills collided with another drone that is killed too,
  and the scan compared the two. So the first of the pair was alive when its
  turn came, and the second was still alive then (`ScanKillsOnlyColliders`).
- A drone with no neighbour inside its safe distance steps straight toward
  its destination (`SteerHeadsStraight`).
- The blended direction never cancels out, so every step short of arrival
  has length exactly one (`BlendNonZero`, `Steer`).
- A frame keeps the roster invariant `Valid` (`Simulation.Update`).
  Under that invariant:
  - the active drones are drones of the roster, without repeats, and alive;
  - every drone outside the active list is dead;
  - every destination that is set is one of the simulation's destinations.

A colliding pair is not always killed together. A drone that is dead when
its own turn comes is skipped as the first of a pair, and a dead partner is
skipped as the second. `ChainLeavesCloseSurvivor` shows this on three drones
in a row: the third survives although it collides with the second. A drone
killed during its own turn still kills the later drones it collides with:
its inner loop does not look at its own flag again.
`KilledInOwnTurnStillKills` shows this on three drones. The model follows the
code here.

## Model

| member | source | states |
|---|---|---|
| Geometry.SqrtLessIff | main.py:96-99 | for a non-negative bound, `sqrt(t) < c` holds exactly when `t < c ** 2`, so the distance tests may compare squared distances |
| Geometry.SqrtZeroIff | main.py:76-77 | a root is non-negative and is zero exactly when the squared distance is zero (the clamped case) |
| Geometry.Normalize | main.py:82-85 | scaling to unit length leaves the zero vector alone, gives length one otherwise, and is a non-negative multiple of the input |
| Geometry.UnitAfterDivision | main.py:50 | dividing the offset to the destination by its length gives a unit vector |
| Geometry.NormalizeUnitMultiple | main.py:61-63 | normalising a positive multiple of a unit vector gives that unit vector back |
| Geometry.DistSqSymmetric | main.py:96-98 | the squared distance between two drones does not depend on their order |
| Choices.Choice | main.py:39 | `random.choice` yields an element of the list, and fails (`None`) exactly when the list is empty |
| Collisions.CollideIffClose | main.py:96-99 | the root-based test `distance < r1 + r2` decides exactly `Collide`, the squared comparison |
| Collisions.CollideSymmetric | main.py:96-99 | collision is symmetric in the two drones |
| Collisions.Inner | main.py:93-101 | the inner loop for drone `i` only ever sets flags, never clears one |
| Collisions.Outer | main.py:90-101 | the outer loop only ever sets flags |
| Collisions.Scan | main.py:89-101 | the whole scan only ever sets flags: no dead drone comes back |
| Collisions.InnerMarksColliders | main.py:93-101 | after the inner loop for `i`, every later drone colliding with `i` is dead |
| Collisions.OuterSeparates | main.py:90-101 | two drones that both survive the rest of the scan do not collide |
| Collisions.ScanSurvivorsApart | main.py:89-101 | no two survivors of a scan collide, in either order |
| Collisions.Prefix | main.py:90-101 | the flags after the first `a` turns of the outer loop only ever add deaths to the starting flags |
| Collisions.PrefixOuter | main.py:90-101 | the rest of the outer loop after `a` turns finishes the whole scan |
| Collisions.InnerExact | main.py:93-101 | the inner loop for a living drone `i` leaves earlier drones alone, kills exactly the later living drones that collide with `i`, and kills `i` exactly when one of them exists |
| Collisions.TurnKillsFirst | main.py:90-101 | a drone alive at its turn and dead after it collided with a later drone that its inner loop reached alive and that dies too |
| Collisions.TurnKillsLater | main.py:93-101 | a drone killed in another drone's turn was alive when that turn reached it, collides with that drone, and that drone dies too |
| Collisions.PrefixKillsOnlyColliders | main.py:90-101 | after `a` turns, every drone killed so far collided with another drone that is dead too, and the two were compared: the first of them was alive at its turn and the second was still alive then |
| Collisions.ScanKillsOnlyColliders | main.py:89-101 | every drone the scan kills collided with another drone that is killed too, and the scan compared the two while both were alive; a drone dead when its turn comes, or dead before a later drone's turn reaches it, kills nobody from then on |
| Collisions.LiveIndices | main.py:102 | the indices of the living drones, strictly increasing, each living, and containing every living index |
| Collisions.Keep | main.py:102 | the rebuilt active list is the drones at the living indices, in order, and no longer than the old list |
| Collisions.KeepMembers | main.py:102 | every living drone is kept, and every kept drone was living |
| Collisions.KeptApart | main.py:89-102 | the positions of the drones kept after a scan are pairwise apart |
| Collisions.ChainLeavesCloseSurvivor | main.py:89-101 | three drones 0.8 apart in a row: the first two die and the third survives, although it collides with the second |
| Collisions.KilledInOwnTurnStillKills | main.py:93-101 | drones at 0, 0.9 and 0.5: drone 0 dies with drone 1 and still kills drone 2 in the same inner loop, so all three die |
| Steering.Push | main.py:70-80 | a neighbour at or beyond the safe distance, or at the drone's own position, exerts no push |
| Steering.PushPointsAway | main.py:74-80 | a distinct neighbour inside the safe distance pushes the drone straight away from itself, by a positive multiple of the offset |
| Steering.NearRoot | main.py:72-74 | the distance to a near, distinct neighbour lies strictly between zero and the safe distance |
| Steering.Repulsion | main.py:68-81 | the summed repulsion is zero when no neighbour is inside the safe distance |
| Steering.RepulsionSnoc | main.py:69-80 | one more loop iteration adds that neighbour's push to the sum |
| Steering.Avoidance | main.py:67-87 | `avoid_collisions` returns zero or a unit vector, and zero when no neighbour is near |
| Steering.Target | main.py:38-39 | the destination is kept when set, otherwise picked from `destinations`; there is none exactly when it is unset and the list is empty |
| Steering.Steer | main.py:41-65 | at arrival the destination is cleared and the step is zero; otherwise the destination is kept and the step has length one |
| Steering.SteerArrives | main.py:45-47 | within the arrival distance the decision is `(None, (0, 0))` |
| Steering.Decide | main.py:37-65 | `default_decision` fails exactly when there is no destination to pick; otherwise it arrives (cleared, zero step) or keeps the target and steps one unit; a destination it leaves set is one of `destinations` |
| Steering.BlendNonZero | main.py:57-63 | a 0.7/0.3 blend of a unit goal direction and a unit or zero avoidance direction is never zero |
| Steering.SteerHeadsStraight | main.py:41-65 | with no near neighbour, a drone that has not arrived steps by the unit vector toward its destination |
| Ticks.Others | main.py:108 | the neighbour list is every other drone, in list order |
| Ticks.Step | main.py:108-111 | a drone's turn fails exactly when its decision fails; otherwise only that drone changes, it moves by at most one, and destinations stay picks from `destinations` |
| Ticks.Move | main.py:110-111 | the deciding drone moves by exactly the step and takes the decision's destination; the others are unchanged |
| Ticks.Pass | main.py:107-111 | the pass from drone `k` leaves the earlier drones alone, moves every later one by at most one, fails only when `destinations` is empty, and keeps destinations among `destinations` |
| Ticks.PassStep | main.py:107-111 | after drone `k`'s turn, the pass from `k + 1` finishes the pass from `k`; a failed turn ends the pass there |
| DroneSim.DistinctIff | main.py:108 | the recursive "no repeats" predicate holds exactly when no two positions hold the same drone, so identity `!=` singles out one position |
| DroneSim.KeepDistinct | main.py:102 | dropping the dead from a list without repeats leaves a list without repeats |
| DroneSim.KeepAlive | main.py:102 | the drones kept are alive, and keep destinations drawn from `destinations` |
| DroneSim.KeepSettled | main.py:102 | the dropped drones are dead, joining the dead drones outside the active list |
| DroneSim.Drone.constructor | main.py:12-20 | a new drone has the given id and position, no destination, and is alive |
| DroneSim.Simulation.constructor | main.py:24-35 | `n` fresh drones with ids `0..n-1`, drone `k` at the source picked for it, all alive, all active, step 0; the roster is valid |
| DroneSim.Simulation.AvoidCollisions | main.py:67-87 | the loop's result is `Avoidance` of the neighbours' positions |
| DroneSim.Simulation.DefaultDecision | main.py:37-65 | returns the step of `Decide`, and sets the drone's destination to the decided one; fails with the destination unchanged exactly when `Decide` fails |
| DroneSim.Simulation.Toward | main.py:41-65 | the arrival test and the blended, normalised step agree with `Steer` |
| DroneSim.Simulation.Update | main.py:105-113 | one frame keeps the roster valid, sets the step counter, moves the active drones as `Pass` does, and after a complete pass kills as `Scan` does and keeps the survivors in order; the active list never grows |
| DroneSim.Simulation.Restored | main.py:89-113 | after a frame that changed only the active drones, the active list is again the living drones of the roster, without repeats, with destinations from `destinations` |
| DroneSim.Simulation.Advance | main.py:105-113 | the frame: step counter set, movement pass equal to `Pass`, then the collision check equal to `Scan` and `Keep`; a failed pass leaves the active list and flags as they were |
| DroneSim.Simulation.MoveAll | main.py:107-111 | the loop over the active drones moves them exactly as `Pass` from drone 0 does, and touches no `dead` flag |
| DroneSim.Simulation.Turn | main.py:108-111 | drone `i`'s turn changes the drones exactly as `Step` does |
| DroneSim.Simulation.Consult | main.py:108-109 | the neighbour list and the decision give `Decide` on the other drones' positions; only the deciding drone's destination changes |
| DroneSim.Simulation.CheckCollisions | main.py:89-102 | the flags afterwards are `Scan` of the positions and flags before, and the active list is the survivors in order, no longer than before |
| DroneSim.Shift | main.py:110-111 | only the moving drone's position changes, by exactly the step |
| DroneSim.MarkCollisions | main.py:90-101 | the nested loops set the flags to `Scan` of the flags before, and move nobody |
| DroneSim.MarkPartners | main.py:93-101 | the inner loop for a living drone sets the flags to `Inner` |
| DroneSim.Kill | main.py:99-101 | exactly the two colliding drones are marked dead |
| DroneSim.Living | main.py:102 | the comprehension gives `Keep` of the list and its flags |
| DroneSim.Neighbors | main.py:108 | the comprehension gives every other drone of the list, in order |

## Left out

- Drawing: `display`, the figure, axes and scatter fields, and the frame's return value (main.py:1-8, 32-33, 114, 121-158) are not modelled.
- `run` hands `update` to `FuncAnimation` for `steps` frames (main.py:116-119). The model has one frame (`Simulation.Update`); `plt.show` and the sequence of frames are not modelled.
- The driver lines main.py:161-166 are not modelled.
- Floating point: coordinates, distances and weights are exact reals, so rounding is not modelled.
- `math.sqrt` is a parameter `sqrt` with `IsSqrt(sqrt)`: the non-negative root on non-negative inputs. Roots cannot be defined here without axioms.
- `random.choice` is `Choice(xs, k)`: the caller supplies the index `k`. The initial placement uses `pick(k)` for drone `k`. In a frame, drone `i` of the active list uses `pick(i)`.
- `make_decision`: every drone uses `default_decision`, the only decision function `main.py` installs. `Drone.constructor` therefore takes no decision function.
- `radius` and `safe_distance` are the same constants (0.5 and 1.0) for every drone, as in `main.py`.
- Exceptions: an `IndexError` from `random.choice` on an empty destination list is the result `None`, or `ok == false`. The frame stops at that drone. Drones moved earlier in the frame stay moved, and the collision check does not run.
- DroneSim.Simulation.constructor: requires at least one source when drones are requested. `main.py` raises `IndexError` in that case instead.
- DroneSim.Simulation.Update: requires `Valid()`. The constructor establishes it and every frame preserves it. Under it no drone is in the active list twice, so the identity test `d != drone` excludes exactly one position. `Advance` and the methods below it ask only for that absence of repeats.
- DroneSim.Simulation.DefaultDecision: writes the destination once, after the arrival test. `main.py` writes it on the pick (main.py:39) and again on arrival (main.py:46). In between, main.py:41-42 read the field back, but they only see the value just picked. The model keeps that value in the local `target`, so the final state and the step are the same.
- `self.sources` is stored (main.py:26) but read only by `display` (main.py:136). The constructor picks from its `sources` parameter (main.py:30). `current_step` is set but read only by `display`.
