/** The collision scan of `Simulation.check_collisions`, on values.

    The active drones are given by their positions `pos` and their `dead`
    flags, index by index. The scan visits each drone `i` in list order; a
    drone that is dead when its turn comes is skipped. Otherwise it is compared
    with every later drone `j` that is still alive, and a pair closer than the
    sum of the two radii has both members marked dead. The comparison loop for
    `i` goes on to the end of the list even after `i` itself has been marked.
    The survivors are then the drones whose flag is still clear, in their
    original order. */
module Collisions {
  import opened Geometry

  /** Every drone's physical radius. */
  const Radius: real := 0.5

  /** Two drones collide when their distance is below the sum of their radii.
      The source compares `sqrt(d) < r1 + r2`; `CollideIffClose` shows that the
      squared comparison used here is the same test. */
  predicate Collide(p: Vec, q: Vec)
  {
    NormSq(Sub(p, q)) < Sq(Radius + Radius)
  }

  lemma CollideSymmetric(p: Vec, q: Vec)
    ensures Collide(p, q) <==> Collide(q, p)
  {
    DistSqSymmetric(p, q);
  }

  /** The source's test with a square root decides exactly `Collide`. */
  lemma CollideIffClose(sqrt: real -> real, p: Vec, q: Vec)
    requires IsSqrt(sqrt)
    ensures sqrt(NormSq(Sub(p, q))) < Radius + Radius <==> Collide(p, q)
  {
    SqrtLessIff(sqrt, NormSq(Sub(p, q)), Radius + Radius);
  }

  /** Flags `b` include every flag of `a`: death is never undone. */
  predicate Below(a: seq<bool>, b: seq<bool>)
  {
    |a| == |b| && forall k :: 0 <= k < |a| && a[k] ==> b[k]
  }

  /** The inner loop for drone `i`, from position `j` to the end of the list. */
  function Inner(pos: seq<Vec>, dead: seq<bool>, i: nat, j: nat): (r: seq<bool>)
    requires |dead| == |pos| && i < j <= |pos|
    ensures Below(dead, r)
    decreases |pos| - j
  {
    if j == |pos| then dead
    else if dead[j] then Inner(pos, dead, i, j + 1)
    else if Collide(pos[i], pos[j]) then Inner(pos, dead[i := true][j := true], i, j + 1)
    else Inner(pos, dead, i, j + 1)
  }

  /** The outer loop, from drone `i` to the end of the list. */
  function Outer(pos: seq<Vec>, dead: seq<bool>, i: nat): (r: seq<bool>)
    requires |dead| == |pos| && i <= |pos|
    ensures Below(dead, r)
    decreases |pos| - i
  {
    if i == |pos| then dead
    else if dead[i] then Outer(pos, dead, i + 1)
    else Outer(pos, Inner(pos, dead, i, i + 1), i + 1)
  }

  /** The flags after a whole scan. */
  function Scan(pos: seq<Vec>, dead: seq<bool>): (r: seq<bool>)
    requires |dead| == |pos|
    ensures Below(dead, r)
  {
    Outer(pos, dead, 0)
  }

  /** After the inner loop for `i`, every later drone that collides with `i`
      is dead, whether it was killed here or before. */
  lemma {:induction false} InnerMarksColliders(pos: seq<Vec>, dead: seq<bool>, i: nat, j: nat)
    requires |dead| == |pos| && i < j <= |pos|
    ensures forall l :: j <= l < |pos| && Collide(pos[i], pos[l]) ==> Inner(pos, dead, i, j)[l]
    decreases |pos| - j
  {
    if j < |pos| {
      if dead[j] {
        InnerMarksColliders(pos, dead, i, j + 1);
      } else if Collide(pos[i], pos[j]) {
        InnerMarksColliders(pos, dead[i := true][j := true], i, j + 1);
      } else {
        InnerMarksColliders(pos, dead, i, j + 1);
      }
    }
  }

  /** Two drones from position `i` on that both survive the rest of the scan
      do not collide. */
  lemma {:induction false} OuterSeparates(pos: seq<Vec>, dead: seq<bool>, i: nat)
    requires |dead| == |pos| && i <= |pos|
    ensures forall a, b :: i <= a < b < |pos| && !Outer(pos, dead, i)[a] && !Outer(pos, dead, i)[b] ==>
      !Collide(pos[a], pos[b])
    decreases |pos| - i
  {
    if i < |pos| {
      if dead[i] {
        OuterSeparates(pos, dead, i + 1);
      } else {
        InnerMarksColliders(pos, dead, i, i + 1);
        OuterSeparates(pos, Inner(pos, dead, i, i + 1), i + 1);
      }
    }
  }

  /** No two survivors of a scan collide. */
  lemma ScanSurvivorsApart(pos: seq<Vec>, dead: seq<bool>)
    requires |dead| == |pos|
    ensures forall a, b ::
      (0 <= a < |pos| && 0 <= b < |pos| && a != b && !Scan(pos, dead)[a] && !Scan(pos, dead)[b]) ==>
        !Collide(pos[a], pos[b])
  {
    OuterSeparates(pos, dead, 0);
    forall a, b | 0 <= a < |pos| && 0 <= b < |pos| && b < a && !Scan(pos, dead)[a] && !Scan(pos, dead)[b]
      ensures !Collide(pos[a], pos[b])
    {
      CollideSymmetric(pos[a], pos[b]);
    }
  }

  /** The flags after the first `a` turns of the outer loop: drone `a - 1`
      runs its inner loop only if it is still alive when its turn comes. */
  function Prefix(pos: seq<Vec>, d0: seq<bool>, a: nat): (r: seq<bool>)
    requires |d0| == |pos| && a <= |pos|
    ensures Below(d0, r)
    decreases a
  {
    if a == 0 then d0
    else
      var p := Prefix(pos, d0, a - 1);
      if p[a - 1] then p else Inner(pos, p, a - 1, a)
  }

  /** The rest of the scan after `a` turns finishes the whole scan; after all
      the turns the flags are those of the scan. */
  lemma {:induction false} PrefixOuter(pos: seq<Vec>, d0: seq<bool>, a: nat)
    requires |d0| == |pos| && a <= |pos|
    ensures Outer(pos, Prefix(pos, d0, a), a) == Scan(pos, d0)
    decreases a
  {
    if a > 0 {
      PrefixOuter(pos, d0, a - 1);
    }
  }

  /** The inner loop for drone `i`, from `j` on, exactly: earlier drones other
      than `i` are untouched; a later drone ends dead when it was dead or
      collides with `i`; `i` ends dead when it was dead or collides with a
      later drone that was alive. */
  lemma {:induction false} InnerExact(pos: seq<Vec>, dead: seq<bool>, i: nat, j: nat)
    requires |dead| == |pos| && i < j <= |pos|
    ensures forall k :: 0 <= k < j && k != i ==> Inner(pos, dead, i, j)[k] == dead[k]
    ensures forall k :: j <= k < |pos| ==> Inner(pos, dead, i, j)[k] == (dead[k] || Collide(pos[i], pos[k]))
    ensures Inner(pos, dead, i, j)[i] ==
      (dead[i] || exists l :: j <= l < |pos| && !dead[l] && Collide(pos[i], pos[l]))
    decreases |pos| - j
  {
    if j < |pos| {
      if dead[j] || !Collide(pos[i], pos[j]) {
        InnerExact(pos, dead, i, j + 1);
      } else {
        InnerExact(pos, dead[i := true][j := true], i, j + 1);
        assert j <= j < |pos| && !dead[j] && Collide(pos[i], pos[j]);
      }
    }
  }

  /** Drones `k` and `l` were compared by the scan: the first of the two was
      alive when its turn came, and the second was still alive then, so the
      inner loop of the first reached it alive. */
  predicate Compared(pos: seq<Vec>, d0: seq<bool>, k: nat, l: nat)
    requires |d0| == |pos| && k < |pos| && l < |pos|
  {
    var a, b := if k < l then k else l, if k < l then l else k;
    !Prefix(pos, d0, a)[a] && !Prefix(pos, d0, a)[b]
  }

  /** A drone dead after `m` turns is still dead after turn `m`. */
  lemma TurnKeepsDead(pos: seq<Vec>, d0: seq<bool>, m: nat, l: nat)
    requires |d0| == |pos| && m < |pos| && l < |pos| && Prefix(pos, d0, m)[l]
    ensures Prefix(pos, d0, m + 1)[l]
  {
    var p := Prefix(pos, d0, m);
    if !p[m] {
      assert Prefix(pos, d0, m + 1) == Inner(pos, p, m, m + 1);
    }
  }

  /** Drone `m`, alive when its turn comes and dead after it, was killed by a
      later drone that its inner loop reached alive and that dies with it. */
  lemma {:induction false} TurnKillsFirst(pos: seq<Vec>, d0: seq<bool>, m: nat)
    requires |d0| == |pos| && m < |pos|
    requires !Prefix(pos, d0, m)[m] && Prefix(pos, d0, m + 1)[m]
    ensures exists l :: 0 <= l < |pos| && l != m && Prefix(pos, d0, m + 1)[l] &&
                        Collide(pos[m], pos[l]) && Compared(pos, d0, m, l)
  {
    var p := Prefix(pos, d0, m);
    assert Prefix(pos, d0, m + 1) == Inner(pos, p, m, m + 1);
    InnerExact(pos, p, m, m + 1);
    var l :| m + 1 <= l < |pos| && !p[l] && Collide(pos[m], pos[l]);
    assert Prefix(pos, d0, m + 1)[l] && Compared(pos, d0, m, l);
  }

  /** Drone `k`, alive after `m` turns and dead after turn `m` without being
      drone `m`, was killed by drone `m`, which dies with it. */
  lemma {:induction false} TurnKillsLater(pos: seq<Vec>, d0: seq<bool>, m: nat, k: nat)
    requires |d0| == |pos| && m < |pos| && k < |pos| && k != m
    requires !Prefix(pos, d0, m)[m] && !Prefix(pos, d0, m)[k] && Prefix(pos, d0, m + 1)[k]
    ensures exists l :: 0 <= l < |pos| && l != k && Prefix(pos, d0, m + 1)[l] &&
                        Collide(pos[k], pos[l]) && Compared(pos, d0, k, l)
  {
    var p := Prefix(pos, d0, m);
    assert Prefix(pos, d0, m + 1) == Inner(pos, p, m, m + 1);
    InnerExact(pos, p, m, m + 1);
    assert m + 1 <= k < |pos| && !p[k] && Collide(pos[m], pos[k]);
    CollideSymmetric(pos[m], pos[k]);
    assert Prefix(pos, d0, m + 1)[m] && Compared(pos, d0, k, m);
  }

  /** After `a` turns, every drone killed so far collided with a drone it was
      compared with, which is dead too. */
  lemma {:induction false} PrefixKillsOnlyColliders(pos: seq<Vec>, d0: seq<bool>, a: nat)
    requires |d0| == |pos| && a <= |pos|
    ensures forall k :: 0 <= k < |pos| && !d0[k] && Prefix(pos, d0, a)[k] ==>
      exists l :: 0 <= l < |pos| && l != k && Prefix(pos, d0, a)[l] &&
        Collide(pos[k], pos[l]) && Compared(pos, d0, k, l)
    decreases a
  {
    if a > 0 {
      var m := a - 1;
      var p := Prefix(pos, d0, m);
      PrefixKillsOnlyColliders(pos, d0, m);
      if p[m] {
        assert Prefix(pos, d0, a) == p;
      } else {
        forall k | 0 <= k < |pos| && !d0[k] && Prefix(pos, d0, a)[k]
          ensures exists l :: 0 <= l < |pos| && l != k && Prefix(pos, d0, a)[l] &&
                              Collide(pos[k], pos[l]) && Compared(pos, d0, k, l)
        {
          if p[k] {
            var l :| 0 <= l < |pos| && l != k && p[l] && Collide(pos[k], pos[l]) && Compared(pos, d0, k, l);
            TurnKeepsDead(pos, d0, m, l);
          } else if k == m {
            TurnKillsFirst(pos, d0, m);
          } else {
            TurnKillsLater(pos, d0, m, k);
          }
        }
      }
    }
  }

  /** Every drone the scan kills collided with a drone it was compared with,
      which is killed too. A drone dead when its own turn comes is skipped as
      the first of a pair, and a drone dead before a turn reaches it is
      skipped as the second; a drone killed during its own turn still kills
      the later drones it collides with (`KilledInOwnTurnStillKills`). */
  lemma ScanKillsOnlyColliders(pos: seq<Vec>, d0: seq<bool>)
    requires |d0| == |pos|
    ensures forall k :: 0 <= k < |pos| && !d0[k] && Scan(pos, d0)[k] ==>
      exists l :: 0 <= l < |pos| && l != k && Scan(pos, d0)[l] &&
        Collide(pos[k], pos[l]) && Compared(pos, d0, k, l)
  {
    PrefixOuter(pos, d0, |pos|);
    PrefixKillsOnlyColliders(pos, d0, |pos|);
  }

  /** The indices whose flag is clear, in increasing order. */
  function LiveIndices(dead: seq<bool>): (r: seq<nat>)
    ensures forall m :: 0 <= m < |r| ==> r[m] < |dead| && !dead[r[m]]
    ensures forall m, m' :: 0 <= m < m' < |r| ==> r[m] < r[m']
    ensures forall k :: 0 <= k < |dead| && !dead[k] ==> k in r
  {
    if |dead| == 0 then []
    else
      var rest := LiveIndices(dead[..|dead| - 1]);
      if dead[|dead| - 1] then rest else rest + [|dead| - 1]
  }

  /** The elements of `xs` whose flag is clear, in their original order: the
      list comprehension that rebuilds `active_drones`. */
  function Keep<T>(xs: seq<T>, dead: seq<bool>): (r: seq<T>)
    requires |xs| == |dead|
    ensures |r| == |LiveIndices(dead)| <= |xs|
    ensures forall m :: 0 <= m < |r| ==> r[m] == xs[LiveIndices(dead)[m]]
  {
    if |xs| == 0 then []
    else
      var rest := Keep(xs[..|xs| - 1], dead[..|dead| - 1]);
      if dead[|dead| - 1] then rest else rest + [xs[|xs| - 1]]
  }

  /** Every element whose flag is clear is kept, and every kept element had a
      clear flag. */
  lemma {:induction false} KeepMembers<T>(xs: seq<T>, dead: seq<bool>)
    requires |xs| == |dead|
    ensures forall k :: 0 <= k < |xs| && !dead[k] ==> xs[k] in Keep(xs, dead)
    ensures forall m :: 0 <= m < |Keep(xs, dead)| ==>
      exists k :: 0 <= k < |xs| && !dead[k] && Keep(xs, dead)[m] == xs[k]
  {
    var r, live := Keep(xs, dead), LiveIndices(dead);
    forall k | 0 <= k < |xs| && !dead[k]
      ensures xs[k] in r
    {
      var m :| 0 <= m < |live| && live[m] == k;
      assert r[m] == xs[k];
    }
    forall m | 0 <= m < |r|
      ensures exists k :: 0 <= k < |xs| && !dead[k] && r[m] == xs[k]
    {
      assert !dead[live[m]] && r[m] == xs[live[m]];
    }
  }

  /** The positions that survive a scan are pairwise apart. */
  lemma KeptApart(pos: seq<Vec>, d0: seq<bool>)
    requires |d0| == |pos|
    ensures forall m, m' :: 0 <= m < m' < |Keep(pos, Scan(pos, d0))| ==>
      !Collide(Keep(pos, Scan(pos, d0))[m], Keep(pos, Scan(pos, d0))[m'])
  {
    var r := Scan(pos, d0);
    ScanSurvivorsApart(pos, d0);
    forall m, m' | 0 <= m < m' < |Keep(pos, r)|
      ensures !Collide(Keep(pos, r)[m], Keep(pos, r)[m'])
    {
      var a, b := LiveIndices(r)[m], LiveIndices(r)[m'];
      assert a != b && !r[a] && !r[b];
    }
  }

  /** Three drones in a row, 0.8 apart: the first two collide and die; the
      third is then compared only with the first, which is too far away, and
      survives although it is as close to the second as the first was. A
      colliding pair is therefore not always killed together. */
  lemma ChainLeavesCloseSurvivor()
    ensures Scan([Vec(0.0, 0.0), Vec(0.8, 0.0), Vec(1.6, 0.0)], [false, false, false]) == [true, true, false]
    ensures Collide(Vec(0.8, 0.0), Vec(1.6, 0.0))
  {
    var pos := [Vec(0.0, 0.0), Vec(0.8, 0.0), Vec(1.6, 0.0)];
    var d0 := [false, false, false];
    var d1 := [true, true, false];
    assert NormSq(Sub(pos[0], pos[1])) == 0.64;
    assert NormSq(Sub(pos[0], pos[2])) == 2.56;
    assert Inner(pos, d1, 0, 3) == d1;
    assert Inner(pos, d1, 0, 2) == d1;
    assert d0[0 := true][1 := true] == d1;
    assert Inner(pos, d0, 0, 1) == d1;
    assert Outer(pos, d1, 3) == d1;
    assert Inner(pos, d1, 2, 3) == d1;
    assert Outer(pos, d1, 2) == d1;
    assert Outer(pos, d1, 1) == d1;
    assert NormSq(Sub(pos[1], pos[2])) == 0.64;
  }

  /** Drones at 0, 0.9 and 0.5: drone 0 dies with drone 1 at the first
      comparison of its turn, and its inner loop goes on and still kills drone
      2, whose only close neighbours were both dead by then. A drone killed
      during its own turn keeps killing the later drones it collides with. */
  lemma KilledInOwnTurnStillKills()
    ensures Inner([Vec(0.0, 0.0), Vec(0.9, 0.0), Vec(0.5, 0.0)], [true, true, false], 0, 2) == [true, true, true]
    ensures Scan([Vec(0.0, 0.0), Vec(0.9, 0.0), Vec(0.5, 0.0)], [false, false, false]) == [true, true, true]
  {
    var pos := [Vec(0.0, 0.0), Vec(0.9, 0.0), Vec(0.5, 0.0)];
    var d0 := [false, false, false];
    var d1 := [true, true, false];
    var d2 := [true, true, true];
    assert NormSq(Sub(pos[0], pos[1])) == 0.81;
    assert NormSq(Sub(pos[0], pos[2])) == 0.25;
    assert d1[0 := true][2 := true] == d2;
    assert Inner(pos, d2, 0, 3) == d2;
    assert Inner(pos, d1, 0, 2) == d2;
    assert d0[0 := true][1 := true] == d1;
    assert Inner(pos, d0, 0, 1) == d2;
    assert Outer(pos, d2, 3) == d2;
    assert Outer(pos, d2, 2) == d2;
    assert Outer(pos, d2, 1) == d2;
  }
}
