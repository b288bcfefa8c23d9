/** The conventional optional value, used for a drone's destination and for
    operations whose source raises an exception (an empty choice list). */
module Wrappers {
  datatype Option<+T> = None | Some(value: T)
}

/** Plane vectors over exact reals, and square roots as supplied by the host.

    The simulation computes distances with `math.sqrt`. Square roots of reals
    cannot be defined inside this model without axioms, so every operation that
    needs one receives a function `sqrt` together with the requirement
    `IsSqrt(sqrt)`: on every non-negative input it returns the non-negative
    root. */
module Geometry {

  /** A point of the plane, or a direction (the source uses `(x, y)` tuples for both). */
  datatype Vec = Vec(x: real, y: real)

  const Zero: Vec := Vec(0.0, 0.0)

  function Add(a: Vec, b: Vec): Vec
  {
    Vec(a.x + b.x, a.y + b.y)
  }

  function Sub(a: Vec, b: Vec): Vec
  {
    Vec(a.x - b.x, a.y - b.y)
  }

  /** The square `a ** 2`: never negative, and zero only at zero.

      It is written `a * Same(a)` rather than `a * a`: the solver rewrites a
      product of a term with itself into a power, and on powers of reals it
      then fails to see even that a non-zero square is positive. */
  function Sq(a: real): (r: real)
    ensures 0.0 <= r
    ensures r == 0.0 <==> a == 0.0
  {
    a * Same(a)
  }

  function Same(a: real): real
  {
    a
  }

  /** `c` times `v`. */
  function Scale(c: real, v: Vec): Vec
  {
    Vec(c * v.x, c * v.y)
  }

  /** Squaring is strictly increasing on the non-negative reals. */
  lemma SqStrictMono(a: real, b: real)
    requires 0.0 <= a < b
    ensures Sq(a) < Sq(b)
  {
  }

  /** Squared Euclidean length: zero for the zero vector, positive otherwise. */
  function NormSq(v: Vec): (r: real)
    ensures 0.0 <= r
    ensures r == 0.0 <==> v == Zero
  {
    var Vec(x, y) := v;
    Sq(x) + Sq(y)
  }

  /** Squared distance does not depend on the order of the two points. */
  lemma DistSqSymmetric(a: Vec, b: Vec)
    ensures NormSq(Sub(a, b)) == NormSq(Sub(b, a))
  {
    SqNegate(a.x - b.x);
    SqNegate(a.y - b.y);
  }

  /** Distinct points are a positive squared distance apart. */
  lemma Apart(a: Vec, b: Vec)
    requires a != b
    ensures 0.0 < NormSq(Sub(a, b))
  {
    assert Sub(a, b) != Zero;
  }

  lemma SqNegate(a: real)
    ensures Sq(-a) == Sq(a)
  {
  }

  /** `sqrt` behaves as the non-negative square root on non-negative reals. */
  ghost predicate IsSqrt(sqrt: real -> real)
  {
    forall t: real {:trigger Root(sqrt, t)} :: 0.0 <= t ==> 0.0 <= Root(sqrt, t) && Sq(Root(sqrt, t)) == t
  }

  /** `sqrt(t)`. The facts of `IsSqrt` are keyed to this name rather than to
      every application of `sqrt`, so that the solver uses them only in the
      lemmas below, which ask for them, and not in every proof that merely
      computes with a root. */
  function Root(sqrt: real -> real, t: real): real
  {
    sqrt(t)
  }

  /** The two facts `IsSqrt` gives about one root. */
  lemma RootFacts(sqrt: real -> real, t: real)
    requires IsSqrt(sqrt) && 0.0 <= t
    ensures 0.0 <= sqrt(t) && Sq(sqrt(t)) == t
  {
    assert 0.0 <= Root(sqrt, t);
  }

  /** Roots are non-negative, and only zero has a zero root. */
  lemma SqrtZeroIff(sqrt: real -> real, t: real)
    requires IsSqrt(sqrt) && 0.0 <= t
    ensures 0.0 <= sqrt(t)
    ensures sqrt(t) == 0.0 <==> t == 0.0
  {
    RootFacts(sqrt, t);
  }

  /** Comparing a root with a non-negative bound is the same as comparing the
      radicand with the squared bound: the source's `sqrt(d) < c` tests may be
      read as `d < c ** 2`. */
  lemma SqrtLessIff(sqrt: real -> real, t: real, c: real)
    requires IsSqrt(sqrt) && 0.0 <= t && 0.0 <= c
    ensures sqrt(t) < c <==> t < Sq(c)
  {
    var s := sqrt(t);
    RootFacts(sqrt, t);
    if s < c {
      SqStrictMono(s, c);
    } else if c < s {
      SqStrictMono(c, s);
    }
  }

  /** The root of a square is the original non-negative number. */
  lemma SqrtOfSq(sqrt: real -> real, c: real)
    requires IsSqrt(sqrt) && 0.0 <= c
    ensures sqrt(Sq(c)) == c
  {
    var s := sqrt(Sq(c));
    RootFacts(sqrt, Sq(c));
    if s < c {
      SqStrictMono(s, c);
    } else if c < s {
      SqStrictMono(c, s);
    }
  }

  lemma SqScale(c: real, a: real)
    ensures Sq(c * a) == Sq(c) * Sq(a)
  {
  }

  /** Scaling a vector scales its squared length by the square of the factor. */
  lemma NormSqScale(c: real, v: Vec)
    ensures NormSq(Scale(c, v)) == Sq(c) * NormSq(v)
  {
    SqScale(c, v.x);
    SqScale(c, v.y);
  }

  /** Scaling to unit length, leaving the zero vector alone: the result is
      zero exactly when `v` is, and otherwise it has length one and points the
      same way as `v` (a positive multiple of it). */
  function Normalize(v: Vec, sqrt: real -> real): (r: Vec)
    requires IsSqrt(sqrt)
    ensures v == Zero ==> r == Zero
    ensures v != Zero ==> NormSq(r) == 1.0
    ensures exists c: real :: 0.0 <= c && r == Scale(c, v)
  {
    var m := sqrt(NormSq(v));
    RootFacts(sqrt, NormSq(v));
    if m > 0.0 then
      UnitAfterDivision(v.x, v.y, m);
      assert Vec(v.x / m, v.y / m) == Scale(1.0 / m, v);
      Vec(v.x / m, v.y / m)
    else
      assert v == Scale(1.0, v);
      v
  }

  /** `Normalize` spelled out, as the source computes it. */
  lemma NormalizeDef(v: Vec, sqrt: real -> real)
    requires IsSqrt(sqrt)
    ensures var m := sqrt(NormSq(v));
      Normalize(v, sqrt) == if m > 0.0 then Vec(v.x / m, v.y / m) else v
  {
  }

  /** Dividing the coordinates of a non-zero vector by its length gives a unit vector. */
  lemma UnitAfterDivision(x: real, y: real, m: real)
    requires 0.0 < m && Sq(m) == Sq(x) + Sq(y)
    ensures Sq(x / m) + Sq(y / m) == 1.0
  {
    var a, b := x / m, y / m;
    assert x == a * m && y == b * m;
  }

  /** Normalising a positive multiple of a unit vector gives the unit vector back. */
  lemma NormalizeUnitMultiple(c: real, v: Vec, sqrt: real -> real)
    requires IsSqrt(sqrt) && 0.0 < c && NormSq(v) == 1.0
    ensures Normalize(Scale(c, v), sqrt) == v
  {
    NormSqScale(c, v);
    SqrtOfSq(sqrt, c);
    assert sqrt(NormSq(Scale(c, v))) == c;
  }
}
