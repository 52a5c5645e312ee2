/**
 * Distance, bounding boxes and the distance-ordered pair type OrdT
 * (src/util.rs).
 *
 * Coordinates are reals and the distance is the Minkowski distance for
 * p = 1, the sum of |y[i] - x[i]| over the axes.
 */
module Util {

  /** A point: one coordinate per axis. */
  type Point = seq<real>

  function Abs(v: real): real { if v < 0.0 then -v else v }

  function Max(a: real, b: real): real { if a < b then b else a }

  function Min(a: real, b: real): real { if a < b then a else b }

  /** The sum of |y[i] - x[i]| over the first n axes. */
  function SumAbs(x: Point, y: Point, n: nat): real
    requires n <= |x| && n <= |y|
  {
    if n == 0 then 0.0 else SumAbs(x, y, n - 1) + Abs(y[n - 1] - x[n - 1])
  }

  /** pdist for p = 1. */
  function Dist(x: Point, y: Point): real
    requires |x| == |y|
  {
    SumAbs(x, y, |x|)
  }

  /** pdist: accumulates |y[i] - x[i]| axis by axis. */
  method PDist(x: Point, y: Point) returns (dist: real)
    requires |x| == |y|
    ensures dist == Dist(x, y)
  {
    dist := 0.0;
    for i := 0 to |x|
      invariant dist == SumAbs(x, y, i)
    {
      dist := dist + Abs(y[i] - x[i]);
    }
  }

  lemma {:induction false} SumAbsSymmetric(x: Point, y: Point, n: nat)
    requires n <= |x| && n <= |y|
    ensures SumAbs(x, y, n) == SumAbs(y, x, n)
  {
    if n > 0 { SumAbsSymmetric(x, y, n - 1); }
  }

  lemma {:induction false} SumAbsSelf(x: Point, n: nat)
    requires n <= |x|
    ensures SumAbs(x, x, n) == 0.0
  {
    if n > 0 { SumAbsSelf(x, n - 1); }
  }

  lemma {:induction false} SumAbsNonNegative(x: Point, y: Point, n: nat)
    requires n <= |x| && n <= |y|
    ensures SumAbs(x, y, n) >= 0.0
  {
    if n > 0 { SumAbsNonNegative(x, y, n - 1); }
  }

  lemma {:induction false} SumAbsTriangle(x: Point, y: Point, z: Point, n: nat)
    requires n <= |x| && n <= |y| && n <= |z|
    ensures SumAbs(x, z, n) <= SumAbs(x, y, n) + SumAbs(y, z, n)
  {
    if n > 0 { SumAbsTriangle(x, y, z, n - 1); }
  }

  /** The distance is a metric: symmetric, zero on equal points, non-negative,
      and it satisfies the triangle inequality. */
  lemma DistIsMetric(x: Point, y: Point, z: Point)
    requires |x| == |y| == |z|
    ensures Dist(x, y) == Dist(y, x)
    ensures Dist(x, x) == 0.0
    ensures Dist(x, y) >= 0.0
    ensures Dist(x, z) <= Dist(x, y) + Dist(y, z)
  {
    SumAbsSymmetric(x, y, |x|);
    SumAbsSelf(x, |x|);
    SumAbsNonNegative(x, y, |x|);
    SumAbsTriangle(x, y, z, |x|);
  }

  /** The point [0; K]. */
  function Zeros(n: nat): (r: Point)
    ensures |r| == n && forall i | 0 <= i < n :: r[i] == 0.0
  {
    seq(n, i => 0.0)
  }

  /** An axis-aligned box: cent[i] - diff[i] <= y[i] <= cent[i] + diff[i]. */
  datatype BoundBox = BoundBox(diff: seq<real>, cent: seq<real>)

  predicate InBox(b: BoundBox, y: Point)
  {
    |y| == |b.cent| && |y| == |b.diff| &&
    forall i | 0 <= i < |y| :: b.cent[i] - b.diff[i] <= y[i] <= b.cent[i] + b.diff[i]
  }

  lemma {:induction false} SumLowerBound(b: BoundBox, x: Point, y: Point, n: nat)
    requires InBox(b, y) && |x| == |y| && n <= |y|
    ensures SumAbs(x, b.cent, n) - SumAbs(Zeros(|x|), b.diff, n) <= SumAbs(x, y, n)
  {
    if n > 0 {
      SumLowerBound(b, x, y, n - 1);
      var i := n - 1;
      assert b.cent[i] - b.diff[i] <= y[i] <= b.cent[i] + b.diff[i];
      assert Abs(b.cent[i] - x[i]) - Abs(b.diff[i] - Zeros(|x|)[i]) <= Abs(y[i] - x[i]);
    }
  }

  /** The doc comment's promise: the centre distance minus the box's radius
      is at most the distance to any point inside the box. */
  lemma CDistSound(b: BoundBox, x: Point, y: Point)
    requires InBox(b, y) && |x| == |y|
    ensures Dist(x, b.cent) - Dist(Zeros(|x|), b.diff) <= Dist(x, y)
  {
    SumLowerBound(b, x, y, |x|);
  }

  lemma CDistSoundAll(b: BoundBox, x: Point)
    requires |b.cent| == |x| && |b.diff| == |x|
    ensures forall y | InBox(b, y) :: Dist(x, b.cent) - Dist(Zeros(|x|), b.diff) <= Dist(x, y)
  {
    forall y | InBox(b, y)
      ensures Dist(x, b.cent) - Dist(Zeros(|x|), b.diff) <= Dist(x, y)
    {
      CDistSound(b, x, y);
    }
  }

  /** BoundBox::cdist: a lower bound on the distance from x to anything in the box. */
  function CDist(b: BoundBox, x: Point): (r: real)
    requires |b.cent| == |x| && |b.diff| == |x|
    ensures forall y | InBox(b, y) :: r <= Dist(x, y)
  {
    CDistSoundAll(b, x);
    Dist(x, b.cent) - Dist(Zeros(|x|), b.diff)
  }

  /** Every point has exactly dim coordinates. */
  predicate AllDim(ps: seq<Point>, dim: nat)
  {
    forall j | 0 <= j < |ps| :: |ps[j]| == dim
  }

  /** The largest coordinate i over the points, scanned first to last. */
  function MaxOn(ps: seq<Point>, i: nat): real
    requires |ps| > 0 && forall j | 0 <= j < |ps| :: i < |ps[j]|
  {
    if |ps| == 1 then ps[0][i] else Max(MaxOn(ps[..|ps| - 1], i), ps[|ps| - 1][i])
  }

  /** The smallest coordinate i over the points, scanned first to last. */
  function MinOn(ps: seq<Point>, i: nat): real
    requires |ps| > 0 && forall j | 0 <= j < |ps| :: i < |ps[j]|
  {
    if |ps| == 1 then ps[0][i] else Min(MinOn(ps[..|ps| - 1], i), ps[|ps| - 1][i])
  }

  lemma {:induction false} MinMaxBound(ps: seq<Point>, i: nat, j: nat)
    requires |ps| > 0 && (forall a | 0 <= a < |ps| :: i < |ps[a]|) && j < |ps|
    ensures MinOn(ps, i) <= ps[j][i] <= MaxOn(ps, i)
  {
    if |ps| > 1 && j < |ps| - 1 {
      MinMaxBound(ps[..|ps| - 1], i, j);
    }
  }

  lemma {:induction false} MinMaxAttained(ps: seq<Point>, i: nat)
    requires |ps| > 0 && forall a | 0 <= a < |ps| :: i < |ps[a]|
    ensures exists j | 0 <= j < |ps| :: ps[j][i] == MinOn(ps, i)
    ensures exists j | 0 <= j < |ps| :: ps[j][i] == MaxOn(ps, i)
  {
    if |ps| > 1 {
      var front := ps[..|ps| - 1];
      MinMaxAttained(front, i);
      var jmin :| 0 <= jmin < |front| && front[jmin][i] == MinOn(front, i);
      var jmax :| 0 <= jmax < |front| && front[jmax][i] == MaxOn(front, i);
      assert ps[jmin] == front[jmin] && ps[jmax] == front[jmax];
      if MinOn(ps, i) == MinOn(front, i) {
        assert ps[jmin][i] == MinOn(ps, i);
      } else {
        assert ps[|ps| - 1][i] == MinOn(ps, i);
      }
      if MaxOn(ps, i) == MaxOn(front, i) {
        assert ps[jmax][i] == MaxOn(ps, i);
      } else {
        assert ps[|ps| - 1][i] == MaxOn(ps, i);
      }
    } else {
      assert ps[0][i] == MinOn(ps, i) && ps[0][i] == MaxOn(ps, i);
    }
  }

  /** The box from_vec computes: half the extent and the midpoint on each axis.
      It contains every point and has non-negative half-widths. */
  function BoxOf(ps: seq<Point>, dim: nat): (r: BoundBox)
    requires |ps| > 0 && AllDim(ps, dim)
    ensures |r.diff| == dim && |r.cent| == dim
    ensures forall i | 0 <= i < dim :: r.diff[i] >= 0.0
    ensures forall j | 0 <= j < |ps| :: InBox(r, ps[j])
  {
    var r := BoundBox(
      seq(dim, i requires 0 <= i < dim => (MaxOn(ps, i) - MinOn(ps, i)) / 2.0),
      seq(dim, i requires 0 <= i < dim => (MaxOn(ps, i) + MinOn(ps, i)) / 2.0));
    BoxOfBounds(ps, dim, r);
    r
  }

  lemma BoxOfBounds(ps: seq<Point>, dim: nat, r: BoundBox)
    requires |ps| > 0 && AllDim(ps, dim)
    requires |r.diff| == dim && |r.cent| == dim
    requires forall i | 0 <= i < dim :: r.diff[i] == (MaxOn(ps, i) - MinOn(ps, i)) / 2.0
    requires forall i | 0 <= i < dim :: r.cent[i] == (MaxOn(ps, i) + MinOn(ps, i)) / 2.0
    ensures forall i | 0 <= i < dim :: r.diff[i] >= 0.0
    ensures forall j | 0 <= j < |ps| :: InBox(r, ps[j])
  {
    forall i, j | 0 <= i < dim && 0 <= j < |ps|
      ensures MinOn(ps, i) <= ps[j][i] <= MaxOn(ps, i)
    {
      MinMaxBound(ps, i, j);
    }
  }

  /** The box is the tightest one: on every axis some point touches its
      lower face and some point touches its upper face. */
  lemma BoxOfTight(ps: seq<Point>, dim: nat, i: nat)
    requires |ps| > 0 && AllDim(ps, dim) && i < dim
    ensures exists j | 0 <= j < |ps| :: ps[j][i] == BoxOf(ps, dim).cent[i] - BoxOf(ps, dim).diff[i]
    ensures exists j | 0 <= j < |ps| :: ps[j][i] == BoxOf(ps, dim).cent[i] + BoxOf(ps, dim).diff[i]
  {
    MinMaxAttained(ps, i);
  }

  /** One step of the corner scan: widen both corners to take in x. */
  method Widen(maxCorner: array<real>, minCorner: array<real>, x: Point)
    requires maxCorner != minCorner && maxCorner.Length == minCorner.Length <= |x|
    modifies maxCorner, minCorner
    ensures forall a | 0 <= a < maxCorner.Length ::
      maxCorner[a] == Max(old(maxCorner[a]), x[a]) && minCorner[a] == Min(old(minCorner[a]), x[a])
  {
    for i := 0 to maxCorner.Length
      invariant forall a | 0 <= a < i ::
        maxCorner[a] == Max(old(maxCorner[a]), x[a]) && minCorner[a] == Min(old(minCorner[a]), x[a])
      invariant forall a | i <= a < maxCorner.Length ::
        maxCorner[a] == old(maxCorner[a]) && minCorner[a] == old(minCorner[a])
    {
      maxCorner[i] := Max(maxCorner[i], x[i]);
      minCorner[i] := Min(minCorner[i], x[i]);
    }
  }

  /** The corner scan of from_vec: per axis, the largest and the smallest
      coordinate over all points. */
  method Corners(data: seq<Point>, dim: nat) returns (hi: seq<real>, lo: seq<real>)
    requires |data| > 0 && AllDim(data, dim)
    ensures |hi| == dim && |lo| == dim
    ensures forall a | 0 <= a < dim :: hi[a] == MaxOn(data, a) && lo[a] == MinOn(data, a)
  {
    var maxCorner := new real[dim];
    var minCorner := new real[dim];
    for i := 0 to dim
      invariant forall a | 0 <= a < i :: maxCorner[a] == data[0][a] && minCorner[a] == data[0][a]
    {
      maxCorner[i] := data[0][i];
      minCorner[i] := data[0][i];
    }
    for j := 1 to |data|
      invariant forall a | 0 <= a < dim ::
        maxCorner[a] == MaxOn(data[..j], a) && minCorner[a] == MinOn(data[..j], a)
    {
      assert data[..j + 1][..j] == data[..j];
      Widen(maxCorner, minCorner, data[j]);
    }
    assert data[..|data|] == data;
    hi, lo := maxCorner[..], minCorner[..];
  }

  /** BoundBox::from_vec: per-axis max and min corners, then the
      half-width and the centre on each axis. */
  method FromVec(data: seq<Point>, dim: nat) returns (b: BoundBox)
    requires |data| > 0 && AllDim(data, dim)
    ensures b == BoxOf(data, dim)
  {
    var hi, lo := Corners(data, dim);
    var diff := new real[dim];
    var cent := new real[dim];
    for i := 0 to dim
      invariant forall a | 0 <= a < i ::
        diff[a] == (hi[a] - lo[a]) / 2.0 && cent[a] == (hi[a] + lo[a]) / 2.0
    {
      diff[i] := (hi[i] - lo[i]) / 2.0;
      cent[i] := (hi[i] + lo[i]) / 2.0;
    }
    b := BoundBox(diff[..], cent[..]);
    assert b.diff == BoxOf(data, dim).diff;
    assert b.cent == BoxOf(data, dim).cent;
  }

  /** OrdT: a (distance, payload) pair ordered by its distance alone. */
  datatype OrdT<T> = OrdT(dist: real, meta: T)

  datatype Ordering = Less | Equal | Greater

  /** PartialEq::eq and ne compare distances only. */
  function Eq<T>(a: OrdT<T>, b: OrdT<T>): (r: bool)
    ensures r <==> PartialCmp(a, b) == Equal
  {
    a.dist == b.dist
  }

  function Ne<T>(a: OrdT<T>, b: OrdT<T>): (r: bool)
    ensures r <==> !Eq(a, b)
  {
    a.dist != b.dist
  }

  /** PartialOrd::partial_cmp; with real distances it is always defined. */
  function PartialCmp<T>(a: OrdT<T>, b: OrdT<T>): (r: Ordering)
    ensures r == Less <==> a.dist < b.dist
    ensures r == Equal <==> a.dist == b.dist
    ensures r == Greater <==> a.dist > b.dist
  {
    if a.dist < b.dist then Less
    else if a.dist == b.dist then Equal
    else Greater
  }

  /** Ord::cmp unwraps partial_cmp. */
  function Cmp<T>(a: OrdT<T>, b: OrdT<T>): (r: Ordering)
    ensures r == Less <==> a.dist < b.dist
    ensures r == Equal <==> Eq(a, b)
    ensures r == Greater <==> a.dist > b.dist
  {
    PartialCmp(a, b)
  }

  /** cmp is a total order on distances that ignores the payload. */
  lemma CmpIsTotalOrder<T>(a: OrdT<T>, b: OrdT<T>, c: OrdT<T>)
    ensures Cmp(a, a) == Equal
    ensures Cmp(a, b) == Less <==> Cmp(b, a) == Greater
    ensures Cmp(a, b) == Equal <==> Cmp(b, a) == Equal
    ensures Cmp(a, b) != Greater && Cmp(b, c) != Greater ==> Cmp(a, c) != Greater
    ensures Cmp(a, b) == Less && Cmp(b, c) == Less ==> Cmp(a, c) == Less
  {
  }

  lemma CmpIgnoresPayload<T>(d1: real, m1: T, n1: T, d2: real, m2: T, n2: T)
    ensures Cmp(OrdT(d1, m1), OrdT(d2, m2)) == Cmp(OrdT(d1, n1), OrdT(d2, n2))
    ensures Eq(OrdT(d1, m1), OrdT(d2, m2)) == Eq(OrdT(d1, n1), OrdT(d2, n2))
  {
  }
}
