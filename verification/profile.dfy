/** The point list of `ParalineFeature.execute`: the right half of the profile
    solved on the abscissae, its mirror image in reverse order, and the two
    joined into one closed polygon. */
module Profile {
  import opened Results
  import opened Vectors
  import opened Abscissae

  /** B = (H² - a²) / 2H: the leg b of the right triangle with
      other leg a and hypotenuse H - b. Equivalently, the point (b, a) is as
      far from the origin as from the line x = H: it lies on the parabola with
      focus at the origin and directrix x = H. */
  function SolveB(H: real, a: real): (b: real)
    requires H != 0.0
    ensures (H - b) * (H - b) == b * b + a * a
  {
    (H * H - a * a) / (2.0 * H)
  }

  /** The triangle has no other solution: SolveB is the only b it admits. */
  lemma SolveBUnique(H: real, a: real, b: real)
    requires H != 0.0
    requires (H - b) * (H - b) == b * b + a * a
    ensures b == SolveB(H, a)
  {
    assert H * H - 2.0 * H * b == a * a;
    assert b * (2.0 * H) == H * H - a * a;
  }

  /** B vanishes exactly at the ends a = H and a = -H, and is H / 2 at a = 0. */
  lemma SolveBValues(H: real, a: real)
    requires H != 0.0
    ensures SolveB(H, a) == 0.0 <==> a == H || a == -H
    ensures SolveB(H, 0.0) == H / 2.0
  {
    var b := SolveB(H, a);
    assert b * (2.0 * H) == (H - a) * (H + a);
    NonzeroFactor(b, 2.0 * H);
    if a != H {
      NonzeroFactor(H + a, H - a);
    }
    SolveBValueAtZero(H);
  }

  /** B at the axis abscissa Ai = 0 is half the height. */
  lemma SolveBValueAtZero(H: real)
    requires H != 0.0
    ensures SolveB(H, 0.0) == H / 2.0
  {
    var b := SolveB(H, 0.0);
    var d := 2.0 * H;
    assert b == H * H / d;
    assert H * H == (H / 2.0) * d;
    assert b == (H / 2.0) * d / d;
  }

  /** B is even in a: opposite abscissae give the same x. */
  lemma SolveBEven(H: real, a: real)
    requires H != 0.0
    ensures SolveB(H, a) == SolveB(H, -a)
  {
  }

  /** For H > 0 and |a| <= H, B lies in [0, H / 2], reaching H / 2 only at a = 0. */
  lemma SolveBRange(H: real, a: real)
    requires H > 0.0 && -H <= a <= H
    ensures 0.0 <= SolveB(H, a) <= H / 2.0
    ensures SolveB(H, a) == H / 2.0 <==> a == 0.0
  {
    var b := SolveB(H, a);
    var d := 2.0 * H;
    assert b * d == (H - a) * (H + a);
    assert (H / 2.0 - b) * d == a * a;
    assert (H - a) * (H + a) >= 0.0 by {
      if a < H {
        PositiveScale(H + a, H - a);
      }
    }
    PositiveScale(b, d);
    PositiveScale(H / 2.0 - b, d);
    NonzeroFactor(H / 2.0 - b, d);
    if a != 0.0 {
      NonzeroFactor(a, a);
    }
  }

  /** A product with a non-zero factor vanishes only with its other factor. */
  lemma NonzeroFactor(x: real, y: real)
    requires y != 0.0
    ensures x * y == 0.0 <==> x == 0.0
  {
  }

  /** Scaling by a positive number keeps the sign. */
  lemma PositiveScale(x: real, d: real)
    requires d > 0.0
    ensures x * d >= 0.0 <==> x >= 0.0
  {
  }

  /** p lies in the plane z = 0 on the parabola with focus at the origin and
      directrix x = H: the curve every right-half point is solved onto. */
  predicate OnParabola(H: real, p: Point)
  {
    p.z == 0.0 && (H - p.x) * (H - p.x) == p.x * p.x + p.y * p.y
  }

  /** `right_points`: one point (B, -Ai, 0) per abscissa Ai. Division by 2H
      happens only inside the loop, so an empty list of abscissae needs no
      condition on H. */
  function RightPoints(H: real, A: seq<real>): (R: seq<Point>)
    requires H != 0.0 || A == []
    ensures |R| == |A|
    ensures forall i :: 0 <= i < |A| ==> R[i].y == -A[i] && OnParabola(H, R[i])
  {
    seq(|A|, i requires 0 <= i < |A| => Point(SolveB(H, A[i]), -A[i], 0.0))
  }

  /** `left_points`: the mirror images of the right points, in reverse order. */
  function LeftPoints(R: seq<Point>): (L: seq<Point>)
    ensures |L| == |R|
    ensures forall j :: 0 <= j < |R| ==> Mirror(L[j]) == R[|R| - 1 - j]
  {
    seq(|R|, j requires 0 <= j < |R| => Mirror(R[|R| - 1 - j]))
  }

  /** Mirroring in reverse order twice gives the right half back. */
  lemma LeftPointsInvolution(R: seq<Point>)
    ensures LeftPoints(LeftPoints(R)) == R
  {
    var L := LeftPoints(R);
    var LL := LeftPoints(L);
    forall j | 0 <= j < |R|
      ensures LL[j] == R[j]
    {
      MirrorInvolution(LL[j]);
      MirrorInvolution(R[j]);
      assert Mirror(LL[j]) == L[|R| - 1 - j];
      assert Mirror(L[|R| - 1 - j]) == R[j];
    }
  }

  /** The right points, then the left points without their first, then the
      first point again: the junction point the two halves share is kept once
      and the list is closed. Dropping the first element of an empty list
      leaves it empty, so with no right points there is no first point to
      close with. */
  function AllPoints(R: seq<Point>): (r: Result<seq<Point>>)
    ensures r.Err? <==> R == []
    ensures r.Err? ==> r.error == NoPoints
    ensures r.Ok? ==>
              && |r.value| == 2 * |R|
              && r.value[..|R|] == R
              && r.value[0] == r.value[|r.value| - 1]
              && forall k :: |R| <= k < 2 * |R| - 1 ==> r.value[k] == Mirror(R[2 * |R| - 2 - k])
  {
    var L := LeftPoints(R);
    var tail := if L == [] then [] else L[1..];
    var P := R + tail;
    if P == [] then Err(NoPoints) else Ok(P + [P[0]])
  }

  /** When both ends of the right half lie on x = 0, the closed list is mirror
      symmetric about its junction point: the k-th point mirrors the k-th from
      the end of the open polygon, and the last two points coincide (the
      closing point repeats the final mirrored point). */
  lemma AllPointsSymmetric(R: seq<Point>)
    requires R != [] && R[0].x == 0.0 && R[|R| - 1].x == 0.0
    ensures AllPoints(R).Ok?
    ensures var P := AllPoints(R).value;
            && P[2 * |R| - 2] == P[2 * |R| - 1]
            && forall k :: 0 <= k <= 2 * |R| - 2 ==> Mirror(P[k]) == P[2 * |R| - 2 - k]
  {
    var n := |R|;
    var P := AllPoints(R).value;
    assert P[..n] == R;
    assert forall k :: 0 <= k < n ==> P[k] == R[k];
    MirrorFixedPoints(R[0]);
    MirrorFixedPoints(R[n - 1]);
    if n >= 2 {
      assert P[2 * n - 2] == Mirror(R[0]);
    }
    forall k | 0 <= k <= 2 * n - 2
      ensures Mirror(P[k]) == P[2 * n - 2 - k]
    {
      if k < n - 1 {
        assert P[2 * n - 2 - k] == Mirror(R[k]);
      } else if k == n - 1 {
      } else {
        assert P[k] == Mirror(R[2 * n - 2 - k]);
        MirrorInvolution(R[2 * n - 2 - k]);
      }
    }
  }

  /** The point list `execute` hands to the polygon builder, or the failure
      that stops it first: get_a's failures, then the division by 2H (only
      reached when there is an abscissa), then the missing first point. */
  function Execute(H: real, resolution: real): (r: Result<seq<Point>>)
    ensures r.Ok? <==> H != 0.0 && 0.0 < resolution <= 2.0
    ensures r == Err(ZeroResolution) <==> resolution == 0.0
    ensures r == Err(SingleStep) <==> resolution < -2.0 || 2.0 < resolution
    ensures r == Err(NoPoints) <==> -2.0 <= resolution < 0.0
    ensures r == Err(ZeroHeight) <==> H == 0.0 && 0.0 < resolution <= 2.0
    ensures r.Ok? ==> |r.value| == 2 * NumSteps(resolution)
  {
    var A :- GetA(H, resolution);
    if A != [] && H == 0.0 then Err(ZeroHeight)
    else AllPoints(RightPoints(H, A))
  }

  /** The right half solved on get_a's abscissae runs from (0, H, 0) down to
      (0, -H, 0); its point i and point n - 1 - i share x and have opposite y. */
  lemma RightHalfEnds(H: real, n: int)
    requires H != 0.0 && n >= 2
    ensures var R := RightPoints(H, Grid(H, n));
            && R[0] == Point(0.0, H, 0.0)
            && R[n - 1] == Point(0.0, -H, 0.0)
            && forall i :: 0 <= i < n ==> R[i].x == R[n - 1 - i].x && R[i].y == -R[n - 1 - i].y
  {
    var A := Grid(H, n);
    var R := RightPoints(H, A);
    SolveBValues(H, H);
    SolveBValues(H, -H);
    forall i | 0 <= i < n
      ensures R[i].x == R[n - 1 - i].x && R[i].y == -R[n - 1 - i].y
    {
      GridAntisymmetric(H, n, i);
      SolveBEven(H, A[i]);
    }
  }

  /** The left point the join drops is a true duplicate of the last right
      point, and it is (0, -H, 0), not the origin. */
  lemma JunctionDuplicate(H: real, n: int)
    requires H != 0.0 && n >= 2
    ensures var R := RightPoints(H, Grid(H, n));
            && LeftPoints(R)[0] == R[n - 1]
            && R[n - 1] == Point(0.0, -H, 0.0)
            && R[n - 1] != Point(0.0, 0.0, 0.0)
  {
    var R := RightPoints(H, Grid(H, n));
    RightHalfEnds(H, n);
    MirrorFixedPoints(R[n - 1]);
  }

  /** The finished point list of a successful execute: 2 * num_steps points
      whose first half is the right half solved on get_a's abscissae (so point
      k of it has y = H - k * Spacing), all in the plane z = 0, starting and ending at (0, H, 0) with the last point
      repeating the one before it, passing through (0, -H, 0) at the junction,
      mirror symmetric about that junction, the first half on the parabola and
      the second half on its mirror image. */
  lemma ExecuteProfile(H: real, resolution: real)
    requires H != 0.0 && 0.0 < resolution <= 2.0
    ensures Execute(H, resolution).Ok?
    ensures var P := Execute(H, resolution).value;
            var n := NumSteps(resolution);
            && |P| == 2 * n
            && P[..n] == RightPoints(H, Grid(H, n))
            && (forall k :: 0 <= k < n ==> P[k].y == H - (k as real) * Spacing(H, n))
            && P[0] == P[2 * n - 2] == P[2 * n - 1] == Point(0.0, H, 0.0)
            && P[n - 1] == Point(0.0, -H, 0.0)
            && (forall k :: 0 <= k <= 2 * n - 2 ==> Mirror(P[k]) == P[2 * n - 2 - k])
            && (forall k :: 0 <= k < n ==> OnParabola(H, P[k]))
            && (forall k :: n <= k < 2 * n ==> OnParabola(H, Mirror(P[k])))
            && forall k :: 0 <= k < 2 * n ==> P[k].z == 0.0
  {
    NumStepsCases(resolution);
    var n := NumSteps(resolution);
    var A := Grid(H, n);
    assert GetA(H, resolution) == Ok(A);
    var R := RightPoints(H, A);
    assert Execute(H, resolution) == AllPoints(R);
    var P := AllPoints(R).value;
    RightHalfEnds(H, n);
    AllPointsSymmetric(R);
    assert P[..n] == R;
    assert forall k :: 0 <= k < n ==> P[k] == R[k];
    forall k | n <= k < 2 * n
      ensures OnParabola(H, Mirror(P[k]))
    {
      if k < 2 * n - 1 {
        MirrorInvolution(R[2 * n - 2 - k]);
      }
    }
  }
}
