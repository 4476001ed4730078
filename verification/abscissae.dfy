/** `get_a`: the evenly spaced abscissae from -H to H on which the Paraline
    profile is solved, together with the number of steps a resolution yields. */
module Abscissae {
  import opened Results

  /** Python's `int()` on a number: rounds toward zero, so it is the floor for
      non-negative arguments and the ceiling for negative ones. */
  function Trunc(x: real): (r: int)
    ensures 0.0 <= x ==> r as real <= x < r as real + 1.0
    ensures x < 0.0 ==> r as real - 1.0 < x <= r as real
  {
    if x >= 0.0 then x.Floor else -((-x).Floor)
  }

  /** The step count: the truncation of 2 / resolution, plus one. */
  function NumSteps(resolution: real): int
    requires resolution != 0.0
  {
    Trunc(2.0 / resolution) + 1
  }

  /** How the resolution decides num_steps: at least two points exactly when
      0 < resolution <= 2, a single point (and so a division by zero) when
      |resolution| > 2, and no point at all when -2 <= resolution < 0. For a
      positive resolution truncation agrees with the floor. */
  lemma NumStepsCases(resolution: real)
    requires resolution != 0.0
    ensures NumSteps(resolution) >= 2 <==> 0.0 < resolution <= 2.0
    ensures NumSteps(resolution) == 1 <==> resolution < -2.0 || 2.0 < resolution
    ensures NumSteps(resolution) <= 0 <==> -2.0 <= resolution < 0.0
    ensures 0.0 < resolution ==> NumSteps(resolution) == (2.0 / resolution).Floor + 1
  {
    var q := 2.0 / resolution;
    assert q * resolution == 2.0;
    if resolution > 0.0 {
      assert q > 0.0;
      assert 1.0 <= q <==> resolution <= 2.0 by {
        if resolution <= 2.0 {
          assert q * resolution <= q * 2.0;
        } else {
          assert q * resolution > q * 2.0;
        }
      }
    } else {
      assert q < 0.0;
      assert q <= -1.0 <==> -2.0 <= resolution by {
        if -2.0 <= resolution {
          assert q * resolution <= q * -2.0;
        } else {
          assert q * resolution > q * -2.0;
        }
      }
    }
  }

  /** The i-th of n abscissae in the form the generator computes it: H times
      (twice the fraction i / (n - 1), less one). */
  function Abscissa(H: real, n: int, i: int): real
    requires n >= 2
  {
    H * ((i as real) / ((n - 1) as real) * 2.0 - 1.0)
  }

  /** The distance 2H / (n - 1) between successive abscissae. */
  function Spacing(H: real, n: int): real
    requires n >= 2
  {
    2.0 * H / ((n - 1) as real)
  }

  /** The generator's formula is the affine progression -H + i * Spacing(H, n). */
  lemma AbscissaIsAffine(H: real, n: int, i: int)
    requires n >= 2
    ensures Abscissa(H, n, i) == -H + (i as real) * Spacing(H, n)
  {
    var d := (n - 1) as real;
    var t := (i as real) / d;
    assert t * d == i as real;
    assert Spacing(H, n) * d == 2.0 * H;
    assert (i as real) * Spacing(H, n) * d == 2.0 * H * t * d;
  }

  /** The n abscissae get_a builds once num_steps = n is at least two: they
      start at -H, end at H and are evenly spaced. */
  function Grid(H: real, n: int): (A: seq<real>)
    requires n >= 2
    ensures |A| == n
    ensures A[0] == -H && A[n - 1] == H
    ensures forall i :: 0 <= i < n ==> A[i] == -H + (i as real) * Spacing(H, n)
  {
    forall i | 0 <= i < n
      ensures Abscissa(H, n, i) == -H + (i as real) * Spacing(H, n)
    {
      AbscissaIsAffine(H, n, i);
    }
    assert Spacing(H, n) * ((n - 1) as real) == 2.0 * H;
    seq(n, i requires 0 <= i < n => Abscissa(H, n, i))
  }

  /** `get_a(H, resolution)`: the abscissae, or the division by zero `get_a`
      runs into. A resolution in [-2, 0) makes num_steps non-positive,
      so the loop never runs and the list is empty. */
  function GetA(H: real, resolution: real): (r: Result<seq<real>>)
    ensures r == Err(ZeroResolution) <==> resolution == 0.0
    ensures r == Err(SingleStep) <==> resolution < -2.0 || 2.0 < resolution
    ensures r == Ok([]) <==> -2.0 <= resolution < 0.0
    ensures r.Ok? && r.value != [] <==> 0.0 < resolution <= 2.0
    ensures r.Ok? && r.value != [] ==>
              && |r.value| == (2.0 / resolution).Floor + 1
              && |r.value| >= 2
              && r.value == Grid(H, |r.value|)
  {
    if resolution == 0.0 then Err(ZeroResolution)
    else
      NumStepsCases(resolution);
      var n := NumSteps(resolution);
      if n <= 0 then Ok([])
      else if n == 1 then Err(SingleStep)
      else Ok(Grid(H, n))
  }

  /** The abscissae are antisymmetric: the i-th from the start is the
      negation of the i-th from the end. */
  lemma GridAntisymmetric(H: real, n: int, i: int)
    requires n >= 2 && 0 <= i < n
    ensures Grid(H, n)[i] == -Grid(H, n)[n - 1 - i]
  {
    var A := Grid(H, n);
    var s := Spacing(H, n);
    assert s * ((n - 1) as real) == 2.0 * H;
    assert A[n - 1 - i] == -H + ((n - 1 - i) as real) * s;
    assert ((n - 1 - i) as real) * s == ((n - 1) as real) * s - (i as real) * s;
  }

  /** For H > 0 the abscissae strictly increase and stay within [-H, H]. */
  lemma GridIncreasing(H: real, n: int, i: int, j: int)
    requires n >= 2 && H > 0.0 && 0 <= i < j < n
    ensures -H <= Grid(H, n)[i] < Grid(H, n)[j] <= H
  {
    var A := Grid(H, n);
    var s := Spacing(H, n);
    assert s > 0.0;
    assert A[j] - A[i] == ((j - i) as real) * s;
    assert A[i] - A[0] == (i as real) * s;
    assert A[n - 1] - A[j] == ((n - 1 - j) as real) * s;
  }
}
