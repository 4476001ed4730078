# Paraline profile generator — Dafny model

The repository's one piece of original logic is the "Paraline" FreeCAD
feature: a 2-D profile, solved point by point on a parabola and mirrored to a
closed outline, which the host then extrudes into a solid. It ships as two
byte-identical copies, `macros/paralineMacro.py` and `paralineMacro.py`; every
line number below holds for both. The model follows
`paralineMacro.py`.

This project models the two pure pieces of that file over exact reals:

- `get_a(H, resolution)` (module `Abscissae`): `num_steps = int(2 / resolution) + 1`
  evenly spaced abscissae from -H to H, including the cases where the source
  divides by zero (resolution 0, or a single step) and the case where it
  silently returns an empty list (-2 <= resolution < 0).
- the point-list construction of `ParalineFeature.execute` (module `Profile`):
  `B = (H² - Ai²) / (2H)` for each abscissa, giving the right half
  `(B, -Ai, 0)`; its mirror image across x = 0 in reverse order; and the two
  halves joined, the shared junction point dropped once, and the first point
  appended to close the loop. `Profile.Execute` returns that list or the
  failure (division by zero, or indexing an empty list) that stops it first.

Points are the datatype `Vectors.Point(x, y, z)` over `real`; failures are
`Results.Failure`, carried in `Results.Result`.

What the proofs establish, beyond each operation's own contract: B is the
unique solution of the right triangle with legs B, Ai and hypotenuse H - B
(the point lies on the parabola with focus at the origin and directrix
x = H); B is 0 at ±H, H/2 at 0, even, and within [0, H/2] for |Ai| <= H; the
abscissae are antisymmetric and strictly increasing for H > 0; and a
successful `execute` yields `2 * num_steps` points in the plane z = 0,
mirror symmetric about the junction point (0, -H, 0), starting at (0, H, 0)
and ending with that point twice.

Two observations about the code as written. The comment at line 44 says the
point removed by `left_points[1:]` is at (0, 0, 0); it is in fact (0, -H, 0),
the last right point, and it is a true duplicate (`Profile.JunctionDuplicate`).
And the last mirrored point already equals the first right point, so the
appended closing point makes the polygon end with a repeated vertex
(`Profile.ExecuteProfile`). Whether that matters depends on the host's
polygon builder, which is not part of this model.

## Model

| member | source | states |
|---|---|---|
| `Abscissae.Trunc` | macros/paralineMacro.py:14 | `int()` rounds toward zero: the result is within one of its argument, below it for non-negative and above it for negative arguments |
| `Abscissae.NumStepsCases` | macros/paralineMacro.py:14-16 | num_steps >= 2 exactly when 0 < resolution <= 2 (and then equals floor(2/resolution) + 1); num_steps = 1 exactly when abs(resolution) > 2; num_steps <= 0 exactly when -2 <= resolution < 0 |
| `Abscissae.AbscissaIsAffine` | macros/paralineMacro.py:16 | the source's `H * (i / (num_steps - 1) * 2 - 1)` equals -H + i * 2H/(num_steps - 1) |
| `Abscissae.Grid` | macros/paralineMacro.py:15-16 | for n >= 2 the list has n values, starts at -H, ends at H, and consecutive values differ by 2H/(n - 1) |
| `Abscissae.GetA` | macros/paralineMacro.py:10-17 | division by zero exactly when resolution = 0 or abs(resolution) > 2; an empty list exactly when -2 <= resolution < 0; otherwise int(2/resolution) + 1 >= 2 evenly spaced values from -H to H |
| `Abscissae.GridAntisymmetric` | macros/paralineMacro.py:16 | A[i] = -A[n - 1 - i] |
| `Abscissae.GridIncreasing` | macros/paralineMacro.py:16 | for H > 0 the values strictly increase and stay within [-H, H] |
| `Profile.SolveB` | macros/paralineMacro.py:36 | B satisfies (H - B)² = B² + Ai²: the triangle with legs B and Ai has hypotenuse H - B, so (B, Ai) lies on the parabola with focus at the origin and directrix x = H |
| `Profile.SolveBUnique` | macros/paralineMacro.py:33-36 | any b solving that triangle equation is B, so the formula is its only solution |
| `Profile.SolveBValues` | macros/paralineMacro.py:36 | B = 0 exactly at Ai = H or Ai = -H, and B = H/2 at Ai = 0 |
| `Profile.SolveBEven` | macros/paralineMacro.py:35-37 | B(Ai) = B(-Ai) |
| `Profile.SolveBRange` | macros/paralineMacro.py:36 | for H > 0 and abs(Ai) <= H, 0 <= B <= H/2, with B = H/2 only at Ai = 0 |
| `Profile.RightPoints` | paralineMacro.py:34-37 | one point per abscissa; point i has y = -A[i], z = 0 and lies on the parabola |
| `Profile.RightHalfEnds` | paralineMacro.py:34-37 | on get_a's abscissae the right half starts at (0, H, 0) and ends at (0, -H, 0); points i and n - 1 - i share x and have opposite y |
| `Profile.LeftPoints` | paralineMacro.py:42 | same length as the right half; mirroring left point j gives right point n - 1 - j |
| `Profile.LeftPointsInvolution` | paralineMacro.py:42 | mirroring in reverse order twice gives the original list back |
| `Profile.JunctionDuplicate` | paralineMacro.py:42-45 | left_points[0] equals the last right point, which is (0, -H, 0) and not the origin |
| `Profile.AllPoints` | paralineMacro.py:44-47 | an index error exactly when there are no right points; otherwise 2n points, the first n are the right half, points n .. 2n-2 are the mirrored right points n-2 .. 0, and the last equals the first |
| `Profile.AllPointsSymmetric` | paralineMacro.py:42-47 | when both ends of the right half lie on x = 0, point k mirrors point 2n-2-k, and the last two points coincide |
| `Profile.Execute` | paralineMacro.py:28-47 | succeeds exactly when H != 0 and 0 < resolution <= 2, with 2 * num_steps points; each failure (zero resolution, single step, empty list, zero height) occurs exactly on its own set of inputs |
| `Profile.ExecuteProfile` | paralineMacro.py:28-47 | a successful result's first num_steps points are the right half solved on get_a's abscissae (point k has y = H - k * 2H/(num_steps - 1)); it starts at (0, H, 0), ends with that point twice, passes (0, -H, 0) at index n - 1, is mirror symmetric about it, lies in z = 0, first half on the parabola and second half on its mirror image |

## Left out

- The host geometry calls that turn the point list into a shape (lines 49-63: `Part.makePolygon`, `isClosed`, `Part.Face`, `extrude`, the wire fallback): foreign library code whose behaviour is not visible here. The extrusion height (line 30) is only used there, so it is not a parameter of the model.
- Property declarations with `obj.addProperty` and their defaults (lines 20-26): host property plumbing. `H` is read as a plain number; the host's unit-carrying length type and any constraint it puts on `H` (for instance non-negativity) are not modelled, so the model admits any real `H`.
- `ViewProviderParaline` (lines 67-87): display stubs with no behaviour.
- The document script at the end of the file (lines 89-101): side effects on the host application.
- `get_a`'s default resolution of 0.05 (paralineMacro.py:10): `execute` always passes the object's resolution explicitly, so `Abscissae.GetA` takes it as a required argument.
- Non-finite floats and floating-point rounding: the model computes over exact reals, where `-0.0` (which mirroring a point with x = 0 produces) and `0.0` are the same and 2 / resolution has no rounding error. So it does not model a resolution small enough for 2 / resolution to overflow to infinity, where `int()` raises an overflow error, nor a NaN resolution, where `int()` raises a value error.
