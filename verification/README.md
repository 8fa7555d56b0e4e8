# A verified model of the ray_tracing path tracer core

This project models, in Dafny, the geometric and per-bounce core of the
`ray_tracing` path tracer (a Rust port of "Ray Tracing in One Weekend").
It covers:

- the `Vec3` algebra of `src/vec.rs`: operators, dot and cross products,
  normalisation, reflection, Snell refraction and rejection sampling in the
  unit ball;
- rays and `point_at_direction` (`src/ray.rs`);
- `Sphere::hit` and the closest-hit reduction `HitableList::hit`
  (`src/hitable.rs`);
- the three materials and their `scatter` functions (`src/material.rs`);
- the depth-bounded transport evaluator `color` (`src/main.rs`).

`f32` values are modelled as `real`. Square roots cannot be computed over
`real`, so every operation that takes one receives the root as a
function-valued parameter. `sqrt` stands for `f32::sqrt`, used by `length` and
`refract`. `fsqrt` stands for the fast inverse-square-root approximation that
`Sphere::hit` calls. Lemmas state what they need of a root:
`NonNegSqrt` (non-negative on non-negative arguments) or `ExactSqrt` (the
true square root). Random draws are parameters too. `Draw(ball, u)` carries
one bounce's `random_in_unit_sphere()` point and its uniform number, and
`color` receives one draw per depth.

Modules follow the source files:

| module | file | source |
|---|---|---|
| `Options` | option.dfy | Rust `Option` |
| `Vectors` | vec.dfy | src/vec.rs |
| `Rays` | ray.dfy | src/ray.rs |
| `Materials` | material.dfy | the `Materials` enum, `Metal::new`, `Dielectric::schlick` |
| `Hitables` | hitable.dfy | src/hitable.rs |
| `Scattering` | scattering.dfy | the `scatter` implementations of src/material.rs |
| `Render` | render.dfy | `color` in src/main.rs |

A `HitRecord` holds a material, and `scatter` takes a `HitRecord`. The
material type therefore comes before hit records and scattering comes after
them.

Where written descriptions of this renderer and the code disagree, the model
follows the code:

- **Sphere interval.** The test uses the Rust range `tmin..tmax`
  (`src/hitable.rs:111`, `:120`). It accepts `t == tmin` and rejects
  `t == tmax`, so it is half-open, not open at both ends (`Hitables.InRange`,
  `Hitables.InRangeIsHalfOpen`).
- **Ties.** The reduction passes the best `t` so far as the exclusive upper
  bound. Of several spheres at the same least `t`, the EARLIEST in the list
  wins, not the last (`Hitables.WorldHitIsClosest`).

## Model

| member | source | states |
|---|---|---|
| `Vectors.Divide` | src/vec.rs:174-184 | a quotient times a non-zero divisor gives back the dividend; division by zero yields 0 |
| `Vectors.AddLaws` | src/vec.rs:74-84 | `+` is commutative and associative with identity `Zero`, and subtracting the added vector gives the first summand back |
| `Vectors.Sub` | src/vec.rs:94-104 | adding the subtrahend back to a difference gives the minuend |
| `Vectors.Mul` | src/vec.rs:114-124 | the component-wise product has white `(1,1,1)` as identity on either side and black as annihilator |
| `Vectors.Scale` | src/vec.rs:134-144 | scaling by 1 leaves a vector unchanged |
| `Vectors.Div` | src/vec.rs:154-164 | a component-wise quotient by a vector with no zero component, multiplied back by it, gives the dividend |
| `Vectors.DivScalar` | src/vec.rs:174-184 | dividing a vector by a non-zero scalar is undone by scaling by it |
| `Vectors.DivUndoesMul` | src/vec.rs:154-164 | component-wise division undoes component-wise multiplication by a vector without zero components |
| `Vectors.DotSymmetric` | src/vec.rs:25-27 | the dot product is symmetric |
| `Vectors.DotSub` | src/vec.rs:25-27 | the dot product distributes over a difference in its first argument |
| `Vectors.DotScale` | src/vec.rs:25-27 | a scalar factor in the first argument comes out of the dot product |
| `Vectors.SquaredLengthIsDot` | src/vec.rs:45-47 | `squared_length(v)` equals `v.dot(v)` |
| `Vectors.SquaredLength` | src/vec.rs:45-47 | the sum of squared components equals the vector's dot product with itself |
| `Vectors.SquaredLengthNonNegative` | src/vec.rs:45-47 | the squared length is never negative |
| `Vectors.CrossOrthogonal` | src/vec.rs:29-35 | `cross(u, v)` is orthogonal to both `u` and `v` |
| `Vectors.Cross` | src/vec.rs:29-35 | the result is orthogonal to both factors |
| `Vectors.NegInvolutive` | src/vec.rs:194-204 | negating twice gives the vector back |
| `Vectors.SubIsAddNeg` | src/vec.rs:94-104 | `u - v` equals `u + (-v)` |
| `Vectors.Neg` | src/vec.rs:194-204 | a vector plus its negation is `Zero` |
| `Vectors.UnitVectorIsUnit` | src/vec.rs:37-43 | with an exact root, a vector of positive length normalises to squared length 1 and length 1 |
| `Vectors.Length` | src/vec.rs:41-43 | with a root that is non-negative on non-negative arguments the length is non-negative |
| `Vectors.UnitVector` | src/vec.rs:37-39 | for a non-zero length, scaling the result back by the length gives the vector |
| `Vectors.UnitVectorOfUnit` | src/vec.rs:37-43 | with an exact root, normalising a unit vector leaves it unchanged |
| `Vectors.UnitVectorInCube` | src/vec.rs:37-43 | with an exact root every component of a normalised vector lies in `[-1,1]`, for every input including the zero vector |
| `Vectors.UnitComponentBound` | src/vec.rs:45-47 | each of the three components of a vector with squared length at most 1 lies in `[-1,1]` |
| `Vectors.BallComponentBound` | src/vec.rs:53 | each of the three components of a vector with squared length below 1 lies in `(-1,1)` |
| `Vectors.Candidate` | src/vec.rs:52 | a raw draw in `[0,1)^3` maps to a point of the cube `[-1,1)^3` |
| `Vectors.CandidateInCube` | src/vec.rs:52 | a raw draw in `[0,1)^3` maps to a candidate with every component in `[-1,1)` |
| `Vectors.RandomInUnitSphere` | src/vec.rs:49-56 | returns the first candidate of the draw stream strictly inside the unit ball. All earlier candidates lie outside it, and every component of the result lies in `(-1,1)`. There is no result only if every candidate is rejected |
| `Vectors.ReflectFlipsNormal` | src/vec.rs:58-60 | for a unit normal `n`, `reflect(v, n).n == -(v.n)` |
| `Vectors.ReflectPreservesLength` | src/vec.rs:58-60 | for a unit normal, reflection preserves the squared length |
| `Vectors.ReflectInvolutive` | src/vec.rs:58-60 | for a unit normal, reflecting twice gives the vector back |
| `Vectors.Reflect` | src/vec.rs:58-60 | for a unit normal the reflected vector's normal component is the negated normal component of the input |
| `Vectors.Refract` | src/vec.rs:62-71 | refraction fails exactly when `1 - eta^2 (1 - dt^2) <= 0` with `dt = unit(v).n` (total internal reflection) |
| `Vectors.RefractIsUnit` | src/vec.rs:62-71 | with an exact root and a unit normal, a refracted direction is a unit vector. It points against the normal with normal component `-sqrt(delta)`, and its tangential part is `eta` times that of the unit incoming direction (Snell's law) |
| `Vectors.RefractIntoDenserSucceeds` | src/vec.rs:62-71 | with `0 <= eta < 1` (into a denser medium) refraction never fails |
| `Rays.Ray.PointAt` | src/ray.rs:17-19 | `point_at_direction(t) - origin == direction * t`, and parameter 0 gives the origin |
| `Rays.PointAtAdditive` | src/ray.rs:17-19 | `point_at_direction(t1 + t2)` is `point_at_direction(t1) + direction * t2` |
| `Rays.AccessorsReturnFields` | src/ray.rs:9-15 | `origin()` and `direction()` return the stored fields |
| `Materials.MetalNew` | src/material.rs:46-51 | builds a metal with fuzz clamped into `[0,1]`: values above 1 become 1, values below 0 become 0, in-range values are kept |
| `Materials.MetalNewIdempotent` | src/material.rs:46-51 | clamping an already clamped fuzz changes nothing |
| `Materials.SchlickR0` | src/material.rs:74 | the reflectance at normal incidence is never negative and is 0 for index 1 |
| `Materials.Schlick` | src/material.rs:73-76 | at cosine 1 the approximation equals the normal-incidence reflectance `r0` |
| `Materials.SchlickAtNormalIncidence` | src/material.rs:73-76 | at cosine 1 the Schlick reflectance equals `r0 = ((1-n)/(1+n))^2` |
| `Materials.SchlickGlassR0` | src/material.rs:74 | for refractive index 1.5, `r0` is 0.04 |
| `Materials.SchlickBounds` | src/material.rs:73-76 | for a non-negative index and cosine in `[0,1]`, `r0` is in `[0,1]` and the reflectance lies in `[r0, 1]` |
| `Hitables.InRangeIsHalfOpen` | src/hitable.rs:111 | the accepted range contains `tmin` (when non-empty) and never `tmax` |
| `Hitables.InRange` | src/hitable.rs:111 | a parameter is accepted only by a non-empty range |
| `Hitables.SphereQuadratic` | src/hitable.rs:103-106 | the leading coefficient is the squared length of the direction |
| `Hitables.SphereQuadraticValue` | src/hitable.rs:103-106 | the quadratic's value at `t` is the squared distance from the center to `point_at(t)` less `radius^2` |
| `Hitables.Discriminant` | src/hitable.rs:108 | for `a > 0` and `c < 0` (a moving ray starting inside the sphere) the discriminant is positive |
| `Hitables.CompletingTheSquare` | src/hitable.rs:108 | `4a` times the quadratic at `t` is `(2at + b)^2` minus the discriminant |
| `Hitables.NegativeDiscriminantMisses` | src/hitable.rs:108-109 | with `a != 0` and a negative discriminant no `t` solves the quadratic, so the rejection drops no intersection |
| `Hitables.NearRoot` | src/hitable.rs:110 | with an exact root, `a != 0` and a non-negative discriminant it solves the quadratic; with a non-negative root and `a > 0` it is at most the far root |
| `Hitables.FarRoot` | src/hitable.rs:119 | with an exact root, `a != 0` and a non-negative discriminant it solves the quadratic |
| `Hitables.HitAt` | src/hitable.rs:112-117 | a record carries the root `t`, the point at `t`, the sphere's material, and a normal that scales back by the radius to `p - center` |
| `Hitables.SphereHit` | src/hitable.rs:102-130 | a hit has `t` in `[tmin, tmax)`, lies on the ray and carries the sphere's material. There is none when the discriminant is `<= 0`. With a positive discriminant the hit is the near root whenever it is in range, else the far root whenever that is in range; there is no hit only if the discriminant is `<= 0` or both roots are out of range |
| `Hitables.DiscriminantGeometry` | src/hitable.rs:103-108 | the discriminant equals `4 a r^2 - 4 abs(oc x d)^2` |
| `Hitables.PositiveDiscriminantMovingRay` | src/hitable.rs:104-110 | a positive discriminant implies `a = d.d > 0`, so the divisions by `2a` are proper |
| `Hitables.NearAtMostFar` | src/hitable.rs:110-119 | with a non-negative root the near root does not exceed the far root |
| `Hitables.RootsSolve` | src/hitable.rs:108-119 | with an exact root both candidate `t` solve `a t^2 + b t + c = 0` |
| `Hitables.SphereHitIsRoot` | src/hitable.rs:103-126 | with an exact root a returned `t` solves the sphere's quadratic, and `a > 0` |
| `Hitables.RootOnSphere` | src/hitable.rs:114 | the point at a root lies at distance `radius` from the center |
| `Hitables.SphereHitOnSurface` | src/hitable.rs:112-125 | with an exact root a hit point lies on the sphere; for a non-zero radius the normal has unit length |
| `Hitables.SphereHitNarrow` | src/hitable.rs:102-130 | with a non-negative root and `b <= tmax`, the hit on `[tmin, b)` is the hit on `[tmin, tmax)` when that lies below `b`, and there is none otherwise |
| `Hitables.Scan` | src/hitable.rs:85-90 | from any state of the loop, the result is the current best or a hit below the current bound, and an existing best is never dropped |
| `Hitables.Iterate` | src/hitable.rs:86-89 | one iteration either keeps the bound and the best, or replaces both with a hit whose `t` lies in `[tmin, bound)` |
| `Hitables.WorldHit` | src/hitable.rs:82-92 | an empty list gives no hit, and any hit has `t` in `[tmin, tmax)` |
| `Hitables.ScanStep` | src/hitable.rs:86-89 | one loop iteration preserves the reduction's invariant: the bound is the best `t`, nothing seen so far is nearer, and the best is the earliest at its `t` |
| `Hitables.ScanCorrect` | src/hitable.rs:83-91 | from a state meeting the invariant, the loop ends with no hit only if no sphere hits, and otherwise with the closest hit |
| `Hitables.WorldHitIsClosest` | src/hitable.rs:82-92 | the list hit is absent exactly when no sphere reports a hit on `[tmin, tmax)`. Otherwise it is some sphere `k`'s own hit, its `t` is the least over all spheres, and every sphere before `k` reports a strictly larger `t` |
| `Hitables.HitList` | src/hitable.rs:82-92 | the loop with its shrinking bound computes the list hit, and its `t` lies in `[tmin, tmax)` |
| `Scattering.LambertianScatter` | src/material.rs:33-36 | always scatters, attenuated by the albedo, from `p` in the direction `normal + ball` |
| `Scattering.MetalScatter` | src/material.rs:55-63 | scatters exactly when the perturbed reflection leaves the surface. It is then attenuated by the albedo from `p`, and its direction minus `fuzz * ball` is the reflection of the unit incoming direction |
| `Scattering.PolishedMetalMirrors` | src/material.rs:56-58 | with fuzz 0 the outgoing direction is `reflect(unit(d), n)`. For a unit normal the metal scatters iff `unit(d).n < 0` |
| `Scattering.DielectricInterface` | src/material.rs:81-93 | for `d.n > 0` it picks `(ref_index, -normal)`, else `(1/ref_index, normal)`. The cosine times `length(d)` is `ref_index * d.n`, or `-(d.n)` when entering |
| `Scattering.DielectricScatter` | src/material.rs:94-103 | always scatters white from `p`. It reflects when refraction fails, otherwise reflects if `u < schlick(cosine)` and refracts if not |
| `Scattering.EnteringCosineInUnit` | src/material.rs:88-92 | entering glass with a unit normal and an exact root, the cosine is in `[0,1]`. So the reflection probability is between `r0` and 1 |
| `Scattering.EnteringDenserRefracts` | src/material.rs:89-99 | entering a medium of index above 1, refraction always succeeds, and the draw alone decides between reflected and refracted |
| `Scattering.Scatter` | src/material.rs:17-23 | dispatch on the hit's own material. Every scattered ray starts at `p`. Lambertian and dielectric always scatter; a metal scatters iff its perturbed reflection leaves the surface. The attenuation is the albedo, white for glass |
| `Render.BackgroundComponents` | src/main.rs:58-60 | the sky colour is `(1 - 0.5t, 1 - 0.3t, 1)` for blend `t` |
| `Render.SkyBlend` | src/main.rs:58-59 | with an exact root the blend factor lies in `[0,1]` |
| `Render.Background` | src/main.rs:57-61 | the blue component is 1; with an exact root red lies in `[0.5,1]` and green in `[0.7,1]` |
| `Render.BackgroundOfUnit` | src/main.rs:57-61 | for a unit direction the sky colour is linear in its height `y` |
| `Render.BackgroundZenith` | src/main.rs:57-61 | direction `(0,1,0)` gives `(0.5, 0.7, 1.0)` |
| `Render.BackgroundNadir` | src/main.rs:57-61 | direction `(0,-1,0)` gives `(1,1,1)` |
| `Render.BackgroundBounds` | src/main.rs:57-61 | with an exact root every sky component lies in `[0.5, 1]` |
| `Render.Color` | src/main.rs:46-61 | a miss of the scene query on `[0.001, f32::MAX)` gives the background; a hit at depth 50 or more gives black. The recursion is well-founded, and `depth + 1` stays a `u8` |
| `Render.ColorAbsorbed` | src/main.rs:49-53 | a hit whose material absorbs the ray gives black |
| `Render.ColorScatter` | src/main.rs:50 | below depth 50 a scattered ray gives `attenuation * color(scattered, depth + 1)` component-wise |
| `Render.Bounce` | src/main.rs:47-49 | a bounce continues only below depth 50 and only after a hit |
| `Render.ColorUnrolled` | src/main.rs:46-61 | `color` is the terminal colour when the path stops, else the attenuated colour of the next bounce |
| `Render.TerminalBounded` | src/main.rs:52-60 | the colour of a path that stops (black or the background) lies in `[0,1]^3` |
| `Render.AttenuationBounded` | src/main.rs:49 | with every albedo in `[0,1]^3`, a bounce attenuates by a colour in `[0,1]^3` |
| `Render.MulUnitColor` | src/vec.rs:114-124 | the component-wise product of two colours in `[0,1]^3` stays in `[0,1]^3` |
| `Render.WorldHitMaterial` | src/hitable.rs:82-92 | every scene hit carries the material of one of the scene's spheres |
| `Render.ColorBounded` | src/main.rs:46-61 | if every albedo in the scene lies in `[0,1]^3`, the colour returned lies in `[0,1]^3` |
| `Render.ColorIterative` | src/main.rs:46-61 | following the path bounce by bounce, multiplying attenuations, computes `color`. The number of bounces is at most `50 - depth` |

## Left out

- `fsqrt` (src/main.rs:13-32): the bit-level inverse-square-root
  approximation is not computed. It is the parameter `fsqrt`, about which
  lemmas assume only `NonNegSqrt` or `ExactSqrt`. Its actual error
  of a few ULPs is not modelled.
- `f32` rounding, infinities and NaN are not modelled. Identities such as
  `(p + n + b) - p == n + b` hold only over `real`. Division by zero, which
  IEEE turns into an infinity or NaN, yields 0 in `Vectors.Divide`. The
  model therefore gives no meaning to a zero-length direction or a
  zero-radius sphere, beyond being total.
- Randomness (`rand::random`) is not modelled. The draws are parameters:
  a finite sample stream for `Vectors.RandomInUnitSphere`, and one `Draw`
  per bounce depth for `color`.
- `Vectors.RandomInUnitSphere`: the source loops until a candidate is
  accepted. The model consumes a finite stream and reports `None` when the
  stream is exhausted.
- `Scattering.Scatter` receives the ball sample as a value. It does not
  call `Vectors.RandomInUnitSphere`, so the sample is not tied to the
  rejection loop.
- The compound assignment operators (`AddAssign`, `SubAssign`, `MulAssign`,
  `DivAssign` and their scalar forms) are the binary operators followed by
  an assignment. With immutable values they are the same functions.
- `HitableList` holds `dyn Hitable` trait objects. In this program every
  element is a `Sphere`, and the model's scene is a sequence of spheres.
- `random_scene` (src/hitable.rs:20-79) is not modelled: it builds a
  randomised scene and is not part of the intersection logic.
- The `main` driver is not modelled: the rayon pixel loop, camera set-up,
  gamma correction and `P3` output are concurrency and I/O.
- src/camera.rs is not part of this model.
- The `Display` impl of `Vec3` (src/vec.rs:206-210) is not modelled: it is
  formatting only.
