/** Three-component vectors (points, directions and colours alike) over the
    reals, with the arithmetic operators, dot and cross products, reflection
    and Snell refraction of src/vec.rs.

    Square roots are not computable over `real`; every operation that takes
    one receives the square-root function as a parameter `sqrt`. Lemmas that
    need an exact root assume `ExactSqrt(sqrt)`. */
module Vectors {
  import opened Options

  datatype Vec3 = Vec3(x: real, y: real, z: real)

  /** `Vec3::default()`, black. */
  const Zero: Vec3 := Vec3(0.0, 0.0, 0.0)

  /** White, also the dielectric attenuation. */
  const One: Vec3 := Vec3(1.0, 1.0, 1.0)

  /** `sqrt` is non-negative on non-negative arguments (true of both the
      library root and the fast inverse-square-root approximation). */
  ghost predicate NonNegSqrt(sqrt: real -> real)
  {
    forall x: real :: 0.0 <= x ==> 0.0 <= sqrt(x)
  }

  /** `sqrt` is the exact square root on non-negative arguments. */
  ghost predicate ExactSqrt(sqrt: real -> real)
  {
    forall x: real :: 0.0 <= x ==> 0.0 <= sqrt(x) && sqrt(x) * sqrt(x) == x
  }

  /** Floating-point division. IEEE division by zero yields an infinity or a
      NaN, which `real` cannot hold; the model yields 0 instead. */
  function Divide(a: real, b: real): (r: real)
    ensures b != 0.0 ==> r * b == a
    ensures b == 0.0 ==> r == 0.0
  {
    if b == 0.0 then 0.0 else a / b
  }

  /** `Add for Vec3`. Its laws are stated by `AddLaws`. */
  function Add(u: Vec3, v: Vec3): (r: Vec3)
  {
    Vec3(u.x + v.x, u.y + v.y, u.z + v.z)
  }

  /** `Sub for Vec3`; adding the subtrahend back gives the minuend. */
  function Sub(u: Vec3, v: Vec3): (r: Vec3)
    ensures Add(r, v) == u
  {
    Vec3(u.x - v.x, u.y - v.y, u.z - v.z)
  }

  /** Component-wise product (`Mul for Vec3`), used to apply attenuation:
      white leaves a colour unchanged and black absorbs it. */
  function Mul(u: Vec3, v: Vec3): (r: Vec3)
    ensures u == One ==> r == v
    ensures v == One ==> r == u
    ensures u == Zero || v == Zero ==> r == Zero
  {
    Vec3(u.x * v.x, u.y * v.y, u.z * v.z)
  }

  /** Product with a scalar (`Mul<f32> for Vec3`); 1 is its identity. */
  function Scale(v: Vec3, s: real): (r: Vec3)
    ensures s == 1.0 ==> r == v
  {
    Vec3(v.x * s, v.y * s, v.z * s)
  }

  /** Component-wise quotient (`Div for Vec3`); it undoes `Mul` by a vector
      with no zero component. */
  function Div(u: Vec3, v: Vec3): (r: Vec3)
    ensures v.x != 0.0 && v.y != 0.0 && v.z != 0.0 ==> Mul(r, v) == u
  {
    Vec3(Divide(u.x, v.x), Divide(u.y, v.y), Divide(u.z, v.z))
  }

  /** Quotient by a scalar (`Div<f32> for Vec3`). */
  function DivScalar(v: Vec3, s: real): (r: Vec3)
    ensures s != 0.0 ==> Scale(r, s) == v
  {
    Vec3(Divide(v.x, s), Divide(v.y, s), Divide(v.z, s))
  }

  /** `Neg for Vec3`, the additive inverse. */
  function Neg(v: Vec3): (r: Vec3)
    ensures Add(v, r) == Zero
  {
    Vec3(-v.x, -v.y, -v.z)
  }

  /** `dot`, the sum of the component-wise products. Its laws are lemmas
      (`DotSymmetric`, `DotSub`, `DotScale`) rather than postconditions,
      which the solver would unfold at every use. */
  function Dot(u: Vec3, v: Vec3): (r: real)
  {
    u.x * v.x + u.y * v.y + u.z * v.z
  }

  /** `cross`; the product is orthogonal to both factors. */
  function Cross(u: Vec3, v: Vec3): (r: Vec3)
    ensures Dot(r, u) == 0.0 && Dot(r, v) == 0.0
  {
    Vec3(u.y * v.z - u.z * v.y,
         -u.x * v.z + u.z * v.x,
         u.x * v.y - u.y * v.x)
  }

  /** Sum of the squared components (`powi(2)` is an exact square); it is
      the dot product of the vector with itself. */
  function SquaredLength(v: Vec3): (r: real)
    ensures r == Dot(v, v)
  {
    v.x * v.x + v.y * v.y + v.z * v.z
  }

  /** Euclidean length, the root of the squared length. */
  function Length(v: Vec3, sqrt: real -> real): (r: real)
    ensures NonNegSqrt(sqrt) ==> 0.0 <= r
  {
    sqrt(SquaredLength(v))
  }

  /** `v / v.length()`; not guarded against a zero length. Scaling the
      result back by the length gives `v`. */
  function UnitVector(v: Vec3, sqrt: real -> real): (r: Vec3)
    ensures Length(v, sqrt) != 0.0 ==> Scale(r, Length(v, sqrt)) == v
  {
    DivScalar(v, Length(v, sqrt))
  }

  /** One round of `random_in_unit_sphere`: a raw draw in `[0, 1)^3`
      mapped onto the cube `[-1, 1)^3`. */
  function Candidate(sample: Vec3): (p: Vec3)
    ensures InUnitInterval(sample)
            ==> -1.0 <= p.x < 1.0 && -1.0 <= p.y < 1.0 && -1.0 <= p.z < 1.0
  {
    Sub(Scale(sample, 2.0), One)
  }

  /** What `random::<f32>()` promises of each raw component. */
  predicate InUnitInterval(sample: Vec3)
  {
    0.0 <= sample.x < 1.0 && 0.0 <= sample.y < 1.0 && 0.0 <= sample.z < 1.0
  }

  /** Every component of a candidate lies in `[-1, 1)`. */
  lemma CandidateInCube(sample: Vec3)
    requires InUnitInterval(sample)
    ensures var p := Candidate(sample);
            -1.0 <= p.x < 1.0 && -1.0 <= p.y < 1.0 && -1.0 <= p.z < 1.0
  {
  }

  /** `random_in_unit_sphere` over a finite stream of raw draws: candidates
      are drawn in order until one lies strictly inside the unit ball.
      `used` counts the draws consumed; when the stream runs out first the
      result is `None` (the source keeps drawing forever). */
  method RandomInUnitSphere(samples: seq<Vec3>) returns (p: Option<Vec3>, used: nat)
    ensures used <= |samples|
    ensures p.Some? ==> 0 < used && p.value == Candidate(samples[used - 1])
                        && SquaredLength(p.value) < 1.0
    ensures p.Some? ==> -1.0 < p.value.x < 1.0 && -1.0 < p.value.y < 1.0 && -1.0 < p.value.z < 1.0
    ensures p.None? ==> used == |samples|
    ensures forall j :: 0 <= j < used && (p.None? || j < used - 1)
                        ==> SquaredLength(Candidate(samples[j])) >= 1.0
  {
    used := 0;
    while used < |samples|
      invariant used <= |samples|
      invariant forall j :: 0 <= j < used ==> SquaredLength(Candidate(samples[j])) >= 1.0
    {
      var candidate := Candidate(samples[used]);
      used := used + 1;
      if SquaredLength(candidate) < 1.0 {
        BallComponentBound(candidate);
        return Some(candidate), used;
      }
    }
    return None, used;
  }

  /** Specular reflection of `v` about the normal `n`: for a unit normal the
      normal component changes sign. */
  function Reflect(v: Vec3, n: Vec3): (r: Vec3)
    ensures SquaredLength(n) == 1.0 ==> Dot(r, n) == -Dot(v, n)
  {
    var k := Dot(v, n);
    DotSub(v, Scale(Scale(n, k), 2.0), n);
    DotScale(Scale(n, k), 2.0, n);
    DotScale(n, k, n);
    Sub(v, Scale(Scale(n, k), 2.0))
  }

  /** The discriminant of Snell's law for `v` meeting a surface with normal
      `n` at relative index `eta`; it is the squared normal component of
      the refracted unit direction. */
  function RefractDiscriminant(v: Vec3, n: Vec3, eta: real, sqrt: real -> real): real
  {
    var dt := Dot(UnitVector(v, sqrt), n);
    1.0 - eta * eta * (1.0 - dt * dt)
  }

  /** Snell refraction; `None` signals total internal reflection. */
  function Refract(v: Vec3, n: Vec3, eta: real, sqrt: real -> real): (r: Option<Vec3>)
    ensures r.None? <==> RefractDiscriminant(v, n, eta, sqrt) <= 0.0
  {
    var uv := UnitVector(v, sqrt);
    var dt := Dot(uv, n);
    var delta := 1.0 - eta * eta * (1.0 - dt * dt);
    if delta > 0.0 then
      Some(Sub(Scale(Sub(uv, Scale(n, dt)), eta), Scale(n, sqrt(delta))))
    else
      None
  }

  // ---------------------------------------------------------------------
  // Algebraic laws of the operators (src/vec.rs)
  // ---------------------------------------------------------------------

  /** Vectors under `+` form a commutative group with identity `Zero`, and
      `-` takes back what `+` added. */
  lemma AddLaws(u: Vec3, v: Vec3, w: Vec3)
    ensures Add(u, v) == Add(v, u)
    ensures Add(Add(u, v), w) == Add(u, Add(v, w))
    ensures Add(u, Zero) == u
    ensures Sub(Add(u, v), v) == u
  {
  }

  lemma DotSymmetric(u: Vec3, v: Vec3)
    ensures Dot(u, v) == Dot(v, u)
  {
  }

  lemma SquaredLengthIsDot(v: Vec3)
    ensures SquaredLength(v) == Dot(v, v)
  {
  }

  lemma SquaredLengthNonNegative(v: Vec3)
    ensures 0.0 <= SquaredLength(v)
  {
    SquareNonNegative(v.x);
    SquareNonNegative(v.y);
    SquareNonNegative(v.z);
  }

  /** The cross product is orthogonal to both of its factors. */
  lemma CrossOrthogonal(u: Vec3, v: Vec3)
    ensures Dot(Cross(u, v), u) == 0.0
    ensures Dot(Cross(u, v), v) == 0.0
  {
  }

  lemma NegInvolutive(v: Vec3)
    ensures Neg(Neg(v)) == v
  {
  }

  lemma SubIsAddNeg(u: Vec3, v: Vec3)
    ensures Sub(u, v) == Add(u, Neg(v))
  {
  }

  /** Component-wise division undoes component-wise multiplication by a
      vector with no zero component. */
  lemma DivUndoesMul(u: Vec3, v: Vec3)
    requires v.x != 0.0 && v.y != 0.0 && v.z != 0.0
    ensures Div(Mul(u, v), v) == u
  {
  }

  lemma DotSub(u: Vec3, v: Vec3, w: Vec3)
    ensures Dot(Sub(u, v), w) == Dot(u, w) - Dot(v, w)
  {
  }

  lemma DotScale(u: Vec3, s: real, w: Vec3)
    ensures Dot(Scale(u, s), w) == s * Dot(u, w)
  {
  }

  lemma SquaredLengthSub(u: Vec3, v: Vec3)
    ensures SquaredLength(Sub(u, v)) == SquaredLength(u) - 2.0 * Dot(u, v) + SquaredLength(v)
  {
  }

  lemma DotScaleBoth(u: Vec3, s: real, v: Vec3, t: real)
    ensures Dot(Scale(u, s), Scale(v, t)) == s * t * Dot(u, v)
  {
  }

  lemma SquaredLengthScale(v: Vec3, s: real)
    ensures SquaredLength(Scale(v, s)) == s * s * SquaredLength(v)
  {
  }

  /** Reflecting about a unit normal negates the normal component. */
  lemma ReflectFlipsNormal(v: Vec3, n: Vec3)
    requires SquaredLength(n) == 1.0
    ensures Dot(Reflect(v, n), n) == -Dot(v, n)
  {
    var k := Dot(v, n);
    DotSub(v, Scale(Scale(n, k), 2.0), n);
    DotScale(Scale(n, k), 2.0, n);
    DotScale(n, k, n);
  }

  /** Reflecting about a unit normal preserves length. */
  lemma ReflectPreservesLength(v: Vec3, n: Vec3)
    requires SquaredLength(n) == 1.0
    ensures SquaredLength(Reflect(v, n)) == SquaredLength(v)
  {
    var k := Dot(v, n);
    assert SquaredLength(Reflect(v, n))
        == SquaredLength(v) - 4.0 * k * Dot(v, n) + 4.0 * k * k * SquaredLength(n);
  }

  /** Reflecting twice about the same unit normal gives back `v`. */
  lemma ReflectInvolutive(v: Vec3, n: Vec3)
    requires SquaredLength(n) == 1.0
    ensures Reflect(Reflect(v, n), n) == v
  {
    ReflectFlipsNormal(v, n);
  }

  // ---------------------------------------------------------------------
  // Square roots, normalisation and refraction
  // ---------------------------------------------------------------------

  lemma SqrtOfOne(sqrt: real -> real)
    requires ExactSqrt(sqrt)
    ensures sqrt(1.0) == 1.0
  {
    var s := sqrt(1.0);
    assert 0.0 <= s && s * s == 1.0;
    assert (s + 1.0) * (s - 1.0) == 0.0;
    ZeroProduct(s + 1.0, s - 1.0);
  }

  /** With an exact root, a vector of non-zero length normalises to length 1. */
  lemma UnitVectorIsUnit(v: Vec3, sqrt: real -> real)
    requires ExactSqrt(sqrt)
    requires 0.0 < Length(v, sqrt)
    ensures SquaredLength(UnitVector(v, sqrt)) == 1.0
    ensures Length(UnitVector(v, sqrt), sqrt) == 1.0
  {
    var l := Length(v, sqrt);
    var u := UnitVector(v, sqrt);
    SquaredLengthNonNegative(v);
    assert l * l == SquaredLength(v);
    assert Scale(u, l) == v;
    SquaredLengthScale(u, l);
    var g := SquaredLength(u);
    var h := l * g;
    assert SquaredLength(v) == l * h;
    assert l * (h - l) == 0.0;
    ZeroProduct(l, h - l);
    assert l * (g - 1.0) == 0.0;
    ZeroProduct(l, g - 1.0);
    SqrtOfOne(sqrt);
  }

  /** Normalising a unit vector leaves it unchanged. */
  lemma UnitVectorOfUnit(v: Vec3, sqrt: real -> real)
    requires ExactSqrt(sqrt)
    requires SquaredLength(v) == 1.0
    ensures UnitVector(v, sqrt) == v
  {
    SqrtOfOne(sqrt);
    var u := UnitVector(v, sqrt);
    assert Scale(u, 1.0) == v;
    MulByOne(u.x, Length(v, sqrt));
    MulByOne(u.y, Length(v, sqrt));
    MulByOne(u.z, Length(v, sqrt));
  }

  /** With an exact root every component of a normalised vector lies in
      `[-1, 1]`; a zero vector normalises to zero. */
  lemma UnitVectorInCube(v: Vec3, sqrt: real -> real)
    ensures ExactSqrt(sqrt)
            ==> var u := UnitVector(v, sqrt);
                -1.0 <= u.x <= 1.0 && -1.0 <= u.y <= 1.0 && -1.0 <= u.z <= 1.0
  {
    if ExactSqrt(sqrt) && Length(v, sqrt) != 0.0 {
      SquaredLengthNonNegative(v);
      UnitVectorIsUnit(v, sqrt);
      UnitComponentBound(UnitVector(v, sqrt));
    }
  }

  /** Every component of a vector in the closed unit ball lies in
      `[-1, 1]`. */
  lemma UnitComponentBound(v: Vec3)
    requires SquaredLength(v) <= 1.0
    ensures -1.0 <= v.x <= 1.0 && -1.0 <= v.y <= 1.0 && -1.0 <= v.z <= 1.0
  {
    var x2, y2, z2 := v.x * v.x, v.y * v.y, v.z * v.z;
    SquareNonNegative(v.x);
    SquareNonNegative(v.y);
    SquareNonNegative(v.z);
    assert 0.0 <= x2 && 0.0 <= y2 && 0.0 <= z2;
    assert x2 + y2 + z2 <= 1.0;
    assert x2 <= 1.0 && y2 <= 1.0 && z2 <= 1.0;
    SquareAtMostOne(v.x, x2);
    SquareAtMostOne(v.y, y2);
    SquareAtMostOne(v.z, z2);
  }

  /** Every component of a vector strictly inside the unit ball lies in
      `(-1, 1)`. */
  lemma BallComponentBound(v: Vec3)
    requires SquaredLength(v) < 1.0
    ensures -1.0 < v.x < 1.0 && -1.0 < v.y < 1.0 && -1.0 < v.z < 1.0
  {
    var x2, y2, z2 := v.x * v.x, v.y * v.y, v.z * v.z;
    SquareNonNegative(v.x);
    SquareNonNegative(v.y);
    SquareNonNegative(v.z);
    assert 0.0 <= x2 && 0.0 <= y2 && 0.0 <= z2;
    assert x2 + y2 + z2 < 1.0;
    assert x2 < 1.0 && y2 < 1.0 && z2 < 1.0;
    SquareBelowOne(v.x, x2);
    SquareBelowOne(v.y, y2);
    SquareBelowOne(v.z, z2);
  }

  /** A successful refraction of a non-zero direction through a unit normal
      is a unit vector on the far side of the surface (its normal component
      is the negated root of the discriminant), and its tangential component
      is the incident unit direction's tangential component scaled by
      `eta` (Snell's law). */
  lemma RefractIsUnit(v: Vec3, n: Vec3, eta: real, sqrt: real -> real)
    requires ExactSqrt(sqrt)
    requires SquaredLength(n) == 1.0
    requires 0.0 < Length(v, sqrt)
    requires Refract(v, n, eta, sqrt).Some?
    ensures var r := Refract(v, n, eta, sqrt).value;
      && SquaredLength(r) == 1.0
      && Dot(r, n) == -sqrt(RefractDiscriminant(v, n, eta, sqrt))
      && Dot(r, n) < 0.0
      && Sub(r, Scale(n, Dot(r, n)))
         == Scale(Tangential(UnitVector(v, sqrt), n), eta)
  {
    var uv := UnitVector(v, sqrt);
    var dt := Dot(uv, n);
    var w := Tangential(uv, n);
    var s := sqrt(RefractDiscriminant(v, n, eta, sqrt));
    RefractValue(v, n, eta, sqrt);
    UnitVectorIsUnit(v, sqrt);
    TangentialFacts(uv, n);
    RefractedNormal(w, n, eta, s);
    PositiveFromSquare(s);
    // The squared length is eta^2 (1 - dt^2) + s^2, and s^2 is 1 - eta^2 (1 - dt^2).
    RefractedLength(w, n, eta, s, 1.0 - dt * dt);
  }

  /** What `Refract` returns when it succeeds, named by its parts. */
  lemma RefractValue(v: Vec3, n: Vec3, eta: real, sqrt: real -> real)
    requires ExactSqrt(sqrt)
    requires Refract(v, n, eta, sqrt).Some?
    ensures var dt := Dot(UnitVector(v, sqrt), n);
            RefractDiscriminant(v, n, eta, sqrt) == 1.0 - eta * eta * (1.0 - dt * dt)
    ensures var s := sqrt(RefractDiscriminant(v, n, eta, sqrt));
            && 0.0 <= s && s * s == RefractDiscriminant(v, n, eta, sqrt)
            && Refract(v, n, eta, sqrt).value
               == Sub(Scale(Tangential(UnitVector(v, sqrt), n), eta), Scale(n, s))
  {
  }

  /** The component of `eta w - s n` along the unit normal `n` is `-s`
      when `w` is orthogonal to `n`, and what remains is `eta w`. */
  lemma RefractedNormal(w: Vec3, n: Vec3, eta: real, s: real)
    requires SquaredLength(n) == 1.0
    requires Dot(w, n) == 0.0
    ensures Dot(Sub(Scale(w, eta), Scale(n, s)), n) == -s
    ensures Sub(Sub(Scale(w, eta), Scale(n, s)), Scale(n, -s)) == Scale(w, eta)
  {
    DotSub(Scale(w, eta), Scale(n, s), n);
    DotScale(w, eta, n);
    DotScale(n, s, n);
    SquaredLengthIsDot(n);
    MulByOne(s, Dot(n, n));
    MulByZero(eta, Dot(w, n));
  }

  /** The squared length of `eta w - s n` for `w` orthogonal to the unit
      normal `n`. */
  lemma RefractedLength(w: Vec3, n: Vec3, eta: real, s: real, c: real)
    requires SquaredLength(n) == 1.0
    requires Dot(w, n) == 0.0
    requires SquaredLength(w) == c
    ensures SquaredLength(Sub(Scale(w, eta), Scale(n, s))) == eta * eta * c + s * s
  {
    SquaredLengthSub(Scale(w, eta), Scale(n, s));
    SquaredLengthScale(w, eta);
    SquaredLengthScale(n, s);
    DotScaleBoth(w, eta, n, s);
    MulByZero(eta * s, Dot(w, n));
    MulByOne(s * s, SquaredLength(n));
  }

  /** Total internal reflection needs `eta >= 1`: passing into an optically
      denser medium (`0 <= eta < 1`) through a unit normal always refracts. */
  lemma RefractIntoDenserSucceeds(v: Vec3, n: Vec3, eta: real, sqrt: real -> real)
    requires ExactSqrt(sqrt)
    requires SquaredLength(n) == 1.0
    requires 0.0 < Length(v, sqrt)
    requires 0.0 <= eta < 1.0
    ensures Refract(v, n, eta, sqrt).Some?
  {
    var uv := UnitVector(v, sqrt);
    UnitVectorIsUnit(v, sqrt);
    var dt := Dot(uv, n);
    CosineSquaredAtMostOne(uv, n);
    MulNonNegative(eta, eta);
    MulBelow(eta, eta);
    ProductBelowOne(eta * eta, dt * dt);
  }

  /** For unit vectors, the squared cosine `(u . n)^2` lies in `[0, 1]`. */
  lemma CosineSquaredAtMostOne(u: Vec3, n: Vec3)
    requires SquaredLength(u) == 1.0
    requires SquaredLength(n) == 1.0
    ensures 0.0 <= Dot(u, n) * Dot(u, n) <= 1.0
  {
    TangentialFacts(u, n);
    SquaredLengthNonNegative(Tangential(u, n));
    SquareNonNegative(Dot(u, n));
  }

  /** The component of `v` orthogonal to the normal `n`. */
  function Tangential(v: Vec3, n: Vec3): Vec3
  {
    Sub(v, Scale(n, Dot(v, n)))
  }

  lemma TangentialFacts(v: Vec3, n: Vec3)
    requires SquaredLength(n) == 1.0
    ensures Dot(Tangential(v, n), n) == 0.0
    ensures SquaredLength(Tangential(v, n)) == SquaredLength(v) - Dot(v, n) * Dot(v, n)
  {
    var k := Dot(v, n);
    DotSub(v, Scale(n, k), n);
    DotScale(n, k, n);
    SquaredLengthIsDot(n);
    MulByOne(k, Dot(n, n));
    SquaredLengthSub(v, Scale(n, k));
    SquaredLengthScale(n, k);
    DotSymmetric(v, Scale(n, k));
    DotScale(n, k, v);
    DotSymmetric(n, v);
    MulByOne(k * k, SquaredLength(n));
  }

  lemma MulAssociative(a: Vec3, b: Vec3, c: Vec3)
    ensures Mul(a, Mul(b, c)) == Mul(Mul(a, b), c)
  {
  }

  // ---------------------------------------------------------------------
  // Arithmetic helpers
  // ---------------------------------------------------------------------

  lemma MulByOne(a: real, b: real)
    requires b == 1.0
    ensures a * b == a
  {
  }

  lemma MulByZero(a: real, b: real)
    requires b == 0.0
    ensures a * b == 0.0
  {
  }

  lemma MulOneMinus(a: real, b: real, c: real)
    requires b == 1.0 - c
    ensures a * b == a - a * c
  {
  }

  lemma PositiveFromSquare(a: real)
    requires 0.0 <= a && 0.0 < a * a
    ensures 0.0 < a
  {
  }

  lemma MulNonNegative(a: real, b: real)
    requires 0.0 <= a && 0.0 <= b
    ensures 0.0 <= a * b
  {
  }

  /** The product of two numbers in `[0, 1]` lies in `[0, 1]`. */
  lemma MulInUnit(a: real, b: real)
    requires 0.0 <= a <= 1.0 && 0.0 <= b <= 1.0
    ensures 0.0 <= a * b <= 1.0
  {
    MulNonNegative(a, b);
    MulBelow(a, b);
  }

  /** `a * b <= b` for `a` in `[0, 1]` and non-negative `b`. */
  lemma MulBelow(a: real, b: real)
    requires 0.0 <= a <= 1.0 && 0.0 <= b
    ensures a * b <= b
  {
    assert 0.0 <= (1.0 - a) * b;
  }

  lemma ProductBelowOne(a: real, c: real)
    requires 0.0 <= a < 1.0 && 0.0 <= c <= 1.0
    ensures a * (1.0 - c) < 1.0
  {
    MulBelow(1.0 - c, a);
  }

  lemma ZeroProduct(a: real, b: real)
    requires a != 0.0
    requires a * b == 0.0
    ensures b == 0.0
  {
  }

  lemma MulPositive(a: real, b: real)
    requires 0.0 < a && 0.0 < b
    ensures 0.0 < a * b
  {
  }

  lemma NonPositiveFactor(a: real, b: real)
    requires 0.0 < b && a * b <= 0.0
    ensures a <= 0.0
  {
    if 0.0 < a {
      MulPositive(a, b);
    }
  }

  lemma SquareNonZero(a: real)
    requires a != 0.0
    ensures a * a != 0.0
  {
    if 0.0 < a {
      MulPositive(a, a);
    } else {
      assert 0.0 < (-a) * (-a);
    }
  }

  lemma SquareNonNegative(a: real)
    ensures 0.0 <= a * a
  {
    if a < 0.0 {
      assert 0.0 < (-a) * (-a);
    }
  }

  /** `y^2 <= 1` puts `y` in `[-1, 1]`. */
  lemma SquareAtMostOne(y: real, square: real)
    requires square == y * y && square <= 1.0
    ensures -1.0 <= y <= 1.0
  {
    assert (y - 1.0) * (y + 1.0) == y * y - 1.0;
    if 1.0 < y {
      MulPositive(y - 1.0, y + 1.0);
    }
    if y < -1.0 {
      MulPositive(-1.0 - y, 1.0 - y);
    }
  }

  /** `y^2 < 1` puts `y` in `(-1, 1)`. */
  lemma SquareBelowOne(y: real, square: real)
    requires square == y * y && square < 1.0
    ensures -1.0 < y < 1.0
  {
    assert (y - 1.0) * (y + 1.0) == y * y - 1.0;
    if 1.0 <= y {
      MulNonNegative(y - 1.0, y + 1.0);
    }
    if y <= -1.0 {
      MulNonNegative(-1.0 - y, 1.0 - y);
    }
  }

  /** `eta * n == 1` with `n > 1` puts `eta` in `[0, 1)`. */
  lemma ReciprocalBelowOne(n: real, eta: real)
    requires 1.0 < n && eta * n == 1.0
    ensures 0.0 <= eta < 1.0
  {
    if eta <= 0.0 {
      MulNonNegative(-eta, n);
    }
    assert eta * (n - 1.0) == 1.0 - eta;
    MulPositive(eta, n - 1.0);
  }
}
