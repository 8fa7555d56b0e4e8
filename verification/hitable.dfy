/** Ray–sphere intersection and the closest-hit reduction over a scene
    (src/hitable.rs).

    `Sphere::hit` calls the fast inverse-square-root approximation `fsqrt`
    of src/main.rs rather than the library root; it reaches the model as the
    parameter `fsqrt`. Properties that only need a non-negative root assume
    `NonNegSqrt(fsqrt)`; those that need the intersection to be exact assume
    `ExactSqrt(fsqrt)`. */
module Hitables {
  import opened Options
  import opened Vectors
  import opened Rays
  import opened Materials

  /** What a ray hit: the ray parameter, the point, the surface normal
      (`(p - center) / radius`, outward and unit for an exact root) and the
      material of the surface. */
  datatype HitRecord = HitRecord(t: real, p: Vec3, normal: Vec3, material: Material)

  datatype Sphere = Sphere(radius: real, center: Vec3, material: Material)

  /** The Rust range `tmin..tmax` used by `contains`: closed below, open
      above. */
  predicate InRange(t: real, tmin: real, tmax: real)
    ensures InRange(t, tmin, tmax) ==> tmin < tmax
  {
    tmin <= t < tmax
  }

  /** The lower end is accepted (when the range is not empty) and the upper
      end never is. */
  lemma InRangeIsHalfOpen(tmin: real, tmax: real)
    ensures InRange(tmin, tmin, tmax) <==> tmin < tmax
    ensures !InRange(tmax, tmin, tmax)
  {
  }

  /** Coefficients of `a t^2 + b t + c = 0`, whose roots are the ray
      parameters at which the ray meets a sphere. */
  datatype Quadratic = Quadratic(a: real, b: real, c: real)

  /** The quadratic of `Sphere::hit`: its value at `t` is how far the
      squared distance from the center to `point_at(t)` exceeds `radius^2`,
      so its roots are exactly the parameters of the points on the sphere. */
  function SphereQuadratic(s: Sphere, ray: Ray): (q: Quadratic)
    ensures q.a == SquaredLength(ray.Direction())
  {
    var oc := Sub(ray.Origin(), s.center);
    Quadratic(Dot(ray.Direction(), ray.Direction()),
              2.0 * Dot(oc, ray.Direction()),
              Dot(oc, oc) - s.radius * s.radius)
  }

  /** The meaning of `SphereQuadratic`: its value at `t` is the squared
      distance from the center to `point_at(t)` less `radius^2`. */
  lemma SphereQuadraticValue(s: Sphere, ray: Ray, t: real)
    ensures QuadraticAt(SphereQuadratic(s, ray), t)
            == SquaredLength(Sub(ray.PointAt(t), s.center)) - s.radius * s.radius
  {
    var oc := Sub(ray.Origin(), s.center);
    var d := ray.Direction();
    assert Sub(ray.PointAt(t), s.center) == Add(oc, Scale(d, t));
    SurfaceExpansion(oc, d, t);
  }

  /** The value of the polynomial at `t`. */
  function QuadraticAt(q: Quadratic, t: real): real
  {
    q.a * (t * t) + q.b * t + q.c
  }

  /** `b^2 - 4ac`. When `a` and `c` have opposite signs (for a sphere: a
      moving ray whose origin lies inside) it is positive, so such a ray
      always meets the sphere. */
  function Discriminant(q: Quadratic): (d: real)
    ensures 0.0 < q.a && q.c < 0.0 ==> 0.0 < d
  {
    InsideOriginDiscriminant(q.a, q.b, q.c);
    q.b * q.b - 4.0 * q.a * q.c
  }

  /** `a > 0` and `c < 0` make `b^2 - 4ac` positive. */
  lemma InsideOriginDiscriminant(a: real, b: real, c: real)
    ensures 0.0 < a && c < 0.0 ==> 0.0 < b * b - 4.0 * a * c
  {
    SquareNonNegative(b);
    if 0.0 < a && c < 0.0 {
      MulPositive(a, -c);
    }
  }

  /** Completing the square: `4a` times the value at `t` is `(2at + b)^2`
      minus the discriminant. */
  lemma CompletingTheSquare(q: Quadratic, t: real)
    ensures 4.0 * q.a * QuadraticAt(q, t)
            == (2.0 * q.a * t + q.b) * (2.0 * q.a * t + q.b) - Discriminant(q)
  {
  }

  /** A negative discriminant leaves no real root, so rejecting it drops
      no intersection; the source also rejects a zero discriminant, the
      ray that only grazes the sphere. */
  lemma NegativeDiscriminantMisses(q: Quadratic, t: real)
    requires q.a != 0.0
    requires Discriminant(q) < 0.0
    ensures QuadraticAt(q, t) != 0.0
  {
    CompletingTheSquare(q, t);
    var u := 2.0 * q.a * t + q.b;
    SquareNonNegative(u);
    if QuadraticAt(q, t) == 0.0 {
      MulByZero(4.0 * q.a, QuadraticAt(q, t));
    }
  }

  /** `(-b - fsqrt(delta)) / (2a)`, tried first. */
  function NearRoot(q: Quadratic, fsqrt: real -> real): (t: real)
    ensures ExactSqrt(fsqrt) && q.a != 0.0 && 0.0 <= Discriminant(q) ==> QuadraticAt(q, t) == 0.0
    ensures NonNegSqrt(fsqrt) && 0.0 < q.a && 0.0 <= Discriminant(q) ==> t <= FarRoot(q, fsqrt)
  {
    var root := fsqrt(Discriminant(q));
    var t := Divide(-q.b - root, 2.0 * q.a);
    RootFromSquare(q, root, t);
    RootsOrdered(q.a, q.b, root, t, FarRoot(q, fsqrt));
    t
  }

  /** `(-b + fsqrt(delta)) / (2a)`, tried when the near root is rejected. */
  function FarRoot(q: Quadratic, fsqrt: real -> real): (t: real)
    ensures ExactSqrt(fsqrt) && q.a != 0.0 && 0.0 <= Discriminant(q) ==> QuadraticAt(q, t) == 0.0
  {
    var root := fsqrt(Discriminant(q));
    var t := Divide(-q.b + root, 2.0 * q.a);
    RootFromSquare(q, root, t);
    t
  }

  /** With `a > 0` and a non-negative root, `(-b - root) / 2a` is at most
      `(-b + root) / 2a`. */
  lemma RootsOrdered(a: real, b: real, root: real, near: real, far: real)
    ensures 0.0 < a && 0.0 <= root && near * (2.0 * a) == -b - root && far * (2.0 * a) == -b + root
            ==> near <= far
  {
    if 0.0 < a && 0.0 <= root && near * (2.0 * a) == -b - root && far * (2.0 * a) == -b + root {
      NonPositiveFactor(near - far, 2.0 * a);
    }
  }

  /** `t` with `2a t = -b +- root` and `root^2` the discriminant solves the
      quadratic. */
  lemma RootFromSquare(q: Quadratic, root: real, t: real)
    ensures q.a != 0.0 && root * root == Discriminant(q)
            && (t * (2.0 * q.a) == -q.b - root || t * (2.0 * q.a) == -q.b + root)
            ==> QuadraticAt(q, t) == 0.0
  {
    if q.a != 0.0 && root * root == Discriminant(q)
       && (t * (2.0 * q.a) == -q.b - root || t * (2.0 * q.a) == -q.b + root) {
      var u := t * (2.0 * q.a) + q.b;
      RootSquared(u, root, Discriminant(q));
      QuadraticFromRoot(q.a, q.b, q.c, t, u, 2.0 * q.a);
    }
  }

  /** The record built for an accepted root `t`. */
  function HitAt(s: Sphere, ray: Ray, t: real): (h: HitRecord)
    ensures h.t == t && h.p == ray.PointAt(t) && h.material == s.material
    ensures s.radius != 0.0 ==> Scale(h.normal, s.radius) == Sub(h.p, s.center)
  {
    HitRecord(t, ray.PointAt(t), DivScalar(Sub(ray.PointAt(t), s.center), s.radius), s.material)
  }

  /** `Sphere::hit`: no hit unless the discriminant is positive; otherwise
      the near root if it lies in `tmin..tmax`, else the far root if it
      does, else no hit. */
  function SphereHit(s: Sphere, ray: Ray, tmin: real, tmax: real, fsqrt: real -> real): (r: Option<HitRecord>)
    ensures r.Some? ==> InRange(r.value.t, tmin, tmax)
    ensures r.Some? ==> r.value.p == ray.PointAt(r.value.t) && r.value.material == s.material
    ensures r.Some? && s.radius != 0.0 ==> Scale(r.value.normal, s.radius) == Sub(r.value.p, s.center)
    ensures Discriminant(SphereQuadratic(s, ray)) <= 0.0 ==> r.None?
    ensures r.Some? ==> (r.value.t == NearRoot(SphereQuadratic(s, ray), fsqrt)
                         || r.value.t == FarRoot(SphereQuadratic(s, ray), fsqrt))
    ensures Discriminant(SphereQuadratic(s, ray)) > 0.0
            && InRange(NearRoot(SphereQuadratic(s, ray), fsqrt), tmin, tmax)
            ==> r.Some? && r.value.t == NearRoot(SphereQuadratic(s, ray), fsqrt)
    ensures r.Some? && r.value.t != NearRoot(SphereQuadratic(s, ray), fsqrt)
            ==> !InRange(NearRoot(SphereQuadratic(s, ray), fsqrt), tmin, tmax)
    ensures Discriminant(SphereQuadratic(s, ray)) > 0.0
            && !InRange(NearRoot(SphereQuadratic(s, ray), fsqrt), tmin, tmax)
            && InRange(FarRoot(SphereQuadratic(s, ray), fsqrt), tmin, tmax)
            ==> r.Some? && r.value.t == FarRoot(SphereQuadratic(s, ray), fsqrt)
    ensures r.None? ==> Discriminant(SphereQuadratic(s, ray)) <= 0.0
                        || (!InRange(NearRoot(SphereQuadratic(s, ray), fsqrt), tmin, tmax)
                            && !InRange(FarRoot(SphereQuadratic(s, ray), fsqrt), tmin, tmax))
  {
    var q := SphereQuadratic(s, ray);
    if Discriminant(q) > 0.0 then
      var near := NearRoot(q, fsqrt);
      if InRange(near, tmin, tmax) then Some(HitAt(s, ray, near))
      else
        var far := FarRoot(q, fsqrt);
        if InRange(far, tmin, tmax) then Some(HitAt(s, ray, far))
        else None
    else None
  }

  /** Lagrange's identity: `|u|^2 |v|^2 - (u.v)^2 == |u x v|^2`. */
  lemma LagrangeIdentity(u: Vec3, v: Vec3)
    ensures SquaredLength(u) * SquaredLength(v) - Dot(u, v) * Dot(u, v)
            == SquaredLength(Cross(u, v))
  {
  }

  /** The discriminant equals `4 a r^2 - 4 |oc x d|^2`. */
  lemma DiscriminantGeometry(s: Sphere, ray: Ray)
    ensures Discriminant(SphereQuadratic(s, ray))
            == 4.0 * SphereQuadratic(s, ray).a * (s.radius * s.radius)
               - 4.0 * SquaredLength(Cross(Sub(ray.Origin(), s.center), ray.Direction()))
  {
    var oc := Sub(ray.Origin(), s.center);
    var d := ray.Direction();
    LagrangeIdentity(oc, d);
    SquaredLengthIsDot(oc);
    SquaredLengthIsDot(d);
  }

  /** A positive discriminant means the direction is not zero: the leading
      coefficient `d.d` is positive, so both roots are proper quotients. */
  lemma PositiveDiscriminantMovingRay(s: Sphere, ray: Ray)
    requires Discriminant(SphereQuadratic(s, ray)) > 0.0
    ensures SphereQuadratic(s, ray).a > 0.0
  {
    var q := SphereQuadratic(s, ray);
    DiscriminantGeometry(s, ray);
    SquaredLengthNonNegative(Cross(Sub(ray.Origin(), s.center), ray.Direction()));
    SquaredLengthIsDot(ray.Direction());
    SquaredLengthNonNegative(ray.Direction());
    if q.a == 0.0 {
      MulByZero(s.radius * s.radius, q.a);
    }
  }

  /** With a non-negative root the near root never exceeds the far one. */
  lemma NearAtMostFar(s: Sphere, ray: Ray, fsqrt: real -> real)
    requires NonNegSqrt(fsqrt)
    requires Discriminant(SphereQuadratic(s, ray)) > 0.0
    ensures NearRoot(SphereQuadratic(s, ray), fsqrt) <= FarRoot(SphereQuadratic(s, ray), fsqrt)
  {
    var q := SphereQuadratic(s, ray);
    PositiveDiscriminantMovingRay(s, ray);
    var root := fsqrt(Discriminant(q));
    assert 0.0 <= root;
    var near := NearRoot(q, fsqrt);
    var far := FarRoot(q, fsqrt);
    var twoA := 2.0 * q.a;
    assert near * twoA == -q.b - root;
    assert far * twoA == -q.b + root;
    NonPositiveFactor(near - far, twoA);
  }

  /** An accepted `t` solves the sphere's quadratic when the root is exact. */
  lemma SphereHitIsRoot(s: Sphere, ray: Ray, tmin: real, tmax: real, fsqrt: real -> real)
    requires ExactSqrt(fsqrt)
    requires SphereHit(s, ray, tmin, tmax, fsqrt).Some?
    ensures SphereQuadratic(s, ray).a > 0.0
    ensures QuadraticAt(SphereQuadratic(s, ray), SphereHit(s, ray, tmin, tmax, fsqrt).value.t) == 0.0
  {
    PositiveDiscriminantMovingRay(s, ray);
    RootsSolve(SphereQuadratic(s, ray), fsqrt, SphereHit(s, ray, tmin, tmax, fsqrt).value.t);
  }

  /** Both roots solve a quadratic with positive leading coefficient and
      positive discriminant when the root is exact. */
  lemma RootsSolve(q: Quadratic, fsqrt: real -> real, t: real)
    requires ExactSqrt(fsqrt)
    requires q.a > 0.0 && Discriminant(q) > 0.0
    requires t == NearRoot(q, fsqrt) || t == FarRoot(q, fsqrt)
    ensures QuadraticAt(q, t) == 0.0
  {
    var delta := Discriminant(q);
    var root := fsqrt(delta);
    assert root * root == delta;
    var twoA := 2.0 * q.a;
    var u := t * twoA + q.b;
    assert u == root || u == -root;
    RootSquared(u, root, delta);
    QuadraticFromRoot(q.a, q.b, q.c, t, u, twoA);
  }

  /** `u = +-root` and `root^2 = delta` give `u^2 = delta`. */
  lemma RootSquared(u: real, root: real, delta: real)
    requires u == root || u == -root
    requires root * root == delta
    ensures u * u == delta
  {
    if u != root {
      assert u * u == (-root) * (-root);
    }
  }

  /** Completing the square: if `(2at + b)^2 = b^2 - 4ac` and `a != 0`
      then `a t^2 + b t + c = 0`. */
  lemma QuadraticFromRoot(a: real, b: real, c: real, t: real, u: real, twoA: real)
    requires a != 0.0 && twoA == 2.0 * a
    requires u == t * twoA + b
    requires u * u == b * b - 4.0 * a * c
    ensures a * (t * t) + b * t + c == 0.0
  {
    var e := a * (t * t) + b * t + c;
    assert u * u == 4.0 * a * e + b * b - 4.0 * a * c;
    assert (4.0 * a) * e == 0.0;
    ZeroProduct(4.0 * a, e);
  }

  /** An accepted point lies on the sphere, and for a non-zero radius the
      normal has unit length, when the root is exact. */
  lemma SphereHitOnSurface(s: Sphere, ray: Ray, tmin: real, tmax: real, fsqrt: real -> real)
    requires ExactSqrt(fsqrt)
    requires SphereHit(s, ray, tmin, tmax, fsqrt).Some?
    ensures var h := SphereHit(s, ray, tmin, tmax, fsqrt).value;
            SquaredLength(Sub(h.p, s.center)) == s.radius * s.radius
    ensures s.radius != 0.0 ==> SquaredLength(SphereHit(s, ray, tmin, tmax, fsqrt).value.normal) == 1.0
  {
    var h := SphereHit(s, ray, tmin, tmax, fsqrt).value;
    SphereHitIsRoot(s, ray, tmin, tmax, fsqrt);
    RootOnSphere(s, ray, h.t);
    if s.radius != 0.0 {
      UnitNormal(h.normal, s.radius, Sub(h.p, s.center));
    }
  }

  /** The point at a root of the sphere's quadratic lies on the sphere. */
  lemma RootOnSphere(s: Sphere, ray: Ray, t: real)
    requires QuadraticAt(SphereQuadratic(s, ray), t) == 0.0
    ensures SquaredLength(Sub(ray.PointAt(t), s.center)) == s.radius * s.radius
  {
    SphereQuadraticValue(s, ray, t);
  }

  /** `|oc + d t|^2` expanded in powers of `t`. */
  lemma SurfaceExpansion(oc: Vec3, d: Vec3, t: real)
    ensures SquaredLength(Add(oc, Scale(d, t)))
            == Dot(d, d) * (t * t) + 2.0 * Dot(oc, d) * t + Dot(oc, oc)
  {
    var w := Add(oc, Scale(d, t));
    ExpandComponents(oc.x, oc.y, oc.z, d.x, d.y, d.z, t, w.x, w.y, w.z,
                     SquaredLength(w), Dot(d, d), Dot(oc, d), Dot(oc, oc));
  }

  /** `SurfaceExpansion` written on the components: `w` is `oc + d t`,
      `sq` is `|w|^2` and `a`, `b`, `c` are `d.d`, `oc.d` and `oc.oc`. */
  lemma ExpandComponents(ox: real, oy: real, oz: real, dx: real, dy: real, dz: real, t: real,
                         wx: real, wy: real, wz: real, sq: real, a: real, b: real, c: real)
    requires wx == ox + dx * t && wy == oy + dy * t && wz == oz + dz * t
    requires sq == wx * wx + wy * wy + wz * wz
    requires a == dx * dx + dy * dy + dz * dz
    requires b == ox * dx + oy * dy + oz * dz
    requires c == ox * ox + oy * oy + oz * oz
    ensures sq == a * (t * t) + 2.0 * b * t + c
  {
    BinomialSquare(ox, dx, t);
    BinomialSquare(oy, dy, t);
    BinomialSquare(oz, dz, t);
    CollectTerms(dx * dx, dy * dy, dz * dz, ox * dx, oy * dy, oz * dz, ox * ox, oy * oy, oz * oz, t * t, t);
  }

  /** Three quadratics in `t` summed coefficient by coefficient. */
  lemma CollectTerms(a: real, a': real, a'': real, b: real, b': real, b'': real,
                     c: real, c': real, c'': real, tt: real, t: real)
    ensures (a * tt + 2.0 * b * t + c) + (a' * tt + 2.0 * b' * t + c') + (a'' * tt + 2.0 * b'' * t + c'')
            == (a + a' + a'') * tt + 2.0 * (b + b' + b'') * t + (c + c' + c'')
  {
  }

  /** `(o + d t)^2` expanded in powers of `t`. */
  lemma BinomialSquare(o: real, d: real, t: real)
    ensures (o + d * t) * (o + d * t) == d * d * (t * t) + 2.0 * (o * d) * t + o * o
  {
  }

  /** `n * r == w` with `|w|^2 == r^2` and `r != 0` make `n` a unit vector. */
  lemma UnitNormal(n: Vec3, r: real, w: Vec3)
    requires r != 0.0
    requires Scale(n, r) == w
    requires SquaredLength(w) == r * r
    ensures SquaredLength(n) == 1.0
  {
    SquaredLengthScale(n, r);
    var g := SquaredLength(n);
    var h := r * g;
    assert r * h == r * r;
    assert r * (h - r) == 0.0;
    ZeroProduct(r, h - r);
    assert r * (g - 1.0) == 0.0;
    ZeroProduct(r, g - 1.0);
  }

  /** Narrowing the upper bound keeps exactly the hits below it: with a
      non-negative root, the hit on `tmin..b` for `b <= tmax` is the hit on
      `tmin..tmax` when that lies below `b`, and there is none otherwise. */
  lemma SphereHitNarrow(s: Sphere, ray: Ray, tmin: real, b: real, tmax: real, fsqrt: real -> real)
    requires NonNegSqrt(fsqrt)
    requires b <= tmax
    ensures var wide := SphereHit(s, ray, tmin, tmax, fsqrt);
            SphereHit(s, ray, tmin, b, fsqrt)
            == if wide.Some? && wide.value.t < b then wide else None
  {
    var q := SphereQuadratic(s, ray);
    if Discriminant(q) > 0.0 {
      NearAtMostFar(s, ray, fsqrt);
    }
  }

  /** The loop of `HitableList::hit` from element `i` on: each element is
      asked for a hit below the current bound `closest`, and an accepted
      hit replaces the best record and becomes the new bound. */
  function Scan(world: seq<Sphere>, ray: Ray, tmin: real, fsqrt: real -> real,
                i: nat, closest: real, best: Option<HitRecord>): (r: Option<HitRecord>)
    requires i <= |world|
    ensures r == best || (r.Some? && InRange(r.value.t, tmin, closest))
    ensures best.Some? ==> r.Some?
    decreases |world| - i
  {
    if i == |world| then best
    else
      var next := Iterate(world, ray, tmin, fsqrt, i, closest, best);
      Scan(world, ray, tmin, fsqrt, i + 1, next.0, next.1)
  }

  /** One pass of the loop body: element `i` is asked for a hit below
      `closest`; an accepted hit becomes both the new bound and the best
      record, otherwise both stay. */
  function Iterate(world: seq<Sphere>, ray: Ray, tmin: real, fsqrt: real -> real,
                   i: nat, closest: real, best: Option<HitRecord>): (next: (real, Option<HitRecord>))
    requires i < |world|
    ensures || (next.0 == closest && next.1 == best)
            || (next.1.Some? && next.0 == next.1.value.t && InRange(next.0, tmin, closest))
  {
    match SphereHit(world[i], ray, tmin, closest, fsqrt)
    case Some(rec) => (rec.t, Some(rec))
    case None => (closest, best)
  }

  /** `HitableList::hit`: the closest hit in `tmin..tmax` over the list. */
  function WorldHit(world: seq<Sphere>, ray: Ray, tmin: real, tmax: real, fsqrt: real -> real): (r: Option<HitRecord>)
    ensures r.Some? ==> InRange(r.value.t, tmin, tmax)
    ensures world == [] ==> r.None?
  {
    Scan(world, ray, tmin, fsqrt, 0, tmax, None)
  }

  /** No element of the first `n` reports a hit on `tmin..tmax`. */
  ghost predicate NoHitBefore(world: seq<Sphere>, ray: Ray, tmin: real, tmax: real, fsqrt: real -> real, n: nat)
    requires n <= |world|
  {
    forall j :: 0 <= j < n ==> SphereHit(world[j], ray, tmin, tmax, fsqrt).None?
  }

  /** `h` is element `k`'s own hit on `tmin..tmax`, no element among the
      first `n` reports a nearer one, and every element before `k` reports
      a strictly farther one (ties go to the earliest element). */
  ghost predicate ClosestBefore(world: seq<Sphere>, ray: Ray, tmin: real, tmax: real, fsqrt: real -> real,
                                n: nat, k: nat, h: HitRecord)
    requires n <= |world|
  {
    && k < n
    && SphereHit(world[k], ray, tmin, tmax, fsqrt) == Some(h)
    && (forall j :: 0 <= j < n && SphereHit(world[j], ray, tmin, tmax, fsqrt).Some?
          ==> h.t <= SphereHit(world[j], ray, tmin, tmax, fsqrt).value.t)
    && (forall j :: 0 <= j < k && SphereHit(world[j], ray, tmin, tmax, fsqrt).Some?
          ==> h.t < SphereHit(world[j], ray, tmin, tmax, fsqrt).value.t)
  }

  /** The state of the reduction after the first `n` elements. */
  ghost predicate ScanState(world: seq<Sphere>, ray: Ray, tmin: real, tmax: real, fsqrt: real -> real,
                            n: nat, closest: real, best: Option<HitRecord>)
    requires n <= |world|
  {
    && (best.None? ==> closest == tmax && NoHitBefore(world, ray, tmin, tmax, fsqrt, n))
    && (best.Some? ==> closest == best.value.t
                       && exists k :: ClosestBefore(world, ray, tmin, tmax, fsqrt, n, k, best.value))
  }

  /** One step of the reduction preserves `ScanState`. */
  lemma ScanStep(world: seq<Sphere>, ray: Ray, tmin: real, tmax: real, fsqrt: real -> real,
                 i: nat, closest: real, best: Option<HitRecord>)
    requires NonNegSqrt(fsqrt)
    requires i < |world|
    requires closest <= tmax
    requires ScanState(world, ray, tmin, tmax, fsqrt, i, closest, best)
    ensures var next := Iterate(world, ray, tmin, fsqrt, i, closest, best);
            next.0 <= tmax && ScanState(world, ray, tmin, tmax, fsqrt, i + 1, next.0, next.1)
  {
    SphereHitNarrow(world[i], ray, tmin, closest, tmax, fsqrt);
    match SphereHit(world[i], ray, tmin, closest, fsqrt)
    case Some(rec) =>
      ScanAccept(world, ray, tmin, tmax, fsqrt, i, closest, best, rec);
    case None =>
      ScanReject(world, ray, tmin, tmax, fsqrt, i, closest, best);
  }

  /** An element whose hit lies below the bound becomes the closest. */
  lemma ScanAccept(world: seq<Sphere>, ray: Ray, tmin: real, tmax: real, fsqrt: real -> real,
                   i: nat, closest: real, best: Option<HitRecord>, rec: HitRecord)
    requires i < |world|
    requires ScanState(world, ray, tmin, tmax, fsqrt, i, closest, best)
    requires SphereHit(world[i], ray, tmin, tmax, fsqrt) == Some(rec)
    requires rec.t < closest
    ensures ScanState(world, ray, tmin, tmax, fsqrt, i + 1, rec.t, Some(rec))
  {
    forall j | 0 <= j < i && SphereHit(world[j], ray, tmin, tmax, fsqrt).Some?
      ensures rec.t < SphereHit(world[j], ray, tmin, tmax, fsqrt).value.t
    {
      if best.Some? {
        var k: nat :| ClosestBefore(world, ray, tmin, tmax, fsqrt, i, k, best.value);
      }
    }
    assert ClosestBefore(world, ray, tmin, tmax, fsqrt, i + 1, i, rec);
  }

  /** An element with no hit below the bound leaves the state as it is. */
  lemma ScanReject(world: seq<Sphere>, ray: Ray, tmin: real, tmax: real, fsqrt: real -> real,
                   i: nat, closest: real, best: Option<HitRecord>)
    requires i < |world|
    requires ScanState(world, ray, tmin, tmax, fsqrt, i, closest, best)
    requires SphereHit(world[i], ray, tmin, tmax, fsqrt).Some?
             ==> closest <= SphereHit(world[i], ray, tmin, tmax, fsqrt).value.t
    ensures ScanState(world, ray, tmin, tmax, fsqrt, i + 1, closest, best)
  {
    if best.Some? {
      var k: nat :| ClosestBefore(world, ray, tmin, tmax, fsqrt, i, k, best.value);
      assert ClosestBefore(world, ray, tmin, tmax, fsqrt, i + 1, k, best.value);
    }
  }

  /** `r` is what the whole list should report: nothing when no element
      hits, else the closest hit with ties going to the earliest element. */
  ghost predicate ClosestOverall(world: seq<Sphere>, ray: Ray, tmin: real, tmax: real, fsqrt: real -> real,
                                 r: Option<HitRecord>)
  {
    && (r.None? ==> NoHitBefore(world, ray, tmin, tmax, fsqrt, |world|))
    && (r.Some? ==> exists k :: ClosestBefore(world, ray, tmin, tmax, fsqrt, |world|, k, r.value))
  }

  /** Running the reduction from a valid state ends in a valid state over
      the whole list. */
  lemma {:induction false} ScanCorrect(world: seq<Sphere>, ray: Ray, tmin: real, tmax: real, fsqrt: real -> real,
                                       i: nat, closest: real, best: Option<HitRecord>)
    requires NonNegSqrt(fsqrt)
    requires i <= |world|
    requires closest <= tmax
    requires ScanState(world, ray, tmin, tmax, fsqrt, i, closest, best)
    ensures ClosestOverall(world, ray, tmin, tmax, fsqrt, Scan(world, ray, tmin, fsqrt, i, closest, best))
    decreases |world| - i
  {
    if i < |world| {
      ScanStep(world, ray, tmin, tmax, fsqrt, i, closest, best);
      var next := Iterate(world, ray, tmin, fsqrt, i, closest, best);
      ScanCorrect(world, ray, tmin, tmax, fsqrt, i + 1, next.0, next.1);
    }
  }

  /** `HitableList::hit` returns no hit exactly when no sphere reports one
      on `tmin..tmax`; otherwise it returns the hit of some sphere `k`
      whose `t` is the least over all spheres, every sphere before `k`
      reporting a strictly larger `t`. */
  lemma WorldHitIsClosest(world: seq<Sphere>, ray: Ray, tmin: real, tmax: real, fsqrt: real -> real)
    requires NonNegSqrt(fsqrt)
    ensures WorldHit(world, ray, tmin, tmax, fsqrt).None?
            <==> NoHitBefore(world, ray, tmin, tmax, fsqrt, |world|)
    ensures WorldHit(world, ray, tmin, tmax, fsqrt).Some?
            ==> exists k :: ClosestBefore(world, ray, tmin, tmax, fsqrt, |world|, k,
                                          WorldHit(world, ray, tmin, tmax, fsqrt).value)
  {
    ScanCorrect(world, ray, tmin, tmax, fsqrt, 0, tmax, None);
    var r := WorldHit(world, ray, tmin, tmax, fsqrt);
    if r.Some? {
      var k: nat :| ClosestBefore(world, ray, tmin, tmax, fsqrt, |world|, k, r.value);
      assert SphereHit(world[k], ray, tmin, tmax, fsqrt).Some?;
    }
  }

  /** `HitableList::hit` as the source writes it: one pass over the list
      with a bound that only shrinks. */
  method HitList(world: seq<Sphere>, ray: Ray, tmin: real, tmax: real, fsqrt: real -> real)
    returns (r: Option<HitRecord>)
    ensures r == WorldHit(world, ray, tmin, tmax, fsqrt)
    ensures r.Some? ==> InRange(r.value.t, tmin, tmax)
  {
    var closest := tmax;
    r := None;
    var i := 0;
    while i < |world|
      invariant 0 <= i <= |world|
      invariant closest <= tmax
      invariant r.Some? ==> r.value.t == closest && InRange(closest, tmin, tmax)
      invariant Scan(world, ray, tmin, fsqrt, i, closest, r) == WorldHit(world, ray, tmin, tmax, fsqrt)
    {
      var hit := SphereHit(world[i], ray, tmin, closest, fsqrt);
      if hit.Some? {
        closest := hit.value.t;
        r := hit;
      }
      i := i + 1;
    }
  }
}
