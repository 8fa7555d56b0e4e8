/** The depth-bounded transport evaluator `color` of src/main.rs.

    A ray that misses every sphere takes the sky gradient; a ray that hits
    is scattered by the hit material and its colour is the attenuation
    times the colour of the scattered ray, until the bounce depth reaches
    50 or the material absorbs the ray.

    The random draws of the bounces are the parameter `draws`, indexed by
    bounce depth; `sqrt` is the library square root and `fsqrt` the fast
    approximation used by the sphere test. */
module Render {
  import opened Options
  import opened Vectors
  import opened Rays
  import opened Materials
  import opened Hitables
  import opened Scattering

  /** The `u8` bounce counter. */
  type U8 = x: int | 0 <= x < 256

  /** Depth at which `color` stops following a ray. */
  const MaxDepth: U8 := 50

  /** Lower end of the scene query, skipping self-intersections. */
  const ShadowEpsilon: real := 0.001

  /** `std::f32::MAX`, the upper end of the scene query. */
  const F32Max: real := 340282346638528859811704183484516925440.0

  /** The sky colour at the top of the gradient. */
  const SkyBlue: Vec3 := Vec3(0.5, 0.7, 1.0)

  /** Height of the unit direction mapped from `[-1, 1]` onto `[0, 1]`. */
  function SkyBlend(d: Vec3, sqrt: real -> real): (t: real)
    ensures ExactSqrt(sqrt) ==> 0.0 <= t <= 1.0
  {
    UnitVectorInCube(d, sqrt);
    0.5 * (UnitVector(d, sqrt).y + 1.0)
  }

  /** The background of a ray that hits nothing: white blended towards
      sky blue as the direction turns upwards. */
  function Background(d: Vec3, sqrt: real -> real): (c: Vec3)
    ensures c.z == 1.0
    ensures ExactSqrt(sqrt) ==> 0.5 <= c.x <= 1.0 && 0.7 <= c.y <= 1.0
  {
    var t := SkyBlend(d, sqrt);
    Add(Scale(One, 1.0 - t), Scale(SkyBlue, t))
  }

  /** For a unit direction the gradient is linear in its height `y`. */
  lemma BackgroundOfUnit(v: Vec3, sqrt: real -> real)
    requires ExactSqrt(sqrt)
    requires SquaredLength(v) == 1.0
    ensures Background(v, sqrt) == Vec3(0.75 - 0.25 * v.y, 0.85 - 0.15 * v.y, 1.0)
  {
    UnitVectorOfUnit(v, sqrt);
    BackgroundComponents(v, sqrt, SkyBlend(v, sqrt));
  }

  /** Straight up is sky blue. */
  lemma BackgroundZenith(sqrt: real -> real)
    requires ExactSqrt(sqrt)
    ensures Background(Vec3(0.0, 1.0, 0.0), sqrt) == SkyBlue
  {
    BackgroundOfUnit(Vec3(0.0, 1.0, 0.0), sqrt);
  }

  /** Straight down is white. */
  lemma BackgroundNadir(sqrt: real -> real)
    requires ExactSqrt(sqrt)
    ensures Background(Vec3(0.0, -1.0, 0.0), sqrt) == One
  {
    BackgroundOfUnit(Vec3(0.0, -1.0, 0.0), sqrt);
  }

  /** The gradient component by component: red falls from 1 to 0.5 and
      green from 1 to 0.7 as the blend `t` rises from 0 to 1; blue stays 1. */
  lemma BackgroundComponents(d: Vec3, sqrt: real -> real, t: real)
    requires t == SkyBlend(d, sqrt)
    ensures Background(d, sqrt) == Vec3(1.0 - 0.5 * t, 1.0 - 0.3 * t, 1.0)
  {
  }

  /** Every component lies in `[0, 1]`. */
  predicate UnitColor(c: Vec3)
  {
    0.0 <= c.x <= 1.0 && 0.0 <= c.y <= 1.0 && 0.0 <= c.z <= 1.0
  }

  /** Every background component lies in `[0.5, 1]`. */
  lemma BackgroundBounds(d: Vec3, sqrt: real -> real)
    requires ExactSqrt(sqrt)
    ensures var c := Background(d, sqrt);
            0.5 <= c.x <= 1.0 && 0.5 <= c.y <= 1.0 && 0.5 <= c.z <= 1.0
  {
    BackgroundComponents(d, sqrt, SkyBlend(d, sqrt));
  }

  /** `color`: the colour carried back along `ray` from bounce `depth`. */
  function Color(world: seq<Sphere>, ray: Ray, depth: U8, draws: nat -> Draw,
                 sqrt: real -> real, fsqrt: real -> real): (c: Vec3)
    ensures WorldHit(world, ray, ShadowEpsilon, F32Max, fsqrt).None?
            ==> c == Background(ray.Direction(), sqrt)
    ensures WorldHit(world, ray, ShadowEpsilon, F32Max, fsqrt).Some? && MaxDepth <= depth ==> c == Zero
    decreases MaxDepth - depth
  {
    match WorldHit(world, ray, ShadowEpsilon, F32Max, fsqrt)
    case None => Background(ray.Direction(), sqrt)
    case Some(rec) =>
      if depth < MaxDepth then
        match Scatter(ray, rec, draws(depth), sqrt)
        case Some(s) => Mul(s.attenuation, Color(world, s.ray, depth + 1, draws, sqrt, fsqrt))
        case None => Zero
      else Zero
  }

  /** A hit whose material absorbs the ray is black. */
  lemma ColorAbsorbed(world: seq<Sphere>, ray: Ray, depth: U8, draws: nat -> Draw,
                      sqrt: real -> real, fsqrt: real -> real)
    requires WorldHit(world, ray, ShadowEpsilon, F32Max, fsqrt).Some?
    requires Scatter(ray, WorldHit(world, ray, ShadowEpsilon, F32Max, fsqrt).value, draws(depth), sqrt).None?
    ensures Color(world, ray, depth, draws, sqrt, fsqrt) == Zero
  {
  }

  /** Below the depth limit a scattered ray contributes its own colour
      attenuated component-wise. */
  lemma ColorScatter(world: seq<Sphere>, ray: Ray, depth: U8, draws: nat -> Draw,
                     sqrt: real -> real, fsqrt: real -> real)
    requires depth < MaxDepth
    requires WorldHit(world, ray, ShadowEpsilon, F32Max, fsqrt).Some?
    requires Scatter(ray, WorldHit(world, ray, ShadowEpsilon, F32Max, fsqrt).value, draws(depth), sqrt).Some?
    ensures var s := Scatter(ray, WorldHit(world, ray, ShadowEpsilon, F32Max, fsqrt).value, draws(depth), sqrt).value;
            Color(world, ray, depth, draws, sqrt, fsqrt)
            == Mul(s.attenuation, Color(world, s.ray, depth + 1, draws, sqrt, fsqrt))
  {
  }

  /** A material whose albedo, if it has one, is a colour in `[0, 1]^3`. */
  predicate AlbedoInUnitCube(m: Material)
  {
    m.Dielectric? || UnitColor(m.albedo)
  }

  /** The product of two colours in `[0, 1]^3` stays in `[0, 1]^3`. */
  lemma MulUnitColor(a: Vec3, b: Vec3)
    requires UnitColor(a) && UnitColor(b)
    ensures UnitColor(Mul(a, b))
  {
    MulInUnit(a.x, b.x);
    MulInUnit(a.y, b.y);
    MulInUnit(a.z, b.z);
  }

  /** Every hit the scene reports carries the material of one of its
      spheres. */
  lemma WorldHitMaterial(world: seq<Sphere>, ray: Ray, tmin: real, tmax: real, fsqrt: real -> real)
    requires NonNegSqrt(fsqrt)
    requires WorldHit(world, ray, tmin, tmax, fsqrt).Some?
    ensures exists k :: 0 <= k < |world|
                        && world[k].material == WorldHit(world, ray, tmin, tmax, fsqrt).value.material
  {
    WorldHitIsClosest(world, ray, tmin, tmax, fsqrt);
    var k: nat :| ClosestBefore(world, ray, tmin, tmax, fsqrt, |world|, k,
                                 WorldHit(world, ray, tmin, tmax, fsqrt).value);
    assert world[k].material == WorldHit(world, ray, tmin, tmax, fsqrt).value.material;
  }

  /** The scattering that bounce `depth` continues with: present when the
      ray hits, the depth limit is not reached and the material does not
      absorb the ray. */
  function Bounce(world: seq<Sphere>, ray: Ray, depth: U8, draws: nat -> Draw,
                  sqrt: real -> real, fsqrt: real -> real): (r: Option<Scattered>)
    ensures r.Some? ==> depth < MaxDepth && WorldHit(world, ray, ShadowEpsilon, F32Max, fsqrt).Some?
  {
    match WorldHit(world, ray, ShadowEpsilon, F32Max, fsqrt)
    case None => None
    case Some(rec) => if depth < MaxDepth then Scatter(ray, rec, draws(depth), sqrt) else None
  }

  /** The colour of a path that ends at this bounce: the background on a
      miss, black otherwise. */
  function Terminal(world: seq<Sphere>, ray: Ray, sqrt: real -> real, fsqrt: real -> real): Vec3
  {
    if WorldHit(world, ray, ShadowEpsilon, F32Max, fsqrt).None? then Background(ray.Direction(), sqrt)
    else Zero
  }

  /** `color` is the terminal colour of a path that stops, and the
      attenuated colour of the next bounce otherwise. */
  lemma ColorUnrolled(world: seq<Sphere>, ray: Ray, depth: U8, draws: nat -> Draw,
                      sqrt: real -> real, fsqrt: real -> real)
    ensures Bounce(world, ray, depth, draws, sqrt, fsqrt).None?
            ==> Color(world, ray, depth, draws, sqrt, fsqrt) == Terminal(world, ray, sqrt, fsqrt)
    ensures var b := Bounce(world, ray, depth, draws, sqrt, fsqrt);
            b.Some? ==> Color(world, ray, depth, draws, sqrt, fsqrt)
                        == Mul(b.value.attenuation, Color(world, b.value.ray, depth + 1, draws, sqrt, fsqrt))
  {
  }

  /** When every albedo in the scene lies in `[0, 1]^3`, so does every
      colour `color` returns: the background lies in `[0.5, 1]^3` and each
      bounce multiplies by an attenuation in `[0, 1]^3`. */
  lemma {:induction false} ColorBounded(world: seq<Sphere>, ray: Ray, depth: U8, draws: nat -> Draw,
                                        sqrt: real -> real, fsqrt: real -> real)
    requires ExactSqrt(sqrt) && NonNegSqrt(fsqrt)
    requires forall k :: 0 <= k < |world| ==> AlbedoInUnitCube(world[k].material)
    ensures UnitColor(Color(world, ray, depth, draws, sqrt, fsqrt))
    decreases MaxDepth - depth
  {
    ColorUnrolled(world, ray, depth, draws, sqrt, fsqrt);
    var b := Bounce(world, ray, depth, draws, sqrt, fsqrt);
    if b.None? {
      TerminalBounded(world, ray, sqrt, fsqrt);
    } else {
      AttenuationBounded(world, ray, depth, draws, sqrt, fsqrt);
      ColorBounded(world, b.value.ray, depth + 1, draws, sqrt, fsqrt);
      MulUnitColor(b.value.attenuation, Color(world, b.value.ray, depth + 1, draws, sqrt, fsqrt));
    }
  }

  /** A path that stops ends in black or in the background, both in
      `[0, 1]^3`. */
  lemma TerminalBounded(world: seq<Sphere>, ray: Ray, sqrt: real -> real, fsqrt: real -> real)
    requires ExactSqrt(sqrt)
    ensures UnitColor(Terminal(world, ray, sqrt, fsqrt))
  {
    if WorldHit(world, ray, ShadowEpsilon, F32Max, fsqrt).None? {
      BackgroundBounds(ray.Direction(), sqrt);
    }
  }

  /** With every albedo in `[0, 1]^3`, a bounce attenuates by a colour in
      `[0, 1]^3`. */
  lemma AttenuationBounded(world: seq<Sphere>, ray: Ray, depth: U8, draws: nat -> Draw,
                           sqrt: real -> real, fsqrt: real -> real)
    requires NonNegSqrt(fsqrt)
    requires forall k :: 0 <= k < |world| ==> AlbedoInUnitCube(world[k].material)
    ensures var b := Bounce(world, ray, depth, draws, sqrt, fsqrt);
            b.Some? ==> UnitColor(b.value.attenuation)
  {
    var b := Bounce(world, ray, depth, draws, sqrt, fsqrt);
    if b.Some? {
      WorldHitMaterial(world, ray, ShadowEpsilon, F32Max, fsqrt);
      var rec := WorldHit(world, ray, ShadowEpsilon, F32Max, fsqrt).value;
      assert AlbedoInUnitCube(rec.material);
      assert b == Scatter(ray, rec, draws(depth), sqrt);
    }
  }

  /** `color` unrolled into a loop: follow the path bounce by bounce,
      multiplying the attenuations together, and stop on a miss, an
      absorption or the depth limit. `bounces` counts the scatterings,
      at most `50 - depth`, so `depth + 1` never leaves the `u8` range. */
  method ColorIterative(world: seq<Sphere>, ray: Ray, depth: U8, draws: nat -> Draw,
                        sqrt: real -> real, fsqrt: real -> real)
    returns (c: Vec3, bounces: nat)
    ensures c == Color(world, ray, depth, draws, sqrt, fsqrt)
    ensures depth + bounces <= MaxDepth || bounces == 0
  {
    var weight := One;
    var current := ray;
    var d: U8 := depth;
    bounces := 0;
    while true
      invariant d == depth + bounces
      invariant bounces == 0 || d <= MaxDepth
      invariant Mul(weight, Color(world, current, d, draws, sqrt, fsqrt))
                == Color(world, ray, depth, draws, sqrt, fsqrt)
      decreases MaxDepth - d
    {
      var b := Bounce(world, current, d, draws, sqrt, fsqrt);
      ColorUnrolled(world, current, d, draws, sqrt, fsqrt);
      if b.None? {
        c := Mul(weight, Terminal(world, current, sqrt, fsqrt));
        return;
      }
      var s := b.value;
      MulAssociative(weight, s.attenuation, Color(world, s.ray, d + 1, draws, sqrt, fsqrt));
      weight := Mul(weight, s.attenuation);
      current := s.ray;
      d := d + 1;
      bounces := bounces + 1;
    }
  }
}
