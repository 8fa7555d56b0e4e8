/** How each material scatters an incoming ray at a hit (`scatter` in
    src/material.rs).

    The random inputs of one bounce arrive as a `Draw`: `ball` stands for
    the value of `Vec3::random_in_unit_sphere()` and `u` for the uniform
    `rand::random::<f32>()` the dielectric compares with its reflectance.
    `sqrt` is the library square root used by `length` and `refract`. */
module Scattering {
  import opened Options
  import opened Vectors
  import opened Rays
  import opened Materials
  import opened Hitables

  datatype Draw = Draw(ball: Vec3, u: real)

  /** A scattered ray together with the colour it is attenuated by. */
  datatype Scattered = Scattered(attenuation: Vec3, ray: Ray)

  /** `Lambertian::scatter`: the ray leaves from the hit point towards
      `p + normal + ball`. */
  function LambertianScatter(albedo: Vec3, rec: HitRecord, ball: Vec3): (r: Option<Scattered>)
    ensures r.Some?
    ensures r.value.attenuation == albedo
    ensures r.value.ray.Origin() == rec.p
    ensures r.value.ray.Direction() == Add(rec.normal, ball)
  {
    var target := Add(Add(rec.p, rec.normal), ball);
    Some(Scattered(albedo, Ray(rec.p, Sub(target, rec.p))))
  }

  /** `Metal::scatter`: the mirror direction of the unit incoming direction,
      perturbed by `fuzz` times the ball sample; absorbed unless the result
      leaves the surface. */
  function MetalScatter(albedo: Vec3, fuzz: real, ray: Ray, rec: HitRecord, ball: Vec3,
                        sqrt: real -> real): (r: Option<Scattered>)
    ensures r.Some? ==> r.value.attenuation == albedo && r.value.ray.Origin() == rec.p
    ensures r.Some? ==> Dot(r.value.ray.Direction(), rec.normal) > 0.0
    ensures r.Some? ==> Sub(r.value.ray.Direction(), Scale(ball, fuzz))
                        == Reflect(UnitVector(ray.Direction(), sqrt), rec.normal)
    ensures r.None? ==> Dot(Add(Reflect(UnitVector(ray.Direction(), sqrt), rec.normal),
                                Scale(ball, fuzz)), rec.normal) <= 0.0
  {
    var reflected := Reflect(UnitVector(ray.Direction(), sqrt), rec.normal);
    var scattered := Ray(rec.p, Add(reflected, Scale(ball, fuzz)));
    if Dot(scattered.Direction(), rec.normal) > 0.0 then Some(Scattered(albedo, scattered))
    else None
  }

  /** A polished metal (`fuzz == 0`) is an exact mirror: it reflects the
      unit incoming direction, and with a unit normal it scatters exactly
      when the ray arrives against the normal. */
  lemma PolishedMetalMirrors(albedo: Vec3, ray: Ray, rec: HitRecord, ball: Vec3, sqrt: real -> real)
    requires SquaredLength(rec.normal) == 1.0
    ensures var r := MetalScatter(albedo, 0.0, ray, rec, ball, sqrt);
            r.Some? ==> r.value.ray.Direction() == Reflect(UnitVector(ray.Direction(), sqrt), rec.normal)
    ensures MetalScatter(albedo, 0.0, ray, rec, ball, sqrt).Some?
            <==> Dot(UnitVector(ray.Direction(), sqrt), rec.normal) < 0.0
  {
    var u := UnitVector(ray.Direction(), sqrt);
    ReflectFlipsNormal(u, rec.normal);
    assert Add(Reflect(u, rec.normal), Scale(ball, 0.0)) == Reflect(u, rec.normal);
  }

  /** The interface a dielectric ray crosses: the relative index of
      refraction, the normal facing the incoming ray and the cosine fed to
      the Schlick approximation. */
  datatype Interface = Interface(eta: real, outward: Vec3, cosine: real)

  /** Choice of interface in `Dielectric::scatter`: leaving the medium
      (`d.n > 0`) uses `ref_index` and the flipped normal; entering uses
      `1 / ref_index` and the normal as given. */
  function DielectricInterface(refIndex: real, d: Vec3, n: Vec3, sqrt: real -> real): (i: Interface)
    ensures Dot(d, n) > 0.0 ==> i.eta == refIndex && i.outward == Neg(n)
    ensures Dot(d, n) > 0.0 && Length(d, sqrt) != 0.0
            ==> i.cosine * Length(d, sqrt) == refIndex * Dot(d, n)
    ensures Dot(d, n) <= 0.0 ==> i.outward == n && (refIndex != 0.0 ==> i.eta * refIndex == 1.0)
    ensures Dot(d, n) <= 0.0 && Length(d, sqrt) != 0.0
            ==> i.cosine * Length(d, sqrt) == -Dot(d, n)
  {
    if Dot(d, n) > 0.0 then
      Interface(refIndex, Neg(n), Divide(refIndex * Dot(d, n), Length(d, sqrt)))
    else
      Interface(Divide(1.0, refIndex), n, Divide(-Dot(d, n), Length(d, sqrt)))
  }

  /** `Dielectric::scatter`: refract through the chosen interface, unless
      Snell's law has no solution (total internal reflection) or the draw
      `u` falls below the Schlick reflectance, in which cases reflect. */
  function DielectricScatter(refIndex: real, ray: Ray, rec: HitRecord, u: real,
                             sqrt: real -> real): (r: Option<Scattered>)
    ensures r.Some? && r.value.attenuation == One && r.value.ray.Origin() == rec.p
    ensures var i := DielectricInterface(refIndex, ray.Direction(), rec.normal, sqrt);
            var refracted := Refract(ray.Direction(), i.outward, i.eta, sqrt);
            && (refracted.None? ==> r.value.ray.Direction() == Reflect(ray.Direction(), rec.normal))
            && (refracted.Some? ==>
                  r.value.ray.Direction()
                  == (if u < Schlick(refIndex, i.cosine) then Reflect(ray.Direction(), rec.normal)
                      else refracted.value))
  {
    var d := ray.Direction();
    var i := DielectricInterface(refIndex, d, rec.normal, sqrt);
    var reflected := Reflect(d, rec.normal);
    match Refract(d, i.outward, i.eta, sqrt)
    case Some(refracted) =>
      if u < Schlick(refIndex, i.cosine) then Some(Scattered(One, Ray(rec.p, reflected)))
      else Some(Scattered(One, Ray(rec.p, refracted)))
    case None => Some(Scattered(One, Ray(rec.p, reflected)))
  }

  /** Entering glass from outside (`d.n <= 0`, unit normal, exact root),
      the Schlick cosine lies in `[0, 1]`, so the reflection probability
      lies between `R0` and 1. */
  lemma EnteringCosineInUnit(refIndex: real, d: Vec3, n: Vec3, sqrt: real -> real)
    requires ExactSqrt(sqrt)
    requires SquaredLength(n) == 1.0
    requires 0.0 < Length(d, sqrt)
    requires Dot(d, n) <= 0.0
    ensures var c := DielectricInterface(refIndex, d, n, sqrt).cosine;
            0.0 <= c <= 1.0
    ensures var c := DielectricInterface(refIndex, d, n, sqrt).cosine;
            0.0 <= refIndex ==> SchlickR0(refIndex) <= Schlick(refIndex, c) <= 1.0
  {
    var l := Length(d, sqrt);
    var w := UnitVector(d, sqrt);
    UnitVectorIsUnit(d, sqrt);
    assert Scale(w, l) == d;
    DotScale(w, l, n);
    var c := DielectricInterface(refIndex, d, n, sqrt).cosine;
    assert c * l == -Dot(d, n);
    assert Dot(d, n) == Dot(w, n) * l;
    assert l * (c + Dot(w, n)) == 0.0;
    ZeroProduct(l, c + Dot(w, n));
    CosineSquaredAtMostOne(w, n);
    SquareAtMostOne(c, c * c);
    if 0.0 <= refIndex {
      SchlickBounds(refIndex, c);
    }
  }

  /** A ray entering a medium denser than the outside (`ref_index > 1`)
      always has a refracted direction: it is refracted when the draw is
      at least the Schlick reflectance and reflected otherwise. */
  lemma EnteringDenserRefracts(refIndex: real, ray: Ray, rec: HitRecord, u: real, sqrt: real -> real)
    requires ExactSqrt(sqrt)
    requires SquaredLength(rec.normal) == 1.0
    requires 0.0 < Length(ray.Direction(), sqrt)
    requires Dot(ray.Direction(), rec.normal) <= 0.0
    requires 1.0 < refIndex
    ensures var i := DielectricInterface(refIndex, ray.Direction(), rec.normal, sqrt);
            var refracted := Refract(ray.Direction(), i.outward, i.eta, sqrt);
            var dir := DielectricScatter(refIndex, ray, rec, u, sqrt).value.ray.Direction();
            && refracted.Some?
            && (dir == refracted.value <== Schlick(refIndex, i.cosine) <= u)
            && (dir == Reflect(ray.Direction(), rec.normal) <== u < Schlick(refIndex, i.cosine))
  {
    var i := DielectricInterface(refIndex, ray.Direction(), rec.normal, sqrt);
    ReciprocalBelowOne(refIndex, i.eta);
    RefractIntoDenserSucceeds(ray.Direction(), rec.normal, i.eta, sqrt);
  }

  /** `Materials::scatter` applied to the hit record's own material: the
      scattered ray always starts at the hit point, Lambertian and
      dielectric surfaces always scatter, and the attenuation is the
      albedo, or white for glass. */
  function Scatter(ray: Ray, rec: HitRecord, draw: Draw, sqrt: real -> real): (r: Option<Scattered>)
    ensures r.Some? ==> r.value.ray.Origin() == rec.p
    ensures rec.material.Lambertian? || rec.material.Dielectric? ==> r.Some?
    ensures r.Some? ==> r.value.attenuation
                        == if rec.material.Dielectric? then One else rec.material.albedo
    ensures rec.material.Metal? ==> (r.Some? <==> Dot(Add(Reflect(UnitVector(ray.Direction(), sqrt), rec.normal),
                                                           Scale(draw.ball, rec.material.fuzz)),
                                                       rec.normal) > 0.0)
  {
    match rec.material
    case Lambertian(albedo) => LambertianScatter(albedo, rec, draw.ball)
    case Metal(albedo, fuzz) => MetalScatter(albedo, fuzz, ray, rec, draw.ball, sqrt)
    case Dielectric(refIndex) => DielectricScatter(refIndex, ray, rec, draw.u, sqrt)
  }
}
