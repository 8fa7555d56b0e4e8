/** The closed set of surface materials and their scalar helpers
    (src/material.rs): the `Materials` sum type, `Metal::new` and the
    Schlick reflectance of `Dielectric`. Scattering itself lives in module
    `Scattering`, after hit records are defined. */
module Materials {
  import opened Vectors

  /** `Materials`: diffuse, metal (reflection perturbed by `fuzz`) or
      dielectric (glass with refractive index `refIndex`). */
  datatype Material =
    | Dielectric(refIndex: real)
    | Lambertian(albedo: Vec3)
    | Metal(albedo: Vec3, fuzz: real)

  /** `Metal::new`: the fuzz is clamped into `[0, 1]`. */
  function MetalNew(albedo: Vec3, fuzz: real): (m: Material)
    ensures m.Metal? && m.albedo == albedo
    ensures 0.0 <= m.fuzz <= 1.0
    ensures 0.0 <= fuzz <= 1.0 ==> m.fuzz == fuzz
    ensures 1.0 < fuzz ==> m.fuzz == 1.0
    ensures fuzz < 0.0 ==> m.fuzz == 0.0
  {
    Metal(albedo, if fuzz > 1.0 then 1.0 else if fuzz < 0.0 then 0.0 else fuzz)
  }

  /** Clamping is idempotent: rebuilding a metal from a clamped fuzz
      changes nothing. */
  lemma MetalNewIdempotent(albedo: Vec3, fuzz: real)
    ensures MetalNew(albedo, MetalNew(albedo, fuzz).fuzz) == MetalNew(albedo, fuzz)
  {
  }

  /** Reflectance at normal incidence, `((1 - n) / (1 + n))^2`: never
      negative, and zero when the index is 1 (no interface). */
  function SchlickR0(refIndex: real): (r: real)
    ensures 0.0 <= r
    ensures refIndex == 1.0 ==> r == 0.0
  {
    var q := Divide(1.0 - refIndex, 1.0 + refIndex);
    SquareNonNegative(q);
    q * q
  }

  /** `p.powi(5)`. */
  function Pow5(p: real): real
  {
    p * p * p * p * p
  }

  /** `Dielectric::schlick`: Schlick's approximation of the Fresnel
      reflectance at the given cosine of the angle of incidence. */
  function Schlick(refIndex: real, cosine: real): (r: real)
    ensures cosine == 1.0 ==> r == SchlickR0(refIndex)
  {
    var r0 := SchlickR0(refIndex);
    r0 + (1.0 - r0) * Pow5(1.0 - cosine)
  }

  /** At normal incidence the approximation is exactly `R0`. */
  lemma SchlickAtNormalIncidence(refIndex: real)
    ensures Schlick(refIndex, 1.0) == SchlickR0(refIndex)
  {
  }

  /** Glass of index 1.5 reflects 4% at normal incidence. */
  lemma SchlickGlassR0()
    ensures SchlickR0(1.5) == 0.04
  {
    assert Divide(1.0 - 1.5, 1.0 + 1.5) == -0.2;
  }

  /** For a non-negative index and a cosine in `[0, 1]` the reflectance
      lies between `R0` and 1, and `R0` itself lies in `[0, 1]`. */
  lemma SchlickBounds(refIndex: real, cosine: real)
    requires 0.0 <= refIndex
    requires 0.0 <= cosine <= 1.0
    ensures 0.0 <= SchlickR0(refIndex) <= 1.0
    ensures SchlickR0(refIndex) <= Schlick(refIndex, cosine) <= 1.0
  {
    var q := Divide(1.0 - refIndex, 1.0 + refIndex);
    assert q * (1.0 + refIndex) == 1.0 - refIndex;
    NonPositiveFactor(q - 1.0, 1.0 + refIndex);
    NonPositiveFactor(-1.0 - q, 1.0 + refIndex);
    SquareInUnit(q);
    var r0 := SchlickR0(refIndex);
    var p := 1.0 - cosine;
    Pow5InUnit(p);
    BlendInUnit(r0, Pow5(p), 1.0 - r0);
  }

  lemma BlendInUnit(r0: real, w: real, c: real)
    requires 0.0 <= r0 <= 1.0 && 0.0 <= w <= 1.0 && c == 1.0 - r0
    ensures r0 <= r0 + c * w <= 1.0
  {
    MulNonNegative(w, c);
    MulBelow(w, c);
  }

  lemma SquareInUnit(q: real)
    requires -1.0 <= q <= 1.0
    ensures 0.0 <= q * q <= 1.0
  {
    SquareNonNegative(q);
    if 0.0 <= q {
      MulBelow(q, q);
    } else {
      var m := -q;
      assert q * q == m * m;
      MulBelow(m, m);
    }
  }

  lemma Pow5InUnit(p: real)
    requires 0.0 <= p <= 1.0
    ensures 0.0 <= Pow5(p) <= 1.0
  {
    MulNonNegative(p, p);
    MulBelow(p, p);
    var p2 := p * p;
    MulNonNegative(p2, p);
    MulBelow(p2, p);
    var p3 := p2 * p;
    MulNonNegative(p3, p);
    MulBelow(p3, p);
    var p4 := p3 * p;
    MulNonNegative(p4, p);
    MulBelow(p4, p);
  }
}
