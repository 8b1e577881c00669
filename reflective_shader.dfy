/** `Reflective_Shader::Shade_Surface`: what the blend computes on each side of
    the depth test, and what the mirror direction satisfies. */
module ReflectiveShader {
  import opened Vec
  import opened Hits
  import opened RenderWorld

  /** The unnormalised mirror direction `d - 2 (d . n) n` makes the opposite
      angle with a unit normal: its dot product with `n` is `-(d . n)`. */
  lemma ReflectDot(d: Vec3, n: Vec3)
    requires Dot(n, n) == 1.0
    ensures Dot(Reflect(d, n), n) == -Dot(d, n)
  {
    var k := 2.0 * Dot(d, n);
    assert Dot(Reflect(d, n), n) == Dot(d, n) - k * Dot(n, n);
  }

  /** Below the limit the result is `(1 - k) * base + k * cast`, where `base` is
      the inner shader at the same ray, point, normal and depth, and the cast
      starts at the point along the normalised mirror direction one level
      deeper. */
  lemma BelowLimit(w: World, inner: Shader, k: real, ray: Ray, point: Vec3, normal: Vec3, depth: int)
    requires w.Valid() && depth < w.recursionDepthLimit
    ensures Shade(w, Reflective(inner, k), ray, point, normal, depth) ==
      Add(Scale(1.0 - k, Shade(w, inner, ray, point, normal, depth)),
          Scale(k, CastRay(w, Ray(point, Normalized(Reflect(ray.direction, normal))), depth + 1)))
  {
  }

  /** At or past the limit the result is the attenuated base `(1 - k) * base`. */
  lemma AtLimit(w: World, inner: Shader, k: real, ray: Ray, point: Vec3, normal: Vec3, depth: int)
    requires w.Valid() && depth >= w.recursionDepthLimit
    ensures Shade(w, Reflective(inner, k), ray, point, normal, depth) ==
      Scale(1.0 - k, Shade(w, inner, ray, point, normal, depth))
  {
  }

  /** With reflectivity 0 a reflective shader is its base shader, on both sides
      of the depth test. */
  lemma ZeroReflectivity(w: World, inner: Shader, ray: Ray, point: Vec3, normal: Vec3, depth: int)
    requires w.Valid()
    ensures Shade(w, Reflective(inner, 0.0), ray, point, normal, depth) ==
      Shade(w, inner, ray, point, normal, depth)
  {
    var base := Shade(w, inner, ray, point, normal, depth);
    assert Scale(1.0, base) == base;
    if depth < w.recursionDepthLimit {
      var c := CastRay(w, Ray(point, Normalized(Reflect(ray.direction, normal))), depth + 1);
      assert Add(base, Scale(0.0, c)) == base;
    }
  }

  /** At or past the limit no `Cast_Ray` call is made: two worlds with the same
      limit give the same shaded colour. The local shaders here stand for
      colours that read nothing of the scene. */
  lemma {:induction false} NoCastAtLimit(w1: World, w2: World, s: Shader, ray: Ray, point: Vec3, normal: Vec3, depth: int)
    requires w1.Valid() && w2.Valid()
    requires w1.recursionDepthLimit == w2.recursionDepthLimit && depth >= w1.recursionDepthLimit
    ensures Shade(w1, s, ray, point, normal, depth) == Shade(w2, s, ray, point, normal, depth)
  {
    match s
    case Flat(_) =>
    case Local(_) =>
    case Reflective(inner, _) =>
      NoCastAtLimit(w1, w2, inner, ray, point, normal, depth);
  }

  /** At or past the limit a shader starts no cast at all. */
  lemma NoNestingAtLimit(w: World, s: Shader, ray: Ray, point: Vec3, normal: Vec3, depth: int)
    requires w.Valid() && depth >= w.recursionDepthLimit
    ensures ShadeNesting(w, s, ray, point, normal, depth) == 0
  {
    ShadeNestingBound(w, s, ray, point, normal, depth);
  }
}
