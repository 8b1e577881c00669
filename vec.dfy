/** Three-component vectors over the reals, standing for the `vec3` of doubles
    the ray tracer computes with, and the square root the library supplies. */
module Vec {

  datatype Vec3 = Vec3(x: real, y: real, z: real)

  const Zero: Vec3 := Vec3(0.0, 0.0, 0.0)

  function Add(a: Vec3, b: Vec3): Vec3 {
    Vec3(a.x + b.x, a.y + b.y, a.z + b.z)
  }

  function Sub(a: Vec3, b: Vec3): Vec3 {
    Vec3(a.x - b.x, a.y - b.y, a.z - b.z)
  }

  function Scale(k: real, a: Vec3): Vec3 {
    Vec3(k * a.x, k * a.y, k * a.z)
  }

  function Neg(a: Vec3): Vec3 {
    Vec3(-a.x, -a.y, -a.z)
  }

  function Dot(a: Vec3, b: Vec3): real {
    a.x * b.x + a.y * b.y + a.z * b.z
  }

  function Cross(a: Vec3, b: Vec3): Vec3 {
    Vec3(a.y * b.z - a.z * b.y, a.z * b.x - a.x * b.z, a.x * b.y - a.y * b.x)
  }

  /** The C library's `sqrt`. Dafny's reals have no square root, so this is an
      unspecified function; a lemma that relies on it being a square root at
      some argument says so with `IsSqrtOf`. */
  const Sqrt: real -> real

  predicate IsSqrtOf(r: real, x: real) {
    r >= 0.0 && r * r == x
  }

  /** `vec3::normalized()`: parallel to `v`, and pointing the same way as `v`
      wherever `Sqrt` is exact at a nonzero `v . v`. A zero vector (which in
      doubles turns into NaNs) is returned unchanged. */
  function Normalized(v: Vec3): (r: Vec3)
    ensures Cross(r, v) == Zero
    ensures IsSqrtOf(Sqrt(Dot(v, v)), Dot(v, v)) && Dot(v, v) != 0.0 ==> Dot(r, v) > 0.0
  {
    var m := Sqrt(Dot(v, v));
    if m == 0.0 then v
    else
      ScaleDot(1.0 / m, v, v);
      InverseRootPositive(m, Dot(v, v));
      Scale(1.0 / m, v)
  }

  lemma ScaleDot(k: real, a: Vec3, b: Vec3)
    ensures Dot(Scale(k, a), b) == k * Dot(a, b)
  {
  }

  /** `(1/m) * x > 0` for the exact nonzero square root `m` of a nonzero `x`. */
  lemma InverseRootPositive(m: real, x: real)
    requires m != 0.0
    ensures IsSqrtOf(m, x) && x != 0.0 ==> (1.0 / m) * x > 0.0
  {
    if IsSqrtOf(m, x) && x != 0.0 {
      var k := 1.0 / m;
      assert m > 0.0;
      assert k > 0.0;
      assert x == m * m;
      assert k * x == (k * m) * m;
      assert k * m == 1.0;
    }
  }

  /** Normalising keeps a vector's direction: whatever is perpendicular to `v`
      is perpendicular to its normalisation. */
  lemma NormalizedPerpendicular(v: Vec3, u: Vec3)
    requires Dot(v, u) == 0.0
    ensures Dot(Normalized(v), u) == 0.0
  {
    var m := Sqrt(Dot(v, v));
    if m != 0.0 {
      var k := 1.0 / m;
      assert Dot(Scale(k, v), u) == k * Dot(v, u);
    }
  }

  /** Where `Sqrt` is exact at `v . v`, a vector of nonzero length normalises
      to unit length. */
  lemma NormalizedUnit(v: Vec3)
    requires Dot(v, v) != 0.0 && IsSqrtOf(Sqrt(Dot(v, v)), Dot(v, v))
    ensures Dot(Normalized(v), Normalized(v)) == 1.0
  {
    var n2 := Dot(v, v);
    var m := Sqrt(n2);
    assert m != 0.0;
    var k := 1.0 / m;
    assert Dot(Scale(k, v), Scale(k, v)) == k * k * n2;
    UnitFactor(m, n2);
  }

  lemma UnitFactor(m: real, n2: real)
    requires m > 0.0 && m * m == n2
    ensures (1.0 / m) * (1.0 / m) * n2 == 1.0
  {
    var k := 1.0 / m;
    assert k * m == 1.0;
    calc {
      k * k * n2;
      == k * k * (m * m);
      == (k * m) * (k * m);
      == 1.0;
    }
  }

  /** The mirror direction `d - 2 (d . n) n`, before normalisation. */
  function Reflect(d: Vec3, n: Vec3): Vec3 {
    Sub(d, Scale(2.0 * Dot(d, n), n))
  }
}
