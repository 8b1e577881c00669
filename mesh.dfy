/** `Mesh`: reading a triangle soup from already-parsed OBJ records, the
    ray/triangle test, and the per-part and all-parts intersection queries. */
module Meshes {
  import opened Vec
  import opened Hits
  import opened Options
  import opened Scan

  /** The file-local tolerance of mesh.cpp. The acceptance test does not use it:
      it compares against `WeightTol`. */
  const WeightTolerance: real := 0.0001

  /** `weight_tol`, the threshold the barycentric weights must exceed. Its value
      lives in a header outside this model. */
  const WeightTol: real

  /** The `dist` and `part` of a `Hit` that `Mesh::Intersection` declares and
      never assigns: indeterminate values whose value nothing below relies on. */
  const IndeterminateDist: real
  const IndeterminatePart: int

  /** What `Mesh::Intersection` returns when it keeps no triangle. */
  const Miss: Hit := Hit(Null, IndeterminateDist, IndeterminatePart)

  /** Vertex indices of one triangle (`ivec3`). */
  datatype Triangle = Triangle(a: int, b: int, c: int)

  /** One line of an OBJ file after `sscanf`: a vertex `v x y z`, a face
      `f i j k` with 1-based indices, or anything else. */
  datatype ObjLine = Vertex(v: Vec3) | Face(i: int, j: int, k: int) | Other

  // ---------------------------------------------------------------------------
  // The ray/triangle test on corners A, B, C.

  /** `cross(AB, AC) . d`, the denominator all three ratios share (up to sign). */
  function Den(a: Vec3, b: Vec3, c: Vec3, ray: Ray): real {
    Dot(Cross(Sub(b, a), Sub(c, a)), ray.direction)
  }

  /** The ray parameter where the ray meets the triangle's plane. */
  function PlaneDist(a: Vec3, b: Vec3, c: Vec3, ray: Ray): real
    requires Den(a, b, c, ray) != 0.0
  {
    -Dot(Cross(Sub(b, a), Sub(c, a)), Sub(ray.endpoint, a)) / Den(a, b, c, ray)
  }

  function Beta(a: Vec3, b: Vec3, c: Vec3, ray: Ray): real
    requires Den(a, b, c, ray) != 0.0
  {
    var ab, ac, d := Sub(b, a), Sub(c, a), ray.direction;
    TripleProducts(ab, ac, d);
    Dot(Cross(d, ac), Sub(ray.endpoint, a)) / Dot(Cross(d, ac), ab)
  }

  function Gamma(a: Vec3, b: Vec3, c: Vec3, ray: Ray): real
    requires Den(a, b, c, ray) != 0.0
  {
    var ab, ac, d := Sub(b, a), Sub(c, a), ray.direction;
    TripleProducts(ab, ac, d);
    Dot(Cross(d, ab), Sub(ray.endpoint, a)) / Dot(Cross(d, ab), ac)
  }

  /** The two other denominators are `-Den` and `Den`. */
  lemma TripleProducts(u: Vec3, v: Vec3, d: Vec3)
    ensures Dot(Cross(d, v), u) == -Dot(Cross(u, v), d)
    ensures Dot(Cross(d, u), v) == Dot(Cross(u, v), d)
  {
    CrossTerms(d, v, u);
    CrossTerms(u, v, d);
    CrossTerms(d, u, v);
  }

  /** The six terms of a triple product. */
  lemma CrossTerms(a: Vec3, b: Vec3, c: Vec3)
    ensures Dot(Cross(a, b), c) ==
      a.y * b.z * c.x - a.z * b.y * c.x + a.z * b.x * c.y - a.x * b.z * c.y + a.x * b.y * c.z - a.y * b.x * c.z
  {
  }

  /** `Mesh::Intersect_Triangle`: the distance when the ray meets the plane
      beyond `small_t` with all three barycentric weights above `weight_tol`.
      With a zero denominator the doubles become infinities or NaNs, one of
      the comparisons fails, and the test rejects. */
  function TestTriangle(a: Vec3, b: Vec3, c: Vec3, ray: Ray): (r: Option<real>)
    ensures r.Some? <==>
      && Den(a, b, c, ray) != 0.0
      && PlaneDist(a, b, c, ray) > SmallT
      && Beta(a, b, c, ray) > WeightTol
      && Gamma(a, b, c, ray) > WeightTol
      && 1.0 - Gamma(a, b, c, ray) - Beta(a, b, c, ray) > WeightTol
    ensures r.Some? ==> r.value == PlaneDist(a, b, c, ray) && r.value > SmallT
  {
    if Den(a, b, c, ray) == 0.0 then None
    else
      var dist := PlaneDist(a, b, c, ray);
      if dist > SmallT then
        var beta := Beta(a, b, c, ray);
        var gamma := Gamma(a, b, c, ray);
        if beta > WeightTol && gamma > WeightTol && 1.0 - gamma - beta > WeightTol then Some(dist) else None
      else None
  }

  function Det(a1: real, a2: real, a3: real, b1: real, b2: real, b3: real, c1: real, c2: real, c3: real): real {
    a1 * (b2 * c3 - b3 * c2) - a2 * (b1 * c3 - b3 * c1) + a3 * (b1 * c2 - b2 * c1)
  }

  /** The six terms of a 3x3 determinant. */
  lemma DetTerms(a1: real, a2: real, a3: real, b1: real, b2: real, b3: real, c1: real, c2: real, c3: real)
    ensures Det(a1, a2, a3, b1, b2, b3, c1, c2, c3) == a1 * b2 * c3 - a1 * b3 * c2 - a2 * b1 * c3 + a2 * b3 * c1 + a3 * b1 * c2 - a3 * b2 * c1
  {
  }

  /** The six terms of a 3x3 determinant, each times `k`. */
  lemma DetScaled(a1: real, a2: real, a3: real, b1: real, b2: real, b3: real, c1: real, c2: real, c3: real, k: real)
    ensures Det(a1, a2, a3, b1, b2, b3, c1, c2, c3) * k == a1 * b2 * c3 * k - a1 * b3 * c2 * k - a2 * b1 * c3 * k + a2 * b3 * c1 * k + a3 * b1 * c2 * k - a3 * b2 * c1 * k
  {
    DetTerms(a1, a2, a3, b1, b2, b3, c1, c2, c3);
  }

  lemma CramerX(u1: real, u2: real, u3: real, v1: real, v2: real, v3: real, d1: real, d2: real, d3: real, e1: real, e2: real, e3: real)
    ensures Det(u1, u2, u3, v1, v2, v3, d1, d2, d3) * e1 - Det(u1, u2, u3, v1, v2, v3, e1, e2, e3) * d1
         == -Det(d1, d2, d3, v1, v2, v3, e1, e2, e3) * u1 + Det(d1, d2, d3, u1, u2, u3, e1, e2, e3) * v1
  {
    calc {
      Det(u1, u2, u3, v1, v2, v3, d1, d2, d3) * e1 - Det(u1, u2, u3, v1, v2, v3, e1, e2, e3) * d1;
      == { DetScaled(u1, u2, u3, v1, v2, v3, d1, d2, d3, e1); DetScaled(u1, u2, u3, v1, v2, v3, e1, e2, e3, d1); }
      u1 * v2 * d3 * e1 - u1 * v3 * d2 * e1 - u2 * v1 * d3 * e1 + u2 * v3 * d1 * e1 + u3 * v1 * d2 * e1 - u3 * v2 * d1 * e1 - u1 * v2 * e3 * d1 + u1 * v3 * e2 * d1 + u2 * v1 * e3 * d1 - u2 * v3 * e1 * d1 - u3 * v1 * e2 * d1 + u3 * v2 * e1 * d1;
      == -u1 * v2 * d1 * e3 + u1 * v2 * d3 * e1 + u1 * v3 * d1 * e2 - u1 * v3 * d2 * e1 + u2 * v1 * d1 * e3 - u2 * v1 * d3 * e1 - u3 * v1 * d1 * e2 + u3 * v1 * d2 * e1;
      == -d1 * v2 * e3 * u1 + d1 * v3 * e2 * u1 + d2 * v1 * e3 * u1 - d2 * v3 * e1 * u1 - d3 * v1 * e2 * u1 + d3 * v2 * e1 * u1 + d1 * u2 * e3 * v1 - d1 * u3 * e2 * v1 - d2 * u1 * e3 * v1 + d2 * u3 * e1 * v1 + d3 * u1 * e2 * v1 - d3 * u2 * e1 * v1;
      == { DetScaled(d1, d2, d3, v1, v2, v3, e1, e2, e3, u1); DetScaled(d1, d2, d3, u1, u2, u3, e1, e2, e3, v1); }
      -Det(d1, d2, d3, v1, v2, v3, e1, e2, e3) * u1 + Det(d1, d2, d3, u1, u2, u3, e1, e2, e3) * v1;
    }
  }

  lemma CramerY(u1: real, u2: real, u3: real, v1: real, v2: real, v3: real, d1: real, d2: real, d3: real, e1: real, e2: real, e3: real)
    ensures Det(u1, u2, u3, v1, v2, v3, d1, d2, d3) * e2 - Det(u1, u2, u3, v1, v2, v3, e1, e2, e3) * d2
         == -Det(d1, d2, d3, v1, v2, v3, e1, e2, e3) * u2 + Det(d1, d2, d3, u1, u2, u3, e1, e2, e3) * v2
  {
    calc {
      Det(u1, u2, u3, v1, v2, v3, d1, d2, d3) * e2 - Det(u1, u2, u3, v1, v2, v3, e1, e2, e3) * d2;
      == { DetScaled(u1, u2, u3, v1, v2, v3, d1, d2, d3, e2); DetScaled(u1, u2, u3, v1, v2, v3, e1, e2, e3, d2); }
      u1 * v2 * d3 * e2 - u1 * v3 * d2 * e2 - u2 * v1 * d3 * e2 + u2 * v3 * d1 * e2 + u3 * v1 * d2 * e2 - u3 * v2 * d1 * e2 - u1 * v2 * e3 * d2 + u1 * v3 * e2 * d2 + u2 * v1 * e3 * d2 - u2 * v3 * e1 * d2 - u3 * v1 * e2 * d2 + u3 * v2 * e1 * d2;
      == -u1 * v2 * d2 * e3 + u1 * v2 * d3 * e2 + u2 * v1 * d2 * e3 - u2 * v1 * d3 * e2 + u2 * v3 * d1 * e2 - u2 * v3 * d2 * e1 - u3 * v2 * d1 * e2 + u3 * v2 * d2 * e1;
      == -d1 * v2 * e3 * u2 + d1 * v3 * e2 * u2 + d2 * v1 * e3 * u2 - d2 * v3 * e1 * u2 - d3 * v1 * e2 * u2 + d3 * v2 * e1 * u2 + d1 * u2 * e3 * v2 - d1 * u3 * e2 * v2 - d2 * u1 * e3 * v2 + d2 * u3 * e1 * v2 + d3 * u1 * e2 * v2 - d3 * u2 * e1 * v2;
      == { DetScaled(d1, d2, d3, v1, v2, v3, e1, e2, e3, u2); DetScaled(d1, d2, d3, u1, u2, u3, e1, e2, e3, v2); }
      -Det(d1, d2, d3, v1, v2, v3, e1, e2, e3) * u2 + Det(d1, d2, d3, u1, u2, u3, e1, e2, e3) * v2;
    }
  }

  lemma CramerZ(u1: real, u2: real, u3: real, v1: real, v2: real, v3: real, d1: real, d2: real, d3: real, e1: real, e2: real, e3: real)
    ensures Det(u1, u2, u3, v1, v2, v3, d1, d2, d3) * e3 - Det(u1, u2, u3, v1, v2, v3, e1, e2, e3) * d3
         == -Det(d1, d2, d3, v1, v2, v3, e1, e2, e3) * u3 + Det(d1, d2, d3, u1, u2, u3, e1, e2, e3) * v3
  {
    calc {
      Det(u1, u2, u3, v1, v2, v3, d1, d2, d3) * e3 - Det(u1, u2, u3, v1, v2, v3, e1, e2, e3) * d3;
      == { DetScaled(u1, u2, u3, v1, v2, v3, d1, d2, d3, e3); DetScaled(u1, u2, u3, v1, v2, v3, e1, e2, e3, d3); }
      u1 * v2 * d3 * e3 - u1 * v3 * d2 * e3 - u2 * v1 * d3 * e3 + u2 * v3 * d1 * e3 + u3 * v1 * d2 * e3 - u3 * v2 * d1 * e3 - u1 * v2 * e3 * d3 + u1 * v3 * e2 * d3 + u2 * v1 * e3 * d3 - u2 * v3 * e1 * d3 - u3 * v1 * e2 * d3 + u3 * v2 * e1 * d3;
      == -u1 * v3 * d2 * e3 + u1 * v3 * d3 * e2 + u2 * v3 * d1 * e3 - u2 * v3 * d3 * e1 + u3 * v1 * d2 * e3 - u3 * v1 * d3 * e2 - u3 * v2 * d1 * e3 + u3 * v2 * d3 * e1;
      == -d1 * v2 * e3 * u3 + d1 * v3 * e2 * u3 + d2 * v1 * e3 * u3 - d2 * v3 * e1 * u3 - d3 * v1 * e2 * u3 + d3 * v2 * e1 * u3 + d1 * u2 * e3 * v3 - d1 * u3 * e2 * v3 - d2 * u1 * e3 * v3 + d2 * u3 * e1 * v3 + d3 * u1 * e2 * v3 - d3 * u2 * e1 * v3;
      == { DetScaled(d1, d2, d3, v1, v2, v3, e1, e2, e3, u3); DetScaled(d1, d2, d3, u1, u2, u3, e1, e2, e3, v3); }
      -Det(d1, d2, d3, v1, v2, v3, e1, e2, e3) * u3 + Det(d1, d2, d3, u1, u2, u3, e1, e2, e3) * v3;
    }
  }

  /** Cramer's rule, scaled by the denominator, component by component: for any
      u, v, d, e, `det(u,v,d) e - det(u,v,e) d == det(e,v,d) u + det(u,e,d) v`. */
  lemma CramerScaled(u: Vec3, v: Vec3, d: Vec3, e: Vec3)
    ensures var den, ne := Dot(Cross(u, v), d), Dot(Cross(u, v), e);
      var pb, pg := Dot(Cross(d, v), e), Dot(Cross(d, u), e);
      && den * e.x - ne * d.x == -pb * u.x + pg * v.x
      && den * e.y - ne * d.y == -pb * u.y + pg * v.y
      && den * e.z - ne * d.z == -pb * u.z + pg * v.z
  {
    TripleDet(u, v, d);
    TripleDet(u, v, e);
    TripleDet(d, v, e);
    TripleDet(d, u, e);
    CramerX(u.x, u.y, u.z, v.x, v.y, v.z, d.x, d.y, d.z, e.x, e.y, e.z);
    CramerY(u.x, u.y, u.z, v.x, v.y, v.z, d.x, d.y, d.z, e.x, e.y, e.z);
    CramerZ(u.x, u.y, u.z, v.x, v.y, v.z, d.x, d.y, d.z, e.x, e.y, e.z);
  }

  /** A triple product is the determinant of its three vectors. */
  lemma TripleDet(a: Vec3, b: Vec3, c: Vec3)
    ensures Dot(Cross(a, b), c) == Det(a.x, a.y, a.z, b.x, b.y, b.z, c.x, c.y, c.z)
  {
    CrossTerms(a, b, c);
    DetTerms(a.x, a.y, a.z, b.x, b.y, b.z, c.x, c.y, c.z);
  }

  /** One component of Cramer's rule, divided back by the denominator. */
  lemma SolveComponent(den: real, t: real, beta: real, gamma: real, ne: real, pb: real, pg: real,
                       e: real, d: real, u: real, v: real)
    requires den != 0.0
    requires t * den == -ne && beta * den == -pb && gamma * den == pg
    requires den * e - ne * d == -pb * u + pg * v
    ensures e + t * d == beta * u + gamma * v
  {
    calc {
      den * (e + t * d);
      == den * e + (t * den) * d;
      == den * e - ne * d;
      == -pb * u + pg * v;
      == (beta * den) * u + (gamma * den) * v;
      == den * (beta * u + gamma * v);
    }
    Cancel(den, e + t * d, beta * u + gamma * v);
  }

  lemma Cancel(k: real, x: real, y: real)
    requires k != 0.0 && k * x == k * y
    ensures x == y
  {
    calc { x; == (k * x) / k; == (k * y) / k; == y; }
  }

  /** The three ratios of the test, multiplied back by the denominator. */
  lemma Ratios(a: Vec3, b: Vec3, c: Vec3, ray: Ray)
    requires Den(a, b, c, ray) != 0.0
    ensures var u, v, d, e := Sub(b, a), Sub(c, a), ray.direction, Sub(ray.endpoint, a);
      var den := Dot(Cross(u, v), d);
      && PlaneDist(a, b, c, ray) * den == -Dot(Cross(u, v), e)
      && Beta(a, b, c, ray) * den == -Dot(Cross(d, v), e)
      && Gamma(a, b, c, ray) * den == Dot(Cross(d, u), e)
  {
    TripleProducts(Sub(b, a), Sub(c, a), ray.direction);
  }

  /** With a nonzero denominator the point at `PlaneDist` is
      `A + beta AB + gamma AC` and lies in the triangle's plane. */
  lemma {:induction false} HitPoint(a: Vec3, b: Vec3, c: Vec3, ray: Ray)
    requires Den(a, b, c, ray) != 0.0
    ensures var p := ray.Point(PlaneDist(a, b, c, ray));
      && p == Add(a, Add(Scale(Beta(a, b, c, ray), Sub(b, a)), Scale(Gamma(a, b, c, ray), Sub(c, a))))
      && Dot(Cross(Sub(b, a), Sub(c, a)), Sub(p, a)) == 0.0
  {
    var u, v, d, e := Sub(b, a), Sub(c, a), ray.direction, Sub(ray.endpoint, a);
    var t := PlaneDist(a, b, c, ray);
    Ratios(a, b, c, ray);
    Solve(u, v, d, e, t, Beta(a, b, c, ray), Gamma(a, b, c, ray));
    assert ray.Point(t) == Add(a, Add(e, Scale(t, d)));
    assert Sub(ray.Point(t), a) == Add(e, Scale(t, d));
  }

  /** Cramer's rule for `e + t d == beta u + gamma v`: the three ratios solve it,
      and the solution lies in the plane spanned by u and v. */
  lemma Solve(u: Vec3, v: Vec3, d: Vec3, e: Vec3, t: real, beta: real, gamma: real)
    requires Dot(Cross(u, v), d) != 0.0
    requires t * Dot(Cross(u, v), d) == -Dot(Cross(u, v), e)
    requires beta * Dot(Cross(u, v), d) == -Dot(Cross(d, v), e)
    requires gamma * Dot(Cross(u, v), d) == Dot(Cross(d, u), e)
    ensures Add(e, Scale(t, d)) == Add(Scale(beta, u), Scale(gamma, v))
    ensures Dot(Cross(u, v), Add(e, Scale(t, d))) == 0.0
  {
    var den, ne := Dot(Cross(u, v), d), Dot(Cross(u, v), e);
    var pb, pg := Dot(Cross(d, v), e), Dot(Cross(d, u), e);
    CramerScaled(u, v, d, e);
    SolveComponent(den, t, beta, gamma, ne, pb, pg, e.x, d.x, u.x, v.x);
    SolveComponent(den, t, beta, gamma, ne, pb, pg, e.y, d.y, u.y, v.y);
    SolveComponent(den, t, beta, gamma, ne, pb, pg, e.z, d.z, u.z, v.z);
    InPlane(u, v, d, e, t);
  }

  /** `n . (e + t d) == 0` once `t (n . d) == -(n . e)`. */
  lemma InPlane(u: Vec3, v: Vec3, d: Vec3, e: Vec3, t: real)
    requires t * Dot(Cross(u, v), d) == -Dot(Cross(u, v), e)
    ensures Dot(Cross(u, v), Add(e, Scale(t, d))) == 0.0
  {
    var n := Cross(u, v);
    assert Dot(n, Add(e, Scale(t, d))) == Dot(n, e) + t * Dot(n, d);
  }

  /** Barycentric coordinates are unique: whenever the ray's point at `t` is
      `A + beta AB + gamma AC`, the test computes exactly `t`, `beta` and `gamma`. */
  lemma {:induction false} Recovered(a: Vec3, b: Vec3, c: Vec3, ray: Ray, t: real, beta: real, gamma: real)
    requires Den(a, b, c, ray) != 0.0
    requires ray.Point(t) == Add(a, Add(Scale(beta, Sub(b, a)), Scale(gamma, Sub(c, a))))
    ensures PlaneDist(a, b, c, ray) == t && Beta(a, b, c, ray) == beta && Gamma(a, b, c, ray) == gamma
  {
    var u, v, d, e := Sub(b, a), Sub(c, a), ray.direction, Sub(ray.endpoint, a);
    assert Add(e, Scale(t, d)) == Add(Scale(beta, u), Scale(gamma, v));
    Unique(u, v, d, e, t, beta, gamma);
    Ratios(a, b, c, ray);
    var den := Dot(Cross(u, v), d);
    Cancel(den, PlaneDist(a, b, c, ray), t);
    Cancel(den, Beta(a, b, c, ray), beta);
    Cancel(den, Gamma(a, b, c, ray), gamma);
  }

  lemma Unique(u: Vec3, v: Vec3, d: Vec3, e: Vec3, t: real, beta: real, gamma: real)
    requires Add(e, Scale(t, d)) == Add(Scale(beta, u), Scale(gamma, v))
    ensures var den := Dot(Cross(u, v), d);
      && den * t == -Dot(Cross(u, v), e)
      && den * beta == -Dot(Cross(d, v), e)
      && den * gamma == Dot(Cross(d, u), e)
  {
    var n, dv, du := Cross(u, v), Cross(d, v), Cross(d, u);
    TripleProducts(u, v, d);
    assert e == Sub(Add(Scale(beta, u), Scale(gamma, v)), Scale(t, d));
    DotCombination(n, u, v, d, beta, gamma, t);
    DotCombination(dv, u, v, d, beta, gamma, t);
    DotCombination(du, u, v, d, beta, gamma, t);
    CrossOrthogonal(u, v);
    CrossOrthogonal(d, v);
    CrossOrthogonal(d, u);
  }

  lemma CrossOrthogonal(u: Vec3, v: Vec3)
    ensures Dot(Cross(u, v), u) == 0.0 && Dot(Cross(u, v), v) == 0.0
  {
  }

  lemma DotCombination(x: Vec3, u: Vec3, v: Vec3, d: Vec3, beta: real, gamma: real, t: real)
    ensures Dot(x, Sub(Add(Scale(beta, u), Scale(gamma, v)), Scale(t, d)))
         == beta * Dot(x, u) + gamma * Dot(x, v) - t * Dot(x, d)
  {
  }

  /** The converse of `HitPoint`: a ray that reaches a point with barycentric
      weights all above `weight_tol`, beyond `small_t`, is accepted at exactly
      that distance. */
  lemma {:induction false} InsideAccepted(a: Vec3, b: Vec3, c: Vec3, ray: Ray, t: real, beta: real, gamma: real)
    requires Den(a, b, c, ray) != 0.0 && t > SmallT
    requires beta > WeightTol && gamma > WeightTol && 1.0 - gamma - beta > WeightTol
    requires ray.Point(t) == Add(a, Add(Scale(beta, Sub(b, a)), Scale(gamma, Sub(c, a))))
    ensures TestTriangle(a, b, c, ray) == Some(t)
  {
    Recovered(a, b, c, ray, t, beta, gamma);
  }

  /** With a negative `weight_tol`, a ray that reaches a point of the edge BC
      beyond `small_t` is accepted by the triangle; with the two lemmas after
      it, for the edges AB and CA, every point of the triangle's border is
      accepted, so a triangle sharing an edge accepts that edge too. */
  lemma {:induction false} EdgePointAccepted(a: Vec3, b: Vec3, c: Vec3, ray: Ray, t: real, s: real)
    requires WeightTol < 0.0
    requires Den(a, b, c, ray) != 0.0 && t > SmallT && 0.0 <= s <= 1.0
    requires ray.Point(t) == Add(b, Scale(s, Sub(c, b)))
    ensures TestTriangle(a, b, c, ray) == Some(t)
  {
    EdgeCoordinates(a, b, c, s);
    InsideAccepted(a, b, c, ray, t, 1.0 - s, s);
  }

  /** The same for a point of the edge AB. */
  lemma {:induction false} EdgePointAcceptedAB(a: Vec3, b: Vec3, c: Vec3, ray: Ray, t: real, s: real)
    requires WeightTol < 0.0
    requires Den(a, b, c, ray) != 0.0 && t > SmallT && 0.0 <= s <= 1.0
    requires ray.Point(t) == Add(a, Scale(s, Sub(b, a)))
    ensures TestTriangle(a, b, c, ray) == Some(t)
  {
    EdgeCoordinatesAB(a, b, c, s);
    InsideAccepted(a, b, c, ray, t, s, 0.0);
  }

  /** The same for a point of the edge CA. */
  lemma {:induction false} EdgePointAcceptedCA(a: Vec3, b: Vec3, c: Vec3, ray: Ray, t: real, s: real)
    requires WeightTol < 0.0
    requires Den(a, b, c, ray) != 0.0 && t > SmallT && 0.0 <= s <= 1.0
    requires ray.Point(t) == Add(c, Scale(s, Sub(a, c)))
    ensures TestTriangle(a, b, c, ray) == Some(t)
  {
    EdgeCoordinatesCA(a, b, c, s);
    InsideAccepted(a, b, c, ray, t, 0.0, 1.0 - s);
  }

  /** Without slack (`weight_tol >= 0`) the same point of the edge BC is rejected. */
  lemma {:induction false} EdgePointRejected(a: Vec3, b: Vec3, c: Vec3, ray: Ray, t: real, s: real)
    requires WeightTol >= 0.0
    requires Den(a, b, c, ray) != 0.0 && 0.0 <= s <= 1.0
    requires ray.Point(t) == Add(b, Scale(s, Sub(c, b)))
    ensures TestTriangle(a, b, c, ray) == None
  {
    EdgeCoordinates(a, b, c, s);
    Recovered(a, b, c, ray, t, 1.0 - s, s);
    assert 1.0 - Gamma(a, b, c, ray) - Beta(a, b, c, ray) == 0.0;
  }

  /** Without slack the same holds for a point of the edge AB. */
  lemma {:induction false} EdgePointRejectedAB(a: Vec3, b: Vec3, c: Vec3, ray: Ray, t: real, s: real)
    requires WeightTol >= 0.0
    requires Den(a, b, c, ray) != 0.0 && 0.0 <= s <= 1.0
    requires ray.Point(t) == Add(a, Scale(s, Sub(b, a)))
    ensures TestTriangle(a, b, c, ray) == None
  {
    EdgeCoordinatesAB(a, b, c, s);
    Recovered(a, b, c, ray, t, s, 0.0);
  }

  /** Without slack the same holds for a point of the edge CA. */
  lemma {:induction false} EdgePointRejectedCA(a: Vec3, b: Vec3, c: Vec3, ray: Ray, t: real, s: real)
    requires WeightTol >= 0.0
    requires Den(a, b, c, ray) != 0.0 && 0.0 <= s <= 1.0
    requires ray.Point(t) == Add(c, Scale(s, Sub(a, c)))
    ensures TestTriangle(a, b, c, ray) == None
  {
    EdgeCoordinatesCA(a, b, c, s);
    Recovered(a, b, c, ray, t, 0.0, 1.0 - s);
  }

  /** The point at `s` along edge BC has barycentric weights `1 - s` and `s`. */
  lemma EdgeCoordinates(a: Vec3, b: Vec3, c: Vec3, s: real)
    ensures Add(b, Scale(s, Sub(c, b))) == Add(a, Add(Scale(1.0 - s, Sub(b, a)), Scale(s, Sub(c, a))))
  {
  }

  /** The point at `s` along edge AB has barycentric weights `s` and `0`. */
  lemma EdgeCoordinatesAB(a: Vec3, b: Vec3, c: Vec3, s: real)
    ensures Add(a, Scale(s, Sub(b, a))) == Add(a, Add(Scale(s, Sub(b, a)), Scale(0.0, Sub(c, a))))
  {
  }

  /** The point at `s` along edge CA has barycentric weights `0` and `1 - s`. */
  lemma EdgeCoordinatesCA(a: Vec3, b: Vec3, c: Vec3, s: real)
    ensures Add(c, Scale(s, Sub(a, c))) == Add(a, Add(Scale(0.0, Sub(b, a)), Scale(1.0 - s, Sub(c, a))))
  {
  }

  // ---------------------------------------------------------------------------
  // The mesh as a value: what `Mesh::Intersection` and `Mesh::Normal` read.

  datatype MeshData = MeshData(vertices: seq<Vec3>, triangles: seq<Triangle>) {

    predicate ValidIndex(i: int) {
      0 <= i < |vertices|
    }

    /** Every triangle names three existing vertices (the source indexes
        `vertices` without checking). */
    predicate Valid() {
      forall t :: 0 <= t < |triangles| ==>
        ValidIndex(triangles[t].a) && ValidIndex(triangles[t].b) && ValidIndex(triangles[t].c)
    }

    /** `Intersect_Triangle(ray, tri, dist)`: the distance when it returns true. */
    function Test(ray: Ray, tri: int): Option<real>
      requires Valid() && 0 <= tri < |triangles|
    {
      var t := triangles[tri];
      TestTriangle(vertices[t.a], vertices[t.b], vertices[t.c], ray)
    }

    /** The outcome of the test for each triangle, in index order. */
    function Tests(ray: Ray): (r: seq<Option<real>>)
      requires Valid()
      ensures |r| == |triangles| && forall i :: 0 <= i < |triangles| ==> r[i] == Test(ray, i)
    {
      seq(|triangles|, i requires 0 <= i < |triangles| => Test(ray, i))
    }

    /** The hit the all-parts loop leaves behind in a given loop state. */
    function Kept(self: nat, b: Best): Hit {
      match b.index
      case Some(k) => Hit(Obj(self), b.minT, k)
      case None => Miss
    }

    /** `Mesh::Intersection`. With `part >= 0` only that triangle is tested and a
        hit carries that part. With `part < 0` the hit is the first triangle
        with the smallest accepted distance below `FLT_MAX`, and the object is
        null exactly when no triangle is accepted below that bound. */
    function Intersection(self: nat, ray: Ray, part: int): (h: Hit)
      requires Valid() && part < |triangles|
      ensures h.obj == Null || h.obj == Obj(self)
      ensures h.obj == Null ==> h == Miss
      ensures part >= 0 ==>
        && (h.obj != Null <==> Test(ray, part).Some?)
        && (h.obj != Null ==> h.part == part && Test(ray, part) == Some(h.dist))
      ensures part < 0 ==>
        && (h.obj == Null <==> NoneBelow(Tests(ray), FloatMax))
        && (h.obj != Null ==> IsFirstMin(Tests(ray), FloatMax, h.part) && Test(ray, h.part) == Some(h.dist))
    {
      if part >= 0 then
        match Test(ray, part)
        case Some(d) => Hit(Obj(self), d, part)
        case None => Miss
      else
        Kept(self, ScanMin(Tests(ray), FloatMax))
    }

    /** `cross(AB, AC)`, normalised: perpendicular to both edges from the
        triangle's first vertex and parallel to `cross(AB, AC)`, whatever the
        point; it points the same way as `cross(AB, AC)` wherever `Sqrt` is
        exact at that vector's nonzero squared length. */
    function Normal(point: Vec3, part: int): (n: Vec3)
      requires Valid() && 0 <= part < |triangles|
      ensures var t := triangles[part];
        var x := Cross(Sub(vertices[t.b], vertices[t.a]), Sub(vertices[t.c], vertices[t.a]));
        && Dot(n, Sub(vertices[t.b], vertices[t.a])) == 0.0
        && Dot(n, Sub(vertices[t.c], vertices[t.a])) == 0.0
        && Cross(n, x) == Zero
        && (IsSqrtOf(Sqrt(Dot(x, x)), Dot(x, x)) && Dot(x, x) != 0.0 ==> Dot(n, x) > 0.0)
    {
      var t := triangles[part];
      var a := vertices[t.a];
      var ab, ac := Sub(vertices[t.b], a), Sub(vertices[t.c], a);
      CrossOrthogonal(ab, ac);
      NormalizedPerpendicular(Cross(ab, ac), ab);
      NormalizedPerpendicular(Cross(ab, ac), ac);
      Normalized(Cross(ab, ac))
    }
  }

  /** With `part < 0` a hit is accepted by its own triangle, lies beyond
      `small_t`, and is no farther than any triangle the test accepts below
      `FLT_MAX`; earlier triangles are strictly farther. */
  lemma {:induction false} AllPartsNearest(m: MeshData, self: nat, ray: Ray, j: int)
    requires m.Valid() && 0 <= j < |m.triangles|
    requires m.Test(ray, j).Some? && m.Test(ray, j).value < FloatMax
    ensures var h := m.Intersection(self, ray, -1);
      && h.obj == Obj(self)
      && h.dist > SmallT
      && h.dist <= m.Test(ray, j).value
      && (j < h.part ==> h.dist < m.Test(ray, j).value)
  {
    var h := m.Intersection(self, ray, -1);
    var ds := m.Tests(ray);
    assert ds[j] == m.Test(ray, j);
    assert !NoneBelow(ds, FloatMax);
    assert IsFirstMin(ds, FloatMax, h.part);
    assert ds[h.part] == Some(h.dist);
  }

  // ---------------------------------------------------------------------------
  // Reading: the tail of `Mesh::Read_Obj`, over already-parsed lines.

  /** A face record with its 1-based indices made 0-based. */
  function Shifted(i: int, j: int, k: int): Triangle {
    Triangle(i - 1, j - 1, k - 1)
  }

  /** The vertices the lines contribute, in order. */
  function ParsedVertices(lines: seq<ObjLine>): seq<Vec3>
    decreases |lines|
  {
    if |lines| == 0 then []
    else
      ParsedVertices(lines[..|lines| - 1]) +
        match lines[|lines| - 1]
        case Vertex(v) => [v]
        case _ => []
  }

  /** The triangles the lines contribute, in order. */
  function ParsedTriangles(lines: seq<ObjLine>): seq<Triangle>
    decreases |lines|
  {
    if |lines| == 0 then []
    else
      ParsedTriangles(lines[..|lines| - 1]) +
        match lines[|lines| - 1]
        case Face(i, j, k) => [Shifted(i, j, k)]
        case _ => []
  }

  /** Reading is a homomorphism: lines read one after another contribute their
      vertices and triangles one after another. */
  lemma {:induction false} ParsedAppend(xs: seq<ObjLine>, ys: seq<ObjLine>)
    ensures ParsedVertices(xs + ys) == ParsedVertices(xs) + ParsedVertices(ys)
    ensures ParsedTriangles(xs + ys) == ParsedTriangles(xs) + ParsedTriangles(ys)
    decreases |ys|
  {
    if |ys| == 0 {
      assert xs + ys == xs;
    } else {
      var n := |ys| - 1;
      assert (xs + ys)[..|xs + ys| - 1] == xs + ys[..n];
      assert (xs + ys)[|xs + ys| - 1] == ys[n];
      ParsedAppend(xs, ys[..n]);
    }
  }

  /** One line at a time: a vertex record adds that vertex, a face record adds
      its indices each decreased by one in the order given, anything else adds
      nothing. */
  lemma ParsedLine(line: ObjLine)
    ensures ParsedVertices([line]) == (if line.Vertex? then [line.v] else [])
    ensures ParsedTriangles([line]) == (if line.Face? then [Triangle(line.i - 1, line.j - 1, line.k - 1)] else [])
  {
    assert [line][..0] == [];
  }

  /** The line `Read_Obj`'s loop sees on each pass. `while(fin)` runs the body
      once more after the last line has been read. When the file ends with a
      newline, that last `getline` reads nothing and leaves an empty line.
      When it does not, the previous `getline` already reached the end of the
      file, so this one fails before clearing `line`, and the last line is
      seen again. An empty file gives one empty line. */
  function LoopRecords(fileLines: seq<ObjLine>, endsWithNewline: bool): (r: seq<ObjLine>)
    ensures |r| == |fileLines| + 1 && r[..|fileLines|] == fileLines
  {
    if endsWithNewline || |fileLines| == 0 then fileLines + [Other]
    else fileLines + [fileLines[|fileLines| - 1]]
  }

  /** The extra pass of a file ending with a newline adds nothing: the file is
      read exactly as its lines. So does the single pass over an empty file. */
  lemma {:induction false} LoopRecordsTerminated(fileLines: seq<ObjLine>, endsWithNewline: bool)
    requires endsWithNewline || |fileLines| == 0
    ensures ParsedVertices(LoopRecords(fileLines, endsWithNewline)) == ParsedVertices(fileLines)
    ensures ParsedTriangles(LoopRecords(fileLines, endsWithNewline)) == ParsedTriangles(fileLines)
  {
    ReadOneMore(fileLines, Other);
  }

  /** Without a final newline the last line counts twice: a final vertex line
      stores its vertex twice, and a final face line stores its triangle twice,
      so `number_parts` counts it twice. */
  lemma {:induction false} LoopRecordsUnterminated(fileLines: seq<ObjLine>)
    requires |fileLines| > 0
    ensures var last := fileLines[|fileLines| - 1];
      && ParsedVertices(LoopRecords(fileLines, false)) ==
           ParsedVertices(fileLines) + (if last.Vertex? then [last.v] else [])
      && ParsedTriangles(LoopRecords(fileLines, false)) ==
           ParsedTriangles(fileLines) + (if last.Face? then [Shifted(last.i, last.j, last.k)] else [])
      && (last.Face? ==>
            |ParsedTriangles(fileLines)| > 0 &&
            ParsedTriangles(fileLines)[|ParsedTriangles(fileLines)| - 1] == Shifted(last.i, last.j, last.k))
  {
    var n := |fileLines| - 1;
    ReadOneMore(fileLines, fileLines[n]);
    assert fileLines[..n] + [fileLines[n]] == fileLines;
    ReadOneMore(fileLines[..n], fileLines[n]);
  }

  /** Reading one more line appends what that line contributes. */
  lemma ReadOneMore(xs: seq<ObjLine>, x: ObjLine)
    ensures ParsedVertices(xs + [x]) == ParsedVertices(xs) + (if x.Vertex? then [x.v] else [])
    ensures ParsedTriangles(xs + [x]) == ParsedTriangles(xs) + (if x.Face? then [Shifted(x.i, x.j, x.k)] else [])
  {
    assert (xs + [x])[..|xs|] == xs;
  }

  /** Every face index of the lines lies in `1..n`. */
  predicate FacesWithin(lines: seq<ObjLine>, n: int) {
    forall l :: 0 <= l < |lines| && lines[l].Face? ==>
      1 <= lines[l].i <= n && 1 <= lines[l].j <= n && 1 <= lines[l].k <= n
  }

  /** Faces whose 1-based indices lie in `1..n` become triangles whose 0-based
      indices lie in `0..n-1`. */
  lemma {:induction false} ParsedTrianglesWithin(lines: seq<ObjLine>, n: int)
    requires FacesWithin(lines, n)
    ensures forall t :: 0 <= t < |ParsedTriangles(lines)| ==>
      var tri := ParsedTriangles(lines)[t];
      0 <= tri.a < n && 0 <= tri.b < n && 0 <= tri.c < n
    decreases |lines|
  {
    if |lines| > 0 {
      ParsedTrianglesWithin(lines[..|lines| - 1], n);
    }
  }

  /** The state `Mesh` keeps: the two lists `Read_Obj` appends to and the part
      count it sets. */
  class Mesh {
    var vertices: seq<Vec3>
    var triangles: seq<Triangle>
    var numberParts: int

    function Data(): MeshData
      reads this
    {
      MeshData(vertices, triangles)
    }

    /** Reads a file given as its classified lines and whether it ends with a
        newline. Each pass of `while(fin)` appends the vertex or the triangle
        of the line it sees, in file order, and one part is registered per
        stored triangle. */
    method ReadObj(fileLines: seq<ObjLine>, endsWithNewline: bool)
      modifies this
      ensures vertices == old(vertices) + ParsedVertices(LoopRecords(fileLines, endsWithNewline))
      ensures triangles == old(triangles) + ParsedTriangles(LoopRecords(fileLines, endsWithNewline))
      ensures numberParts == |triangles|
    {
      var lines := LoopRecords(fileLines, endsWithNewline);
      var i := 0;
      while i < |lines|
        invariant 0 <= i <= |lines|
        invariant vertices == old(vertices) + ParsedVertices(lines[..i])
        invariant triangles == old(triangles) + ParsedTriangles(lines[..i])
      {
        assert lines[..i + 1][..i] == lines[..i];
        match lines[i] {
          case Vertex(v) =>
            vertices := vertices + [v];
          case Face(p, q, r) =>
            triangles := triangles + [Shifted(p, q, r)];
          case Other =>
        }
        i := i + 1;
      }
      assert lines[..|lines|] == lines;
      numberParts := |triangles|;
    }

    /** The loop of `Mesh::Intersection`. */
    method Intersection(self: nat, ray: Ray, part: int) returns (h: Hit)
      requires Data().Valid() && part < |triangles|
      ensures h == Data().Intersection(self, ray, part)
    {
      var m := Data();
      var minT := FloatMax;
      h := Miss;
      if part >= 0 {
        var r := m.Test(ray, part);
        if r.Some? {
          h := Hit(Obj(self), r.value, part);
        }
      } else {
        ghost var ds := m.Tests(ray);
        var i := 0;
        while i < |triangles|
          invariant 0 <= i <= |triangles|
          invariant ScanMin(ds[..i], FloatMax).minT == minT
          invariant m.Kept(self, ScanMin(ds[..i], FloatMax)) == h
        {
          KeptStep(m, self, ds, i);
          var r := m.Test(ray, i);
          assert r == ds[i];
          if r.Some? && r.value < minT {
            minT := r.value;
            h := Hit(Obj(self), r.value, i);
          }
          i := i + 1;
        }
        assert ds[..|triangles|] == ds;
      }
    }
  }

  /** One iteration of the all-parts loop: triangle `i` replaces the kept hit
      exactly when its test accepts at a distance strictly below `min_t`. */
  lemma KeptStep(m: MeshData, self: nat, ds: seq<Option<real>>, i: int)
    requires 0 <= i < |ds|
    ensures var prev, next := ScanMin(ds[..i], FloatMax), ScanMin(ds[..i + 1], FloatMax);
      var taken := ds[i].Some? && ds[i].value < prev.minT;
      && next.minT == (if taken then ds[i].value else prev.minT)
      && m.Kept(self, next) == (if taken then Hit(Obj(self), ds[i].value, i) else m.Kept(self, prev))
  {
    ScanMinStep(ds, FloatMax, i);
  }

  /** After reading lines whose faces name vertices that exist once reading is
      done, every stored triangle is well formed. */
  lemma ReadObjValid(before: MeshData, lines: seq<ObjLine>)
    requires before.Valid()
    requires FacesWithin(lines, |before.vertices| + |ParsedVertices(lines)|)
    ensures MeshData(before.vertices + ParsedVertices(lines), before.triangles + ParsedTriangles(lines)).Valid()
  {
    ParsedTrianglesWithin(lines, |before.vertices| + |ParsedVertices(lines)|);
  }
}
