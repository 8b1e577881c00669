/** `Sphere::Intersection` and `Sphere::Normal`: the quadratic in the ray
    parameter and the branch policy that picks one of its roots. */
module Spheres {
  import opened Vec
  import opened Hits

  datatype Sphere = Sphere(center: Vec3, radius: real) {

    /** `b` of `t^2 + b t + c` (the leading coefficient is `d . d`, taken as 1). */
    function B(ray: Ray): real {
      2.0 * Dot(ray.direction, Sub(ray.endpoint, center))
    }

    function C(ray: Ray): real {
      var w := Sub(ray.endpoint, center);
      Dot(w, w) - radius * radius
    }

    function Discriminant(ray: Ray): real {
      B(ray) * B(ray) - 4.0 * C(ray)
    }

    function Root0(ray: Ray): real {
      (-B(ray) - Sqrt(Discriminant(ray))) / 2.0
    }

    function Root1(ray: Ray): real {
      (-B(ray) + Sqrt(Discriminant(ray))) / 2.0
    }

    /** A miss is reported as a hit on this sphere at distance -1, never as a
        null object. Once the discriminant is non-negative the `t1 < 0` branch
        can no longer be reached: the result is `t0` when that root is
        non-negative and the roots are distinct, and `t1` otherwise (also when
        both roots are negative). The result is then a root of the quadratic. */
    function Intersection(self: nat, ray: Ray, part: int): (h: Hit)
      ensures h.obj == Obj(self) && h.part == part
      ensures Discriminant(ray) < 0.0 ==> h.dist == -1.0
      ensures Discriminant(ray) >= 0.0 && IsSqrtOf(Sqrt(Discriminant(ray)), Discriminant(ray)) ==>
        && Root0(ray) <= Root1(ray)
        && h.dist == (if Discriminant(ray) > 0.0 && Root0(ray) >= 0.0 then Root0(ray) else Root1(ray))
        && h.dist * h.dist + B(ray) * h.dist + C(ray) == 0.0
      ensures Discriminant(ray) == 0.0 && IsSqrtOf(Sqrt(0.0), 0.0) ==> h.dist == -B(ray) / 2.0
    {
      var disc := Discriminant(ray);
      if disc < 0.0 then Hit(Obj(self), -1.0, part)
      else
        var t0 := Root0(ray);
        var t1 := Root1(ray);
        RootsAreRoots(ray);
        SqrtOfZero(Sqrt(0.0));
        if disc == 0.0 then Hit(Obj(self), t1, part)
        else if disc > 0.0 && t0 < 0.0 then Hit(Obj(self), t1, part)
        else if disc > 0.0 && t1 < 0.0 then Hit(Obj(self), t0, part)
        else Hit(Obj(self), if t0 < t1 then t0 else t1, part)
    }

    /** Both roots solve the quadratic when `Sqrt` is exact at the discriminant. */
    lemma RootsAreRoots(ray: Ray)
      ensures IsSqrtOf(Sqrt(Discriminant(ray)), Discriminant(ray)) ==>
        && Root0(ray) <= Root1(ray)
        && Root0(ray) * Root0(ray) + B(ray) * Root0(ray) + C(ray) == 0.0
        && Root1(ray) * Root1(ray) + B(ray) * Root1(ray) + C(ray) == 0.0
    {
      var b, c, s := B(ray), C(ray), Sqrt(Discriminant(ray));
      if IsSqrtOf(s, Discriminant(ray)) {
        var t0, t1 := (-b - s) / 2.0, (-b + s) / 2.0;
        assert 4.0 * (t0 * t0 + b * t0 + c) == s * s - b * b + 4.0 * c;
        assert 4.0 * (t1 * t1 + b * t1 + c) == s * s - b * b + 4.0 * c;
      }
    }

    /** With a unit direction, a point at a root of the quadratic lies on the
        sphere: its squared distance from the centre is `radius^2`. */
    lemma {:induction false} HitOnSurface(self: nat, ray: Ray, part: int)
      requires Dot(ray.direction, ray.direction) == 1.0
      requires Discriminant(ray) >= 0.0 && IsSqrtOf(Sqrt(Discriminant(ray)), Discriminant(ray))
      ensures var p := ray.Point(Intersection(self, ray, part).dist);
        Dot(Sub(p, center), Sub(p, center)) == radius * radius
    {
      var t := Intersection(self, ray, part).dist;
      var w := Sub(ray.endpoint, center);
      assert Sub(ray.Point(t), center) == Add(w, Scale(t, ray.direction));
      OnSurface(w, ray.direction, t, radius);
    }

    /** `(point - center) / radius`, normalised: parallel to the radius through
        the point, whatever the part. Wherever `Sqrt` is exact at the squared
        length of `(point - center) / radius` and the point is off the centre,
        it points outward for a positive radius and inward for a negative one. */
    function Normal(point: Vec3, part: int): (n: Vec3)
      requires radius != 0.0
      ensures Cross(n, Sub(point, center)) == Zero
      ensures var w := Scale(1.0 / radius, Sub(point, center));
        IsSqrtOf(Sqrt(Dot(w, w)), Dot(w, w)) && Dot(w, w) != 0.0 ==>
          && (radius > 0.0 ==> Dot(n, Sub(point, center)) > 0.0)
          && (radius < 0.0 ==> Dot(n, Sub(point, center)) < 0.0)
    {
      var w := Scale(1.0 / radius, Sub(point, center));
      assert Cross(Normalized(w), w) == Zero;
      Orientation(radius, Sub(point, center), Normalized(w));
      Normalized(w)
    }
  }

  /** A root `t` of `t^2 + 2 (d . w) t + w . w - r^2` with `d . d == 1` puts
      `w + t d` at length `r`. */
  lemma OnSurface(w: Vec3, d: Vec3, t: real, r: real)
    requires Dot(d, d) == 1.0
    requires t * t + 2.0 * Dot(d, w) * t + (Dot(w, w) - r * r) == 0.0
    ensures Dot(Add(w, Scale(t, d)), Add(w, Scale(t, d))) == r * r
  {
    SquareOfSum(w, d, t);
  }

  lemma SquareOfSum(w: Vec3, d: Vec3, t: real)
    ensures Dot(Add(w, Scale(t, d)), Add(w, Scale(t, d))) == Dot(w, w) + 2.0 * Dot(d, w) * t + t * t * Dot(d, d)
  {
    var q := Add(w, Scale(t, d));
    assert q.x * q.x == w.x * w.x + 2.0 * d.x * w.x * t + t * t * (d.x * d.x);
    assert q.y * q.y == w.y * w.y + 2.0 * d.y * w.y * t + t * t * (d.y * d.y);
    assert q.z * q.z == w.z * w.z + 2.0 * d.z * w.z * t + t * t * (d.z * d.z);
  }

  /** A vector pointing the same way as `q / r` points along `q` for a
      positive `r` and against it for a negative one. */
  lemma Orientation(r: real, q: Vec3, n: Vec3)
    requires r != 0.0
    ensures var w := Scale(1.0 / r, q);
      Dot(n, w) > 0.0 ==> (r > 0.0 ==> Dot(n, q) > 0.0) && (r < 0.0 ==> Dot(n, q) < 0.0)
  {
    var w := Scale(1.0 / r, q);
    ScaleBack(r, q);
    DotScale(r, n, w);
    assert Dot(n, q) == r * Dot(n, w);
    if Dot(n, w) > 0.0 {
      SignOfProduct(r, Dot(n, w));
    }
  }

  /** `radius * ((1 / radius) q) == q`. */
  lemma ScaleBack(r: real, q: Vec3)
    requires r != 0.0
    ensures Scale(r, Scale(1.0 / r, q)) == q
  {
    var k := 1.0 / r;
    assert r * k == 1.0;
    assert r * (k * q.x) == (r * k) * q.x;
    assert r * (k * q.y) == (r * k) * q.y;
    assert r * (k * q.z) == (r * k) * q.z;
  }

  lemma DotScale(k: real, a: Vec3, b: Vec3)
    ensures Dot(a, Scale(k, b)) == k * Dot(a, b)
  {
  }

  lemma SignOfProduct(r: real, p: real)
    requires p > 0.0
    ensures r > 0.0 ==> r * p > 0.0
    ensures r < 0.0 ==> r * p < 0.0
  {
    if r > 0.0 {
      MulPos(r, p);
    } else if r < 0.0 {
      MulPos(-r, p);
    }
  }

  lemma SqrtOfZero(r: real)
    ensures IsSqrtOf(r, 0.0) ==> r == 0.0
  {
    if IsSqrtOf(r, 0.0) && r != 0.0 {
      calc { 0.0; == r * r; > 0.0; }
    }
  }

  lemma MulPos(a: real, b: real)
    requires a > 0.0 && b > 0.0
    ensures a * b > 0.0
  {
  }

  lemma SqrtOfFour(r: real)
    ensures IsSqrtOf(r, 4.0) ==> r == 2.0
  {
    var p, q := if r > 2.0 then r - 2.0 else 2.0 - r, r + 2.0;
    assert p * q == r * r - 4.0 || p * q == 4.0 - r * r;
    if p > 0.0 && q > 0.0 {
      MulPos(p, q);
    }
  }

  /** A ray from (0,0,5) straight down the z axis meets the unit sphere at the
      origin at distance 4, the nearer of its two roots. */
  lemma ExampleHeadOn(s: Sphere, ray: Ray)
    requires s == Sphere(Zero, 1.0) && ray == Ray(Vec3(0.0, 0.0, 5.0), Vec3(0.0, 0.0, -1.0))
    requires IsSqrtOf(Sqrt(4.0), 4.0)
    ensures s.Intersection(0, ray, -1).dist == 4.0
  {
    HeadOnCoefficients(s, ray);
    SqrtOfFour(Sqrt(4.0));
  }

  lemma HeadOnCoefficients(s: Sphere, ray: Ray)
    requires s == Sphere(Zero, 1.0) && ray == Ray(Vec3(0.0, 0.0, 5.0), Vec3(0.0, 0.0, -1.0))
    ensures s.B(ray) == -10.0 && s.Discriminant(ray) == 4.0
  {
    assert s.C(ray) == 24.0;
  }
}
