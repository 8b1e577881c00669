/** `Plane::Intersection`, `Plane::Normal` and `Plane::Bounding_Box`: the half
    space through `x1` with outward normal `normal`. */
module Planes {
  import opened Vec
  import opened Hits

  datatype Plane = Plane(x1: Vec3, normal: Vec3) {

    /** `direction . normal`: zero when the ray runs parallel to the plane. */
    function Lower(ray: Ray): real {
      Dot(ray.direction, normal)
    }

    /** `(x1 - endpoint) . normal`: zero when the ray starts on the plane. */
    function Upper(ray: Ray): real {
      Dot(Sub(x1, ray.endpoint), normal)
    }

    /** The result always names this plane; a parallel ray is a hit at 0 with
        part 0 when it starts on the plane and a miss at -1 otherwise, and any
        other ray meets the plane's surface at the returned parameter (which may
        be negative and is filtered by the caller). */
    function Intersection(self: nat, ray: Ray, part: int): (h: Hit)
      ensures h.obj == Obj(self)
      ensures Lower(ray) == 0.0 && Upper(ray) == 0.0 ==> h.dist == 0.0 && h.part == 0
      ensures Lower(ray) == 0.0 && Upper(ray) != 0.0 ==> h.dist == -1.0 && h.part == part
      ensures Lower(ray) != 0.0 ==>
        && h.part == part
        && h.dist * Lower(ray) == Upper(ray)
        && Dot(Sub(ray.Point(h.dist), x1), normal) == 0.0
    {
      var lower := Lower(ray);
      var upper := Upper(ray);
      if lower == 0.0 then
        if upper == 0.0 then Hit(Obj(self), 0.0, 0) else Hit(Obj(self), -1.0, part)
      else
        OnPlane(ray, upper / lower);
        Hit(Obj(self), upper / lower, part)
    }

    /** At `t` with `t * lower == upper` the ray's point satisfies the plane's
        equation. */
    lemma OnPlane(ray: Ray, t: real)
      requires Lower(ray) != 0.0 && t == Upper(ray) / Lower(ray)
      ensures t * Lower(ray) == Upper(ray)
      ensures Dot(Sub(ray.Point(t), x1), normal) == 0.0
    {
      var e, d, n := ray.endpoint, ray.direction, normal;
      calc {
        Dot(Sub(ray.Point(t), x1), n);
        == Dot(Sub(e, x1), n) + t * Dot(d, n);
        == -Upper(ray) + t * Lower(ray);
      }
    }

    /** The stored normal, whatever the point and the part. */
    function Normal(point: Vec3, part: int): (n: Vec3)
      ensures n == normal
    {
      normal
    }

    /** A box covering every representable coordinate, for every part. */
    function BoundingBox(part: int): (b: Box)
      ensures b.hi == Vec3(DoubleMax, DoubleMax, DoubleMax)
      ensures b.lo == Neg(b.hi)
    {
      var hi := Vec3(DoubleMax, DoubleMax, DoubleMax);
      Box(Neg(hi), hi)
    }
  }

  /** A ray from (0,5,0) straight down meets the plane y = 0 at distance 5. */
  lemma ExampleFromAbove(p: Plane, ray: Ray)
    requires p == Plane(Zero, Vec3(0.0, 1.0, 0.0)) && ray == Ray(Vec3(0.0, 5.0, 0.0), Vec3(0.0, -1.0, 0.0))
    ensures p.Intersection(0, ray, -1).dist == 5.0
  {
    assert p.Lower(ray) == -1.0 && p.Upper(ray) == -5.0;
  }
}
