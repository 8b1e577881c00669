/** Rays, hit records, boxes and the distance constants every query shares. */
module Hits {
  import opened Vec

  type Pos = r: real | r > 0.0 witness 1.0

  /** `small_t`: the threshold below which a ray parameter counts as a
      self-intersection. Its value lives in a header outside this model; only its
      positivity is used. */
  const SmallT: Pos

  /** `std::numeric_limits<double>::max()`, exactly. */
  const DoubleMax: real := 179769313486231570814527423731704356798070567525844996598917476803157260780028538760589558632766878171540458953514382464234321326889464182768467546703537516986049910576551282076245490090389328944075868508455133942304583236903222948165808559332123348274797826204144723168738177180919299881250404026184124858368.0

  /** `std::numeric_limits<float>::max()`, exactly. */
  const FloatMax: real := 340282346638528859811704183484516925440.0

  datatype Ray = Ray(endpoint: Vec3, direction: Vec3) {
    /** The point at parameter `t` along the ray. */
    function Point(t: real): Vec3 {
      Add(endpoint, Scale(t, direction))
    }
  }

  /** The `object` pointer of a hit (field `obj`): null, or the object at an index of the
      world's object list. */
  datatype ObjRef = Null | Obj(index: nat)

  datatype Hit = Hit(obj: ObjRef, dist: real, part: int)

  /** An axis-aligned box with low and high corners. */
  datatype Box = Box(lo: Vec3, hi: Vec3)
}
