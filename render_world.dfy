/** `Render_World`: the object list, the closest-hit query and the ray cast that
    hands a hit (or the lack of one) to a shader. The shaders are here too,
    because `Reflective_Shader::Shade_Surface` calls back into `Cast_Ray`. */
module RenderWorld {
  import opened Vec
  import opened Hits
  import opened Options
  import opened Scan
  import opened Objects
  import Meshes

  /** The shader kinds: a constant colour, a local lighting model given as a
      function of the shading arguments, and a reflective shader wrapping a
      base shader. */
  datatype Shader =
    | Flat(color: Vec3)
    | Local(shade: (Ray, Vec3, Vec3, int) -> Vec3)
    | Reflective(inner: Shader, reflectivity: real)

  datatype Object = Object(shape: Shape, material: Shader)

  /** The library's default `recursion_depth_limit`. */
  const DefaultDepthLimit: int := 3

  /** Depth of the primary ray of a pixel. */
  const PrimaryDepth: int := 1

  datatype World = World(objects: seq<Object>, background: Shader, recursionDepthLimit: int) {
    predicate Valid() {
      forall i :: 0 <= i < |objects| ==> ValidShape(objects[i].shape)
    }
  }

  /** A world with the constructor's settings and the given scene. */
  function NewWorld(objects: seq<Object>, background: Shader): (w: World)
    ensures w.objects == objects && w.background == background
    ensures w.recursionDepthLimit == 3
  {
    World(objects, background, DefaultDepthLimit)
  }

  /** The hit `Closest_Intersection` starts from and returns when nothing qualifies. */
  const Sentinel: Hit := Hit(Null, -1.0, 0)

  /** `objects[i]->Intersection(ray, -1)` for every object, in list order. */
  function ObjectHits(w: World, ray: Ray): (hs: seq<Hit>)
    requires w.Valid()
    ensures |hs| == |w.objects|
    ensures forall i :: 0 <= i < |w.objects| ==> hs[i] == Intersection(w.objects[i].shape, i, ray, -1)
  {
    seq(|w.objects|, i requires 0 <= i < |w.objects| => Intersection(w.objects[i].shape, i, ray, -1))
  }

  /** A hit's distance when it passes the `small_t` filter. */
  function Candidates(hs: seq<Hit>): (ds: seq<Option<real>>)
    ensures |ds| == |hs|
    ensures forall i :: 0 <= i < |hs| ==> ds[i] == (if hs[i].dist > SmallT then Some(hs[i].dist) else None)
  {
    seq(|hs|, i requires 0 <= i < |hs| => if hs[i].dist > SmallT then Some(hs[i].dist) else None)
  }

  /** The hit a scan state stands for. */
  function Chosen(hs: seq<Hit>, b: Best): Hit {
    match b.index
    case Some(k) => if k < |hs| then hs[k] else Sentinel
    case None => Sentinel
  }

  /** A hit competes when its distance lies strictly between `small_t` and the
      starting `min_t`. */
  predicate Qualifies(h: Hit) {
    SmallT < h.dist < DoubleMax
  }

  /** What `Closest_Intersection` returns. It is the sentinel exactly when no
      object's hit qualifies; otherwise it is the hit of some object, lies
      beyond `small_t`, is no farther than any qualifying hit, and every object
      before it whose hit qualifies is strictly farther (ties go to the earliest
      object). A hit naming an object is that object's own all-parts hit. */
  function ClosestHit(w: World, ray: Ray): (h: Hit)
    requires w.Valid()
    ensures var hs := ObjectHits(w, ray);
      && (h == Sentinel <==> forall i :: 0 <= i < |hs| ==> !Qualifies(hs[i]))
      && (forall i :: 0 <= i < |hs| && Qualifies(hs[i]) ==> h.dist <= hs[i].dist)
      && (h != Sentinel ==>
            && Qualifies(h)
            && exists k :: 0 <= k < |hs| && hs[k] == h &&
                 forall i :: 0 <= i < k && Qualifies(hs[i]) ==> h.dist < hs[i].dist)
      && (h.obj != Null ==> h.obj.index < |hs| && hs[h.obj.index] == h)
  {
    var hs := ObjectHits(w, ray);
    var ds := Candidates(hs);
    var b := ScanMin(ds, DoubleMax);
    match b.index
    case None =>
      assert forall i :: 0 <= i < |hs| ==> !Qualifies(hs[i]) by {
        forall i | 0 <= i < |hs| ensures !Qualifies(hs[i]) {
          assert ds[i] == (if hs[i].dist > SmallT then Some(hs[i].dist) else None);
        }
      }
      Sentinel
    case Some(k) =>
      assert ds[k] == Some(hs[k].dist);
      assert Qualifies(hs[k]);
      assert forall i :: 0 <= i < |hs| && Qualifies(hs[i]) ==> hs[k].dist <= hs[i].dist by {
        forall i | 0 <= i < |hs| && Qualifies(hs[i]) ensures hs[k].dist <= hs[i].dist {
          assert ds[i] == Some(hs[i].dist);
        }
      }
      assert forall i :: 0 <= i < k && Qualifies(hs[i]) ==> hs[k].dist < hs[i].dist by {
        forall i | 0 <= i < k && Qualifies(hs[i]) ensures hs[k].dist < hs[i].dist {
          assert ds[i] == Some(hs[i].dist);
        }
      }
      assert hs[k].obj != Null ==> hs[k].obj == Obj(k);
      hs[k]
  }

  /** One iteration of the loop: object `i`'s hit replaces the kept one exactly
      when it lies beyond `small_t` and strictly below the running minimum. */
  lemma ChosenStep(hs: seq<Hit>, i: int)
    requires 0 <= i < |hs|
    ensures var ds := Candidates(hs);
      var prev, next := ScanMin(ds[..i], DoubleMax), ScanMin(ds[..i + 1], DoubleMax);
      var taken := hs[i].dist > SmallT && hs[i].dist < prev.minT;
      && next.minT == (if taken then hs[i].dist else prev.minT)
      && Chosen(hs, next) == (if taken then hs[i] else Chosen(hs, prev))
  {
    var ds := Candidates(hs);
    ScanMinStep(ds, DoubleMax, i);
    var prev := ScanMin(ds[..i], DoubleMax);
    if prev.index.Some? {
      assert prev.index.value < i;
    }
  }

  /** The loop of `Closest_Intersection`. */
  method ClosestIntersection(w: World, ray: Ray) returns (h: Hit)
    requires w.Valid()
    ensures h == ClosestHit(w, ray)
  {
    ghost var hs := ObjectHits(w, ray);
    ghost var ds := Candidates(hs);
    var minT := DoubleMax;
    h := Sentinel;
    var i := 0;
    while i < |w.objects|
      invariant 0 <= i <= |w.objects|
      invariant ScanMin(ds[..i], DoubleMax).minT == minT
      invariant Chosen(hs, ScanMin(ds[..i], DoubleMax)) == h
    {
      ChosenStep(hs, i);
      var hit := Intersection(w.objects[i].shape, i, ray, -1);
      assert hit == hs[i];
      if hit.dist > SmallT && hit.dist < minT {
        h := hit;
        minT := hit.dist;
      }
      i := i + 1;
    }
    assert ds[..|w.objects|] == ds;
  }

  /** `Render_World::Cast_Ray`: the closest hit's material shades the hit point
      with the object's normal there; with no object hit, the background shader
      is called with zero point and normal. The depth is passed on unchanged. */
  function CastRay(w: World, ray: Ray, depth: int): Vec3
    requires w.Valid()
    decreases w.recursionDepthLimit - depth, 1
  {
    var h := ClosestHit(w, ray);
    match h.obj
    case Null => Shade(w, w.background, ray, Zero, Zero, depth)
    case Obj(k) =>
      var o := w.objects[k];
      var point := ray.Point(h.dist);
      Shade(w, o.material, ray, point, Normal(o.shape, point, h.part), depth)
  }

  /** `Shade_Surface` for each shader kind. A reflective shader evaluates its
      base shader with the same arguments, and below the depth limit blends it
      with a ray cast one level deeper from the point along the normalised
      mirror direction; at or past the limit only the attenuated base remains. */
  function Shade(w: World, s: Shader, ray: Ray, point: Vec3, normal: Vec3, depth: int): Vec3
    requires w.Valid()
    decreases w.recursionDepthLimit - depth, 0, s
  {
    match s
    case Flat(c) => c
    case Local(f) => f(ray, point, normal, depth)
    case Reflective(inner, k) =>
      var base := Shade(w, inner, ray, point, normal, depth);
      if depth < w.recursionDepthLimit then
        var reflected := Ray(point, Normalized(Reflect(ray.direction, normal)));
        Add(Scale(1.0 - k, base), Scale(k, CastRay(w, reflected, depth + 1)))
      else
        Scale(1.0 - k, base)
  }

  /** The colour of a pixel's primary ray. */
  function PrimaryColor(w: World, ray: Ray): Vec3
    requires w.Valid()
  {
    CastRay(w, ray, PrimaryDepth)
  }

  /** Whenever the closest hit names no object, the cast is the background
      shader's output for the same ray and depth. That covers both the sentinel
      (no hit qualifies) and a mesh's miss that wins with its indeterminate
      distance. */
  lemma CastRayMiss(w: World, ray: Ray, depth: int)
    requires w.Valid()
    ensures ClosestHit(w, ray).obj == Null ==>
      CastRay(w, ray, depth) == Shade(w, w.background, ray, Zero, Zero, depth)
  {
  }

  /** A scene holding one empty mesh: wherever the miss's indeterminate distance
      happens to qualify, the closest hit is that miss rather than the
      sentinel, and the ray still gets the background colour. */
  lemma EmptyMeshMiss(ray: Ray, material: Shader, background: Shader, depth: int)
    ensures var w := World([Object(MeshShape(Meshes.MeshData([], [])), material)], background, DefaultDepthLimit);
      && w.Valid()
      && (Qualifies(Meshes.Miss) ==>
            && ClosestHit(w, ray) == Meshes.Miss
            && ClosestHit(w, ray) != Sentinel
            && CastRay(w, ray, depth) == Shade(w, background, ray, Zero, Zero, depth))
  {
    var m := Meshes.MeshData([], []);
    var w := World([Object(MeshShape(m), material)], background, DefaultDepthLimit);
    assert m.Valid();
    var h := m.Intersection(0, ray, -1);
    assert h == Meshes.Miss;
    assert ObjectHits(w, ray)[0] == h;
    if Qualifies(Meshes.Miss) {
      assert ClosestHit(w, ray) == Meshes.Miss;
      CastRayMiss(w, ray, depth);
    }
  }

  /** When an object owns the closest hit, the cast is that object's material
      at the hit point with the object's normal there, at the same depth. */
  lemma CastRayHit(w: World, ray: Ray, depth: int)
    requires w.Valid()
    ensures var h := ClosestHit(w, ray);
      h.obj.Obj? ==>
        var k, point := h.obj.index, ray.Point(h.dist);
        && k < |w.objects|
        && h == Intersection(w.objects[k].shape, k, ray, -1)
        && PartFits(w.objects[k].shape, h.part)
        && CastRay(w, ray, depth) ==
             Shade(w, w.objects[k].material, ray, point, Normal(w.objects[k].shape, point, h.part), depth)
  {
  }

  // ---------------------------------------------------------------------------
  // How deep casts nest.

  /** The deepest chain of nested `Cast_Ray` calls started by one cast,
      counting the cast itself. This and `ShadeNesting` follow the recursion of
      `CastRay` and `Shade` branch for branch, written out again by hand; no
      lemma ties the two pairs together. */
  function CastNesting(w: World, ray: Ray, depth: int): nat
    requires w.Valid()
    decreases w.recursionDepthLimit - depth, 1
  {
    var h := ClosestHit(w, ray);
    match h.obj
    case Null => 1 + ShadeNesting(w, w.background, ray, Zero, Zero, depth)
    case Obj(k) =>
      var o := w.objects[k];
      var point := ray.Point(h.dist);
      1 + ShadeNesting(w, o.material, ray, point, Normal(o.shape, point, h.part), depth)
  }

  /** The deepest chain of casts a shader starts. */
  function ShadeNesting(w: World, s: Shader, ray: Ray, point: Vec3, normal: Vec3, depth: int): nat
    requires w.Valid()
    decreases w.recursionDepthLimit - depth, 0, s
  {
    match s
    case Flat(_) => 0
    case Local(_) => 0
    case Reflective(inner, _) =>
      var base := ShadeNesting(w, inner, ray, point, normal, depth);
      if depth < w.recursionDepthLimit then
        var reflected := Ray(point, Normalized(Reflect(ray.direction, normal)));
        var cast := CastNesting(w, reflected, depth + 1);
        if base < cast then cast else base
      else base
  }

  /** The casts below one level of shading number at most the levels left. */
  function Levels(w: World, depth: int): nat {
    if depth < w.recursionDepthLimit then w.recursionDepthLimit - depth else 0
  }

  /** A cast at `depth` starts at most `limit - depth + 1` nested casts (just
      itself at or past the limit). */
  lemma {:induction false} CastNestingBound(w: World, ray: Ray, depth: int)
    requires w.Valid()
    ensures CastNesting(w, ray, depth) <= Levels(w, depth) + 1
    decreases w.recursionDepthLimit - depth, 1
  {
    var h := ClosestHit(w, ray);
    match h.obj
    case Null =>
      ShadeNestingBound(w, w.background, ray, Zero, Zero, depth);
    case Obj(k) =>
      var o := w.objects[k];
      var point := ray.Point(h.dist);
      ShadeNestingBound(w, o.material, ray, point, Normal(o.shape, point, h.part), depth);
  }

  lemma {:induction false} ShadeNestingBound(w: World, s: Shader, ray: Ray, point: Vec3, normal: Vec3, depth: int)
    requires w.Valid()
    ensures ShadeNesting(w, s, ray, point, normal, depth) <= Levels(w, depth)
    decreases w.recursionDepthLimit - depth, 0, s
  {
    match s
    case Flat(_) =>
    case Local(_) =>
    case Reflective(inner, _) =>
      ShadeNestingBound(w, inner, ray, point, normal, depth);
      if depth < w.recursionDepthLimit {
        var reflected := Ray(point, Normalized(Reflect(ray.direction, normal)));
        CastNestingBound(w, reflected, depth + 1);
      }
  }

  /** A primary ray starts at most `max(limit, 1)` nested casts: with the
      default limit, a pixel costs at most three levels of casting. */
  lemma PrimaryNesting(w: World, ray: Ray)
    requires w.Valid()
    ensures CastNesting(w, ray, PrimaryDepth) <= (if w.recursionDepthLimit > 1 then w.recursionDepthLimit else 1)
  {
    CastNestingBound(w, ray, PrimaryDepth);
  }
}
