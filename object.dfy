/** The three kinds of `Object` the core implements, and the two virtual calls
    the renderer makes on them. */
module Objects {
  import opened Vec
  import opened Hits
  import opened Spheres
  import opened Planes
  import opened Meshes

  datatype Shape =
    | SphereShape(sphere: Sphere)
    | PlaneShape(plane: Plane)
    | MeshShape(mesh: MeshData)

  /** The shapes whose `Normal` is defined: a sphere with a nonzero radius and a
      mesh whose triangles name existing vertices. */
  predicate ValidShape(s: Shape) {
    match s
    case SphereShape(sp) => sp.radius != 0.0
    case PlaneShape(_) => true
    case MeshShape(m) => m.Valid()
  }

  /** `Normal` may be asked for this part: any part outside a mesh, an existing
      triangle of a mesh. */
  predicate PartFits(s: Shape, part: int) {
    s.MeshShape? ==> 0 <= part < |s.mesh.triangles|
  }

  /** `Object::Intersection`, dispatched on the kind of object. Spheres and
      planes always name themselves (a sphere also keeps the part it was
      given); a mesh names itself or nothing, and an all-parts mesh hit names
      one of its triangles. */
  function Intersection(s: Shape, self: nat, ray: Ray, part: int): (h: Hit)
    requires ValidShape(s)
    requires s.MeshShape? ==> part < |s.mesh.triangles|
    ensures h.obj == Null || h.obj == Obj(self)
    ensures !s.MeshShape? ==> h.obj == Obj(self)
    ensures s.SphereShape? ==> h.part == part
    ensures part < 0 && h.obj != Null ==> PartFits(s, h.part)
  {
    match s
    case SphereShape(sp) => sp.Intersection(self, ray, part)
    case PlaneShape(pl) => pl.Intersection(self, ray, part)
    case MeshShape(m) => m.Intersection(self, ray, part)
  }

  /** `Object::Normal`, dispatched on the kind of object: the stored normal of
      a plane, a vector along the radius of a sphere, a vector across both
      edges of the named mesh triangle. */
  function Normal(s: Shape, point: Vec3, part: int): (n: Vec3)
    requires ValidShape(s) && PartFits(s, part)
    ensures s.PlaneShape? ==> n == s.plane.normal
    ensures s.SphereShape? ==> Cross(n, Sub(point, s.sphere.center)) == Zero
    ensures s.MeshShape? ==>
      var m := s.mesh;
      var t := m.triangles[part];
      && Dot(n, Sub(m.vertices[t.b], m.vertices[t.a])) == 0.0
      && Dot(n, Sub(m.vertices[t.c], m.vertices[t.a])) == 0.0
  {
    match s
    case SphereShape(sp) => sp.Normal(point, part)
    case PlaneShape(pl) => pl.Normal(point, part)
    case MeshShape(m) => m.Normal(point, part)
  }
}
