# Ray tracer core: closest hits, intersections and bounded reflection

A Dafny model of the decision logic of a small Whitted-style ray tracer written
in C++:

- `Render_World::Closest_Intersection`: a scan over the scene's objects that keeps
  the first hit with the strictly smallest distance above `small_t`.
- `Render_World::Cast_Ray`: sends a ray that hits nothing to the background
  shader, and a ray that hits something to the hit object's material.
- The three kinds of object:
  - spheres (root selection of a quadratic);
  - planes (parallel and on-plane cases, the normal, and the all-covering
    bounding box);
  - triangle meshes (the per-part or all-parts scan, the plane-plus-barycentric
    triangle test, and the record loop of `Read_Obj`).
- `Reflective_Shader::Shade_Surface`: blends a base shader with a ray cast one
  level deeper, but only while the depth is below the world's limit.

Vectors are triples of Dafny `real`s, so the arithmetic is exact. Object
identity (the `this` pointer stored in a hit) is an object's index in the
world's object list. `Hits.ObjRef` is either `Null` or `Obj(i)`.

Files and modules:

| file | module | contents |
|---|---|---|
| vec.dfy | `Vec` | vectors, dot and cross products, `normalized()`, the mirror direction |
| hit.dfy | `Hits` | rays, hits, boxes, `small_t`, `DBL_MAX`, `FLT_MAX` |
| option.dfy | `Options` | `Option` |
| scan.dfy | `Scan` | the first-minimum scan shared by the closest-hit loop and the mesh part loop |
| sphere.dfy | `Spheres` | `Sphere::Intersection`, `Sphere::Normal` |
| plane.dfy | `Planes` | `Plane::Intersection`, `Plane::Normal`, `Plane::Bounding_Box` |
| mesh.dfy | `Meshes` | `Intersect_Triangle`, `Mesh::Intersection`, `Mesh::Normal`, `Read_Obj` (class `Mesh`) |
| object.dfy | `Objects` | dispatch of `Intersection` and `Normal` on the kind of object |
| render_world.dfy | `RenderWorld` | the world, `Closest_Intersection`, `Cast_Ray`, the shaders, nesting depth |
| reflective_shader.dfy | `ReflectiveShader` | properties of the reflective blend |

Some design decisions:

- **Square root.** `sqrt` is an unspecified function `Vec.Sqrt`. Any lemma that
  needs it to be a true square root at an argument `x` says so with the
  hypothesis `IsSqrtOf(Sqrt(x), x)`.
- **`small_t` and `weight_tol`.** Both live in headers that are not part of this
  model. `small_t` is an arbitrary positive constant (`Hits.SmallT`).
  `weight_tol` is an arbitrary real (`Meshes.WeightTol`).
- **The weight threshold.** `Intersect_Triangle` accepts when the weights exceed
  `weight_tol` (mesh.cpp:130). The comment at mesh.cpp:99-100 promises
  "> -weight_tolerance" instead, with the file-local constant
  `weight_tolerance = 1e-4` (mesh.cpp:8). The model follows the code.
  `Meshes.WeightTolerance` is declared but, as in the code, the test does not use
  it. Six lemmas, two per edge, show what the sign of the threshold decides:
  - `EdgePointAccepted`, `EdgePointAcceptedAB` and `EdgePointAcceptedCA`: with
    a negative threshold, points on each of the three edges are accepted, so
    no gap opens along an edge two triangles share;
  - `EdgePointRejected`, `EdgePointRejectedAB` and `EdgePointRejectedCA`: with
    a non-negative threshold, points on each of the three edges are rejected.
- **Mesh misses.** When no triangle is accepted, `Mesh::Intersection` leaves the
  distance and part of its `Hit` uninitialised (mesh.cpp:46-47). The model uses
  two fixed but unknown constants, `IndeterminateDist` and `IndeterminatePart`.
  `Closest_Intersection` compares that distance without looking at the object
  pointer (render_world.cpp:30), and the model does the same. Such a miss can
  win and make the closest hit null without being the sentinel
  (`EmptyMeshMiss`); `Cast_Ray` then shades the background (`CastRayMiss`).
- **Shaders.** A shader is a datatype:
  - `Flat(color)`;
  - `Local(f)`, where `f` is any function of ray, point, normal and depth. It
    stands for the Phong shader and any other shader that casts no reflected
    ray;
  - `Reflective(inner, k)`.

  `CastRay` and `Shade` are mutually recursive. Termination is on
  `recursion_depth_limit - depth`, then the shader.

## Model

| member | source | states |
|---|---|---|
| Vec.Normalized | sphere.cpp:45-46 | the normalised vector is parallel to its argument (zero cross product), and where `sqrt` is exact at a nonzero `v . v` it points the same way as `v` (positive dot product), so the zero and the reversed vector are excluded there |
| Vec.NormalizedPerpendicular | mesh.cpp:88 | normalising keeps perpendicularity: a vector perpendicular to `v` is perpendicular to `v.normalized()` |
| Vec.NormalizedUnit | reflective_shader.cpp:12 | where `sqrt` is exact at `v . v != 0`, the normalised vector has unit length |
| Scan.ScanMin | render_world.cpp:25-34 | the loop's fold keeps no index exactly when no candidate lies below the start bound, and otherwise keeps the first candidate strictly below all earlier ones and no greater than all later ones, with `min_t` equal to its distance |
| Scan.ScanMinFinds | mesh.cpp:58-70 | the first-minimum characterisation determines the fold's result: the fold keeps exactly that index |
| Spheres.Sphere.Intersection | sphere.cpp:5-39 | the object is always this sphere and the part is always the input part; a negative discriminant gives distance -1; with an exact square root, `t0 <= t1` (so the `t1 < 0` branch is dead), the result is `t0` when the roots are distinct and `t0 >= 0`, and `t1` otherwise (including the negative `t1` when both roots are negative); the result solves the quadratic; a zero discriminant gives `-b/2` |
| Spheres.Sphere.RootsAreRoots | sphere.cpp:22-23 | with an exact square root both `t0` and `t1` solve `t^2 + b t + c = 0`, and `t0 <= t1` |
| Spheres.Sphere.HitOnSurface | sphere.cpp:7-14 | with a unit direction and an exact square root, the point at the returned distance is at distance `radius` from the centre |
| Spheres.Sphere.Normal | sphere.cpp:41-48 | the normal is parallel to `point - center`, whatever the part; where `sqrt` is exact at the squared length of `(point - center) / radius` and the point is off the centre, it points outward (positive dot product with `point - center`) for a positive radius and inward for a negative one |
| Spheres.ExampleHeadOn | sphere.cpp:27-36 | a ray from (0,0,5) along -z meets the unit sphere at the origin at distance 4, the nearer root |
| Planes.Plane.Intersection | plane.cpp:10-22 | the object is always this plane; a parallel ray starting on the plane gives distance 0 and part 0; a parallel ray off the plane gives -1 and the input part; any other ray gives `upper/lower` with the input part, and that point satisfies `dot(p - x1, normal) == 0` |
| Planes.Plane.OnPlane | plane.cpp:21 | the parameter `upper/lower` satisfies `t * lower == upper`, and the ray's point there lies on the plane |
| Planes.Plane.Normal | plane.cpp:25-28 | the stored normal, whatever the point and part |
| Planes.Plane.BoundingBox | plane.cpp:32-38 | every `hi` component is `DBL_MAX` and `lo == -hi`, whatever the part |
| Planes.ExampleFromAbove | plane.cpp:21 | a ray from (0,5,0) along -y meets the plane y = 0 at distance 5 |
| Meshes.TestTriangle | mesh.cpp:103-137 | the test accepts exactly when the denominator is nonzero, the plane distance exceeds `small_t`, and beta, gamma and `1 - gamma - beta` all exceed `weight_tol`; an accepted result is the plane distance |
| Meshes.HitPoint | mesh.cpp:118-125 | with a nonzero denominator, `endpoint + dist d == A + beta AB + gamma AC`, and that point lies in the triangle's plane |
| Meshes.Recovered | mesh.cpp:118-125 | barycentric coordinates are unique: if the ray's point at `t` is `A + beta AB + gamma AC`, the test computes exactly `t`, `beta` and `gamma` |
| Meshes.InsideAccepted | mesh.cpp:120-134 | a ray reaching a point beyond `small_t` whose weights all exceed `weight_tol` is accepted at that distance |
| Meshes.EdgePointAccepted | mesh.cpp:128-130 | with `weight_tol < 0`, a point on edge BC beyond `small_t` is accepted |
| Meshes.EdgePointAcceptedAB | mesh.cpp:128-130 | with `weight_tol < 0`, a point on edge AB beyond `small_t` is accepted |
| Meshes.EdgePointAcceptedCA | mesh.cpp:128-130 | with `weight_tol < 0`, a point on edge CA beyond `small_t` is accepted |
| Meshes.EdgePointRejected | mesh.cpp:128-130 | with `weight_tol >= 0`, the same edge point is rejected |
| Meshes.EdgePointRejectedAB | mesh.cpp:128-130 | with `weight_tol >= 0`, a point on edge AB is rejected |
| Meshes.EdgePointRejectedCA | mesh.cpp:128-130 | with `weight_tol >= 0`, a point on edge CA is rejected |
| Meshes.MeshData.Intersection | mesh.cpp:43-74 | the object is this mesh or null, and a null hit is the indeterminate miss; with `part >= 0` the result is non-null exactly when that triangle's test accepts, and then it carries that part and distance; with `part < 0` the result is null exactly when no triangle is accepted below `FLT_MAX`, and otherwise it is the first triangle with the smallest accepted distance |
| Meshes.AllPartsNearest | mesh.cpp:58-70 | an all-parts hit lies beyond `small_t` and is no farther than any triangle accepted below `FLT_MAX`; a triangle with a lower index is strictly farther |
| Meshes.MeshData.Normal | mesh.cpp:77-89 | the normal is perpendicular to both edges AB and AC of that triangle and parallel to `cross(AB, AC)`, whatever the point; where `sqrt` is exact at a nonzero squared length of `cross(AB, AC)` it points the same way as `cross(AB, AC)` |
| Meshes.Mesh.ReadObj | mesh.cpp:12-40 | vertices gain exactly the vertex records' vertices, and triangles gain exactly the face records' triangles, one record per pass of `while(fin)`, in file order; `number_parts` equals the number of stored triangles |
| Meshes.LoopRecordsTerminated | mesh.cpp:23-25 | a file ending with a newline (or an empty file) is read exactly as its lines: the extra pass sees an empty line and adds nothing |
| Meshes.LoopRecordsUnterminated | mesh.cpp:23-37 | without a final newline the last line is read twice: a final vertex is stored twice, a final face's triangle is stored twice, right after itself |
| Meshes.ParsedLine | mesh.cpp:27-37 | a vertex record adds its vertex; a face record adds its three indices, each one less, in the order given; any other record adds nothing |
| Meshes.ParsedAppend | mesh.cpp:23-38 | reading two runs of lines one after the other adds their vertices and their triangles one after the other |
| Meshes.ParsedTrianglesWithin | mesh.cpp:33-36 | face indices in `1..n` become triangle indices in `0..n-1` |
| Meshes.ReadObjValid | mesh.cpp:33-39 | reading faces whose indices name existing vertices keeps every stored triangle well formed |
| Meshes.Mesh.Intersection | mesh.cpp:43-74 | the loop (running `min_t` from `FLT_MAX`, strict `<`) returns exactly the hit the value-level intersection describes |
| Objects.Normal | render_world.cpp:72 | a plane gives its stored normal; a sphere a vector parallel to `point - center`; a mesh a vector perpendicular to both edges AB and AC of the named triangle |
| Objects.Intersection | render_world.cpp:29 | spheres and planes name themselves, and a sphere keeps the input part; a mesh names itself or null; an all-parts hit that names a mesh carries one of its triangles |
| RenderWorld.NewWorld | render_world.cpp:9-12 | a fresh world has depth limit 3 |
| RenderWorld.ClosestHit | render_world.cpp:23-36 | the result is the sentinel `{null, -1, 0}` exactly when no object's hit lies strictly between `small_t` and `DBL_MAX`, so the -1 misses never survive; otherwise it is some object's own hit, beyond `small_t`, no farther than any qualifying hit, with every earlier qualifying object strictly farther (ties go to the earliest); a non-null result is the hit of the object it names |
| RenderWorld.ClosestIntersection | render_world.cpp:23-36 | the loop returns exactly the closest hit |
| RenderWorld.CastRay | render_world.cpp:64-81 | `Cast_Ray` shades the closest hit; its contract is carried by `CastRayMiss` (no hit: the background shader with zero point and normal) and `CastRayHit` (a hit: the object's material at the hit point with its normal there), both at the same depth |
| RenderWorld.Shade | reflective_shader.cpp:5-23 | `Shade_Surface` for each shader kind; the reflective case is carried by `ReflectiveShader.BelowLimit` (blend with a cast one level deeper) and `ReflectiveShader.AtLimit` (the attenuated base only) |
| RenderWorld.PrimaryColor | render_world.cpp:48 | a pixel's colour is a cast at depth 1; the nesting of its casts is bounded by `PrimaryNesting` |
| RenderWorld.CastRayMiss | render_world.cpp:70-79 | whenever the closest hit names no object (the sentinel, or a qualifying null hit such as a mesh's miss), the cast is the background shader at the same ray and depth, with zero point and normal |
| RenderWorld.EmptyMeshMiss | render_world.cpp:22-34 | in a scene of one empty mesh, wherever the miss's indeterminate distance qualifies, the closest hit is that miss and not the sentinel, and the ray still gets the background colour |
| RenderWorld.CastRayHit | render_world.cpp:68-75 | when the closest hit names object `k`, that hit is `k`'s own all-parts hit, and the cast is `k`'s material at `ray.Point(dist)`, with `k`'s normal at that point and part, at the same depth |
| RenderWorld.CastNestingBound | reflective_shader.cpp:15-17 | a cast at `depth` nests at most `limit - depth + 1` casts, counting itself (just itself at or past the limit) |
| RenderWorld.ShadeNestingBound | reflective_shader.cpp:15-20 | a shader at `depth` starts at most `limit - depth` nested casts (none at or past the limit) |
| RenderWorld.PrimaryNesting | render_world.cpp:48 | a primary ray at depth 1 nests at most `max(limit, 1)` casts |
| ReflectiveShader.ReflectDot | reflective_shader.cpp:12 | `d - 2 (d . n) n` has dot product `-(d . n)` with a unit normal |
| ReflectiveShader.BelowLimit | reflective_shader.cpp:9-19 | below the limit the result is `(1-k) base + k Cast_Ray(Ray(point, r), depth+1)`; `base` is the inner shader at the same ray, point, normal and depth, and `r` is the normalised mirror direction |
| ReflectiveShader.AtLimit | reflective_shader.cpp:20 | at or past the limit the result is `(1-k) base` |
| ReflectiveShader.ZeroReflectivity | reflective_shader.cpp:18-20 | with reflectivity 0 the result is the base colour, on both branches |
| ReflectiveShader.NoCastAtLimit | reflective_shader.cpp:20 | at or past the limit no `Cast_Ray` call is made: two worlds with the same limit give the same shaded colour |
| ReflectiveShader.NoNestingAtLimit | reflective_shader.cpp:20 | at or past the limit a shader starts no cast |

## Left out

- Opening the file and `exit(EXIT_FAILURE)` in `Read_Obj` (mesh.cpp:14-18): file I/O. `ReadObj` receives the lines already classified.
- Text-to-number parsing with `getline` and `sscanf` (mesh.cpp:23-33): each line of the file arrives as a record, `Vertex(v)`, `Face(i, j, k)` or `Other`, together with whether the file ends with a newline. The loop runs once per record plus one extra pass (`LoopRecords`): that pass sees an empty line when the file ends with a newline, and a repeat of the last line when it does not.
- `box.Make_Empty` and `box.Include_Point` in `Read_Obj` (mesh.cpp:22,30): `Box` is not part of this model, so the mesh's bounding box is not kept.
- `Render` and `Render_Pixel` (render_world.cpp:39-60): these are camera and frame-buffer plumbing. Only the primary depth 1 is kept, as `PrimaryColor` and `PrimaryNesting`.
- The destructor (render_world.cpp:14-19): memory management.
- The unimplemented stubs: `Initialize_Hierarchy`, `Sphere::Bounding_Box` and `Mesh::Bounding_Box` (render_world.cpp:83-90, sphere.cpp:50-55, mesh.cpp:141-146) are `TODO`. The hierarchy is not modelled, and neither is `disable_hierarchy`.
- phong_shader.cpp is not part of this model. Lights, shadows and ambient intensity are not modelled; a local lighting model is an arbitrary `Local` function.
- The flat shader, `Object`, `Hit`, `Ray` and `vec3` headers are not part of this model. `Flat` returns its colour, and a `Ray` keeps the direction it is given.
- The default null `background_shader` (render_world.cpp:10): a world in the model always has a background shader, and calling through a null pointer is not modelled.
- Floating point: rounding, infinities and NaNs are not modelled, and the arithmetic is exact over the reals.
- The `float` `min_t` of `Mesh::Intersection` (mesh.cpp:45,62): distances are compared exactly, and only its start value `FLT_MAX` is kept.
- Zero denominators in `Intersect_Triangle` (mesh.cpp:118,123,125): all three denominators are plus or minus the same determinant. Where it is zero the doubles become infinite or NaN and the test fails, so `TestTriangle` returns `None` there.
- Vec.Normalized: a zero vector, which becomes NaNs in doubles, is returned unchanged. Unit length is proved only where `Sqrt` is exact.
- Spheres.Sphere.Intersection: the root-selection and root clauses are stated only where `Sqrt` is exact at the discriminant, because `sqrt` is unspecified elsewhere.
- Spheres.Sphere.Normal: the radius must be nonzero, because the source divides by it. Through `Objects.ValidShape` and `RenderWorld.World.Valid` the same requirement also keeps zero-radius spheres out of `Objects.Intersection`, `RenderWorld.ClosestHit` and `RenderWorld.ClosestIntersection`, although `Sphere::Intersection` itself never divides by the radius. The direction is stated only where `Sqrt` is exact and the point is off the centre.
- Meshes.MeshData.Intersection: triangles must name existing vertices and `part` must be below the number of triangles, because the source indexes without checks. The distance and part of a null result are unknown constants, because the source leaves them uninitialised.
- Meshes.MeshData.Normal: the part must name an existing triangle (mesh.cpp:79 asserts `part >= 0`). Unit length is not stated, and the direction is stated only where `Sqrt` is exact.
- ReflectiveShader.NoCastAtLimit: the equal colours in two worlds rest on the `Local` shaders reading nothing of the scene. The Phong shader with shadows casts shadow rays into the world (phong_shader.cpp:27-33), and the reflective shader runs its base shader at reflective_shader.cpp:9, so in the source the colour at the limit can still depend on the objects; what the lemma keeps is that no `Cast_Ray` call is made there.
- RenderWorld.CastRay, RenderWorld.Shade, RenderWorld.PrimaryColor: these functions carry no `ensures` of their own; what they compute is stated by the lemmas their rows name.
- RenderWorld.CastNestingBound: `CastNesting` and `ShadeNesting` follow the recursion of `CastRay` and `Shade` written out again by hand, so the bound is about that copy; no lemma ties the copy to `CastRay`.
- Objects.Normal: the sphere and mesh orientation clauses of `Spheres.Sphere.Normal` and `Meshes.MeshData.Normal` are not repeated here.
- Objects.Intersection: for planes the part clause is left out, because a ray starting on the plane reports part 0.
