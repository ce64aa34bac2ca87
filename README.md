# rust-rtnw path tracer, modelled in Dafny

This project models the deterministic core of the `rust-rtnw` path tracer
(the "Ray Tracing: The Next Week" renderer written in Rust). It covers the
ray, axis-aligned bounding boxes, and the scene list's closest-hit search.
It also covers spheres and moving spheres, axis-aligned rectangles, and the
flip, block, translate and rotate instances. The rest of the core is the
constant-density medium, the materials and textures, Perlin lattice
indexing, the thin-lens camera, and the depth-capped recursive integrator
`color`.

The model follows the code's own forms:

- The objects of `Hitable { hit, bounding_box }` form one closed datatype,
  `Hitables.Hitable`. Its `hit` and `bounding_box` are recursive functions.
- `HitableList::hit` and `HitableList::bounding_box` are methods with
  loops. So are the three corner loops of `Rotate::new` and the rejection
  loops `random_in_unit_sphere` and `random_in_unit_disk`. Each is proved
  against a specification function or an outright property.
- `color` is a recursive method that calls the list's `hit` loop. It is
  proved equal to the function `Integrator.Radiance`, and the lemmas about
  the integrator are stated over that function.

Numbers are exact `real`s. `sqrt`, `sin`, `cos`, `tan` and `ln` are
uninterpreted functions, bundled in `Numerics.Math`. The only law assumed
is that `sqrt` is a true square root (`Numerics.SqrtLaw`): it is
non-negative, and its square is its argument for a non-negative argument.
Lemmas that need this law take it as a precondition. Randomness is an
input:

- the rejection loops take their sequence of draws;
- a `Draw` gives each bounce of `color` its free-flight uniform, its unit-sphere
  point and its Schlick uniform;
- the camera takes its lens and time draws.

The model keeps several defects of the code as written. Where a defect
changes behaviour, a lemma exhibits it:

- `AABB::hit` tests every axis against the caller's window. The `let`
  bindings of `tmin`/`tmax` shadow the window instead of narrowing it. So
  the test accepts a ray whose slab intervals each overlap the window but
  not each other (`Aabb.ShadowedWindowAcceptsMiss`).
- `HitableList::bounding_box` binds each union to a fresh local and drops
  it. So the list reports its first member's box
  (`HitableLists.ShadowedUnionDropsSecondMember`).
- `Rectangle::bounding_box` puts `a0` and `b1` in both in-plane
  coordinates and pads `k` on z, whatever the plane. So the box can miss
  the rectangle. `Rectangles.BoxBoundsIff` says exactly when it holds it,
  `Rectangles.TallRectEscapesBox` shows that no YZ or ZX rectangle more
  than 0.0002 tall along z fits, and `Rectangles.BoxMissesHitPoint` gives a
  hit point outside the box.
- `Rotate::hit` has two slips in its z formulas:
  - it computes the record's `p.z` as `s·x + s·z`;
  - it computes `normal.z` as `s·n.z + c·n.z`.

  It also turns the hit point back with the same rotation it gave the ray,
  rather than the inverse. At angle 0 the first slip alone forces
  `p.z = 0` (`Transforms.RotateRecordFlattensZ`). A quarter turn shows all
  three: x comes out wrong, z is x + z rather than −x, and a unit normal
  (0, 0, 1) comes back as (−1, 0, 1) (`Transforms.RotateRecordQuarterTurn`).
- `Sphere::hit` asks for a strictly positive discriminant. A ray that
  grazes the sphere touches it at one point, inside the window or not, and
  gets no hit (`Spheres.TangentMissed`).
- `FlipNormals::hit` has its negation commented out. It returns the
  child's record unchanged (`Hitables.FlipIsTransparent`).
- `ConstantMedium::hit` computes `−(1/density) / ln(u)`, dividing by the
  logarithm rather than multiplying by it (`Media.HitDistance`).

The code is not consistent with itself in two places, and the model picks
one reading:

- src/ray.rs:4-10 declares the ray's fields as `A`, `B` and `_time`, and
  camera.rs:64-70 builds rays with those names. The rest of the code builds
  and reads rays as `origin`, `direction` and `time` (material.rs:38-42,
  aabb.rs:17-19, medium.rs:41, translate.rs:91-95). The model uses the
  latter names; both spellings denote the same three values.
- sphere.rs:45-50 builds its records without `u` and `v`, and the model
  sets both to 0.

## Model

| member | source | states |
|---|---|---|
| Rays.PointAtParameter | src/ray.rs:23-26 | origin + t·direction; its lemmas below give the origin at 0, affinity in t and the offset t·direction |
| Rays.PointAtZero | src/ray.rs:23-26 | the point at parameter 0 is the origin |
| Rays.PointAtAffine | src/ray.rs:23-26 | the point is affine in t: point(s+t) = point(s) + t·direction |
| Rays.PointAtOffset | src/ray.rs:23-26 | point(t) − origin = t·direction |
| Rays.PointAtExample | src/ray.rs:47-55 | origin 0, direction (1,2,3) and t = 2 give (2,4,6) |
| Aabb.FMin | src/aabb.rs:47-53 | the result is one of the arguments and at most both |
| Aabb.FMax | src/aabb.rs:55-61 | the result is one of the arguments and at least both |
| Aabb.SurroundingBox | src/aabb.rs:33-45 | the union contains both boxes, and each bound is a bound of one of them (so it is the least such box) |
| Aabb.SurroundingBoxCommutative | src/aabb.rs:33-45 | the union is commutative |
| Aabb.SurroundingBoxAssociative | src/aabb.rs:33-45 | the union is associative |
| Aabb.SurroundingBoxIdempotent | src/aabb.rs:33-45 | the union of a box with itself is the box |
| Aabb.Hit | src/aabb.rs:15-30 | the slab loop returns true iff every axis's swapped slab interval, clipped to the caller's window, is non-empty |
| Aabb.SlabIntervalOrdered | src/aabb.rs:17-22 | after the swap, t0 ≤ t1 on an axis where min ≤ max |
| Aabb.EmptyWindowMisses | src/aabb.rs:23-27 | a window with tmax ≤ tmin is never open on any axis, so hit is false |
| Aabb.InsideSlabOpens | src/aabb.rs:17-27 | a point strictly inside an axis's slab at a t inside the window opens that slab |
| Aabb.InsideImpliesHit | src/aabb.rs:15-30 | a ray through the box's interior at a t inside the window passes every axis (no false negatives) |
| Aabb.ShadowedWindowAcceptsMiss | src/aabb.rs:23-24 | because of the shadowing, a ray that never meets the unit box passes all three axis tests |
| Hitables.Hit | src/hitable.rs:17-18 | each object's hit; an empty window (t_max < t_min) never finds anything; NearestHit.AllConsistent proves every object answers as a nearest-hit query |
| Hitables.ListFold | src/hitable_list.rs:20-26 | the closest-so-far loop from member i on; a window already empty keeps the record so far |
| Hitables.ListHit | src/hitable_list.rs:17-27 | the loop from the first member with the caller's window; an empty list or empty window gives None |
| Hitables.BoundingBox | src/hitable.rs:17-19 | each object's box; an object has one exactly when every rotation along its chain of children stores one, as Rotate::new always does |
| HitableLists.Hit | src/hitable_list.rs:17-27 | the loop returns the closest-so-far fold; None iff no member has a hit in the window; with a true sqrt and non-negative medium samples, a hit in the window no farther than any member's hit |
| HitableLists.BoundingBox | src/hitable_list.rs:29-47 | None iff the list is empty or some member has no box; otherwise the first member's box |
| HitableLists.Size | src/hitable_list.rs:11-13 | the number of members; both loops of the list run over 0 .. Size |
| HitableLists.ShadowedUnionDropsSecondMember | src/hitable_list.rs:29-47 | the box the list method reports for unit spheres at the origin and at (5, 0, 0) is the first sphere's box, which does not contain the second sphere's box |
| NearestHit.FoldKeeps | src/hitable_list.rs:20-25 | once the loop holds a record it keeps one |
| NearestHit.FoldSource | src/hitable_list.rs:20-26 | the loop's answer is its starting record or some member's answer |
| NearestHit.FoldNone | src/hitable_list.rs:19-26 | from any member on, the loop finds nothing iff no remaining member has a hit in the current window |
| NearestHit.FoldNearest | src/hitable_list.rs:18-26 | with window-consistent members the loop's answer is in the window and no farther than any remaining member's hit |
| NearestHit.ListNoneIff | src/hitable_list.rs:17-27 | the list's hit is None iff every member's hit in the caller's window is None |
| NearestHit.ListNearest | src/hitable_list.rs:17-27 | with window-consistent members the list's hit is the nearest member hit in the window |
| NearestHit.BlockConsistent | src/block.rs:84-86 | a block over window-consistent faces answers every window as a nearest-hit query |
| NearestHit.SphereConsistent | src/sphere.rs:26-58 | a sphere answers every window as a nearest-hit query |
| NearestHit.MovingSphereConsistent | src/sphere.rs:104-136 | so does a moving sphere |
| NearestHit.RectangleConsistent | src/rectangle.rs:47-81 | so does a rectangle |
| NearestHit.MediumConsistent | src/medium.rs:27-58 | so does a constant medium whose sampled distance is non-negative |
| NearestHit.MediumIsSample | src/medium.rs:27-58 | the medium's answer for any window is the sample between its two boundary hits, which ignore the window |
| NearestHit.MediumBounded | src/medium.rs:30-53 | a medium hit lies in the closed window |
| NearestHit.MediumNarrows | src/medium.rs:30-53 | pulling the far end in past a medium hit keeps it |
| NearestHit.MediumWidens | src/medium.rs:30-53 | pushing the far end out keeps a medium hit |
| NearestHit.FlipConsistent | src/flip.rs:16-23 | flip keeps its child's consistency |
| NearestHit.TranslateConsistent | src/translate.rs:20-28 | translate keeps its child's consistency |
| NearestHit.RotateConsistent | src/translate.rs:90-111 | rotate keeps its child's consistency |
| NearestHit.AllConsistent | src/hitable.rs:7-20 | every scene object (by structural induction) answers every window as a nearest-hit query |
| NearestHit.WorldNearest | src/hitable_list.rs:17-27 | the scene's hit is in the window and no farther than any member's hit |
| Spheres.Hit | src/sphere.rs:26-58 | None for discriminant ≤ 0; t is temp1 when strictly inside the window, else temp2, always strictly inside; p is on the ray at t, normal = (p − center)/radius, material kept; None only when neither root is inside |
| Spheres.SurfaceQuadratic | src/sphere.rs:27-31 | the squared distance from the surface along the ray is the quadratic of the coefficients a, b, c |
| Spheres.PositiveDiscriminantLeading | src/sphere.rs:33-35 | a positive discriminant forces a > 0 |
| Spheres.FlatWithoutDirection | src/sphere.rs:28-31 | a zero direction gives a zero discriminant |
| Spheres.RootsOrdered | src/sphere.rs:35-36 | temp1 ≤ temp2 under a true sqrt |
| Spheres.QuadraticRoots | src/sphere.rs:35-36 | under a true sqrt, temp1 and temp2 are exactly the roots of the quadratic |
| Spheres.HitIsNearestIntersection | src/sphere.rs:33-57 | the returned t is on the sphere and the nearest such t inside the window; with no hit, the ray meets the sphere inside the window only if the discriminant is zero (a graze) |
| Spheres.HitOnSphere | src/sphere.rs:35-42 | a reported t is on the sphere |
| Spheres.NoRealRoot | src/sphere.rs:33 | a negative discriminant means the ray never meets the sphere |
| Spheres.TangentMissed | src/sphere.rs:33-57 | a moving ray with zero discriminant touches the sphere at t = −b/a, yet hit returns None for every window |
| Spheres.ScalarNoRoot | src/sphere.rs:31 | a·t² + 2bt + c has no root when a > 0 and b² − ac < 0 |
| Spheres.ScalarDoubleRoot | src/sphere.rs:31 | with b² − ac = 0 and a > 0, t·a = −b is a root |
| Spheres.UnitNormal | src/sphere.rs:43-44 | for a non-zero radius the normal has unit length |
| Spheres.WindowNarrowing | src/sphere.rs:37-42 | pulling the far end in past the hit keeps the same hit |
| Spheres.WindowWidening | src/sphere.rs:37-42 | pushing the far end out keeps a hit found in the narrower window |
| Spheres.CenterAtTime | src/sphere.rs:97-100 | the centre is center0 at time0 and center1 at time1 (for time1 ≠ time0) |
| Spheres.Box | src/sphere.rs:60-66 | centre ± (r, r, r); BoxBoundsSphere shows it holds the sphere |
| Spheres.BoxBoundsSphere | src/sphere.rs:60-66 | every point of the sphere lies in centre ± (r, r, r) |
| Hitables.MovingSphereBoxContains | src/sphere.rs:138-149 | the moving sphere's box contains its boxes at t0 and at t1 |
| Rectangles.Axes | src/rectangle.rs:48-52 | the (a, b, k) axes are three distinct indices below 3 |
| Rectangles.Hit | src/rectangle.rs:47-81 | None when the ray is parallel to the plane; a hit has t in the closed window, p on the rectangle at t, the k-axis unit normal and the material; u, v in [0, 1] for non-degenerate spans |
| Rectangles.HitFindsEveryCrossing | src/rectangle.rs:53-60 | a ray that reaches the rectangle at a t inside the window is hit there |
| Rectangles.PlaneParameterUnique | src/rectangle.rs:53 | the crossing parameter is the only t at which the ray is on the plane |
| Rectangles.WindowStable | src/rectangle.rs:53-55 | the crossing does not depend on the window |
| Rectangles.FractionInUnit | src/rectangle.rs:62-63 | (x − lo)/(hi − lo) lies in [0, 1] for lo ≤ x ≤ hi and lo < hi |
| Rectangles.Box | src/rectangle.rs:83-89 | the box as written; what it means is stated by BoxBoundsIff |
| Rectangles.BoxBoundsIff | src/rectangle.rs:83-89 | for a non-empty rectangle, the box holds every point of it exactly when: XY, a1 ≤ b1 and a0 ≤ b0; YZ or ZX, also k in [a0, b1] and the whole z extent within 0.0001 of k |
| Rectangles.TallRectEscapesBox | src/rectangle.rs:83-89 | every YZ or ZX rectangle more than 0.0002 tall along z has a point outside its box |
| Rectangles.BoxMissesHitPoint | src/rectangle.rs:84-87 | a YZ rectangle's hit point lies outside the box the rectangle reports |
| Hitables.FlipIsTransparent | src/flip.rs:16-27 | flip passes the same ray and window, returns the child's record unchanged (None iff the child's is) and reports the child's box |
| Blocks.Faces | src/block.rs:18-73 | the six rectangles of Block::new, far and flipped near faces across z, y and x; FaceHitOnSurface puts their hits on the box's surface |
| Blocks.NewBlock | src/block.rs:17-80 | a block over those faces with corners pmin and pmax; BlockHitOnSurface and BlockNearestFace state its hits and box |
| Blocks.FaceHitOnSurface | src/block.rs:18-73 | each of the six faces' hits lies on the box's surface and carries the block's material |
| Blocks.BlockHitOnSurface | src/block.rs:17-91 | a hit on the block is on the surface of [pmin, pmax] with the block's material; the box is [pmin, pmax] at every time |
| Blocks.BlockNearestFace | src/block.rs:84-86 | the block's hit is None iff no face has a hit, and is otherwise the nearest face hit in the window |
| Transforms.TranslateRay | src/translate.rs:21 | the child sees origin − offset with the same direction and time |
| Transforms.TranslateRecord | src/translate.rs:22-24 | the record's p moves by the offset; t, u, v, normal and material are kept |
| Transforms.TranslateBox | src/translate.rs:30-38 | both corners of the box move by the offset |
| Transforms.TranslatedPointOnRay | src/translate.rs:21-23 | a point the child finds on the moved ray, moved back, is on the caller's ray at the same t |
| Transforms.TranslateBoxContains | src/translate.rs:30-38 | a point is in the child's box iff the shifted point is in the shifted box |
| Hitables.TranslateHit | src/translate.rs:20-28 | translate's hit is None iff the child's is; otherwise the child's record with p shifted |
| Hitables.TranslateBounds | src/translate.rs:30-38 | translate's box is None iff the child's is; otherwise it is shifted |
| Transforms.RotateY | src/translate.rs:63-64 | rotation about y keeps y |
| Transforms.RotateYRoundTrip | src/translate.rs:63-64 | for s² + c² = 1, rotating by −θ undoes rotating by θ |
| Transforms.RotateYKeepsLength | src/translate.rs:63-64 | for s² + c² = 1, rotation keeps squared length |
| Transforms.RotateRay | src/translate.rs:91-97 | the child sees the ray turned about y; y of origin and direction and the time are kept |
| Transforms.RotateRecord | src/translate.rs:99-107 | the record's p and normal are given by the formulas as written; t, u, v and material are kept |
| Transforms.RotateRecordFlattensZ | src/translate.rs:101-102 | at angle 0 the returned p has z = 0, so it is not the child's point turned back |
| Transforms.RotateRecordQuarterTurn | src/translate.rs:99-104 | at a quarter turn p.x uses the ray's rotation, not its inverse; p.z is x + z, not −x; normal.z stays n.z, not −n.x, so (0, 0, 1) becomes (−1, 0, 1) of squared length 2 |
| Transforms.Tester | src/translate.rs:60-65 | a turned corner has the corner's height |
| Transforms.AxisStep | src/translate.rs:67-74 | one component update keeps min/max bounding every tester so far, each end attained |
| Transforms.RotatedBounds | src/translate.rs:54-79 | after the loops, min and max bound all eight turned corners componentwise, each end attained by one of them |
| Transforms.Absorb | src/translate.rs:67-74 | folding one more corner into min and max: each component of max becomes the larger of the old max and the corner's, of min the smaller, so the bounds now cover that corner too |
| Transforms.RotatedKeepsYExtent | src/translate.rs:60-65 | for a finite, ordered child box, the rotated box keeps the child's y extent |
| Transforms.TesterHeight | src/translate.rs:57-65 | the n-th tester's height is the bottom or top of the box, as its j bit says |
| Instances.NewRotate | src/translate.rs:48-87 | stores the child with sin and cos of the angle in radians, and a box that bounds the turned corners and keeps the child's y extent; the rotated object reports that box at every time |
| Hitables.RotateHit | src/translate.rs:89-115 | rotate's hit is None iff the child's is; otherwise the child's record rotated as written; the box is the stored one |
| Media.HitDistance | src/medium.rs:42 | the sampled distance is positive for positive density and ln u < 0, and satisfies d · ln u · density = −1 |
| Media.Entry | src/medium.rs:30-39 | the entry is raised to t_min and then to 0, and is one of the three |
| Media.Exit | src/medium.rs:33-35 | the exit is lowered to t_max, and is one of the two |
| Media.Sample | src/medium.rs:36-53 | a hit needs the clipped segment to be non-empty; the record has u = v = 0, normal (1, 0, 0), the phase material, and p on the ray at t |
| Media.FlightInside | src/medium.rs:41-44 | with a non-negative distance, a flight exists iff the clipped segment is non-empty and d < (exit − entry)·\|dir\|; it then lands in [entry, exit) at exactly path length d |
| Media.FlightNarrowing | src/medium.rs:41-44 | pulling the exit in past the flight keeps it |
| Media.FlightWidening | src/medium.rs:41-44 | pushing the exit out keeps a flight found on the shorter segment |
| Media.SampleInsideSegment | src/medium.rs:41-53 | a hit's t satisfies entry ≤ t < exit and (t − entry)·\|dir\| equals the sampled distance |
| Media.SampleWindowStable | src/medium.rs:30-53 | narrowing t_max past the hit keeps it, and widening keeps a hit found in the narrower window |
| Hitables.MediumHit | src/medium.rs:27-62 | None when the boundary is missed or has no second hit past rec1.t + 0.0001; a hit needs a non-empty clipped segment and has the phase material, normal (1, 0, 0), u = v = 0; the box is the boundary's |
| Materials.Reflect | src/material.rs:111-113 | v − 2(v·n)n; ReflectNegatesNormalComponent and ReflectInvolution state what it does |
| Materials.ReflectNegatesNormalComponent | src/material.rs:111-113 | for a unit normal, reflect(v, n)·n = −(v·n) |
| Materials.ReflectInvolution | src/material.rs:111-113 | for a unit normal, reflecting twice gives v back |
| Materials.Refract | src/material.rs:173-183 | refract is Some iff 1 − r²(1 − dt²) > 0 |
| Materials.NormalReflectance | src/material.rs:186-187 | r0 ≥ 0, and r0 < 1 for a positive index |
| Materials.Schlick | src/material.rs:185-189 | r0 + (1 − r0)(1 − cosine)⁵; SchlickAtNormalIncidence and SchlickBounds state its value at normal incidence and its range |
| Materials.SchlickAtNormalIncidence | src/material.rs:185-189 | schlick(1, idx) = r0 |
| Materials.SchlickBounds | src/material.rs:185-189 | for idx > 0 and cosine in [0, 1] the reflectance lies in [r0, 1] |
| Materials.RandomInUnitSphere | src/material.rs:98-109 | the loop returns the first candidate with squared length ≤ 1 |
| Materials.Emitted | src/material.rs:52-54 | a light emits its texture value; every other material emits zero |
| Materials.Scatter | src/material.rs:36-211 | Lambertian always scatters from p at the ray's time towards normal + the sphere point, attenuated by its texture at (u, v, p); Metal uses fuzz min(fuzz, 1) and its albedo, and scatters iff the fuzzed reflection has a positive dot with the normal; Dielectric always scatters with white attenuation from p, reflecting when refract is None and otherwise choosing by the draw against Schlick; a light never scatters |
| Materials.DielectricFrame | src/material.rs:136-144 | the outward normal, ratio and cosine of the dielectric; DielectricFrameChoice states the choice by the sign of dir·n |
| Materials.DielectricFrameChoice | src/material.rs:136-144 | the outward normal is −n with ratio idx when dir·n > 0, else n with 1/idx |
| Textures.Value | src/texture.rs:21-107 | each texture's value; ConstantIgnoresInputs, CheckerPicksBySign, ImageValueInUnitCube and ValueInUnitCube state what it returns |
| Textures.ConstantIgnoresInputs | src/texture.rs:21-25 | a constant texture ignores u, v and p |
| Textures.CheckerPicksBySign | src/texture.rs:39-47 | the checker picks odd iff the product of sines is negative |
| Textures.PixelCoordinates | src/texture.rs:91-100 | the pixel is the truncated (u·nx, (1−v)·ny), clamped to nx − 1 and ny − 1, so it is in range |
| Textures.PixelIndex | src/texture.rs:101-104 | idx, idx + 1 and idx + 2 are within the data |
| Textures.IndexInBounds | src/texture.rs:101-104 | 3i + 3·nx·j + 2 < len for i < nx, j < ny and 3·nx·ny ≤ len |
| Textures.ImageValueInUnitCube | src/texture.rs:102-105 | every channel is byte/255, so in [0, 1] |
| Textures.ValueInUnitCube | src/texture.rs:21-107 | every texture whose constant leaves lie in the unit cube returns a colour in the unit cube |
| Textures.Clamp | src/texture.rs:109-111 | clamp is the larger of min(x, 0) and the bound |
| Textures.ClampReturnsBound | src/texture.rs:109-111 | as written, clamp returns its bound whenever the bound is non-negative |
| PerlinNoise.LatticeIndex | src/perlin.rs:23-25 | every lattice index is below 256 |
| PerlinNoise.Xor3 | src/perlin.rs:26 | the xor of three values below 256 is below 256 |
| PerlinNoise.Noise | src/perlin.rs:22-27 | noise returns an element of ranfloat |
| PerlinNoise.PerlinGenerate | src/perlin.rs:30-33 | exactly 256 values, the draws in order |
| PerlinNoise.PerlinGeneratePerm | src/perlin.rs:35-40 | the shuffled table is a permutation of 0..255 |
| PerlinNoise.PermutationEntriesBelow256 | src/perlin.rs:35-40 | every entry of such a permutation is below 256 |
| PerlinNoise.NewPerlin | src/perlin.rs:13-20 | the new noise has valid tables and the generated values |
| Cameras.NewCamera | src/camera.rs:21-59 | lens radius = aperture/2; v = w × u; u, v, w pairwise orthogonal; lower_left + ½horizontal + ½vertical = origin − focus·w; horizontal = aspect·height along u and vertical = height along v |
| Cameras.NewCameraOrthonormal | src/camera.rs:40-42 | with a true sqrt, lookfrom ≠ lookat and vup not parallel to w, u, v and w have unit length |
| Cameras.RandomInUnitDisk | src/camera.rs:74-81 | the loop returns the first candidate with squared length < 1, and its z is 0 |
| Cameras.DiskCandidate | src/camera.rs:77-78 | a candidate has z = 0, and x, y in [−1, 1] for draws in [0, 1] |
| Cameras.ShutterTime | src/camera.rs:69 | the time lies in [time0, time1] for a draw in [0, 1] and time0 ≤ time1 |
| Cameras.LensOffset | src/camera.rs:62-63 | the offset is orthogonal to w and within the lens radius for an orthonormal basis |
| Cameras.GetRay | src/camera.rs:61-71 | origin + direction = lower_left + s·horizontal + t·vertical whatever the lens offset; the time is in the shutter interval; the origin is in the lens disk around the camera origin |
| Integrator.Radiance | src/color.rs:6-20 | the colour of a ray as a function of the scene, depth and draws; Color computes it, and RadianceCases, LightIsItsTexture, NonLightReflects and DarkWorldIsBlack state its cases |
| Integrator.Color | src/color.rs:6-20 | the recursion returns the colour Radiance defines, zero on a miss |
| Integrator.RadianceCases | src/color.rs:7-18 | a miss gives zero; at depth ≥ 50 or off a non-scattering material, exactly the emitted value |
| Integrator.LightIsItsTexture | src/color.rs:8-16 | a hit on a light returns its texture value unchanged |
| Integrator.NonLightReflects | src/color.rs:8-16 | off a non-light, the colour is the attenuated colour of the scattered ray, or black |
| Integrator.DarkHit | src/hitable.rs:7-20 | a record from an object with no light in it never carries a light |
| Integrator.DarkListHit | src/hitable_list.rs:17-27 | so does the scene list's record |
| Integrator.DarkWorldIsBlack | src/color.rs:6-20 | a scene with no light renders black for every ray, depth and draw |

## Left out

- src/scene.rs, src/main.rs, src/_bvh.rs and src/material_texture.rs are not part of this model. They cover scene building, image I/O, threads, an unfinished BVH and an abandoned draft.
- `NoiseTexture` is not modelled, because the `turbulence` it calls has no definition in src/perlin.rs. src/vec3.rs is outside the model; `make_unit_vector` is taken to be (1, 1, 1).
- `Isotropic` has no definition in the modelled source files. It is modelled as the phase function of a medium: it scatters from p with the unit-sphere point as the direction, is attenuated by its texture, and emits zero.
- f32 arithmetic is not modelled: no rounding, NaN or infinities. A division whose divisor may be zero goes through `Numerics.Quot`, which gives 0 there.
- `AABB::hit` requires every direction component to be non-zero, because the source's slab parameters are infinite otherwise.
- Rectangles.Hit: returns None for a ray parallel to the plane. When the ray is off the plane, the source's t is ±∞ and fails its window test, so the two agree. When the ray lies in the plane, the source's t is 0/0 = NaN, every comparison with it is false, and the source returns a record with NaN t, u, v and p; the model does not capture that record.
- Textures.Image: the image type requires nx ≥ 1, ny ≥ 1 and at least 3·nx·ny bytes. On other images `ImageTexture::value` panics: `nx - 1` or `ny - 1` underflows for an empty dimension, and the data index goes out of bounds for short data. These panic paths are not modelled.
- Instances.NewRotate: requires the child to report a box over [0, 1]. The source unwraps that box and panics when there is none; the panic is not modelled.
- sqrt, sin, cos, tan and ln are uninterpreted; only the square-root law is assumed. Properties of the medium that need a non-negative sampled distance take it as a hypothesis (`NearestHit.Sampled`), because ln of a draw in (0, 1) being negative is not derivable.
- Randomness is an input. Every constant medium met in one scene query uses the same free-flight draw. Termination of the rejection loops is not modelled: each loop requires an accepted candidate among its draws. Distributions are not modelled.
- `Materials.RandomInUnitSphere` is not called from `Scatter`: `Scatter` takes the point the loop returns as a parameter.
- Transforms.RotatedBounds: proves that the stored box bounds the eight turned corners. It does not prove that it bounds every turned point of the child's box; that would need bilinear bounds the solver does not reach here.
- Cameras.GetRay: the lens-disk and orthogonality clauses are conditional on an orthonormal basis, which `Cameras.NewCameraOrthonormal` gives only for a true square root and a non-degenerate view.
- Integrator.Color: takes one `Draw` per depth, so the random numbers of a bounce are fixed by its depth rather than drawn freshly.
- Recursion depth is a `nat`; the source's u32 `depth + 1` cannot overflow below the cap of 50.
