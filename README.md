# shade-tree core, modelled in Dafny

A model of the decision logic and the integer pixel handling of the shade-tree ray tracer:

- the nearest-hit search of a scene over its insertion-ordered object list;
- the ray–sphere intersection test and the order in which it tries the roots;
- the metal and diffuse scattering rules and the mirror reflection;
- the colour quantisation and 24-bit pixel packing;
- the ray value type;
- the two buffer fillers, `blank_screen` and `gradient`.

Every `f64` is a mathematical `real`. Rounding, NaN and infinities are not modelled. `u32` is a range-restricted integer type, and wrap-around and truncation are written out where the source relies on them.

The model is organised in modules:

- `Vec` (src/vec.rs): `Vec3f`, `Vec3i`, the saturating cast, `new_from_f64` and `to_hex`. `Vec3i::new` (src/vec.rs:44-46) is the datatype constructor `Vec.Vec3i`.
- `Rays` (src/ray.rs).
- `Materials` (src/material.rs): the material variants, `default` and `reflect`.
- `Visible` (src/visible.rs): `HitRecord`, and the shape of an intersection test.
- `Scattering` (src/material.rs): `scatter`.
  - It is a module of its own because a hit record holds a material and `scatter` takes a hit record.
- `Spheres` (src/sphere.rs).
- `Worlds` (src/world.rs).
- `Screen` (src/lib.rs).

Modelling choices:

- **`&mut` out-parameters.** A `&mut HitRecord` out-parameter becomes a value parameter `rec` (what the caller passed in) and a result `out` (what the record holds on return).
  - Where the Rust code assigns the record field by field (src/world.rs:26-29, src/sphere.rs:32-39), the model assigns whole records (`out := tmp.1`, `out.(t := ..., p := ..., normal := ...)`). The two are equivalent because `HitRecord` has exactly the four fields `t`, `p`, `normal`, `material`.
  - `scatter`'s two out-parameters become results beside its boolean answer.
- **Floating-point helpers.** `f64::sqrt`, `Vec3f::normalize` and `random_in_unit_sphere` are not part of this model. They are parameters:
  - `sqrt` is any function that gives a non-negative square root of a non-negative argument (`Spheres.IsSqrt`);
  - `normalize` is an arbitrary vector function;
  - the random point is an arbitrary vector `rnd`.
- **Vector operators.** The vector operators (`+`, `-`, `* f64`, `dot`) are componentwise real arithmetic. Their definitions are not part of src/vec.rs.
- **Scene objects.** A scene object (`Box<dyn Visible>`) is a function `HitOracle` from a ray, the interval bounds and the incoming record to the answer and the outgoing record.
  - `World.Hit` makes no assumption about what the oracle answers.
  - The properties that hold when the objects behave like spheres (hits only strictly inside the interval) are stated under that hypothesis.
- **Snapshot mismatches.** The source files are snapshots that disagree with each other; each file is modelled as written:
  - src/sphere.rs calls `ray.point_at`, which src/ray.rs defines as `point_at_parameter`; both are `Rays.Ray.PointAtParameter`.
  - src/material.rs calls a two-argument `Ray::new(p, d)`, which is what src/ray.rs calls `new_from_vec`; it is modelled as `Rays.Ray.NewFromVec`. The argument-less `Ray::new()` is `Rays.Ray.New`.
  - src/vec.rs:1-3 derives neither `Default` nor `Copy` for `Vec3f`, yet src/visible.rs:5 derives `Default` for `HitRecord`, src/lib.rs:186 calls `Vec3f::default()` and src/ray.rs:3 derives `Copy` for `Ray`. The model takes the default vector to be zero; no contract depends on the `p` or `normal` of the default record.

Points where the code behaves in a way a reader might not expect, and which the model keeps:

- **Tangent rays.** `Sphere::hit` requires `b*b - a*c > 0`, so a tangent ray (discriminant zero) is a miss.
- **Early material write.** The material is written into the record before the roots are tried. A miss with a positive discriminant therefore still changes `rec.material`.
- **Channel cast.** Channels are not clamped before quantisation; Rust's saturating `as u32` sends every negative product to 0.
- **Packing.** The packed pixel is `(r << 16) + (g << 8) + b` with `+`, not `|`. The two are guaranteed to agree while every channel is at most 255; above that the shifted channels can overlap and a carry can make them differ (for `(0, 1, 256)`, `+` gives `0x200` and `|` gives `0x100`).
- **Degenerate directions.** `Sphere::hit` divides by `a = d . d` without checking it. Over the reals no check is needed: a positive discriminant forces `a > 0` (`Spheres.SphereRoots`), so the division only happens with a non-zero divisor.

## Model

| member | source | states |
|---|---|---|
| Vec.Vec3f.R | src/vec.rs:25-27 | no contract of its own; see `Vec.ColorChannelsAreCoordinates` |
| Vec.Vec3f.G | src/vec.rs:29-31 | no contract of its own; see `Vec.ColorChannelsAreCoordinates` |
| Vec.Vec3f.B | src/vec.rs:33-35 | no contract of its own; see `Vec.ColorChannelsAreCoordinates` |
| Vec.Shl | src/vec.rs:57-58 | `u32 << k`, keeping the low 32 bits; no contract of its own; see `Vec.ToHex` |
| Vec.WrappingAdd | src/vec.rs:61 | `u32 +` with release-build wrap-around; no contract of its own; see `Vec.ToHex` |
| Vec.ColorChannelsAreCoordinates | src/vec.rs:11-35 | `r()`, `g()`, `b()` read the same components as `x()`, `y()`, `z()` |
| Vec.SaturatingCast | src/vec.rs:49-51 | Rust's float-to-`u32` cast: 0 for non-positive input, `u32::MAX` at or above it, otherwise the integer `n` with `n <= c < n + 1` (truncation) |
| Vec.SaturatingCastMonotone | src/vec.rs:49-51 | the cast never maps a larger float to a smaller integer |
| Vec.NewFromF64 | src/vec.rs:48-54 | a channel `c <= 0` quantises to 0, and a channel in `[0, 1]` quantises to at most 255 |
| Vec.NewFromF64Monotone | src/vec.rs:48-54 | each integer channel depends only on its own float channel and never decreases when it grows |
| Vec.ToHex | src/vec.rs:56-62 | the packed pixel is `(r * 65536 + g * 256 + b) mod 2^32`: the shifts drop bits above bit 31 and the additions wrap |
| Vec.ToHexPacksBytes | src/vec.rs:56-62 | with every channel at most 255 nothing wraps: the pixel is exactly `r * 65536 + g * 256 + b`, below `2^24` |
| Vec.ToHexRoundTrip | src/vec.rs:56-62 | with every channel at most 255, `h >> 16`, `(h >> 8) & 0xff` and `h & 0xff` give back `r`, `g`, `b` |
| Vec.WhiteQuantisesToWhite | src/vec.rs:48-62 | `(1, 1, 1)` quantises to `(255, 255, 255)` and packs to `0xffffff` |
| Vec.DotSelfZero | src/sphere.rs:26 | `d . d <= 0` only for the zero vector |
| Rays.Ray.New | src/ray.rs:12-17 | no contract of its own; see `Rays.NewDefaults` |
| Rays.Ray.NewFromVec | src/ray.rs:20-24 | no contract of its own; see `Rays.NewFromVecAccessors` |
| Rays.Ray.PointAtParameter | src/ray.rs:27-29 | no contract of its own; see `Rays.PointAtZero` and `Rays.PointAtShift` |
| Rays.Ray.Origin | src/ray.rs:32-34 | no contract of its own; see `Rays.NewFromVecAccessors` |
| Rays.Ray.Direction | src/ray.rs:37-39 | no contract of its own; see `Rays.NewFromVecAccessors` |
| Visible.DefaultRecord | src/world.rs:21 | `HitRecord::default()`: zero `t` with the default material, and `p` and `normal` taken to be zero (see Snapshot mismatches); no contract of its own; see `Worlds.World.Hit`, which probes every object with it |
| Rays.NewDefaults | src/ray.rs:12-17 | `Ray::new()` starts at the origin and points along `(1, 1, 1)` |
| Rays.NewFromVecAccessors | src/ray.rs:20-39 | `origin()` and `direction()` give back what `new_from_vec` was given |
| Rays.PointAtZero | src/ray.rs:27-33 | `point_at_parameter(0)` is `origin()` |
| Rays.PointAtShift | src/ray.rs:27-29 | `point_at_parameter(s + t)` is `point_at_parameter(s)` moved by `t` times the direction |
| Materials.Default | src/material.rs:43-48 | the default material is diffuse with albedo `(0.8, 0.8, 0.8)` |
| Materials.Reflect | src/material.rs:12-14 | for a unit normal `n`, the reflection of `v` has `r . n = -(v . n)` |
| Materials.ReflectInvolution | src/material.rs:12-14 | for a unit normal, reflecting twice gives the vector back |
| Materials.ReflectPreservesLength | src/material.rs:12-14 | for a unit normal, reflection keeps the squared length |
| Scattering.Scatter | src/material.rs:17-40 | both variants set the attenuation to the albedo and start the scattered ray at the hit point; metal scatters along the mirror direction and succeeds exactly when that direction has a positive dot with the normal (for a unit normal: exactly when the incoming ray meets the surface from outside); diffuse always succeeds, towards `normal + rnd` |
| Spheres.Sphere.constructor | src/sphere.rs:14-20 | the sphere holds the given center, radius and record |
| Spheres.Sphere.SetMaterial | src/sphere.rs:57-59 | only the material of the sphere's record changes; center and radius stay |
| Spheres.Sphere.Hit | src/sphere.rs:24-55 | with discriminant `<= 0` (tangent included): a miss, record untouched; with a positive discriminant but no root in range: a miss that has already written the material; on a hit: `t_min < t < t_max`, `p = point_at(t)` lies on the sphere, `normal = normalize(p - center)`, the material is the sphere's, and `t` is the nearest point of the sphere in the interval (so the smaller root wins whenever it is in range); a hit happens exactly when the discriminant is positive and the sphere meets the ray inside the interval |
| Spheres.SphereRoots | src/sphere.rs:25-43 | with a positive discriminant, `a > 0`, `(-b - sqrt d) / a <= (-b + sqrt d) / a`, and these two roots are exactly the parameters at which the ray is on the sphere |
| Spheres.OnSphereIffRoot | src/sphere.rs:25-28 | the point at `t` is on the sphere exactly when `a t^2 + 2 b t + c = 0` for the half-b coefficients |
| Spheres.QuadraticSolutions | src/sphere.rs:34-43 | with `a > 0` and `sd^2 = b^2 - a c`, `a t^2 + 2 b t + c = 0` exactly when `t` is `(-b - sd) / a` or `(-b + sd) / a` |
| Worlds.World.constructor | src/world.rs:6-9 | the default scene has no objects |
| Worlds.World.Add | src/world.rs:11-13 | the object is appended at the end; earlier objects and their order are unchanged |
| Worlds.World.Hit | src/world.rs:17-34 | the scene is hit exactly when some object reports a hit below `t_max`; on a miss the record is untouched; on a hit the record is the whole record of a single object whose `t` is the least over every object that reported a hit, and no earlier object reported the same `t` (ties go to the first); when every object keeps its hits below `t_max`, the scene is hit exactly when some object is; the object list is not modified |
| Worlds.WinnerUnique | src/world.rs:19-30 | the winning object of the search is unique, so the record it returns is determined |
| Screen.BlankScreen | src/lib.rs:23-31 | the buffer has `width * height` pixels, every one `0xffffff` |
| Screen.WhiteIsFullBrightness | src/lib.rs:27 | `0xffffff` is the packed full-brightness colour: every channel 255 |
| Screen.RowMajor | src/lib.rs:45 | the position `y * width + x` of an in-range pixel lies inside the buffer |
| Screen.RowMajorCovers | src/lib.rs:34-45 | every buffer position is the position of the pixel in column `i % width` of row `i / width`, which lies in range |
| Screen.RowMajorInjective | src/lib.rs:39-45 | distinct pixels have distinct positions, so each position is written exactly once |
| Screen.Gradient | src/lib.rs:33-50 | the buffer has `width * height` pixels and position `y * width + x` holds the packed colour of `(y / height, x / width, 0)` |
| Screen.GradientChannels | src/lib.rs:41-43 | a gradient pixel's red byte is the truncation of `255 * y / height`, its green byte that of `255 * x / width`, its blue byte 0, and red and green are at most 254 |
| Screen.GradientDownColumn | src/lib.rs:41-42 | down a column the red byte never decreases and the green byte stays the same |
| Screen.GradientAlongRow | src/lib.rs:41-42 | along a row the green byte never decreases and the red byte stays the same |
| Screen.GradientCornerBlack | src/lib.rs:41-45 | the top-left pixel is black, `0` |

## Left out

- `render` (src/lib.rs:152-207): parallel row chunks, per-thread random numbers, a progress bar, and a camera interface that the camera file does not provide.
- `generate_random_scene` (src/lib.rs:52-118) builds a random scene, and `generate_scene` (src/lib.rs:120-150) a fixed five-sphere scene. Both build dielectric and fuzzy-metal materials that src/material.rs:7-10 does not define.
- src/camera.rs and src/bin.rs are not part of this model. The first is floating-point shading whose interface matches no other file; the second is command-line parsing, a window loop and PNG output.
- `World::set_material` (src/world.rs:36-39): it only prints a message and panics.
- Floating-point behaviour: rounding, NaN, infinities, and division by a zero `a` (which cannot arise over the reals, see above).
- `sqrt`, `normalize` and `random_in_unit_sphere`: only the properties stated above are assumed of them.
- Vec.ToHex: models the release-build wrap-around of `+`. A debug build instead panics on overflow, which can only happen with a channel above 255.
- Screen.BlankScreen and Screen.Gradient: `width * height` is not bounded by `usize`. An overflowing product, which panics or wraps in Rust, is not modelled.
