# Terrain colouring and meshing core of a planet viewer, in Dafny

This project models the deterministic core of a small planet viewer. A simulated
sphere world is turned into a coloured triangle mesh, and the user drives a
camera with the keyboard.

It covers the following pieces:

- **Rank normalisation** (`get_sorted_idx`, module `Ranking`, `rank.dfy`). The
  pass keeps the entries of a per-vertex field that pass a filter, stable-sorts
  them by value and writes `position / (kept - 1)` at each kept entry's index.
  The module proves that the result is the entry's *rank*. Rank means the number
  of kept entries that come before it, by value with ties broken by index. That
  definition is order-theoretic and never mentions sorting. The module then
  proves the range, exact-value, monotonicity and order-invariance facts about
  ranks.
- **Shoreline detection, height normalisation, colouring and the fan
  triangulation** of `create_land_mesh` (module `Land`, `land.dfy`).
  - A vertex is on the shoreline exactly when it, or a ring neighbour, lies
    strictly below sea level (1.0).
  - Heights are min–max normalised.
  - Both colour coordinates are reshaped by `1 - sqrt(1 - x)` before the
    palette lookup.
  - The colour is darkened by a jitter factor in [0.9, 1.0) and quantised to
    8-bit RGBA.
  - Every ring entry yields one triangle whose two outer corners are centroids
    that pull the polygon inward.
  - The buffers hold three entries per triangle, vertex after vertex.
- **The biome palette lookup** (`Palette::get`, module `Biomes`,
  `palette.dfy`).
  - Next to water, the colour is a smoothstep blend of two fixed colours keyed
    on the raw height.
  - Elsewhere, the continuous coordinates `wetness·6` and `height_scale²·4`
    (`height_scale` is the reshaped normalised height) index a fixed 4 × 6
    grid of the thirteen palette colours. The grid has aliased cells, and the
    lookup uses clamped floor/ceiling indices and bilinear interpolation.
- **`smoothstep`** (module `Smooth`, `smoothstep.dfy`): the clamped quintic
  `6t⁵ − 15t⁴ + 10t³`. The module proves its bounds, its saturation and its
  monotonicity. Monotonicity comes from a sum-of-squares identity for the
  divided difference.
- **The input state machine** (`InputManager`, module `Inputs`, `input.dfy`).
  - It keeps three sets of logical inputs: held, pressed this frame and
    released this frame.
  - It also keeps a zoom accumulator and a sticky quit request.
  - The queries `pressed` / `just_pressed` / `just_released` are membership in
    the corresponding set (`IsPressed`, `IsJustPressed`, `IsJustReleased`).
  - Event traces (`Run`) give whole-history statements.
- **The camera mode switch** (module `Cameras`, `camera.dfy`).
  - There are two modes, Fly and Orbit, and Orbit is the default.
  - `C` pressed this frame toggles the mode before the input is dispatched to
    the active sub-camera.
  - `drive` advances only the active sub-camera.

`Vectors` (`vectors.dfy`) provides the three-component arithmetic shared by
positions and colours.

Some choices of representation:

- Floats (`f32`) are modelled as `real`. The float-only failure cases sit
  behind preconditions: division by zero, NaN and `0/0`.
- Rust's saturating float-to-integer casts are written out explicitly
  (`SaturatingUsize`, `ToU8`).
- `f32::sqrt` is an uninterpreted function parameter.
- The two fixed shoreline colours from the application's colour module are
  parameters.
- The seeded random generator's per-vertex draws are an input sequence.

Two details of the code that the model follows:

- The code also computes a land-only height rank (`src/geometry/land.rs:38`),
  but never reads it. The colour's height coordinate is the min–max
  normalised height (`src/geometry/land.rs:52`), as in `Land.VertexColour`.
- Rings need only two entries (`adj[len - 2]`). With two entries the code
  emits two triangles, and `Land.WellFormed` accepts length two.

## Model

| member | source | states |
|---|---|---|
| Smooth.Clamp | src/util/mod.rs:10 | The clamped value lies in [lo, hi]. It is the input itself inside the interval and the nearer bound outside it. |
| Smooth.Ramp | src/util/mod.rs:10 | The ramp coordinate lies in [0, 1]. With `left < right`, it is 0 at or below the left edge and 1 at or above the right edge. |
| Smooth.QuinticIsSmootherstep | src/util/mod.rs:12 | The source's nested spelling `t³(3t(2t − 5) + 10)` equals the textbook polynomial `6t⁵ − 15t⁴ + 10t³`. |
| Smooth.QuinticDifference | src/util/mod.rs:12 | `P(b) − P(a)` equals `(b − a)` times a sum of squares. |
| Smooth.QuinticMonotone | src/util/mod.rs:12 | The quintic never decreases, on the whole real line. |
| Smooth.Smoothstep | src/util/mod.rs:9-13 | The result lies in [0, 1] and equals `6t⁵ − 15t⁴ + 10t³` of the clamped ramp. With `left < right`, it is exactly 0 for `x ≤ left` and exactly 1 for `x ≥ right`. |
| Smooth.SmoothstepMonotone | src/util/mod.rs:9-13 | With `left < right`, smoothstep never decreases in `x`. |
| Biomes.EveryBiomeInGrid | src/util/widgets/palette.rs:168-181 | Each of the thirteen palette colours occupies at least one cell of the 4 × 6 table (row 0 at the bottom). |
| Biomes.Ceil | src/util/widgets/palette.rs:186 | The ceiling is the least integer not below `x`. |
| Biomes.Band | src/util/widgets/palette.rs:186-189 | Both clamped indices satisfy `lower ≤ upper ≤ top` and differ by at most one. On the grid they are the floor and the ceiling. Both are `top` past the top edge and 0 below zero. |
| Biomes.Frac | src/util/widgets/palette.rs:196 | The interpolation weight lies in [0, 1) and is 0 on whole coordinates. |
| Biomes.ShoreBlend | src/util/widgets/palette.rs:164-166 | Each channel of the shoreline colour lies between the rock colour and the shoreline colour. |
| Biomes.BilinearWithinCorners | src/util/widgets/palette.rs:191-203 | Each channel of a bilinear blend, with weights in [0, 1], lies between the least and greatest value of the four corner cells. |
| Biomes.Lookup | src/util/widgets/palette.rs:183-203 | The grid colour lies, per channel, within the range of the four clamped corner cells it reads. |
| Biomes.Get | src/util/widgets/palette.rs:163-205 | Next to water, every channel lies between the two fixed colours. Elsewhere, the colour lies within the corner cells of `wetness·6`, `height_scale²·4`. |
| Biomes.ShorelineSaturates | src/util/widgets/palette.rs:164-166 | Next to water, the colour depends on the raw height only. It is pure rock colour up to 0.98 and pure shoreline colour from 1.01. |
| Biomes.GridPointExact | src/util/widgets/palette.rs:183-203 | When both coordinates are whole numbers in range, the lookup returns exactly that grid cell. |
| Biomes.WetSaturation | src/util/widgets/palette.rs:183-199 | From wetness coordinate 5 upwards, the colour no longer depends on wetness. |
| Biomes.HeightSaturation | src/util/widgets/palette.rs:184-203 | From height coordinate 3 upwards, the colour no longer depends on the shaped height. |
| Biomes.WetLineContinuity | src/util/widgets/palette.rs:186-203 | Inside a wetness cell, the lookup is one bilinear polynomial. It meets the value on the cell's right grid line, and the next cell starts from that same value. |
| Biomes.HeightLineContinuity | src/util/widgets/palette.rs:186-203 | The same agreement holds across each height grid line. |
| Ranking.IncludedUpTo | src/geometry/land.rs:90 | The filter keeps exactly the entries passing the predicate, in strictly increasing index order. |
| Ranking.KeptIndices | src/geometry/land.rs:90 | The enumerate-and-filter loop produces exactly the list of kept indices. |
| Ranking.Insert | src/geometry/land.rs:91 | Insertion adds exactly one occurrence of the new index. |
| Ranking.InsertSorted | src/geometry/land.rs:91 | Insertion keeps a list sorted by (value, index). |
| Ranking.Sort | src/geometry/land.rs:91 | Sorting is a permutation of its input. |
| Ranking.SortSorted | src/geometry/land.rs:91 | The sorted list is strictly ordered by value, with ties by original index, as a stable sort of the enumeration gives. |
| Ranking.PositionIsRank | src/geometry/land.rs:94-98 | In the sorted list of kept indices, the entry at position `p` has rank `p`. |
| Ranking.RankWitness | src/geometry/land.rs:90-91 | The sorted kept indices hold exactly the kept entries, `k` of them, and entry `p` has rank `p`. |
| Ranking.Scatter | src/geometry/land.rs:92-100 | The output has length `len`. Each sorted entry's original index holds `p / (k − 1)`, and every other index holds 0. |
| Ranking.SortedIdx | src/geometry/land.rs:89-103 | The output has length `len`. Every kept index holds rank / (kept − 1), and every other index holds 0. |
| Ranking.GradeBounds | src/geometry/land.rs:98 | `p / (k − 1)` lies in [0, 1] for `p < k`. |
| Ranking.GradeStrictlyIncreasing | src/geometry/land.rs:98 | `p / (k − 1)` strictly increases with `p`. |
| Ranking.RankInUnitRange | src/geometry/land.rs:92-100 | Every output value lies in [0, 1], and entries that fail the filter are 0. |
| Ranking.RankValuesExact | src/geometry/land.rs:93-100 | With `k ≥ 2` kept entries, their values are exactly `{p/(k−1) : p < k}`, and no two of them share a value. |
| Ranking.RankMonotone | src/geometry/land.rs:90-98 | A smaller value gets a strictly smaller rank and output. Among equal values, the earlier index gets the smaller one. |
| Ranking.RankOrderInvariant | src/geometry/land.rs:90-91 | Ranks depend only on how the entries compare. Two fields that order every pair alike and keep the same entries get the same ranks. |
| Land.FoldBelowSeaIff | src/geometry/land.rs:43-45 | The or-fold over the ring is true exactly when its seed is true or some ring vertex is strictly below 1.0. |
| Land.NeighbouringIff | src/geometry/land.rs:43-46 | A vertex is flagged exactly when it, or a ring neighbour, is strictly below 1.0. Height 1.0 counts as land. |
| Land.Lowest | src/geometry/land.rs:25-35 | The min fold is a lower bound of all heights and is one of them. |
| Land.Highest | src/geometry/land.rs:25-35 | The max fold is an upper bound of all heights and is one of them. |
| Land.RangeIsProper | src/geometry/land.rs:52 | When the heights are not all equal, the minimum is strictly below the maximum. |
| Land.MinMaxScale | src/geometry/land.rs:52 | Min–max scaling maps [lo, hi] into [0, 1], sending lo to 0 and hi to 1. |
| Land.NormalisedHeight | src/geometry/land.rs:25-52 | The normalised height lies in [0, 1]. It is 0 at the lowest vertex and 1 at the highest. |
| Land.MakeColour | src/geometry/land.rs:7-11 | On the shoreline, the reshaped coordinates play no part: the colour is the height-keyed blend. |
| Land.JitterChannel | src/geometry/land.rs:56 | Scaling by a factor in [0.9, 1) keeps a non-negative channel between 90% and 100% of itself. |
| Land.Jitter | src/geometry/land.rs:56 | The jitter only darkens. Every non-negative channel ends up between 0.9 times and 1 times its value. |
| Land.ToU8 | src/geometry/land.rs:61 | The cast truncates toward zero and saturates to [0, 255]. |
| Land.Quantise | src/geometry/land.rs:60-61 | Each 8-bit channel is `255 × channel` truncated: for a channel in [0, 1] the byte `b` satisfies `b ≤ 255·c < b + 1`. Channels at or below 0 give 0, channels from 1 up give 255, and alpha is opaque (255). |
| Land.AllKept | src/geometry/land.rs:37 | The wetness filter `\|_\| true` keeps every vertex. |
| Land.UnderwaterUsesShoreBlend | src/geometry/land.rs:43-61 | A vertex below sea level gets the jittered, quantised shoreline blend of its raw height. |
| Land.Next | src/geometry/land.rs:78-80 | The cyclic successor stays inside the ring and equals `(i + 1) mod n`. |
| Land.FanTriplesCyclic | src/geometry/land.rs:74-80 | The `windows(3)` calls plus the two wrap-around calls are exactly the `n` cyclic windows `(r[i], r[i+1 mod n], r[i+2 mod n])`, in order. |
| Land.MakeTriangle | src/geometry/land.rs:63-72 | The apex is the displaced vertex. Three times each outer corner is the sum of the vertex and two ring vertices, so each outer corner is their centroid. |
| Land.FanClosed | src/geometry/land.rs:63-80 | Each spoke's apex is the vertex. Each spoke's far corner is the next spoke's near corner, cyclically, so the fan closes. |
| Land.EmitFan | src/geometry/land.rs:63-80 | One vertex emits `3·n` buffer entries, and triangle `i` is spoke `i` in the vertex's colour. |
| Land.EmitFans | src/geometry/land.rs:42-81 | The buffers have `3·Σ ring lengths` entries. Spoke `i` of vertex `v` is triangle `Offset(v) + i`. |
| Land.VertexColourIs | src/geometry/land.rs:37-61 | The colour computed in the loop from the precomputed ranks is the vertex's colour. |
| Land.CreateLandMesh | src/geometry/land.rs:13-81 | The two buffers have equal length, `3·Σ ring lengths`. Each spoke sits at its place, vertex after vertex, with that vertex's colour on all three corners. |
| Inputs.KeyFor | src/util/input_manager.rs:41-52 | Every logical input is driven by some key. |
| Inputs.KindOfInjective | src/util/input_manager.rs:41-52 | Two different keys drive the same input only when they are the two shift keys, which both drive `DirDown`. |
| Inputs.KeyForIsOnlyKey | src/util/input_manager.rs:41-52 | Every input other than `DirDown` has exactly one key. |
| Inputs.KeyEvent | src/util/input_manager.rs:33-67 | The zoom is untouched, and the quit flag rises only on Escape. Held keys follow the event's state for the input it drives and nothing else changes. Pressed-this-frame and released-this-frame only grow, by that input. |
| Inputs.IgnoredKeyChangesNothing | src/util/input_manager.rs:36-57 | A missing key code or an unlisted key leaves the whole state unchanged. |
| Inputs.EscapeOnlyRequestsQuit | src/util/input_manager.rs:53-56 | Escape raises the quit request and leaves all three sets and the zoom unchanged. |
| Inputs.KeyEventIdempotent | src/util/input_manager.rs:60-66 | Within one frame, repeating a key event has no further effect. |
| Inputs.ZoomEvent | src/util/input_manager.rs:69-74 | A line scroll takes lines/5 off the zoom and a pixel scroll takes y/3 off. Nothing else changes. |
| Inputs.ZoomAccumulates | src/util/input_manager.rs:69-74 | Within a frame, the zoom is its start value minus the sum of all scroll steps, and key events do not disturb it. |
| Inputs.ResetFrame | src/util/input_manager.rs:88-92 | Zoom is 0, and nothing is pressed or released this frame. Held keys and the quit request survive. |
| Inputs.FreshRun | src/util/input_manager.rs:29-31 | From `InputManager::new()`, after any run of events, quit is requested exactly when some event was Escape, and an input is held exactly when its last key event was a press. |
| Inputs.ResetFrameIdempotent | src/util/input_manager.rs:88-92 | Resetting twice is the same as resetting once. |
| Inputs.EscapeSticky | src/util/input_manager.rs:33-92 | After any run of events, the quit request is set exactly when it was set before or some event was Escape. Nothing lowers it. |
| Inputs.PressedFollowsLastEvent | src/util/input_manager.rs:60-66 | After any run of events, an input is held exactly when its last key event was a press. With no such event, it keeps its earlier state. |
| Inputs.JustPressedWithinFrame | src/util/input_manager.rs:60-62 | Within a frame, an input is pressed-this-frame exactly when it already was or some event pressed it. |
| Cameras.Toggle | src/util/camera/mod.rs:69-72 | Toggling always changes the mode. |
| Cameras.ToggleInvolutive | src/util/camera/mod.rs:69-72 | Toggling twice restores the mode. |
| Cameras.Input | src/util/camera/mod.rs:67-79 | The mode flips exactly when `CamSwitch` was pressed this frame. Only the sub-camera of the resulting mode receives the input, and the other stays as it was. |
| Cameras.Drive | src/util/camera/mod.rs:60-65 | Only the active sub-camera advances and produces the view. The mode and the other sub-camera are unchanged. |
| Cameras.SwitchTwiceRestores | src/util/camera/mod.rs:68-73 | Two frames with `CamSwitch` pressed restore the original mode. |
| Cameras.HoldingSwitchTogglesOnce | src/main.rs:251-252 | The frame loop's `input`-then-`reset_frame` switches the mode in the frame of a `C` press. A following frame that carries no new key event keeps the mode, although `C` is still held. |
| Cameras.KeyRepeatTogglesAgain | src/main.rs:251-252 | An auto-repeated `C` press in the following frame re-enters pressed-this-frame after the reset, so it toggles again and the mode returns to where it started. |
| Cameras.FirstSwitchSelectsFly | src/util/camera/mod.rs:13-17 | The default camera is in Orbit mode. The first `C` press selects Fly and hands that frame's input to the flying camera. |

## Left out

- Mesh building (`MeshBuilder::new(..).build().unwrap()`, `src/geometry/land.rs:83-86`) belongs to the rendering library. The model stops at the two parallel buffers.
- The land-only height rank (`src/geometry/land.rs:38`) is computed by the source and never read, so the model does not compute it.
- Ranking.SortedIdx: the case of exactly one kept entry is excluded by precondition. There the source computes `0.0 / 0.0`, a NaN in `f32`. With no kept entries the output is all zeros, and that case is modelled.
- Land.NormalisedHeight: it requires the heights not to be all equal. Otherwise the source divides by zero and produces NaN.
- Smooth.Smoothstep: it requires `left != right`, because the source divides by `right - left`.
- Biomes.Get: the grid case is stated as a per-channel bound by the four corner cells, plus exact values at grid points and agreement across grid lines. The full bilinear formula is the definition of `Biomes.Bilinear` itself and is not restated.
- Land.MakeColour: `f32::sqrt` is a function parameter with no properties assumed. The contract therefore says nothing about the reshaped coordinates beyond the shoreline case. The grid case is covered by `Biomes.Get`.
- The shoreline colours come from the application's colour module, which is not part of this model. They are parameters.
- The seeded generator (`StdRng::from_seed`, `gen_range(0.9..1.0)`) is replaced by an input sequence of per-vertex factors in [0.9, 1.0).
- `f32` rounding is not modelled, and all arithmetic is exact over reals. Properties such as the closed fan and the exact grid values hold over reals; in `f32` they hold only up to rounding.
- `total_cmp` on NaN and on signed zeros is not modelled, because the fields are reals. In `f32`, `total_cmp` also puts −0.0 before +0.0 whatever their indices, while the model treats them as one value and orders them by index.
- Inputs.ZoomEvent: the pixel-scroll offset is a real. The source's `f64` division and `as f32` narrowing are not modelled.
- The internals of the fly and orbit cameras (`flycam.rs`, `orbitcam.rs`, quaternion smoothing over an external crate) are not part of this model. Their input and drive steps are function parameters.
- The default orbit parameters (`src/util/camera/mod.rs:34-54`) are not modelled. They are constants of the opaque orbit camera.
- Window and renderer setup, the event loop, UI widgets, palette editing and settings persistence (`src/main.rs`, the widget modules) are I/O and UI, so they are not modelled. The frame-loop ordering of `input` then `reset_frame` is modelled by `Cameras.Frame`.
- The atomic height loads are read as one immutable snapshot (`Land.World`).
- Biomes.WetLineContinuity: continuity across grid lines is stated as agreement of the neighbouring cells' bilinear polynomials on the line, not as a limit statement.
