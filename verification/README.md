# Scrolling terrain floor — a Dafny model

This project models the procedural terrain of the `Floor` component in
`src/App.js`, with the rendering host taken out. The component owns a plane
geometry whose vertex buffer it changes in place. It does two things:

- **Generation** (`generateTerrain`). This runs once. For every vertex of the
  plane, in order, it samples a height and appends it to the height list
  (`vertices`). It also writes that height into the vertex's `z`. The height
  comes from `noise(x / 5, (z + y) / 5)`, remapped from `[0, 0.8]` to `[0, 4]`.
- **Scrolling** (the `useFrame` callback). This runs once per frame. For
  every position `idx` of the height list it writes the height into the `z`
  of plane vertex `Math.floor((idx + offset) % n)`. Then `offset` grows by
  one half and the renderer is told that the buffer changed.

The model has three modules:

- `Scroll` (`scroll.dfy`) holds the index arithmetic. `JsRem` is
  JavaScript's truncating `%` on numbers. `PlaneIndex` is the write index,
  computed as the source computes it, on reals with `Floor`. `Dest` and
  `Source` are a rotation and its inverse on `[0, n)`. `HalfStepIndex`
  proves one fact about the offset. The offset always equals `h / 2` for
  some whole number `h`. At such an offset the real-valued write index is
  exactly the integer rotation `(idx + floor(h/2)) mod n`, and it also
  equals `(2*idx + h) % (2*n) / 2`.
- `Terrain` (`terrain.dfy`) describes the same steps as values. `Heights`
  is the height list that generation accumulates. `Raised` is the plane
  after generation. `Scrolled` is the plane after one scroll step. `Frame`
  is the plane after `t` ticks. The lemmas here give the properties:
  - which height lands where;
  - a step with an empty list writes nothing;
  - a step overwrites whatever earlier steps wrote;
  - the first tick over a generated plane changes nothing;
  - the frames repeat every `2n` ticks.
- `App` (`app.dfy`) is the component itself: class `Floor`. Its fields are
  the vertex buffer (an `array<Vertex>`), the height list, the offset, the
  `verticesNeedUpdate` flag, a ghost tick counter and a ghost copy `start`
  of the buffer as generation left it. `Generate` and `Tick`
  are loops over the array. Each is proved to leave exactly the state that
  `Raised` or `Scrolled` describes.

Notes on the source that the model follows:

- The second noise coordinate is `(z + y) / 5` (src/App.js:78). It couples
  two axes, so a height depends only on `x` and on `y + z`.
- The frame step is a scatter: `plane[floor((idx + offset) % n)].z =
  heights[idx]` (src/App.js:65-66). The computed index is where a height is
  written; the list position is where it is read.
- `offset` starts at `0.5` (src/App.js:62) and grows by `0.5` per frame
  (src/App.js:69). So tick `t`, counting from 1, applies rotation
  `floor(t/2) mod n`, and the first tick applies rotation 0.
- `generateTerrain` appends each height through `setVertices(old => [...old,
  v])` (src/App.js:79). `Generate` therefore ensures
  `heights == old(heights) + Heights(...)`.
- The ghost field `start` holds the buffer as the last `Generate` left it.
  `Tick` ensures that the buffer is `Frame(start, heights, ticks)`. Here
  `ticks` counts every tick since construction, not only those since
  `Generate`. The equation holds anyway, since a frame depends only on the
  rotation of its last tick (`FrameIsLastScroll`). So
  `FramePeriodic` applies to the object: the buffer after tick `t + 2n`
  equals the buffer after tick `t`, as long as no `Generate` comes between.

## Model

| member | source | states |
|---|---|---|
| Scroll.JsRem | src/App.js:65 | JavaScript `%` on numbers. For a non-negative dividend the remainder lies in `[0, m)`; for a negative one it lies in `(-m, 0]`. |
| Scroll.PlaneIndex | src/App.js:65-66 | For `n > 0` and a non-negative offset, the write index `floor((idx + offset) % n)` lies in `[0, n)`, so every write is in bounds. |
| Scroll.Source | src/App.js:65-66 | The inverse of the rotation. It returns a list position in `[0, n)` that the rotation sends to display position `j mod n`. |
| Scroll.Dest | src/App.js:65 | The rotation that the write index amounts to. It sends list position `i` to display position `(i + k) mod n`, which lies in `[0, n)`. `HalfStepIndex` ties it to `PlaneIndex`. |
| Scroll.SourceOfDest | src/App.js:65-66 | `Source` undoes `Dest` on every position in `[0, n)`. |
| Scroll.DestOfSource | src/App.js:65-66 | `Dest` undoes `Source` on every position in `[0, n)`. |
| Scroll.RotationBijective | src/App.js:64-66 | The write-index map is a bijection of `[0, n)`. No two heights go to the same vertex, and every vertex receives one, so a tick writes every vertex exactly once. |
| Scroll.Rotation | src/App.js:62-69 | The rotation used by tick `t` lies in `[0, n)`, and is 0 when the list is empty. |
| Scroll.HalfStepIndex | src/App.js:62-69 | At offset `h/2` the real-valued write index equals the integer rotation `(idx + floor(h/2) mod n) mod n`. It also equals `(2*idx + h) % (2*n) / 2`. |
| Terrain.HeightCoupling | src/App.js:78 | Property of the sampler `Field.Height`. `Height` is the definition of the sampled height and has no contract of its own: it is `noise` at `(x / 5, (z + y) / 5)`, remapped from `[0, 0.8]` to `[0, 4]`, with `noise` and `map` uninterpreted. The lemma states that a height depends only on `x` and on `y + z`, so two vertices that agree on both get the same height. |
| Terrain.Heights | src/App.js:76-79 | The accumulated list has one height per vertex. Entry `i` is the sampled height of vertex `i`. |
| Terrain.Raised | src/App.js:76-80 | The buffer after the `z` writes of generation. Its own contract states only that the length is kept; `RaisedMatchesHeights` gives the contents. |
| Terrain.RaisedMatchesHeights | src/App.js:76-80 | After generation, vertex `i`'s `z` equals entry `i` of the height list, and its `x` and `y` are unchanged. |
| Terrain.Scrolled | src/App.js:63-67 | A scroll step keeps the plane's length and every `x` and `y`. Vertices beyond the height list are untouched. |
| Terrain.ScrolledAt | src/App.js:64-66 | After a step with rotation `k`, the vertex at `Dest(i, k, n)` holds height `i`, for every `i < n`. |
| Terrain.ScrolledEmpty | src/App.js:64-66 | With an empty height list a step writes no vertex. |
| Terrain.ScrolledTwice | src/App.js:63-67 | Two steps in a row leave the plane the second step alone would leave. |
| Terrain.FirstTickIdentity | src/App.js:62-80 | On a freshly generated plane, the first tick (offset 0.5, rotation 0) leaves the plane unchanged. |
| Terrain.ScrolledAgrees | src/App.js:64-67 | Buffers that differ only in the `z` of the covered vertices scroll to the same buffer, and the result again differs only there. |
| Terrain.Frame | src/App.js:63-71 | The buffer after `t` frames from a given start. Its own contract states only that the length is kept; `FrameIsLastScroll` and `FramePeriodic` give the contents. |
| Terrain.FrameIsLastScroll | src/App.js:63-71 | From tick 1 on, the plane after tick `t` equals the starting plane scrolled once by tick `t`'s rotation. |
| Terrain.RotationPeriodic | src/App.js:62-69 | The rotation of tick `t + 2n` equals the rotation of tick `t`. |
| Terrain.FramePeriodic | src/App.js:63-71 | From tick 1 on, the plane after tick `t + 2n` equals the plane after tick `t`. |
| Terrain.GeneratedFramePeriodic | src/App.js:58-82 | Starting from the generated plane, the plane after tick `t + 2n` equals the plane after tick `t` for every `t`, including `t = 0`. |
| App.Floor.constructor | src/App.js:55-62 | A new floor starts with an empty height list, offset 0.5, the update flag clear, and the given vertex buffer, which is also recorded as `start`. |
| App.Floor.Generate | src/App.js:73-82 | The height list becomes the old list plus one height per vertex, in vertex order. The buffer becomes `Raised` of its old contents: only `z` changes, and each `z` is the height sampled from that vertex's original coordinates. The new buffer is recorded as `start`. |
| App.Floor.Tick | src/App.js:63-71 | The buffer becomes `Scrolled` of its old contents under rotation `floor(t/2) mod n` for tick `t`. The height list is unchanged. The offset grows by exactly 0.5 and stays `(t + 1) / 2`. The update flag is set. With an empty list no vertex changes. The buffer equals `Frame(start, heights, ticks)`. Here `ticks` counts every tick since construction, including ticks made before `Generate`. The equation still holds because, by `FrameIsLastScroll`, a frame depends only on the rotation of its last tick. |

## Left out

- `Box`, `WobbleBox`, `Model` and `App` are scene composition: spring animation, wobble material, lights, camera, orbit controls and asset loading. None of them is modelled.
- `noise` and `map` live in `./PerlinNoise`, which is not part of this model. They are arbitrary total functions carried in `Terrain.Field`. Nothing is assumed of them beyond determinism, which Dafny functions have by construction.
- The plane geometry is built by the rendering library, so the vertex buffer is a constructor parameter. Neither its size (101 × 101 vertices for 100 × 100 subdivisions) nor its coordinate layout is modelled.
- React's machinery is not modelled:
  - the batching of `setVertices` updates;
  - the scheduling of `useEffect`;
  - `let offset = 0.5` and the frame closure being re-created on every render.

  The offset and the height list are fields of one `Floor` object. Generation is one method call.
- The offset is not reset when generation completes. In the source, the re-render after generation creates a fresh frame closure with `offset = 0.5`. So the first tick over the full list always uses rotation 0. In the model, ticks made before `Generate` keep advancing the one shared offset. `FirstTickIdentity`, `GeneratedFramePeriodic` and "the first tick applies rotation 0" therefore describe a `Floor` only when `Generate` comes before its first `Tick`. Re-renders caused by other state changes, which would also reset the offset, are not modelled either.
- App.Floor.Tick: requires the height list to be no longer than the vertex buffer. In the source a longer list, for example after a second `generateTerrain`, yields a write index past the buffer's end. Setting `.z` on the missing vertex then throws a TypeError. That error path is not modelled.
- Vertices are values in an array, so two entries of the buffer cannot alias one vertex object.
- Floating point is not modelled. Coordinates and heights are exact reals, and the offset is an exact real. With IEEE doubles, half-steps stop being exact only at offsets beyond 2^52. The model does not capture that.
- `verticesNeedUpdate` is kept only as a flag that every tick sets. How the renderer reacts to it is not modelled.
