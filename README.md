# MeshMorpher, modelled in Dafny

This project models `MeshMorpher` from a browser point-cloud morphing demo
(`src/morpher.ts`). The class holds three things:

- a three.js `Points` mesh;
- a sparse, index-addressed JavaScript array of stored geometries (`geometries`);
- a per-vertex offset table (`vertexOffset`).

It has two operations:

- `addGeometry` stores a clone of a geometry, either at a given position or by appending it.
- `updateGeometry(percent)` picks the two stored geometries that bracket `percent`.
  It then wraps a `percent` above 1 down into (0, 1], leaves one at most 1 as it is, and walks the vertices.

Its pure helpers are also modelled:

- the easing cubic `smooth`;
- the stagger parabola `roundStep`;
- the linear-congruential `random`, with the rescaling into [-0.05, 0.05) that its caller applies.

Files and modules:

- `jsarray.dfy`, module `JsArray`: the part of JavaScript array semantics the class relies on.
  Integer keys map to elements, and `length` stays one past the largest non-negative key
  (the invariant `Valid`: every index in use is below `length`, and `length - 1` is in use).
  `push` stores at `length`. `a[i] = x` stretches `length` for an index and leaves it alone for a negative key.
- `easing.dfy`, module `Easing`: `smooth`, `roundStep`, the per-vertex staggered position
  `percent + roundStep(percent) * offset`, `random`, and the offset rescaling. All over real numbers.
- `morpher.dfy`, module `Morpher`: the class `MeshMorpher`, whose methods update its fields,
  and `UpdateOutcome`, a function that says how a call of `updateGeometry` ends.
  The module also holds the lemmas about the guards, the wrap loop and slot insertion.

How the source's own quirks are modelled:

- `pos` is an `Option<int>`. `None` stands for an omitted argument. `Some(0)` is falsy in
  JavaScript, so `addGeometry(g, 0)` appends instead of writing slot 0.
- A negative `pos` is truthy. It creates an ordinary property that does not change `length`.
  `updateGeometry` can still read that property through `floor`/`ceil` of a negative `percent`.
- Line 31 reads the attribute `poisition`, which is misspelled. No three.js geometry has an
  attribute of that name (its vertex positions are `position`), so the read of `.array`
  throws a TypeError once the guards pass (`GuardsPassedThrows`). The model
  looks the misspelled name up in the mesh's attribute map. When it is missing, the outcome
  is `ThrewTypeError`.
- The per-vertex loop computes a local value that nothing reads. All write-back lines are
  commented out. So `UpdateGeometry` has no `modifies` clause, and Dafny checks that it
  changes no field. An offset missing from the table is `undefined` in JavaScript and makes
  the local value NaN. The model writes that as `None`.

In these points the code behaves differently from a natural reading of the class, and the model follows the code:

- `smooth(0.5)` is 0.5, not 0.25.
- The wrap loop sends an input above 1 into (0, 1], not [0, 1). Both 1 and 2 end at 1.
- `addGeometry(g, 0)` appends rather than storing at index 0.
- With offsets in [-0.05, 0.05), the staggered position of a `percent` in [0, 1] stays in
  [0, 1] (`StaggeredStaysInUnit`). It is `smooth` that overshoots [0, 1] (`SmoothOvershoots`).

## Model

| member | source | states |
|---|---|---|
| `Morpher.MeshMorpher.constructor` | src/morpher.ts:8-13 | a new morpher holds the given mesh, an empty geometry list (length 0, no keys) and an empty offset table |
| `Morpher.MeshMorpher.AddGeometry` | src/morpher.ts:45-52 | the list becomes `Added(old list, geometry, pos)` and keeps the array invariant; mesh and offset table are unchanged |
| `Morpher.MeshMorpher.UpdateGeometry` | src/morpher.ts:16-43 | the outcome is `UpdateOutcome` of the mesh, the list and `percent`; the wrap loop's result is proved equal to `Wrapped(percent)`; no field changes (no `modifies` clause) |
| `JsArray.SparseArray.Push` | src/morpher.ts:50 | `push` stores the element at index `length`, grows `length` by one, keeps every other key and keeps the array invariant |
| `JsArray.SparseArray.Assign` | src/morpher.ts:47 | indexed assignment stores under key `i`, replacing any occupant, keeps every other key; `length` becomes max(length, i+1) for an index and is unchanged for a negative key |
| `JsArray.Empty` | src/morpher.ts:9 | `[]` has length 0 and no key |
| `Morpher.Ceil` | src/morpher.ts:22 | `Math.ceil(x)` is the integer c with c-1 < x <= c |
| `Morpher.Bracket` | src/morpher.ts:21-25 | when both slots are present the result is the stored pair lo <= percent <= hi, with hi-lo = 0 for a whole percent and 1 otherwise; otherwise `floor` or `ceil` slot is empty |
| `Morpher.Wrapped` | src/morpher.ts:27-29 | the loop leaves an input at most 1 unchanged and sends an input above 1 into (0, 1], a whole number (at least 1) below the input |
| `Morpher.SkippedExactly` | src/morpher.ts:17-25 | `updateGeometry` returns early exactly when the mesh is unset or slot `floor(percent)` or `ceil(percent)` is empty |
| `Morpher.WholePercentNeedsOneSlot` | src/morpher.ts:21-25 | for a whole `percent` k (mesh set) the call proceeds iff slot k is stored |
| `Morpher.FractionalPercentNeedsTwoSlots` | src/morpher.ts:21-25 | for a fractional `percent` the call proceeds iff both `floor(percent)` and `floor(percent)+1` are stored |
| `Morpher.PastLastSlotIsSkipped` | src/morpher.ts:22-24 | a `percent` above length-1, the last filled slot (`JsArray.LastIndexInUse`), is a no-op |
| `JsArray.LastIndexInUse` | src/morpher.ts:47-50 | in an array built by `push` and indexed assignment, slot length-1 holds an element and no index from `length` on does |
| `JsArray.SparseArray.Get` | src/morpher.ts:23 | reading `a[k]` yields an element only for a key in use; in a valid array a non-negative such key is below `length` |
| `Morpher.UpdateOutcome` | src/morpher.ts:16-43 | how `updateGeometry` ends: skipped for want of a mesh exactly when the mesh is unset; a TypeError exactly when a mesh is set, both bracketing slots are found and the mesh lacks `poisition`; a completed vertex loop only after both slots are found and only with a blend position at most 1 |
| `Morpher.IsTruthy` | src/morpher.ts:46 | `if (pos)`: an omitted `pos` and 0 are falsy, every other integer, negative or positive, is truthy |
| `Morpher.Added` | src/morpher.ts:45-52 | after `addGeometry` the list keeps the array invariant, holds the geometry at `pos` when `pos` is truthy and at the old length otherwise, and is no shorter than before |
| `Morpher.NegativePercentIsSkipped` | src/morpher.ts:21-24 | a negative `percent` is a no-op when no geometry is stored under a negative key |
| `Morpher.NegativeKeyPassesGuards` | src/morpher.ts:46-47 | after `addGeometry(g, -1)` the call `updateGeometry(-1)` passes the guards, so a negative `percent` is not always a no-op |
| `Morpher.PositionOnlyMeshThrows` | src/morpher.ts:31 | with a mesh whose only attribute is `position`, every call either returns early at the guards or throws at line 31; the vertex loop is never reached |
| `Morpher.GuardsPassedThrows` | src/morpher.ts:21-31 | for any mesh without an attribute named `poisition` (every three.js geometry), a call that passes the guards throws at line 31 |
| `Morpher.CompletedPercentIsWrapped` | src/morpher.ts:27-29 | when the vertex loop runs, it sees a `percent` at most 1: in (0, 1] and a whole number of steps below an input above 1, the input itself otherwise |
| `Morpher.WrappedExamples` | src/morpher.ts:27-29 | 1 and 2 both wrap to 1 (never 0); 2.5 wraps to 0.5 |
| `Morpher.AddAtTruthyPosition` | src/morpher.ts:46-47 | with a truthy `pos` the geometry is stored under `pos`, every other key is kept, and length becomes max(length, pos+1) (unchanged for negative `pos`) |
| `Morpher.AddWithoutTruthyPositionAppends` | src/morpher.ts:49-50 | with `pos` absent or 0 the geometry is stored at the old length, the length grows by exactly one, every other key is kept |
| `Morpher.AddAtZeroKeepsSlotZero` | src/morpher.ts:46-50 | `addGeometry(g, 0)` on a non-empty list never overwrites slot 0 |
| `Morpher.ZeroAfterOneLeavesSlotZeroEmpty` | src/morpher.ts:45-52 | adding at position 1 and then at position 0 leaves slot 0 empty and puts the second geometry in slot 2 |
| `Easing.Smooth` | src/morpher.ts:84-86 | smooth(x) = x - 3x(2x-1)(x-1): it moves x by a cubic that vanishes at 0, 1/2 and 1 |
| `Easing.SmoothEndpoints` | src/morpher.ts:84-86 | smooth(0) = 0, smooth(1) = 1, smooth(0.5) = 0.5 |
| `Easing.SmoothPointSymmetric` | src/morpher.ts:84-86 | smooth(1-x) = 1 - smooth(x) for every x |
| `Easing.SmoothOvershoots` | src/morpher.ts:84-86 | smooth(0.25) < 0 and smooth(0.75) > 1: the cubic leaves [0, 1] inside the unit interval |
| `Easing.RoundStep` | src/morpher.ts:88-90 | roundStep(x) = 4x(1-x), the parabola through (0, 0), (1/2, 1) and (1, 0) |
| `Easing.RoundStepEndpoints` | src/morpher.ts:88-90 | roundStep(0) = roundStep(1) = 0 and roundStep(0.5) = 1 |
| `Easing.RoundStepAtMostOne` | src/morpher.ts:88-90 | roundStep(x) <= 1 = roundStep(0.5) for every x |
| `Easing.RoundStepShape` | src/morpher.ts:88-90 | roundStep is symmetric about 1/2 and non-negative on [0, 1] |
| `Easing.Staggered` | src/morpher.ts:36 | the staggered position differs from `percent` by 4·percent·(1-percent)·offset, which vanishes at percent 0 and 1 |
| `Easing.StaggeredEndpoints` | src/morpher.ts:36 | the staggered position equals `percent` at 0 and at 1, whatever the offset |
| `Easing.StaggeredStaysInUnit` | src/morpher.ts:36 | for `percent` in [0, 1] and an offset in [-0.05, 0.05) the staggered position stays in [0, 1] |
| `Easing.Random` | src/morpher.ts:92-94 | for a non-negative integer seed, random(seed) is a function of the seed alone (deterministic), lies in [0, 1) and is a multiple of 1/65536 |
| `Easing.RandomPeriodic` | src/morpher.ts:92-94 | random(seed + k*65536) = random(seed) |
| `Easing.VertexOffset` | src/morpher.ts:69-70 | the rescaled offset random(seed)*0.1 - 0.05 lies in [-0.05, 0.05) |

## Left out

- Everything in `src/Demo.ts` is not part of this model. That covers:
  - scene, camera, light and renderer setup;
  - GLTF loading and geometry merging;
  - the vertex-count equalisation passed to the mesh simplifier;
  - the scroll timeline whose array interpolation runs inside the tweening library;
  - resize and screenshot handlers;
  - the animation loop.
  These are browser I/O and calls into libraries whose code is not here.
- The per-vertex interpolation and normal recomputation in `updateGeometry` (lines 38-42) are
  commented out. The misspelled attribute at line 31 means the code before them is never reached
  with a three.js mesh. No interpolation is invented.
- The commented-out `addFiles` loader (lines 54-82) is dead code. Only its offset formula
  (lines 69-70) is modelled, as `VertexOffset`.
- `random` and `VertexOffset` are modelled for non-negative integer seeds only. The source's
  seed is `x + y` of a vertex, a float. JavaScript's truncating `%` on negative or fractional
  seeds is not modelled, and neither is the precision lost once `1103515245 * seed` exceeds 2^53.
  A vertex with `x + y < 0` is common, and there the truncating `%` puts `random` in (-1, 0] and the
  offset in (-0.15, -0.05], so the [-0.05, 0.05) range behind `VertexOffset` and
  `StaggeredStaysInUnit` does not hold for such vertices.
- All numbers are mathematical reals. IEEE-754 rounding, NaN and infinities are not modelled.
  In floating point, `percent -= 1` stops changing a very large `percent`, and the wrap loop
  would then not terminate.
- Array semantics are modelled only for integer keys, and JavaScript's bound on array indices
  (2^32 - 2) is not modelled. `pos` is an optional integer. Other `pos` values are not modelled:
  falsy ones (`null`, `NaN`, `""`, `false`) append like an omitted `pos`; a numeric string such as
  `"2"` names the array index 2 and acts like the integer 2 (so `"0"` does overwrite slot 0); only
  fractional numbers and other strings create properties that `floor`/`ceil` never read.
- The geometry and mesh are reduced to their attribute maps. `clone()` is the value copy a
  datatype makes. A caller mutating the public fields directly is not modelled.
- Easing.RoundStepAtMostOne: states only that 1 is the maximum, reached at 1/2. It does not
  state that 1/2 is the only input where it is reached.
