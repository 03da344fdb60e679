# babylon-mmd-template scene builders: a Dafny model of their sequential logic

The template builds a Babylon.js scene that plays an MMD model with a motion
track, an audio track and a physics engine. Most of each scene builder
(`src/sceneBuilder.ts` and `src/SceneBuilder.ts`, of which `src/index.ts` wires
in the upper-case one) configures library objects. This project models the
few pieces with their own sequential logic as pure state transitions, and
proves their contracts:

- **Camera toggle** (`camera_toggle.dfy`, module `CameraToggle`): the canvas
  click handler of the lower-case builder. It remembers the last click time,
  which starts at `-Infinity`. A click more than 500 ms after that time is only
  recorded. A click at most 500 ms after it resets the time to `-Infinity` and
  swaps the active camera between the MMD camera and the arc-rotate camera.
- **Progress lines** (`progress_text.dfy`, module `ProgressText`): the texts
  `Loading motion... a/b (p%)` and `Loading model... a/b (p%)`, where
  `p = Math.floor(a * 100 / b)`, and the two physics-engine texts.
- **Loading-text aggregator** (`loading_text.dfy`, module `LoadingText`):
  `updateLoadingText(i, text)` writes `text` into slot `i` of an array and
  shows four `<br/>` followed by the slots joined with `<br/><br/>`. The
  lower-case builder starts from an empty array, so the array grows with holes.
  The upper-case builder starts from four empty strings.
- **Scene freeze** (`scene_model.dfy`, `scene_freeze.dfy`, modules
  `SceneModel` and `SceneFreeze`): the `addOnce` after-render handler of the
  lower-case builder. It freezes materials and every mesh, then sets the
  scene's picking, frustum-clipping and material-dirty flags. The subscription
  is a `Live -> Frozen` state machine, so the handler runs at most once.
- **Shadow loop** (`shadow_setup.dfy`, module `ShadowSetup`): the upper-case
  builder's pass over `scene.meshes`. It sets `receiveShadows` on each mesh and
  registers each mesh as a shadow caster.

Timestamps are abstract integers of milliseconds, byte counts are natural
numbers, and a mesh is its `uniqueId` plus the flags the loops touch.

Four behaviours of the code that a reader might not expect, all modelled as written:

- **Slot writes past the end.** `updateLoadingText` is a JavaScript element
  assignment. In both builders, writing past the end grows the array instead
  of being rejected, and skipped slots become holes that `join` renders as
  empty. `LoadingText.Update` models that.
- **Swap target.** The ternary on the active camera sends the MMD camera to
  the arc-rotate camera. Any other active camera, for instance a WebXR camera,
  goes to the MMD camera, not to "the other" camera.
- **Shadow receivers and casters.** The upper-case builder's loop covers every
  mesh in the scene, the shadow-only ground included. The loop is what makes
  the ground a shadow receiver, and it also registers the ground as a shadow
  caster.
- **Unknown totals.** A zero total (a response of unknown length) makes the
  percentage `NaN` or `Infinity`. The code does not guard against this, so the
  model includes it instead of requiring `total > 0`.

## Model

| member | source | states |
|---|---|---|
| CameraToggle.Click | src/sceneBuilder.ts:261-270 | A click that completes a double click (a click is recorded and at most 500 ms have passed) forgets the recorded click and swaps the camera. Any other click, including the first, records its time and leaves the camera unchanged. The body evaluates the guard `500 < now - last` with JavaScript's `-Infinity` rule. |
| CameraToggle.TogglesIffDoubleClick | src/sceneBuilder.ts:263-269 | A click changes the active camera if and only if it completes a double click. |
| CameraToggle.FirstClickOnlyRecords | src/sceneBuilder.ts:260-265 | Because the last click time starts at `-Infinity`, the first click after installation only records its time and never swaps. |
| CameraToggle.SlowClickOnlyRecords | src/sceneBuilder.ts:263-265 | A click more than 500 ms after the recorded one records the current time and keeps the camera. |
| CameraToggle.QuickClickSwaps | src/sceneBuilder.ts:263-269 | A click 500 ms or less after the recorded one, exactly 500 included, resets the time to "never" and swaps the camera. |
| CameraToggle.NoSwapAfterSwap | src/sceneBuilder.ts:267-269 | Right after a swap, the next click never swaps, whatever its time. It is recorded as the first click of a new pair. |
| CameraToggle.SwapExchanges | src/sceneBuilder.ts:269 | The swap sends the MMD camera to the arc-rotate camera and every other camera to the MMD camera. On those two cameras, swapping twice is the identity. |
| CameraToggle.RunActive | src/sceneBuilder.ts:259-270 | After any sequence of clicks, the active camera is the starting camera swapped once per click that toggled. |
| CameraToggle.SwapTimesParity | src/sceneBuilder.ts:269 | Starting from either known camera, an even number of swaps returns to it and an odd number gives the other one. |
| CameraToggle.ToggleCountBound | src/sceneBuilder.ts:263-269 | Because a swap resets the last click time, twice the number of toggles is at most the number of clicks, plus one if a click was pending at the start. |
| CameraToggle.ClickExamples | src/sceneBuilder.ts:260-269 | Clicks at 0 and 400 ms toggle once. Clicks at 0 and 600 ms do not toggle. Clicks at 0, 300 and 600 ms toggle exactly once, leaving 600 recorded. |
| ProgressText.PercentOf | src/sceneBuilder.ts:164 | For a known total, the percentage p satisfies p·total ≤ loaded·100 < (p+1)·total, which is the floor of the exact quotient. For a zero total it is `NaN` when nothing has arrived and `Infinity` otherwise. |
| ProgressText.PercentBounds | src/SceneBuilder.ts:134 | If 0 ≤ loaded ≤ total and total > 0, the percentage lies in [0, 100] and equals 100 exactly when loaded = total. |
| ProgressText.DecimalReadsBack | src/sceneBuilder.ts:171 | The decimal text of a byte count, as the template prints it, reads back as that count. |
| ProgressText.ProgressLineFields | src/SceneBuilder.ts:142 | A progress line is `Loading <subject>... ` followed by three digit fields in the shape `a/b (c%)`. `a` reads as loaded, `b` as total, and `c` as a percentage in [0, 100] that is 100 exactly on completion. |
| ProgressText.UnknownTotal | src/sceneBuilder.ts:164 | With a zero total the line ends `0/0 (NaN%)` before any byte arrives and `n/0 (Infinity%)` afterwards. |
| LoadingText.Update | src/sceneBuilder.ts:151-152 | Writing text t to slot i sets slot i to t and leaves every other slot unchanged. The length becomes max(old length, i+1), and any slot skipped over is a hole. |
| LoadingText.UpdatesCommute | src/SceneBuilder.ts:123-125 | Updates to different slots commute. |
| LoadingText.UpdateOverwrites | src/SceneBuilder.ts:124-125 | A second update to the same slot hides the first. Repeating an identical update changes nothing. |
| LoadingText.UntouchedSlotKept | src/SceneBuilder.ts:124 | A slot that no update in a sequence targets keeps its value. |
| LoadingText.ApplyAllGrows | src/sceneBuilder.ts:152 | A sequence of updates never shrinks the array. |
| LoadingText.LastWriteWins | src/SceneBuilder.ts:123-125 | After any interleaving of updates, each slot holds the text of its last update. |
| LoadingText.ApplyAllSettles | src/sceneBuilder.ts:151-152 | After any sequence of updates, the array's length is the larger of its starting length and one past the highest slot written. Each slot holds its last written text, otherwise its starting value, otherwise a hole. |
| LoadingText.ReachIsTight | src/sceneBuilder.ts:152 | No update touches a slot at or past that final reach, and the slot just below it has been written. |
| LoadingText.UntouchedPastStartIsHole | src/sceneBuilder.ts:150-153 | A slot past the starting array that no update targets is a hole, so it renders as an empty segment. |
| LoadingText.LastWritesDecide | src/SceneBuilder.ts:123-125 | Two update sequences that leave the same last text in every slot give the same array and the same display. The display depends only on the last text written to each slot. |
| LoadingText.CompletedLoadingDisplay | src/SceneBuilder.ts:133-150 | When the last texts written to slots 0, 1 and 2 are given strings, in any order and after any earlier writes, the display shows them in slot order. The lower-case builder shows exactly three segments; the upper-case builder adds a trailing separator for its blank fourth slot. |
| LoadingText.LoadersFinish | src/SceneBuilder.ts:133-150 | Whatever order the three tasks finish in, once the last writes to slots 0, 1 and 2 are the motion loader's progress line, the model loader's progress line and the physics "Done" text, both builders' displays show the three in slot order. |
| LoadingText.LastWriteAt | src/sceneBuilder.ts:150-154 | A write that no later write to the same slot follows decides that slot. |
| LoadingText.LengthKept | src/SceneBuilder.ts:122-124 | Updates to slots inside the array keep its length. |
| LoadingText.JoinSplit | src/sceneBuilder.ts:153 | The joined text splits at any inner slot boundary into the join of the slots before it, one separator, and the join of the slots after it. |
| LoadingText.JoinLength | src/SceneBuilder.ts:125 | Joining n > 0 segments adds exactly n − 1 separators to their total length. |
| LoadingText.SlotPosition | src/sceneBuilder.ts:153 | Slot i's text appears after the lead and the first i slots, each followed by a separator. A separator and the later slots follow it when there are any. Holes appear as empty segments. |
| LoadingText.FourSlotDisplay | src/SceneBuilder.ts:125 | A four-slot display is the lead followed by the four slot texts, with exactly three separators between them. |
| LoadingText.FixedKeepsFourSlots | src/SceneBuilder.ts:122-126 | Starting from four empty strings, any updates to slots 0–3 keep the array at four slots, so the display keeps its three inner separators even though only slots 0–2 are ever written. |
| LoadingText.SparseFirstUpdate | src/sceneBuilder.ts:150-153 | From the empty start, the first update (slot 2, by the physics task) leaves two holes before the text, and they show as two blank segments. |
| LoadingText.FixedFirstUpdate | src/SceneBuilder.ts:146 | From the four-empty-string start, the same update leaves blank slots 0, 1 and 3 around the text, so a separator trails it. |
| LoadingText.PhysicsSlotSettles | src/SceneBuilder.ts:145-151 | Once the physics task has written "Loading physics engine..." and later "Loading physics engine... Done", slot 2 holds the latter, however the motion and model updates interleave. |
| SceneFreeze.FreezeMesh | src/sceneBuilder.ts:229-234 | A processed mesh has its world matrix frozen, bounding-info sync off, picking off and always-active on. It keeps its identity and its shadow setting, and a mesh already in that state is unchanged. |
| SceneFreeze.FreezeScene | src/sceneBuilder.ts:225-241 | After the handler, every mesh is frozen and the mesh list holds the same meshes in the same order. Materials are frozen, and all three pointer-picking skips, frustum-clipping skip and the material-dirty block are set. |
| SceneFreeze.FreezeHandler | src/sceneBuilder.ts:224-242 | The handler, statement by statement (an indexed loop over the meshes), yields exactly that frozen scene. |
| SceneFreeze.FreezeIdempotent | src/sceneBuilder.ts:225-241 | Freezing an already frozen scene changes nothing. |
| SceneFreeze.FrozenAbsorbs | src/sceneBuilder.ts:224 | Once the `addOnce` subscription has fired, later render completions change nothing. |
| SceneFreeze.RunsAtMostOnce | src/sceneBuilder.ts:224-242 | Before the first render completion the scene is untouched. After one or more completions it has been frozen once, the handler has run exactly once, and the subscription is gone. |
| ShadowSetup.AddShadowCaster | src/SceneBuilder.ts:159 | Registering a caster adds its id to the render list and keeps the earlier entries in order. A mesh already in the list leaves it unchanged, so a list without duplicates stays without them. |
| ShadowSetup.AddCasters | src/SceneBuilder.ts:157-160 | Registering a list of meshes in turn leaves a render list holding exactly the earlier casters and the meshes' ids. The earlier entries stay in front, and no duplicate appears. |
| ShadowSetup.AddShadows | src/SceneBuilder.ts:157-160 | After the loop, every mesh receives shadows and is a registered caster. The mesh list keeps its meshes and order, and only `receiveShadows` changed. The render list is the one that registering the meshes in order produces, which by `AddCasters` holds exactly the earlier casters plus the scene's meshes, without duplicates. |
| ShadowSetup.AddCastersAbsorbs | src/SceneBuilder.ts:159 | Registering meshes that are all registered already leaves the render list as it is. |

## Left out

- The `Promise.all` fan-out and join, and the asynchronous loaders (`BvmdLoader`, `LoadAssetContainerAsync`, `SceneLoader.ImportMeshAsync`, Havok instantiation), are concurrency and calls into library code. The model takes their progress updates as a sequence of writes in any interleaving.
- The bone-follow light callback uses floating-point matrix products from Babylon.js. Its vertical offset is 10 in the lower-case builder and 0 in the upper-case builder.
- Construction and tuning of cameras, lights, the shadow generator, the ground material, the post-processing pipeline and the colours. These are library calls with constants and no branching.
- The audio player, the player control, WebXR setup, `displayLoadingUI`/`hideLoadingUI` (including the `addOnce` and `setTimeout` that hide it), and the rest of the DOM and engine interaction. These are platform services.
- `src/index.ts` (DOM and engine bootstrap) and `webpack.config.ts` (build configuration) contain no modelled logic.
- The lower-case builder's per-model-mesh `receiveShadows` loop and its single `addShadowCaster(modelMesh)` call belong to the post-load binding. They are not part of this model.
- CameraToggle.Click: `performance.now()` returns fractional milliseconds. Here a timestamp is an integer, with the same comparison against 500.
- ProgressText.PercentOf: JavaScript computes `loaded * 100 / total` in double precision. The model uses the exact quotient, which gives the same floor whenever loaded ≤ total < 2^47. When loaded exceeds total the two can differ: for loaded = 2^47 − 3 and total = 3, the double-precision floor is one larger.
- ProgressText.Decimal: JavaScript prints a number in plain decimal only below 10^21 (above, it uses exponent notation such as `1e+21`), and byte counts are doubles, exact only below 2^53. `Decimal` takes any natural number and always prints plain decimal, so it matches the source for byte counts below 2^53.
- LoadingText.Update: slot indices are natural numbers. The builders only pass 0, 1 and 2, and a negative index (a plain property write in JavaScript) is not modelled.
- ShadowSetup.AddShadowCaster: the registry behaviour (append unless present) is Babylon.js's `ShadowGenerator.addShadowCaster`, which is not part of this model. Its default registration of child meshes is left out. Each child mesh is also in `scene.meshes`, so the loop registers it anyway; only its position in the render list may differ.
- SceneFreeze.FreezeScene: `freezeMaterials` and `freezeWorldMatrix` are reduced to one flag each. Meshes added between registering the handler and the first render are not modelled.
