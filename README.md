# A verified model of the item carousel

The program is a WebGL item viewer. Ten items stand on a circle. Pressing `d` or `a` turns
the carousel to the next or the previous item, with an eased animation of 154 frames. The
selected item grows to 1.4 times its size and spins slowly. The item it replaces shrinks
back and turns to face the centre again. `q` switches to an inspect view of the selected
item, in which `w`, `s`, `a` and `d` held down orbit the camera. `q` switches back.

This project models the state machine behind that behaviour and the two numeric helpers
it relies on, and proves properties of both.

- `utils.dfy`, module `Utils`:
  - `easeInOutQuad` and `shortestAngleBetween` from `utils.js`, as functions over exact reals.
  - Their lemmas: range, endpoints, monotonicity, symmetry, congruence modulo 2π,
    minimality, uniqueness and antisymmetry.
  - JavaScript's truncating `%`, written out as `Trunc` and `JsRem`.
- `carousel.dfy`, module `Carousel`:
  - The globals of `main.js` as one `State` value, and each handler and frame update as a
    function from the old state to the new one.
  - The invariant every reachable state keeps, and lemmas over several frames and key
    events.
  - The view, projection and model matrices a frame hands to the shaders, as
    uninterpreted compositions.
- `scene.dfy`, module `Scene`:
  - `CarouselScene`, a class whose fields are those globals, with methods that update them
    in place as `main.js` does. Each method is proved to produce exactly the state the
    matching `Carousel` function gives.
  - `MeshCache`, a class for the `meshCache` dictionary and `getOrCreateVAO`.
  - The item-creation loop of `initialize`.

The model makes these choices about the program's environment:

- **π.** `Math.PI` is used as its exact double value, a real literal. With a literal,
  multiplying by 2π stays linear for the solver.
- **Item placement.** Positions and the angle each item faces (`lookAtAngleY`) come from
  `sin`, `cos` and `atan2`. The constructor takes them as a parameter
  `place: real -> Placement`, applied to each item's angle.
- **Uploads.** `uploadAttributeData` is a GPU call. What it yields for each of the six
  meshes is a parameter.
- **Canvas.** The canvas aspect ratio is a parameter.
- **Frames.** A frame is `drawItems`, modelled by the method `Scene.CarouselScene.DrawItems`
  and the function `Carousel.Step`.

Consequences of the code as written that the proofs make explicit:

- **The range of `shortestAngleBetween`.** Both comparisons of the adjustment (utils.js:77)
  are strict, so a half turn is kept as it is: both −π and π come back, and the range is
  the closed interval [−π, π] (`Utils.ShortestAngleHalfTurn`).
- **The previous item's scale.** Its last update happens in frame 153 of a transition, at
  progress 0.9945. Frame 154 updates with progress 1, and at that progress only the
  selected item is touched. So the previous item keeps the scale 1.0000242, not exactly 1
  (`Carousel.PreviousItemStopsShort`).
- **The wrap from item 9 to item 0.** The carousel angle runs up to 2π and then snaps to
  the target angle 0. That is the same direction, so the turn is still exactly one item
  spacing (`Carousel.RotateTurnsOneSpacing`).
- **The inspect camera's starting rotation.** It starts at the carousel camera's rotation
  (12.5, 0). Leaving inspect mode with `q` resets it to (0, 0), so every later visit
  starts level.
- **Key events before the items exist.** The listeners are registered when the script
  loads (main.js:430, 456), but the items are pushed only at the end of `initialize`
  (main.js:103-128), which awaits shader and texture loading first. In that window
  `a` and `d` throw inside `rotateInventory`, and `q` can switch inspect mode on, so the
  first frame can already be in inspect mode with keys held. The invariant still holds
  once the items are there (`Carousel.EarlyEventsThenItems`).

## Model

| member | source | states |
|---|---|---|
| Utils.Trunc | utils.js:74 | the quotient JavaScript's `%` uses: truncation toward zero, within 1 of the real quotient on the side of zero |
| Utils.TruncOdd | utils.js:74 | truncation commutes with negation |
| Utils.JsRem | utils.js:74 | JavaScript's `x % m` for m > 0: x − trunc(x / m)·m, the remainder with the sign of the dividend; its properties for m = 2π are the lemmas below |
| Utils.JsRemTurnBounds | utils.js:74 | `x % 2π` lies in (−2π, 2π), has the sign of `x`, differs from `x` by whole turns, and is `x` itself when `x` is already in (−2π, 2π) |
| Utils.JsRemTurnOdd | utils.js:74 | `(-x) % 2π == -(x % 2π)` |
| Utils.EaseInOutQuad | utils.js:64-68 | the curve itself: 2t² below t = 0.5, −1 + (4 − 2t)·t from 0.5 on; its properties are the lemmas below |
| Utils.EaseRange | utils.js:64-68 | easeInOutQuad maps [0, 1] into [0, 1] and (0, 1) into (0, 1) |
| Utils.EaseEndpoints | utils.js:64-68 | easeInOutQuad(0) = 0, easeInOutQuad(0.5) = 0.5, easeInOutQuad(1) = 1 |
| Utils.EaseStrictlyIncreasing | utils.js:64-68 | on [0, 1] a larger argument gives a strictly larger value, across the switch at 0.5 too |
| Utils.EaseMonotone | utils.js:64-68 | easeInOutQuad is non-decreasing on [0, 1] |
| Utils.EaseSymmetric | utils.js:64-68 | easeInOutQuad(1 − t) = 1 − easeInOutQuad(t) for every t |
| Utils.FirstHalfRange | utils.js:65-66 | on [0, 0.5) the curve stays in [0, 0.5) and is positive for t > 0 |
| Utils.SecondHalfRange | utils.js:65-67 | on [0.5, 1] the curve stays in [0.5, 1] and is below 1 for t < 1 |
| Utils.ShortestAngleBetween | utils.js:70-78 | the result lies in the closed range [−π, π]; when b − a is already in [−π, π], the result is b − a (so `shortestAngleBetween(a, a) == 0`) |
| Utils.ShortestAngleIsCongruent | utils.js:70-78 | the result is b − a plus a whole number of turns, so a + result faces b |
| Utils.ShortestAngleIsMinimal | utils.js:70-78 | no representative b − a + 2πk has a smaller absolute value than the result |
| Utils.ShortestAngleUnique | utils.js:70-78 | any representative b − a + 2πk strictly inside (−π, π) is the result |
| Utils.ShortestAngleAntisymmetric | utils.js:74-77 | `shortestAngleBetween(b, a) == -shortestAngleBetween(a, b)` for all a and b, half turns included |
| Utils.ShortestAngleHalfTurn | utils.js:77 | both −π and π are results: for every a, `shortestAngleBetween(a, a + π) == π` and `shortestAngleBetween(a, a - π) == -π` |
| Carousel.ItemAngle | main.js:106 | item i's angle is i · 2π/10, and lies in [0, 2π) for the ten items |
| Carousel.ItemAngleIncreasing | main.js:106 | item angles strictly increase with the index |
| Carousel.NewItem | main.js:115-127 | the record pushed for item i: position (x, 0, z) from the placement, angle, id i, mesh and texture i % 6, the cached vertex array and index count, scale 1, rotationYStart 0, rotationY and lookAtAngleY from the placement |
| Carousel.InitialItems | main.js:103-128 | ten items; item i has id i, angle 2π·i/10, mesh and texture i % 6, scale 1, rotationYStart 0, rotationY equal to its lookAtAngleY, and the vertex array uploaded for mesh i % 6 |
| Carousel.InitialItemsShareVao | main.js:111-113 | items whose indices agree modulo 6 share mesh and vertex array |
| Carousel.InitialState | main.js:24-42 | the globals once initialize has run: the ten items, both indices 0, all three angles 0, progress 1, carousel mode, inspect camera (12.5, 0), no key held |
| Carousel.Invariant | main.js:24-42 | what every reachable state satisfies: ten items with their creation-time id, angle, mesh and texture; indices in [0, 10); scales in [1, 1.4]; progress in [0, 1]; inspect mode only when settled; held keys only from KEYS; targetAngle is the selected item's angle; settled ⇒ currentAngle faces the target up to whole turns |
| Carousel.InitialStateInvariant | main.js:24-42 | the initial globals (progress 1, not inspecting, nothing held, angles 0) satisfy the invariant |
| Carousel.WrapIndex | main.js:414 | `(index + direction + 10) % 10` is the neighbour on the circle: index + 1 except 9 → 0 for d, index − 1 except 0 → 9 for a, always in [0, 10) |
| Carousel.WrapIndexInverse | main.js:414 | one step forward then one back (or back then forward) returns to the same item |
| Carousel.RotateInventory | main.js:410-419 | previous index := old selected; that item's rotationYStart := its rotationY, every other item unchanged; selected := the neighbour in [0, 10); startAngle := currentAngle; targetAngle := the new item's angle; progress := 0; mode, camera and keys unchanged |
| Carousel.NextProgress | main.js:397-399 | the new progress is exactly old + 0.0065, clamped at 1, and grows unless it is 1 |
| Carousel.EasedTurn | main.js:401-403 | `from + turn · easeInOutQuad(p)`, the part of a turn covered at progress p |
| Carousel.Interpolate | main.js:401-403 | `from + shortestAngleBetween(from, to) · easeInOutQuad(p)`, the eased short turn used for the carousel angle and, at main.js:384-385, for the previous item's yaw |
| Carousel.EasedTurnBetween | main.js:401-403 | `from + turn · ease(p)` lies between from and from + turn for p in [0, 1] |
| Carousel.EasedTurnMonotone | main.js:401-403 | the eased turn moves away from its start monotonically as p grows |
| Carousel.InterpolateBetween | main.js:401-403 | while transitioning, the angle lies on the short arc from the start toward the target |
| Carousel.InterpolateEnds | main.js:401-403 | at progress 0 the angle is the start; at progress 1 it faces the target up to whole turns |
| Carousel.InterpolateMonotone | main.js:401-403 | the carousel never turns back during a transition |
| Carousel.UpdateInventoryLerp | main.js:394-408 | while progress < 1: progress := min(p + 0.0065, 1) and currentAngle := start + shortestAngleBetween(start, target) · ease(progress); otherwise currentAngle := targetAngle exactly; nothing else changes; progress stays in [0, 1] and never decreases |
| Carousel.UpdatedItem | main.js:373-391 | the update: only scale and yaw move; no change in inspect mode or for items neither selected nor previous; while transitioning the selected item gets scale 1 + 0.4 · ease(p) and the previous one scale 1.4 − 0.4 · ease(p) and the yaw eased from rotationYStart toward lookAtAngleY; settled, the selected item gets scale 1.4 and yaw + 0.005; scale stays within [1, 1.4] |
| Carousel.TransitionScalesMirror | main.js:377-386 | during a transition the selected and previous scales sum to 2.4, and the previous item at progress p is as large as the selected one at 1 − p |
| Carousel.SelectedGrowsWithProgress | main.js:377-378 | the selected item's scale (1 + 0.4 · ease(p)) never decreases as progress advances |
| Carousel.UpdateItemScaleAndRotation | main.js:373-391 | only `items[index]` changes, to the updated item; every other item and every other global is unchanged |
| Carousel.UpdateAllItems | main.js:277-281 | every item is updated against the same globals, and nothing else changes |
| Carousel.AxisDelta | main.js:423-426 | a single held key turns its axis by ±1.2; opposite keys held together cancel |
| Carousel.UpdateCameraRotation | main.js:421-427 | no change outside inspect mode; inside it x moves by +1.2 for w and −1.2 for s, y by +1.2 for d and −1.2 for a; nothing else changes |
| Carousel.LowerChar | main.js:431 | upper-case ASCII letters map to their lower-case letters, everything else to itself |
| Carousel.ToLower | main.js:431 | lower-casing keeps the length and lower-cases each character |
| Carousel.ToLowerIdempotent | main.js:431 | lower-casing a lower-cased key changes nothing |
| Carousel.Held | main.js:453 | a key is added to keysPressed exactly when it is one of w, s, a, d, q, e; nothing else changes |
| Carousel.KeyDown | main.js:430-454 | during a transition the only effect is holding the key; settled in inspect mode, q leaves inspect mode and resets the camera to (0, 0) without holding q, other keys are held; settled outside inspect mode, a and d rotate, q enters inspect mode, nothing is held; selection or mode change only when settled |
| Carousel.KeyUp | main.js:456-458 | the lower-cased key is removed from keysPressed and nothing else changes |
| Carousel.KeyDownPreservesInvariant | main.js:430-454 | keydown keeps the invariant: ten items with fixed id, angle, mesh and texture; scales in [1, 1.4]; progress in [0, 1]; inspect mode only when settled; held keys only from KEYS; target = selected item's angle; settled ⇒ facing the target up to whole turns |
| Carousel.KeyUpPreservesInvariant | main.js:456-458 | keyup keeps the same invariant |
| Carousel.Step | main.js:250-293 | a frame keeps the state well formed and leaves selection, previous index, start and target, mode and held keys alone |
| Carousel.StepEffect | main.js:250-293 | a frame applies updateCameraRotation, then updateInventoryLerp, then updates every item against the result; in inspect mode the items stay as they are |
| Carousel.StepPreservesInvariant | main.js:250-293 | a frame keeps the invariant; in particular a completed transition faces the target up to whole turns |
| Carousel.FramesAfter | main.js:250-293 | the globals after n frames with no key event in between; they stay well formed |
| Carousel.FramesProgress | main.js:394-400 | after n key-free frames the progress is min(p + 0.0065n, 1), the invariant still holds, and selection, endpoints and mode are unchanged |
| Carousel.TransitionLength | main.js:394-400 | from progress 0 the transition is under way for 153 frames (progress 0.0065n < 1) and settled from frame 154 on |
| Carousel.AngleFollowsProgress | main.js:401-403 | during the key-free frames of a transition the angle is always the eased turn from start toward target at the current progress |
| Carousel.TransitionSettlesOnTarget | main.js:394-408 | after 154 frames the angle faces the target up to whole turns, and at the 155th frame it is exactly the target angle |
| Carousel.TransitionStaysOnTarget | main.js:405-407 | at every key-free frame after the 154th the angle is exactly the target angle |
| Carousel.ViewMatrixCarousel | main.js:350-358 | the carousel view converts the angle to degrees and back and so turns by exactly −currentAngle: translation (0, 1, −20), then the 12.5° tilt, then the yaw by −currentAngle, composed in that order |
| Carousel.ModelMatrix | main.js:317-327 | buildItemModelMatrix: translation to the item's position, then the yaw rotation, then the uniform scale, composed in that order |
| Carousel.ViewMatrixInspect | main.js:360-371 | getViewMatrixInspect: translation by −10 along z, rotation about x, rotation about y (the inspect rotation in radians), then translation by minus the selected item's position, composed in that order |
| Carousel.ProjectionMatrix | main.js:345 | a perspective of 45°, the canvas aspect, near plane 0.1 and far plane 100 |
| Carousel.DrawItems | main.js:250-293 | the projection is a 45° perspective with near 0.1 and far 100; outside inspect mode the view is built from the post-update carousel angle and ten items are drawn, each after its own update, in index order; in inspect mode the inspect view is used and only the selected item is drawn |
| Carousel.EarlyState | main.js:24-42 | the item-less globals the listeners can meet before the items are pushed: no items, both indices 0, all three angles 0, progress 1, held keys only from KEYS |
| Carousel.EarlyKeyDown | main.js:430-454 | the keydown listener before the items exist: q toggles inspect mode, leaving it resets the inspect camera to (0, 0); in inspect mode other keys are held; outside it nothing else changes, a and d included, since rotateInventory throws at main.js:412 after only setting previousItemIndex to the selected index 0 |
| Carousel.AfterEarlyEvents | main.js:430-458 | any sequence of key events before the items exist leaves the item-less globals item-less, with both indices and all angles 0, progress 1 and only KEYS held |
| Carousel.BeforeItemsIsEarly | main.js:24-42 | the globals before initialize pushes the items are such an item-less state |
| Carousel.EarlyEventsThenItems | main.js:103-128 | whatever key events came before the items were pushed, the state with the items satisfies the invariant |
| Carousel.NoRotationDuringTransition | main.js:433-453 | while a transition is under way no keydown changes the selection, the progress or the mode |
| Carousel.NeighbourSpacing | main.js:410-419 | from any item, and from any whole-turn copy of its angle, the shortest turn to its neighbour is exactly ±2π/10 |
| Carousel.RotateTurnsOneSpacing | main.js:410-419 | from a settled carousel, d starts a turn of exactly +2π/10 and a one of −2π/10, including across the 9 ↔ 0 seam |
| Carousel.SettledFrameTouchesSelectedOnly | main.js:373-391 | a frame whose progress reaches 1 leaves every item except the selected one as it is |
| Carousel.PreviousItemLastUpdate | main.js:380-382 | frame 153 of a transition leaves the previous item at scale 1.0000242 |
| Carousel.PreviousItemStopsShort | main.js:373-408 | from frame 153 on, with no key pressed, the previous item stays at scale 1.0000242 and never returns exactly to 1 |
| Scene.CacheLookup | main.js:133-137 | getOrCreateVAO returns the cached entry when there is one and the fresh upload otherwise |
| Scene.CacheLookupStable | main.js:133-137 | once a slot is stored, a later lookup returns the stored data, whatever a second upload would give |
| Scene.MeshCache.constructor | main.js:17 | the cache starts empty with nothing uploaded |
| Scene.MeshCache.GetOrCreateVao | main.js:133-138 | returns the cache lookup; on a miss it stores the upload and logs one upload of that slot; on a hit it uploads nothing and changes nothing; each slot is uploaded at most once |
| Scene.FirstUploadsHas | main.js:133-137 | after the first n uploads, slot id is cached exactly when id < n, holding its own upload |
| Scene.FirstUploadsFull | main.js:134 | once all six slots are cached, every lookup hits and stores nothing new |
| Scene.CreateItem | main.js:105-127 | one pass of the creation loop builds item i as the initial item record, and uploads mesh i only on the first six passes |
| Scene.CreateItems | main.js:103-128 | the loop builds exactly the initial items, uploading each of the six meshes once, in order 0 to 5 |
| Scene.CarouselScene.constructor | main.js:103-128 | the globals start as the initial state, which satisfies the invariant; the six meshes were uploaded once each, in order |
| Scene.CarouselScene.RotateInventory | main.js:410-419 | updates the fields in place to exactly `Carousel.RotateInventory` of the old state |
| Scene.CarouselScene.UpdateInventoryLerp | main.js:394-408 | updates the fields in place to exactly `Carousel.UpdateInventoryLerp` of the old state |
| Scene.CarouselScene.UpdateItemScaleAndRotation | main.js:373-391 | updates `items[index]` in place to exactly `Carousel.UpdateItemScaleAndRotation` of the old state |
| Scene.CarouselScene.UpdateCameraRotation | main.js:421-427 | updates the fields in place to exactly `Carousel.UpdateCameraRotation` of the old state |
| Scene.CarouselScene.KeyDown | main.js:430-454 | the listener's early returns and gates give exactly `Carousel.KeyDown`, and the invariant is kept |
| Scene.CarouselScene.KeyUp | main.js:456-458 | gives exactly `Carousel.KeyUp`, and the invariant is kept |
| Scene.CarouselScene.SetMatrices | main.js:329-348 | chooses the inspect or the carousel view by the mode, with the 45° projection |
| Scene.CarouselScene.UpdateAndDrawAll | main.js:277-291 | the per-item loop updates every item in index order, and the draw for item i uses item i as it was just updated |
| Scene.CarouselScene.DrawItems | main.js:250-293 | a frame leaves the globals at `Carousel.Step` of the old ones, keeps the invariant, and emits exactly the output `Carousel.DrawItems` describes |

## Left out

- WebGL calls inside `drawItems` (texture binding, uniforms, `drawElements`), `render`, `drawBackground`, the CRT post-process (`createCRTPostProcess`, `crtConfig` and its uniform forwarding), `createShader` and `createProgram`: GPU API calls with no logic to check. A frame's output is the list of model matrices with texture, vertex array and index count.
- `uploadAttributeData`, `uploadBackgroundData`, `loadTexture`, `loadTextResource`: GPU uploads and network I/O. Their results are parameters.
- `Math.sin`, `Math.cos` and `Math.atan2` in item placement (main.js:107-109): transcendental functions. They are the `place` parameter, so positions and `lookAtAngleY` are opaque reals fixed at construction.
- `mat4Translation`, `mat4RotX`, `mat4RotY`, `mat4Scale`, `mat4Mul`, `perspective` and `scaleMesh` are not part of this model. Matrices are uninterpreted compositions, which record only which operation is applied to what, and in which order.
- Carousel.ViewMatrixInspect has no contract of its own. It is only the composition order of main.js:360-371, and it is used through `Carousel.DrawItems`.
- IEEE-754 rounding: progress and angles are exact reals. The 154-frame transition and the residual scale 1.0000242 hold on reals. JavaScript doubles may differ in the last bits.
- Carousel.ToLower: lower-cases ASCII letters only. JavaScript's `toLowerCase` also folds other Unicode letters. No key the program handles depends on that.
- Scene.CarouselScene.KeyDown and Scene.CarouselScene.KeyUp require the ten items to exist. Key events that arrive before `initialize` has pushed them are modelled only on values, by `Carousel.EarlyKeyDown` and `Carousel.AfterEarlyEvents`. The TypeError that `a` and `d` raise there is modelled as the listener ending with no further change.
- `requestAnimationFrame` and `addEventListener`: scheduling and event wiring. The listeners are the methods `KeyDown` and `KeyUp`, which take `event.key`, and a frame is the method `DrawItems`.
- The canvas element's size: the aspect ratio is a parameter of `DrawItems` and `SetMatrices`.
- Mesh and texture objects are represented by their index into `meshArray` and `textureArray`. The item records the loop pushes are values in a sequence, and an update replaces one of them. The JavaScript code mutates the shared object in place, and nothing else holds a reference to it.
- `hslToRgb`: an unused colour conversion.
- The line in the CRT uniform forwarding that reads `crtConfig.retraceLines` (main.js:226) uses a property spelled `retraceLine` in the configuration (main.js:473). This is part of the CRT pass, which is not part of this model.
