/** The carousel/inspect state machine of main.js, as values. The module-level globals
    become one `State` record, and each handler and per-frame update becomes a function
    from the old state to the new one. Scene.CarouselScene runs the same updates in
    place and is proved equal to these functions. */
module Carousel {
  import opened Utils

  const NUM_ITEMS: int := 10
  /** meshArray and textureArray both hold six entries; item i uses entry i % 6. */
  const MESH_COUNT: int := 6
  const KEYS: seq<string> := ["w", "s", "a", "d", "q", "e"]
  const SCALE_FACTOR: real := 0.4
  const ROTATION_Y_SPEED: real := 0.005
  const LERP_SPEED_INVENTORY: real := 0.0065
  /** Degrees the inspect camera turns per frame for each held key. */
  const CAMERA_STEP: real := 1.2
  const INSPECT_DISTANCE: real := 10.0
  const CAMERA_ROTATION: Rotation := Rotation(12.5, 0.0)
  const CAMERA_TRANSLATION: Vec3 := Vec3(0.0, 1.0, 20.0)
  /** The least n with n * LERP_SPEED_INVENTORY >= 1. */
  const TRANSITION_FRAMES: nat := 154

  datatype Vec3 = Vec3(x: real, y: real, z: real)

  /** A rotation in degrees about the x and the y axis. */
  datatype Rotation = Rotation(x: real, y: real)

  /** Where sin, cos and atan2 put an item on the circle: the x and z of its position,
      and the yaw that makes it face the centre. */
  datatype Placement = Placement(x: real, z: real, lookAtAngleY: real)

  /** What uploading a mesh's attribute data yields. */
  datatype VaoData = VaoData(vao: int, numIndices: int)

  /** One item record. `mesh` and `texture` are indices into meshArray and textureArray. */
  datatype Item = Item(
    position: Vec3,
    angle: real,
    id: int,
    mesh: int,
    texture: int,
    vao: int,
    numIndices: int,
    scaleFactor: real,
    rotationYStart: real,
    rotationY: real,
    lookAtAngleY: real)

  /** The globals that the handlers and the frame updates read and write. */
  datatype State = State(
    items: seq<Item>,
    selectedItemIndex: int,
    previousItemIndex: int,
    startAngle: real,
    targetAngle: real,
    currentAngle: real,
    rotationProgressCarousel: real,
    inspectMode: bool,
    inspectModeCameraRotation: Rotation,
    keysPressed: set<string>)

  // ---------------------------------------------------------------------------
  // Items and the well-formed states

  /** `(i / NUM_ITEMS) * 2 * Math.PI`: where item i sits on the circle. */
  function ItemAngle(i: int): (a: real)
    ensures 0 <= i < NUM_ITEMS ==> 0.0 <= a < TAU
    ensures a == i as real * (TAU / NUM_ITEMS as real)
  {
    (i as real / NUM_ITEMS as real) * 2.0 * PI
  }

  /** Items are spread round the circle in index order. */
  lemma ItemAngleIncreasing(i: int, j: int)
    requires i < j
    ensures ItemAngle(i) < ItemAngle(j)
  {
  }

  /** The record the item-creation loop pushes for index i. */
  function NewItem(i: int, place: Placement, data: VaoData): Item
  {
    Item(Vec3(place.x, 0.0, place.z), ItemAngle(i), i, i % MESH_COUNT, i % MESH_COUNT,
         data.vao, data.numIndices, 1.0, 0.0, place.lookAtAngleY, place.lookAtAngleY)
  }

  /** The parts of an item that creation fixes and nothing later changes. */
  predicate Placed(item: Item, i: int)
  {
    item.id == i && item.angle == ItemAngle(i) && item.mesh == i % MESH_COUNT
    && item.texture == i % MESH_COUNT
  }

  /** The item array after the creation loop. `place` stands for the sin/cos/atan2
      placement of an angle, and `uploads[m]` for what uploading mesh m yields. */
  function InitialItems(place: real -> Placement, uploads: seq<VaoData>): (items: seq<Item>)
    requires |uploads| == MESH_COUNT
    ensures |items| == NUM_ITEMS
    ensures forall i :: 0 <= i < NUM_ITEMS ==>
      items[i] == NewItem(i, place(ItemAngle(i)), uploads[i % MESH_COUNT])
    ensures forall i :: 0 <= i < NUM_ITEMS ==>
      Placed(items[i], i) && items[i].scaleFactor == 1.0 && items[i].rotationYStart == 0.0
      && items[i].rotationY == items[i].lookAtAngleY
      && items[i].vao == uploads[i % MESH_COUNT].vao
      && items[i].numIndices == uploads[i % MESH_COUNT].numIndices
  {
    seq(NUM_ITEMS, i requires 0 <= i < NUM_ITEMS =>
      NewItem(i, place(ItemAngle(i)), uploads[i % MESH_COUNT]))
  }

  /** Items whose index agrees modulo 6 draw with the same vertex array. */
  lemma InitialItemsShareVao(place: real -> Placement, uploads: seq<VaoData>, i: int, j: int)
    requires |uploads| == MESH_COUNT
    requires 0 <= i < NUM_ITEMS && 0 <= j < NUM_ITEMS && i % MESH_COUNT == j % MESH_COUNT
    ensures InitialItems(place, uploads)[i].vao == InitialItems(place, uploads)[j].vao
    ensures InitialItems(place, uploads)[i].mesh == InitialItems(place, uploads)[j].mesh
  {
  }

  /** The globals right after initialisation. */
  function InitialState(place: real -> Placement, uploads: seq<VaoData>): State
    requires |uploads| == MESH_COUNT
  {
    State(InitialItems(place, uploads), 0, 0, 0.0, 0.0, 0.0, 1.0, false,
          CAMERA_ROTATION, {})
  }

  /** The ten items are present and both indices point at one of them. */
  predicate WellFormed(s: State)
  {
    |s.items| == NUM_ITEMS
    && 0 <= s.selectedItemIndex < NUM_ITEMS
    && 0 <= s.previousItemIndex < NUM_ITEMS
  }

  /** What every reachable state satisfies. */
  ghost predicate Invariant(s: State)
  {
    WellFormed(s)
    && 0.0 <= s.rotationProgressCarousel <= 1.0
    // inspect mode is entered only when settled, and no rotation starts inside it
    && (s.inspectMode ==> s.rotationProgressCarousel == 1.0)
    && (forall k :: k in s.keysPressed ==> k in KEYS)
    && (forall i :: 0 <= i < NUM_ITEMS ==>
          Placed(s.items[i], i) && 1.0 <= s.items[i].scaleFactor <= 1.0 + SCALE_FACTOR)
    && s.targetAngle == s.items[s.selectedItemIndex].angle
    // once settled, the carousel faces the selected item, up to whole turns
    && (s.rotationProgressCarousel == 1.0 ==>
          exists k :: s.currentAngle == s.targetAngle + Turns(k))
  }

  lemma InitialStateInvariant(place: real -> Placement, uploads: seq<VaoData>)
    requires |uploads| == MESH_COUNT
    ensures Invariant(InitialState(place, uploads))
  {
    var s := InitialState(place, uploads);
    assert s.currentAngle == s.targetAngle + Turns(0);
  }

  // ---------------------------------------------------------------------------
  // rotateInventory

  /** `(index + direction + NUM_ITEMS) % NUM_ITEMS`: the neighbour on the circle. All
      operands are non-negative here, where JavaScript's `%` and Dafny's agree. */
  function WrapIndex(index: int, direction: int): (r: int)
    requires 0 <= index < NUM_ITEMS && (direction == 1 || direction == -1)
    ensures 0 <= r < NUM_ITEMS
    ensures direction == 1 ==> r == if index == NUM_ITEMS - 1 then 0 else index + 1
    ensures direction == -1 ==> r == if index == 0 then NUM_ITEMS - 1 else index - 1
  {
    (index + direction + NUM_ITEMS) % NUM_ITEMS
  }

  /** Stepping one way and then back returns to the same item. */
  lemma WrapIndexInverse(index: int, direction: int)
    requires 0 <= index < NUM_ITEMS && (direction == 1 || direction == -1)
    ensures WrapIndex(WrapIndex(index, direction), -direction) == index
  {
  }

  /** rotateInventory(direction): the selected item becomes the previous one and keeps
      its current yaw as the start of its way back, the neighbour is selected, and a
      transition from the current angle to the neighbour's angle starts. */
  function RotateInventory(s: State, direction: int): (r: State)
    requires WellFormed(s) && (direction == 1 || direction == -1)
    ensures WellFormed(r)
    ensures r.previousItemIndex == s.selectedItemIndex
    ensures r.selectedItemIndex == WrapIndex(s.selectedItemIndex, direction)
    ensures r.startAngle == s.currentAngle && r.currentAngle == s.currentAngle
    ensures r.targetAngle == s.items[r.selectedItemIndex].angle
    ensures r.rotationProgressCarousel == 0.0
    ensures |r.items| == |s.items|
    ensures r.items[s.selectedItemIndex]
         == s.items[s.selectedItemIndex].(rotationYStart := s.items[s.selectedItemIndex].rotationY)
    ensures forall j :: 0 <= j < |s.items| && j != s.selectedItemIndex ==> r.items[j] == s.items[j]
    ensures r.inspectMode == s.inspectMode
    ensures r.inspectModeCameraRotation == s.inspectModeCameraRotation
    ensures r.keysPressed == s.keysPressed
  {
    var previous := s.selectedItemIndex;
    var item := s.items[previous];
    var items := s.items[previous := item.(rotationYStart := item.rotationY)];
    var selected := WrapIndex(previous, direction);
    s.(previousItemIndex := previous,
       items := items,
       selectedItemIndex := selected,
       startAngle := s.currentAngle,
       targetAngle := items[selected].angle,
       rotationProgressCarousel := 0.0)
  }

  // ---------------------------------------------------------------------------
  // updateInventoryLerp

  function Min(a: real, b: real): (r: real)
    ensures r <= a && r <= b && (r == a || r == b)
  {
    if a <= b then a else b
  }

  /** One increment of the transition progress: exactly 0.0065 more, clamped at 1. */
  function NextProgress(p: real): (r: real)
    ensures r == Min(p + LERP_SPEED_INVENTORY, 1.0)
    ensures p < r || r == 1.0
  {
    var q := p + LERP_SPEED_INVENTORY;
    if q > 1.0 then 1.0 else q
  }

  /** `from + turn * easeInOutQuad(p)`: the part of `turn` covered at progress p. */
  function EasedTurn(from: real, turn: real, p: real): real
  {
    from + turn * EaseInOutQuad(p)
  }

  lemma EasedTurnBetween(from: real, turn: real, p: real)
    requires 0.0 <= p <= 1.0
    ensures Between(EasedTurn(from, turn, p), from, from + turn)
  {
    var e := EaseInOutQuad(p);
    EaseRange(p);
    ProductBetween(turn, e);
    assert EasedTurn(from, turn, p) == from + turn * e;
  }

  lemma EasedTurnMonotone(from: real, turn: real, p: real, q: real)
    requires 0.0 <= p <= q <= 1.0
    ensures Between(EasedTurn(from, turn, p), from, EasedTurn(from, turn, q))
  {
    EaseRange(p);
    EaseMonotone(p, q);
    ShiftedProductsOrdered(from, turn, EaseInOutQuad(p), EaseInOutQuad(q));
  }

  /** `from + shortestAngleBetween(from, to) * easeInOutQuad(p)`: the eased turn from
      `from` toward `to`, used both for the carousel angle and for an item's yaw. */
  function Interpolate(from: real, to: real, p: real): real
  {
    EasedTurn(from, ShortestAngleBetween(from, to), p)
  }

  /** For progress in [0, 1] the angle lies on the short arc from `from` to
      `from + shortestAngleBetween(from, to)`. */
  lemma InterpolateBetween(from: real, to: real, p: real)
    requires 0.0 <= p <= 1.0
    ensures Between(Interpolate(from, to, p), from, from + ShortestAngleBetween(from, to))
  {
    EasedTurnBetween(from, ShortestAngleBetween(from, to), p);
  }

  /** The turn starts at `from` and ends facing `to`, up to whole turns. */
  lemma InterpolateEnds(from: real, to: real)
    ensures Interpolate(from, to, 0.0) == from
    ensures exists k :: Interpolate(from, to, 1.0) == to + Turns(k)
  {
    EaseEndpoints();
    var x := ShortestAngleBetween(from, to);
    assert Interpolate(from, to, 1.0) == from + x;
    ShortestAngleIsCongruent(from, to);
  }

  /** The turn moves one way only: a later progress is further along the arc. */
  lemma InterpolateMonotone(from: real, to: real, p: real, q: real)
    requires 0.0 <= p <= q <= 1.0
    ensures Between(Interpolate(from, to, p), from, Interpolate(from, to, q))
  {
    EasedTurnMonotone(from, ShortestAngleBetween(from, to), p, q);
  }

  /** updateInventoryLerp: while transitioning, advance the progress and place the
      carousel on the eased arc; once settled, face the target exactly. */
  function UpdateInventoryLerp(s: State): (r: State)
    ensures s.rotationProgressCarousel < 1.0 ==>
      r.rotationProgressCarousel == NextProgress(s.rotationProgressCarousel)
      && r.currentAngle == Interpolate(s.startAngle, s.targetAngle, r.rotationProgressCarousel)
    ensures s.rotationProgressCarousel >= 1.0 ==>
      r.rotationProgressCarousel == s.rotationProgressCarousel && r.currentAngle == s.targetAngle
    ensures r == s.(rotationProgressCarousel := r.rotationProgressCarousel,
                    currentAngle := r.currentAngle)
    ensures 0.0 <= s.rotationProgressCarousel <= 1.0 ==>
      s.rotationProgressCarousel <= r.rotationProgressCarousel <= 1.0
  {
    if s.rotationProgressCarousel < 1.0 then
      var p := NextProgress(s.rotationProgressCarousel);
      s.(rotationProgressCarousel := p,
         currentAngle := Interpolate(s.startAngle, s.targetAngle, p))
    else
      s.(currentAngle := s.targetAngle)
  }

  // ---------------------------------------------------------------------------
  // updateItemScaleAndRotation

  /** The item at `index` after updateItemScaleAndRotation. Only the scale and the yaw
      can change; in inspect mode, and for items neither selected nor previous,
      nothing does. */
  function UpdatedItem(s: State, index: int): (r: Item)
    requires 0 <= index < |s.items|
    ensures r == s.items[index].(scaleFactor := r.scaleFactor, rotationY := r.rotationY)
    ensures s.inspectMode ==> r == s.items[index]
    ensures index != s.selectedItemIndex && index != s.previousItemIndex ==> r == s.items[index]
    ensures index != s.selectedItemIndex && s.rotationProgressCarousel >= 1.0 ==> r == s.items[index]
    ensures !s.inspectMode && index == s.selectedItemIndex && s.rotationProgressCarousel < 1.0 ==>
      r.scaleFactor == 1.0 + SCALE_FACTOR * EaseInOutQuad(s.rotationProgressCarousel)
      && r.rotationY == s.items[index].rotationY
    ensures !s.inspectMode && index != s.selectedItemIndex && index == s.previousItemIndex
            && s.rotationProgressCarousel < 1.0 ==>
      r.scaleFactor == 1.4 - SCALE_FACTOR * EaseInOutQuad(s.rotationProgressCarousel)
      && r.rotationY == Interpolate(s.items[index].rotationYStart, s.items[index].lookAtAngleY,
                                    s.rotationProgressCarousel)
    ensures !s.inspectMode && index == s.selectedItemIndex && s.rotationProgressCarousel >= 1.0 ==>
      r.scaleFactor == 1.0 + SCALE_FACTOR
      && r.rotationY == s.items[index].rotationY + ROTATION_Y_SPEED
    ensures (0.0 <= s.rotationProgressCarousel <= 1.0
             && 1.0 <= s.items[index].scaleFactor <= 1.0 + SCALE_FACTOR) ==>
      1.0 <= r.scaleFactor <= 1.0 + SCALE_FACTOR
  {
    var item := s.items[index];
    var p := s.rotationProgressCarousel;
    EaseRange(p);
    if s.inspectMode then item
    else if index == s.selectedItemIndex && p < 1.0 then
      item.(scaleFactor := 1.0 + SCALE_FACTOR * EaseInOutQuad(p))
    else if index == s.previousItemIndex && p < 1.0 then
      item.(scaleFactor := 1.4 - SCALE_FACTOR * EaseInOutQuad(p),
            rotationY := Interpolate(item.rotationYStart, item.lookAtAngleY, p))
    else if index == s.selectedItemIndex && p >= 1.0 then
      item.(scaleFactor := 1.0 + SCALE_FACTOR, rotationY := item.rotationY + ROTATION_Y_SPEED)
    else item
  }

  /** During a transition the selected item grows and the previous one shrinks along the
      same eased curve: their scales always add up to 2.4, and the previous item at
      progress p is as large as the selected one at progress 1 - p. */
  lemma TransitionScalesMirror(s: State)
    requires WellFormed(s) && !s.inspectMode && s.selectedItemIndex != s.previousItemIndex
    requires 0.0 <= s.rotationProgressCarousel < 1.0
    ensures UpdatedItem(s, s.selectedItemIndex).scaleFactor
          + UpdatedItem(s, s.previousItemIndex).scaleFactor == 2.4
    ensures s.rotationProgressCarousel > 0.0 ==>
      UpdatedItem(s, s.previousItemIndex).scaleFactor
      == UpdatedItem(s.(rotationProgressCarousel := 1.0 - s.rotationProgressCarousel),
                     s.selectedItemIndex).scaleFactor
  {
    EaseSymmetric(s.rotationProgressCarousel);
    assert 1.0 - (1.0 - s.rotationProgressCarousel) == s.rotationProgressCarousel;
  }

  /** The selected item never shrinks as its transition advances. */
  lemma SelectedGrowsWithProgress(s: State, p: real, q: real)
    requires WellFormed(s) && !s.inspectMode
    requires 0.0 <= p <= q < 1.0
    ensures UpdatedItem(s.(rotationProgressCarousel := p), s.selectedItemIndex).scaleFactor
         <= UpdatedItem(s.(rotationProgressCarousel := q), s.selectedItemIndex).scaleFactor
  {
    EaseMonotone(p, q);
  }

  /** updateItemScaleAndRotation(items[index], index): replaces that one item and
      leaves every other item and every other global alone. */
  function UpdateItemScaleAndRotation(s: State, index: int): (r: State)
    requires 0 <= index < |s.items|
    ensures |r.items| == |s.items| && r.items[index] == UpdatedItem(s, index)
    ensures forall j :: 0 <= j < |s.items| && j != index ==> r.items[j] == s.items[j]
    ensures r == s.(items := r.items)
  {
    s.(items := s.items[index := UpdatedItem(s, index)])
  }

  /** The carousel branch of drawItems: every item updated against the same globals. */
  function UpdateAllItems(s: State): (r: State)
    ensures |r.items| == |s.items|
    ensures forall i :: 0 <= i < |s.items| ==> r.items[i] == UpdatedItem(s, i)
    ensures r == s.(items := r.items)
  {
    s.(items := seq(|s.items|, i requires 0 <= i < |s.items| => UpdatedItem(s, i)))
  }

  // ---------------------------------------------------------------------------
  // updateCameraRotation

  /** The net turn on one axis: +1.2 for the positive key, -1.2 for the negative one. */
  function AxisDelta(keys: set<string>, plus: string, minus: string): (d: real)
    ensures plus in keys && minus in keys ==> d == 0.0
    ensures plus !in keys && minus !in keys ==> d == 0.0
    ensures plus in keys && minus !in keys ==> d == CAMERA_STEP
    ensures plus !in keys && minus in keys ==> d == -CAMERA_STEP
  {
    (if plus in keys then CAMERA_STEP else 0.0) - (if minus in keys then CAMERA_STEP else 0.0)
  }

  /** updateCameraRotation: outside inspect mode nothing; inside, w/s turn about x and
      d/a about y by 1.2 degrees each, opposite keys cancelling. */
  function UpdateCameraRotation(s: State): (r: State)
    ensures !s.inspectMode ==> r == s
    ensures r == s.(inspectModeCameraRotation := r.inspectModeCameraRotation)
    ensures s.inspectMode ==>
      r.inspectModeCameraRotation.x
        == s.inspectModeCameraRotation.x + AxisDelta(s.keysPressed, "w", "s")
      && r.inspectModeCameraRotation.y
        == s.inspectModeCameraRotation.y + AxisDelta(s.keysPressed, "d", "a")
  {
    if !s.inspectMode then s
    else
      var rotation := s.inspectModeCameraRotation;
      var x1 := if "w" in s.keysPressed then rotation.x + CAMERA_STEP else rotation.x;
      var x2 := if "s" in s.keysPressed then x1 - CAMERA_STEP else x1;
      var y1 := if "d" in s.keysPressed then rotation.y + CAMERA_STEP else rotation.y;
      var y2 := if "a" in s.keysPressed then y1 - CAMERA_STEP else y1;
      s.(inspectModeCameraRotation := Rotation(x2, y2))
  }

  // ---------------------------------------------------------------------------
  // Key handlers

  function LowerChar(c: char): (r: char)
    ensures 'A' <= c <= 'Z' ==> 'a' <= r <= 'z' && r as int == c as int + 32
    ensures !('A' <= c <= 'Z') ==> r == c
  {
    if 'A' <= c <= 'Z' then (c as int + 32) as char else c
  }

  /** `toLowerCase` on ASCII: each upper-case letter replaced by its lower-case one. */
  function ToLower(s: string): (r: string)
    ensures |r| == |s|
    ensures forall i :: 0 <= i < |s| ==> r[i] == LowerChar(s[i])
  {
    if |s| == 0 then [] else [LowerChar(s[0])] + ToLower(s[1..])
  }

  /** Lower-casing twice changes nothing more, so the handled keys are fixed points. */
  lemma ToLowerIdempotent(s: string)
    ensures ToLower(ToLower(s)) == ToLower(s)
  {
    var t := ToLower(s);
    assert forall i :: 0 <= i < |t| ==> LowerChar(t[i]) == t[i];
  }

  /** The effect of a keydown that no gate handles: the key is held if it is one of KEYS. */
  function Held(s: State, key: string): (r: State)
    ensures key in KEYS ==> r.keysPressed == s.keysPressed + {key}
    ensures key !in KEYS ==> r.keysPressed == s.keysPressed
    ensures r == s.(keysPressed := r.keysPressed)
  {
    if key in KEYS then s.(keysPressed := s.keysPressed + {key}) else s
  }

  /** The keydown listener. Settled in inspect mode, q leaves it and resets the inspect
      camera. Settled outside it, a and d rotate, q enters inspect mode, and the key is
      not held. Otherwise, and in particular during a transition, the only effect is
      holding the key. */
  function KeyDown(s: State, rawKey: string): (r: State)
    requires WellFormed(s)
    ensures WellFormed(r)
    ensures s.rotationProgressCarousel < 1.0 ==> r == Held(s, ToLower(rawKey))
    ensures s.inspectMode && s.rotationProgressCarousel >= 1.0 ==>
      r == if ToLower(rawKey) == "q"
           then s.(inspectMode := false, inspectModeCameraRotation := Rotation(0.0, 0.0))
           else Held(s, ToLower(rawKey))
    ensures !s.inspectMode && s.rotationProgressCarousel >= 1.0 ==>
      r == if ToLower(rawKey) == "a" then RotateInventory(s, -1)
           else if ToLower(rawKey) == "d" then RotateInventory(s, 1)
           else if ToLower(rawKey) == "q" then s.(inspectMode := true)
           else s
    ensures r.selectedItemIndex != s.selectedItemIndex || r.inspectMode != s.inspectMode ==>
      s.rotationProgressCarousel >= 1.0
  {
    var key := ToLower(rawKey);
    if s.inspectMode && s.rotationProgressCarousel >= 1.0 && key == "q" then
      s.(inspectMode := false, inspectModeCameraRotation := Rotation(0.0, 0.0))
    else if !s.inspectMode && s.rotationProgressCarousel >= 1.0 then
      if key == "a" then RotateInventory(s, -1)
      else if key == "d" then RotateInventory(s, 1)
      else if key == "q" then s.(inspectMode := true)
      else s
    else
      Held(s, key)
  }

  /** The keyup listener: the lower-cased key is no longer held. */
  function KeyUp(s: State, rawKey: string): (r: State)
    ensures r.keysPressed == s.keysPressed - {ToLower(rawKey)}
    ensures r == s.(keysPressed := r.keysPressed)
  {
    s.(keysPressed := s.keysPressed - {ToLower(rawKey)})
  }

  lemma KeyDownPreservesInvariant(s: State, rawKey: string)
    requires Invariant(s)
    ensures Invariant(KeyDown(s, rawKey))
  {
    var key := ToLower(rawKey);
    var r := KeyDown(s, rawKey);
    if !s.inspectMode && s.rotationProgressCarousel >= 1.0 && (key == "a" || key == "d") {
      forall i | 0 <= i < NUM_ITEMS
        ensures Placed(r.items[i], i) && 1.0 <= r.items[i].scaleFactor <= 1.0 + SCALE_FACTOR
      {
        assert r.items[i].(rotationYStart := s.items[i].rotationYStart) == s.items[i];
      }
    } else if s.rotationProgressCarousel >= 1.0 {
      var k :| s.currentAngle == s.targetAngle + Turns(k);
      assert r.currentAngle == r.targetAngle + Turns(k);
    }
  }

  lemma KeyUpPreservesInvariant(s: State, rawKey: string)
    requires Invariant(s)
    ensures Invariant(KeyUp(s, rawKey))
  {
    var r := KeyUp(s, rawKey);
    if s.rotationProgressCarousel == 1.0 {
      var k :| s.currentAngle == s.targetAngle + Turns(k);
      assert r.currentAngle == r.targetAngle + Turns(k);
    }
  }

  // ---------------------------------------------------------------------------
  // Key events before the items exist

  /** The globals as key events can find them while initialize is still awaiting its
      resources: the listeners are registered, but no item has been pushed yet. */
  predicate EarlyState(s: State)
  {
    s.items == [] && s.selectedItemIndex == 0 && s.previousItemIndex == 0
    && s.startAngle == 0.0 && s.targetAngle == 0.0 && s.currentAngle == 0.0
    && s.rotationProgressCarousel == 1.0
    && (forall k :: k in s.keysPressed ==> k in KEYS)
  }

  /** The keydown listener on an item-less state. The progress is 1, so every key passes
      the settled gates. For a or d, rotateInventory sets previousItemIndex to the
      selected index and then throws reading the missing item 0, which ends the
      listener with nothing else changed. */
  function EarlyKeyDown(s: State, rawKey: string): (r: State)
    requires EarlyState(s)
    ensures EarlyState(r)
    ensures r == s.(inspectMode := r.inspectMode,
                    inspectModeCameraRotation := r.inspectModeCameraRotation,
                    keysPressed := r.keysPressed)
    ensures !s.inspectMode ==> r == if ToLower(rawKey) == "q" then s.(inspectMode := true) else s
    ensures s.inspectMode ==>
      r == if ToLower(rawKey) == "q"
           then s.(inspectMode := false, inspectModeCameraRotation := Rotation(0.0, 0.0))
           else Held(s, ToLower(rawKey))
  {
    var key := ToLower(rawKey);
    if s.inspectMode && key == "q" then
      s.(inspectMode := false, inspectModeCameraRotation := Rotation(0.0, 0.0))
    else if !s.inspectMode then
      if key == "a" || key == "d" then s.(previousItemIndex := s.selectedItemIndex)
      else if key == "q" then s.(inspectMode := true)
      else s
    else
      Held(s, key)
  }

  datatype KeyEvent = Down(key: string) | Up(key: string)

  /** The globals after a sequence of key events that all arrive before the items exist. */
  function AfterEarlyEvents(s: State, events: seq<KeyEvent>): (r: State)
    requires EarlyState(s)
    ensures EarlyState(r)
    ensures r.items == s.items
    decreases |events|
  {
    if |events| == 0 then s
    else
      var next := match events[0]
        case Down(key) => EarlyKeyDown(s, key)
        case Up(key) => KeyUp(s, key);
      AfterEarlyEvents(next, events[1..])
  }

  /** The item-less globals initialize starts from. */
  lemma BeforeItemsIsEarly(place: real -> Placement, uploads: seq<VaoData>)
    requires |uploads| == MESH_COUNT
    ensures EarlyState(InitialState(place, uploads).(items := []))
  {
  }

  /** Whatever key events arrive before the items are pushed, the state the first frame
      meets once they are there satisfies the invariant. It may already be in inspect
      mode with keys held, and its inspect camera may have been reset to (0, 0). */
  lemma EarlyEventsThenItems(place: real -> Placement, uploads: seq<VaoData>,
                             events: seq<KeyEvent>)
    requires |uploads| == MESH_COUNT
    ensures var early := AfterEarlyEvents(InitialState(place, uploads).(items := []), events);
      Invariant(early.(items := InitialItems(place, uploads)))
  {
    var early := AfterEarlyEvents(InitialState(place, uploads).(items := []), events);
    var s := early.(items := InitialItems(place, uploads));
    assert s.currentAngle == s.targetAngle + Turns(0);
  }

  // ---------------------------------------------------------------------------
  // drawItems

  /** The state updates of drawItems, in its order: inspect camera, carousel angle,
      then the items (only the selected one in inspect mode, where that update does
      nothing). */
  function Step(s: State): (r: State)
    requires WellFormed(s)
    ensures WellFormed(r)
    ensures r.selectedItemIndex == s.selectedItemIndex
         && r.previousItemIndex == s.previousItemIndex
         && r.startAngle == s.startAngle && r.targetAngle == s.targetAngle
         && r.inspectMode == s.inspectMode && r.keysPressed == s.keysPressed
  {
    var m := UpdateInventoryLerp(UpdateCameraRotation(s));
    if m.inspectMode then UpdateItemScaleAndRotation(m, m.selectedItemIndex)
    else UpdateAllItems(m)
  }

  /** A frame turns the inspect camera, advances the carousel angle, and updates every
      item against the globals as they stand after those two updates; in inspect mode
      the items stay as they are. */
  lemma StepEffect(s: State)
    requires WellFormed(s)
    ensures Step(s).inspectModeCameraRotation == UpdateCameraRotation(s).inspectModeCameraRotation
    ensures Step(s).rotationProgressCarousel == UpdateInventoryLerp(s).rotationProgressCarousel
         && Step(s).currentAngle == UpdateInventoryLerp(s).currentAngle
    ensures s.inspectMode ==> Step(s).items == s.items
    ensures forall i :: 0 <= i < NUM_ITEMS ==>
      Step(s).items[i] == UpdatedItem(UpdateInventoryLerp(UpdateCameraRotation(s)), i)
  {
  }

  lemma StepPreservesInvariant(s: State)
    requires Invariant(s)
    ensures Invariant(Step(s))
  {
    var m := UpdateInventoryLerp(UpdateCameraRotation(s));
    var r := Step(s);
    StepEffect(s);
    forall i | 0 <= i < NUM_ITEMS
      ensures Placed(r.items[i], i) && 1.0 <= r.items[i].scaleFactor <= 1.0 + SCALE_FACTOR
    {
      assert r.items[i] == UpdatedItem(m, i);
      assert m.items[i] == s.items[i];
    }
    if r.rotationProgressCarousel == 1.0 {
      if s.rotationProgressCarousel < 1.0 {
        InterpolateEnds(s.startAngle, s.targetAngle);
      } else {
        assert r.currentAngle == r.targetAngle + Turns(0);
      }
    }
  }

  /** The state after n frames with no key events in between. */
  function FramesAfter(s: State, n: nat): (r: State)
    requires WellFormed(s)
    ensures WellFormed(r)
    decreases n
  {
    if n == 0 then s else FramesAfter(Step(s), n - 1)
  }

  lemma {:induction false} FramesAfterLast(s: State, n: nat)
    requires WellFormed(s)
    ensures FramesAfter(s, n + 1) == Step(FramesAfter(s, n))
    decreases n
  {
    if n > 0 {
      FramesAfterLast(Step(s), n - 1);
    }
  }

  /** Frames keep the invariant, leave the selection, the transition's endpoints and the
      mode alone, and advance the progress by 0.0065 each, clamped at 1. */
  lemma {:induction false} FramesProgress(s: State, n: nat)
    requires Invariant(s)
    ensures Invariant(FramesAfter(s, n))
    ensures FramesAfter(s, n).rotationProgressCarousel
         == Min(s.rotationProgressCarousel + n as real * LERP_SPEED_INVENTORY, 1.0)
    ensures FramesAfter(s, n).selectedItemIndex == s.selectedItemIndex
         && FramesAfter(s, n).previousItemIndex == s.previousItemIndex
         && FramesAfter(s, n).startAngle == s.startAngle
         && FramesAfter(s, n).targetAngle == s.targetAngle
         && FramesAfter(s, n).inspectMode == s.inspectMode
    decreases n
  {
    if n > 0 {
      StepPreservesInvariant(s);
      FramesProgress(Step(s), n - 1);
    }
  }

  /** A transition started at progress 0 is under way for 153 frames and settled from
      the 154th on. */
  lemma TransitionLength(s: State, n: nat)
    requires Invariant(s) && s.rotationProgressCarousel == 0.0
    ensures n < TRANSITION_FRAMES ==>
      FramesAfter(s, n).rotationProgressCarousel == n as real * LERP_SPEED_INVENTORY < 1.0
    ensures n >= TRANSITION_FRAMES ==> FramesAfter(s, n).rotationProgressCarousel == 1.0
  {
    FramesProgress(s, n);
  }

  /** While a transition is under way the carousel angle is the eased turn from the
      start angle toward the target, at the current progress. */
  lemma AngleFollowsProgress(s: State, n: nat)
    requires Invariant(s) && FramesAfter(s, n).rotationProgressCarousel < 1.0
    ensures FramesAfter(s, n + 1).currentAngle
         == Interpolate(s.startAngle, s.targetAngle, FramesAfter(s, n + 1).rotationProgressCarousel)
  {
    FramesAfterLast(s, n);
    FramesProgress(s, n);
  }

  /** A transition from progress 0 faces the target up to whole turns after 154 frames,
      and exactly at the 155th frame. */
  lemma TransitionSettlesOnTarget(s: State)
    requires Invariant(s) && s.rotationProgressCarousel == 0.0
    ensures exists k :: FramesAfter(s, TRANSITION_FRAMES).currentAngle == s.targetAngle + Turns(k)
    ensures FramesAfter(s, TRANSITION_FRAMES + 1).currentAngle == s.targetAngle
  {
    TransitionLength(s, TRANSITION_FRAMES);
    FramesProgress(s, TRANSITION_FRAMES);
    FramesAfterLast(s, TRANSITION_FRAMES);
  }

  /** Once settled, every further key-free frame keeps the carousel exactly on the target:
      from the 155th frame on the angle is the target angle itself. */
  lemma TransitionStaysOnTarget(s: State, n: nat)
    requires Invariant(s) && s.rotationProgressCarousel == 0.0
    requires n > TRANSITION_FRAMES
    ensures FramesAfter(s, n).currentAngle == s.targetAngle
  {
    FramesAfterLast(s, n - 1);
    FramesProgress(s, n - 1);
    TransitionLength(s, n - 1);
  }

  // ---------------------------------------------------------------------------
  // The matrices drawItems hands to the shaders, as compositions

  /** mat4Translation, mat4RotX, mat4RotY, mat4Scale, perspective and mat4Mul, kept as
      uninterpreted applications: only the order of composition is modelled. */
  datatype Mat =
    | Translation(tx: real, ty: real, tz: real)
    | RotX(ax: real)
    | RotY(ay: real)
    | Scale(sx: real, sy: real, sz: real)
    | Perspective(fovDegrees: real, aspect: real, near: real, far: real)
    | Mul(left: Mat, right: Mat)

  datatype DrawCall = DrawCall(texture: int, vao: int, numIndices: int, model: Mat)

  datatype FrameOutput = FrameOutput(view: Mat, projection: Mat, draws: seq<DrawCall>)

  /** buildItemModelMatrix: translate to the position, turn by the yaw, scale uniformly. */
  function ModelMatrix(item: Item): Mat
  {
    Mul(Mul(Translation(item.position.x, item.position.y, item.position.z), RotY(item.rotationY)),
        Scale(item.scaleFactor, item.scaleFactor, item.scaleFactor))
  }

  function DrawOf(item: Item): DrawCall
  {
    DrawCall(item.texture, item.vao, item.numIndices, ModelMatrix(item))
  }

  /** getViewMatrixCarousel. The angle goes to degrees and back, so the camera turns by
      exactly minus the carousel angle. */
  function ViewMatrixCarousel(s: State): (m: Mat)
    ensures m == Mul(Translation(0.0, 1.0, -20.0),
                     Mul(RotX(12.5 * PI / 180.0), RotY(-s.currentAngle)))
  {
    var targetRotationY := -(s.currentAngle * 180.0 / PI);
    Mul(Translation(CAMERA_TRANSLATION.x, CAMERA_TRANSLATION.y, -CAMERA_TRANSLATION.z),
        Mul(RotX(CAMERA_ROTATION.x * PI / 180.0), RotY(targetRotationY * PI / 180.0)))
  }

  /** getViewMatrixInspect: look at the selected item from INSPECT_DISTANCE away,
      turned by the inspect rotation converted to radians. */
  function ViewMatrixInspect(s: State): Mat
    requires WellFormed(s)
  {
    var itemPos := s.items[s.selectedItemIndex].position;
    var rotation := s.inspectModeCameraRotation;
    Mul(Translation(0.0, 0.0, -INSPECT_DISTANCE),
        Mul(RotX(rotation.x * PI / 180.0),
            Mul(RotY(rotation.y * PI / 180.0), Translation(-itemPos.x, -itemPos.y, -itemPos.z))))
  }

  /** setMatrices' projection: 45 degrees, the canvas aspect, near 0.1, far 100. */
  function ProjectionMatrix(aspect: real): Mat
  {
    Perspective(45.0, aspect, 0.1, 100.0)
  }

  /** What one call of drawItems hands to the shaders: the view and projection set
      after the camera and carousel updates, then one draw per item after its own
      update; in inspect mode only the selected item is drawn. */
  function DrawItems(s: State, aspect: real): (out: FrameOutput)
    requires WellFormed(s)
    ensures out.projection == ProjectionMatrix(aspect)
    ensures !s.inspectMode ==> out.view == ViewMatrixCarousel(UpdateInventoryLerp(s))
    ensures s.inspectMode ==> out.view == ViewMatrixInspect(UpdateInventoryLerp(UpdateCameraRotation(s)))
    ensures s.inspectMode ==> out.draws == [DrawOf(s.items[s.selectedItemIndex])]
    ensures !s.inspectMode ==>
      |out.draws| == NUM_ITEMS
      && forall i :: 0 <= i < NUM_ITEMS ==> out.draws[i] == DrawOf(Step(s).items[i])
  {
    var m := UpdateInventoryLerp(UpdateCameraRotation(s));
    var view := if m.inspectMode then ViewMatrixInspect(m) else ViewMatrixCarousel(m);
    var r := Step(s);
    var draws := if r.inspectMode then [DrawOf(r.items[r.selectedItemIndex])]
                 else seq(|r.items|, i requires 0 <= i < |r.items| => DrawOf(r.items[i]));
    FrameOutput(view, ProjectionMatrix(aspect), draws)
  }

  // ---------------------------------------------------------------------------
  // Consequences over several events

  /** A rotation can be re-triggered by a or d only once the previous one has run its
      course: while a transition is under way, a or d leave the selection alone. */
  lemma NoRotationDuringTransition(s: State, rawKey: string)
    requires WellFormed(s) && s.rotationProgressCarousel < 1.0
    ensures KeyDown(s, rawKey).selectedItemIndex == s.selectedItemIndex
    ensures KeyDown(s, rawKey).rotationProgressCarousel == s.rotationProgressCarousel
    ensures KeyDown(s, rawKey).inspectMode == s.inspectMode
  {
  }

  /** Between neighbouring items the shortest turn is one spacing, 2pi/10, in the
      direction of the step, wherever the start lies among its whole-turn copies. */
  lemma NeighbourSpacing(i: int, k: int, direction: int)
    requires 0 <= i < NUM_ITEMS && (direction == 1 || direction == -1)
    ensures ShortestAngleBetween(ItemAngle(i) + Turns(k), ItemAngle(WrapIndex(i, direction)))
         == direction as real * (TAU / NUM_ITEMS as real)
  {
    var a, b := ItemAngle(i) + Turns(k), ItemAngle(WrapIndex(i, direction));
    var r := direction as real * (TAU / NUM_ITEMS as real);
    if direction == 1 && i == NUM_ITEMS - 1 {
      assert b == 0.0 && a == 0.9 * TAU + Turns(k);
      ShortestAngleUnique(a, b, r, k + 1);
    } else if direction == -1 && i == 0 {
      assert b == 0.9 * TAU && a == Turns(k);
      ShortestAngleUnique(a, b, r, k - 1);
    } else {
      assert b == a - Turns(k) + r;
      ShortestAngleUnique(a, b, r, k);
    }
  }

  /** From a settled carousel, d turns by exactly one item spacing (2pi/10) forward and
      a by one spacing back, also across the seam between item 9 and item 0. */
  lemma RotateTurnsOneSpacing(s: State, rawKey: string)
    requires Invariant(s) && !s.inspectMode && s.rotationProgressCarousel >= 1.0
    requires ToLower(rawKey) == "d" || ToLower(rawKey) == "a"
    ensures var r := KeyDown(s, rawKey);
      ShortestAngleBetween(r.startAngle, r.targetAngle)
      == (if ToLower(rawKey) == "d" then 1.0 else -1.0) * (TAU / NUM_ITEMS as real)
  {
    var k :| s.currentAngle == s.targetAngle + Turns(k);
    var direction := if ToLower(rawKey) == "d" then 1 else -1;
    var r := KeyDown(s, rawKey);
    assert r == RotateInventory(s, direction);
    NeighbourSpacing(s.selectedItemIndex, k, direction);
  }

  /** Once a frame's progress reaches 1, the frame changes the selected item only. */
  lemma SettledFrameTouchesSelectedOnly(s: State, index: int)
    requires WellFormed(s) && 0 <= index < NUM_ITEMS && index != s.selectedItemIndex
    requires s.rotationProgressCarousel + LERP_SPEED_INVENTORY >= 1.0
    ensures Step(s).items[index] == s.items[index]
  {
    StepEffect(s);
  }

  /** Frame 153 of a transition updates the previous item with progress 0.9945. */
  lemma PreviousItemLastUpdate(s: State)
    requires Invariant(s) && !s.inspectMode && s.selectedItemIndex != s.previousItemIndex
    requires s.rotationProgressCarousel == 0.0
    ensures FramesAfter(s, TRANSITION_FRAMES - 1).items[s.previousItemIndex].scaleFactor == 1.0000242
  {
    var n := TRANSITION_FRAMES - 2;
    var last := FramesAfter(s, n);
    FramesAfterLast(s, n);
    FramesProgress(s, n);
    TransitionLength(s, n);
    StepEffect(last);
    var m := UpdateInventoryLerp(UpdateCameraRotation(last));
    assert m.rotationProgressCarousel == 0.9945;
  }

  /** The previous item's last update is in frame 153 of a transition, at progress
      0.9945; the frame that completes the transition updates with progress 1 and
      skips it. So it keeps the scale 1.4 - 0.4 * easeInOutQuad(0.9945) = 1.0000242,
      slightly above its resting scale of 1, for as long as no key is pressed. */
  lemma {:induction false} PreviousItemStopsShort(s: State, n: nat)
    requires Invariant(s) && !s.inspectMode && s.selectedItemIndex != s.previousItemIndex
    requires s.rotationProgressCarousel == 0.0
    requires n >= TRANSITION_FRAMES - 1
    ensures FramesAfter(s, n).items[s.previousItemIndex].scaleFactor == 1.0000242
    decreases n
  {
    if n == TRANSITION_FRAMES - 1 {
      PreviousItemLastUpdate(s);
    } else {
      PreviousItemStopsShort(s, n - 1);
      FramesAfterLast(s, n - 1);
      FramesProgress(s, n - 1);
      TransitionLength(s, n - 1);
      SettledFrameTouchesSelectedOnly(FramesAfter(s, n - 1), s.previousItemIndex);
    }
  }
}
