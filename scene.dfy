/** The carousel as main.js runs it: module-level globals that the key listeners and
    each frame's drawItems update in place. Every method is proved to leave the
    globals exactly as the matching function of Carousel says. */
module Scene {
  import opened Utils
  import opened Carousel

  /** No slot appears twice in an upload log. */
  predicate NoRepeats(log: seq<int>)
  {
    forall i, j :: 0 <= i < j < |log| ==> log[i] != log[j]
  }

  /** The slots 0, 1, ..., n - 1, in order. */
  function FirstSlots(n: nat): (r: seq<int>)
    ensures |r| == n && forall i :: 0 <= i < n ==> r[i] == i
  {
    seq(n, i => i)
  }

  /** What getOrCreateVAO returns for slot `id`: the cached entry when there is one,
      otherwise the result of uploading the mesh. */
  function CacheLookup(entries: map<int, VaoData>, id: int, upload: VaoData): (data: VaoData)
    ensures id in entries ==> data == entries[id]
    ensures id !in entries ==> data == upload
  {
    if id in entries then entries[id] else upload
  }

  /** Once a slot has been looked up, every later lookup of it returns the same data,
      whatever a fresh upload would have produced. */
  lemma CacheLookupStable(entries: map<int, VaoData>, id: int, first: VaoData, later: VaoData)
    ensures var data := CacheLookup(entries, id, first);
      CacheLookup(entries[id := data], id, later) == data
  {
  }

  /** meshCache with getOrCreateVAO. `uploaded` logs the slots whose mesh was
      uploaded, in order. */
  class MeshCache {
    var entries: map<int, VaoData>
    ghost var uploaded: seq<int>

    /** A slot is cached exactly when it was uploaded, and no slot was uploaded twice. */
    ghost predicate Valid()
      reads this
    {
      (forall id :: id in entries <==> id in uploaded) && NoRepeats(uploaded)
    }

    constructor()
      ensures Valid() && entries == map[] && uploaded == []
    {
      entries := map[];
      uploaded := [];
    }

    /** getOrCreateVAO(mesh, id). `upload` stands for what uploadAttributeData(mesh)
        yields; it is used, and logged, only when the slot is not cached yet. */
    method GetOrCreateVao(id: int, upload: VaoData) returns (data: VaoData)
      requires Valid()
      modifies this
      ensures Valid()
      ensures data == CacheLookup(old(entries), id, upload)
      ensures entries == old(entries)[id := data]
      ensures uploaded == if id in old(entries) then old(uploaded) else old(uploaded) + [id]
    {
      if id in entries {
        return entries[id];
      }
      data := upload;
      entries := entries[id := data];
      uploaded := uploaded + [id];
    }
  }

  /** How many mesh slots the first i items of the creation loop use. */
  function SlotsUsed(i: int): (n: int)
    requires 0 <= i
    ensures 0 <= n <= MESH_COUNT && n <= i
    ensures i < MESH_COUNT ==> n == i
    ensures i >= MESH_COUNT ==> n == MESH_COUNT
  {
    if i < MESH_COUNT then i else MESH_COUNT
  }

  /** The cache entries once slots 0 .. n - 1 have been uploaded, in that order. */
  function FirstUploads(uploads: seq<VaoData>, n: int): map<int, VaoData>
    requires 0 <= n <= |uploads|
  {
    if n == 0 then map[] else FirstUploads(uploads, n - 1)[n - 1 := uploads[n - 1]]
  }

  /** Slot `id` is cached after the first n uploads exactly when id < n, with its own upload. */
  lemma {:induction false} FirstUploadsHas(uploads: seq<VaoData>, n: int, id: int)
    requires 0 <= n <= |uploads|
    ensures id in FirstUploads(uploads, n) <==> 0 <= id < n
    ensures 0 <= id < n ==> FirstUploads(uploads, n)[id] == uploads[id]
  {
    if n > 0 {
      FirstUploadsHas(uploads, n - 1, id);
    }
  }

  /** A cache holding exactly the first n uploads, logged in order, is consistent. */
  lemma FirstUploadsValid(cache: MeshCache, uploads: seq<VaoData>, n: int)
    requires 0 <= n <= |uploads|
    requires cache.entries == FirstUploads(uploads, n) && cache.uploaded == FirstSlots(n)
    ensures cache.Valid()
  {
    forall id
      ensures id in cache.entries <==> id in cache.uploaded
    {
      FirstUploadsHas(uploads, n, id);
      if 0 <= id < n {
        assert cache.uploaded[id] == id;
      }
    }
  }

  /** Once all six slots are cached, a lookup hits and leaves the entries as they are. */
  lemma FirstUploadsFull(uploads: seq<VaoData>, slot: int)
    requires |uploads| == MESH_COUNT && 0 <= slot < MESH_COUNT
    ensures slot in FirstUploads(uploads, MESH_COUNT)
    ensures FirstUploads(uploads, MESH_COUNT)[slot := uploads[slot]] == FirstUploads(uploads, MESH_COUNT)
  {
    FirstUploadsHas(uploads, MESH_COUNT, slot);
  }

  /** The mesh slot of item i: the first six items use slots 0 to 5, the rest start over. */
  lemma SlotOf(i: int)
    requires 0 <= i < NUM_ITEMS
    ensures i < MESH_COUNT ==> i % MESH_COUNT == i
    ensures i >= MESH_COUNT ==> i % MESH_COUNT == i - MESH_COUNT
  {
  }

  /** One pass of the item-creation loop of initialize: item i sits at angle
      2pi * i / 10, uses mesh i % 6 and texture i % 6, and asks the cache for the
      vertex array of its mesh, which is uploaded only on the first six passes. */
  method CreateItem(cache: MeshCache, place: real -> Placement, uploads: seq<VaoData>, i: int)
    returns (item: Item)
    requires |uploads| == MESH_COUNT && 0 <= i < NUM_ITEMS
    requires cache.entries == FirstUploads(uploads, SlotsUsed(i))
    requires cache.uploaded == FirstSlots(SlotsUsed(i))
    modifies cache
    ensures item == NewItem(i, place(ItemAngle(i)), uploads[i % MESH_COUNT])
    ensures cache.entries == FirstUploads(uploads, SlotsUsed(i + 1))
    ensures cache.uploaded == FirstSlots(SlotsUsed(i + 1))
  {
    FirstUploadsValid(cache, uploads, SlotsUsed(i));
    SlotOf(i);
    var angle := ItemAngle(i);
    var placement := place(angle);
    var slot := i % MESH_COUNT;
    var data := cache.GetOrCreateVao(slot, uploads[slot]);
    item := Item(Vec3(placement.x, 0.0, placement.z), angle, i, slot, slot,
                 data.vao, data.numIndices, 1.0, 0.0,
                 placement.lookAtAngleY, placement.lookAtAngleY);
    if i < MESH_COUNT {
      // a miss: slot i is uploaded and logged
      FirstUploadsHas(uploads, i, i);
      assert FirstSlots(i) + [i] == FirstSlots(i + 1);
    } else {
      // a hit: the cache is left as it is
      FirstUploadsFull(uploads, slot);
      assert cache.entries == FirstUploads(uploads, MESH_COUNT);
    }
  }

  /** The item-creation loop of initialize. Each of the six meshes is uploaded once,
      in order; the last four items reuse the cached data. */
  method CreateItems(cache: MeshCache, place: real -> Placement, uploads: seq<VaoData>)
    returns (created: seq<Item>)
    requires |uploads| == MESH_COUNT
    requires cache.entries == map[] && cache.uploaded == []
    modifies cache
    ensures created == InitialItems(place, uploads)
    ensures cache.Valid() && cache.uploaded == FirstSlots(MESH_COUNT)
  {
    created := [];
    var i := 0;
    assert cache.entries == FirstUploads(uploads, 0);
    while i < NUM_ITEMS
      invariant 0 <= i <= NUM_ITEMS && |created| == i
      invariant forall j :: 0 <= j < i ==>
        created[j] == NewItem(j, place(ItemAngle(j)), uploads[j % MESH_COUNT])
      invariant cache.entries == FirstUploads(uploads, SlotsUsed(i))
      invariant cache.uploaded == FirstSlots(SlotsUsed(i))
    {
      var item := CreateItem(cache, place, uploads, i);
      created := created + [item];
      i := i + 1;
    }
    FirstUploadsValid(cache, uploads, MESH_COUNT);
    assert created == InitialItems(place, uploads);
  }

  class CarouselScene {
    var items: seq<Item>
    var selectedItemIndex: int
    var previousItemIndex: int
    var startAngle: real
    var targetAngle: real
    var currentAngle: real
    var rotationProgressCarousel: real
    var inspectMode: bool
    var inspectModeCameraRotation: Rotation
    var keysPressed: set<string>
    const meshCache: MeshCache

    /** The globals as one value. */
    function Snapshot(): State
      reads this
    {
      State(items, selectedItemIndex, previousItemIndex, startAngle, targetAngle,
            currentAngle, rotationProgressCarousel, inspectMode,
            inspectModeCameraRotation, keysPressed)
    }

    ghost predicate Valid()
      reads this, meshCache
    {
      Invariant(Snapshot()) && meshCache.Valid()
    }

    /** initialize's globals and item array. `place` stands for the sin/cos/atan2
        placement of an angle and `uploads[m]` for what uploading mesh m yields. Each of
        the six meshes is uploaded once, in order; later items reuse the cached data. */
    constructor(place: real -> Placement, uploads: seq<VaoData>)
      requires |uploads| == MESH_COUNT
      ensures Valid()
      ensures Snapshot() == InitialState(place, uploads)
      ensures fresh(meshCache) && meshCache.uploaded == FirstSlots(MESH_COUNT)
    {
      var cache := new MeshCache();
      var created := CreateItems(cache, place, uploads);
      items := created;
      selectedItemIndex := 0;
      previousItemIndex := 0;
      startAngle := 0.0;
      targetAngle := 0.0;
      currentAngle := 0.0;
      rotationProgressCarousel := 1.0;
      inspectMode := false;
      inspectModeCameraRotation := CAMERA_ROTATION;
      keysPressed := {};
      meshCache := cache;
      new;
      InitialStateInvariant(place, uploads);
    }

    /** rotateInventory(direction). An internal step of KeyDown: it keeps no invariant
        of its own, since called in inspect mode it would start a transition there. */
    method RotateInventory(direction: int)
      requires WellFormed(Snapshot()) && (direction == 1 || direction == -1)
      modifies this
      ensures Snapshot() == Carousel.RotateInventory(old(Snapshot()), direction)
    {
      previousItemIndex := selectedItemIndex;
      items := items[previousItemIndex := items[previousItemIndex].(
                       rotationYStart := items[previousItemIndex].rotationY)];
      selectedItemIndex := (selectedItemIndex + direction + NUM_ITEMS) % NUM_ITEMS;
      startAngle := currentAngle;
      targetAngle := items[selectedItemIndex].angle;
      rotationProgressCarousel := 0.0;
    }

    /** updateInventoryLerp. An internal step of DrawItems, which keeps Valid();
        on its own it promises only the new state. */
    method UpdateInventoryLerp()
      modifies this
      ensures Snapshot() == Carousel.UpdateInventoryLerp(old(Snapshot()))
    {
      if rotationProgressCarousel < 1.0 {
        rotationProgressCarousel := rotationProgressCarousel + LERP_SPEED_INVENTORY;
        if rotationProgressCarousel > 1.0 {
          rotationProgressCarousel := 1.0;
        }
        ghost var p := rotationProgressCarousel;
        currentAngle := startAngle + ShortestAngleBetween(startAngle, targetAngle)
                                     * EaseInOutQuad(rotationProgressCarousel);
        assert Snapshot() == old(Snapshot()).(
          rotationProgressCarousel := p, currentAngle := Interpolate(startAngle, targetAngle, p));
      } else {
        currentAngle := targetAngle;
      }
    }

    /** updateItemScaleAndRotation(items[index], index). An internal step of DrawItems,
        which keeps Valid(); on its own it promises only the new state. */
    method UpdateItemScaleAndRotation(index: int)
      requires 0 <= index < |items|
      modifies this
      ensures Snapshot() == Carousel.UpdateItemScaleAndRotation(old(Snapshot()), index)
    {
      if inspectMode {
        assert items[index := items[index]] == items;
        return;
      }
      ghost var s := Snapshot();
      var item := items[index];
      if index == selectedItemIndex && rotationProgressCarousel < 1.0 {
        item := item.(scaleFactor := 1.0 + SCALE_FACTOR * EaseInOutQuad(rotationProgressCarousel));
      } else if index == previousItemIndex && rotationProgressCarousel < 1.0 {
        item := item.(scaleFactor := 1.4 - SCALE_FACTOR * EaseInOutQuad(rotationProgressCarousel));
        item := item.(rotationY := item.rotationYStart
                        + ShortestAngleBetween(item.rotationYStart, item.lookAtAngleY)
                          * EaseInOutQuad(rotationProgressCarousel));
      } else if index == selectedItemIndex && rotationProgressCarousel >= 1.0 {
        item := item.(scaleFactor := 1.0 + SCALE_FACTOR);
        item := item.(rotationY := item.rotationY + ROTATION_Y_SPEED);
      }
      assert item == UpdatedItem(s, index);
      items := items[index := item];
    }

    /** updateCameraRotation. An internal step of DrawItems, which keeps Valid();
        on its own it promises only the new state. */
    method UpdateCameraRotation()
      modifies this
      ensures Snapshot() == Carousel.UpdateCameraRotation(old(Snapshot()))
    {
      if !inspectMode {
        return;
      }
      if "w" in keysPressed {
        inspectModeCameraRotation := inspectModeCameraRotation.(x := inspectModeCameraRotation.x + CAMERA_STEP);
      }
      if "s" in keysPressed {
        inspectModeCameraRotation := inspectModeCameraRotation.(x := inspectModeCameraRotation.x - CAMERA_STEP);
      }
      if "d" in keysPressed {
        inspectModeCameraRotation := inspectModeCameraRotation.(y := inspectModeCameraRotation.y + CAMERA_STEP);
      }
      if "a" in keysPressed {
        inspectModeCameraRotation := inspectModeCameraRotation.(y := inspectModeCameraRotation.y - CAMERA_STEP);
      }
    }

    /** The keydown listener; `rawKey` is event.key. */
    method KeyDown(rawKey: string)
      requires Valid()
      modifies this
      ensures Valid()
      ensures Snapshot() == Carousel.KeyDown(old(Snapshot()), rawKey)
    {
      KeyDownPreservesInvariant(Snapshot(), rawKey);
      var key := ToLower(rawKey);
      if inspectMode && rotationProgressCarousel >= 1.0 {
        if key == "q" {
          inspectMode := false;
          inspectModeCameraRotation := inspectModeCameraRotation.(x := 0.0);
          inspectModeCameraRotation := inspectModeCameraRotation.(y := 0.0);
          return;
        }
      }
      if !inspectMode && rotationProgressCarousel >= 1.0 {
        if key == "a" {
          RotateInventory(-1);
        }
        if key == "d" {
          RotateInventory(1);
        }
        if key == "q" {
          inspectMode := true;
        }
        return;
      }
      if key in KEYS {
        keysPressed := keysPressed + {key};
      }
    }

    /** The keyup listener; `rawKey` is event.key. */
    method KeyUp(rawKey: string)
      requires Valid()
      modifies this
      ensures Valid()
      ensures Snapshot() == Carousel.KeyUp(old(Snapshot()), rawKey)
    {
      KeyUpPreservesInvariant(Snapshot(), rawKey);
      keysPressed := keysPressed - {ToLower(rawKey)};
    }

    /** setMatrices. `aspect` stands for the canvas wrapper's width over its height. */
    method SetMatrices(aspect: real) returns (view: Mat, projection: Mat)
      requires WellFormed(Snapshot())
      ensures view == if inspectMode then ViewMatrixInspect(Snapshot())
                      else ViewMatrixCarousel(Snapshot())
      ensures projection == ProjectionMatrix(aspect)
    {
      if inspectMode {
        view := ViewMatrixInspect(Snapshot());
      } else {
        view := ViewMatrixCarousel(Snapshot());
      }
      projection := ProjectionMatrix(aspect);
    }

    /** The carousel branch of drawItems: update each item in index order, and
        draw it right after its own update. An internal step of DrawItems, which keeps
        Valid(). */
    method UpdateAndDrawAll() returns (draws: seq<DrawCall>)
      modifies this
      ensures Snapshot() == UpdateAllItems(old(Snapshot()))
      ensures |draws| == |items| && forall j :: 0 <= j < |items| ==> draws[j] == DrawOf(items[j])
    {
      ghost var m := Snapshot();
      draws := [];
      var i := 0;
      while i < |items|
        invariant 0 <= i <= |items| == |m.items|
        invariant Snapshot() == m.(items := items)
        invariant forall j :: 0 <= j < i ==> items[j] == UpdatedItem(m, j)
        invariant forall j :: i <= j < |items| ==> items[j] == m.items[j]
        invariant |draws| == i
        invariant forall j :: 0 <= j < i ==> draws[j] == DrawOf(items[j])
      {
        UpdateItemScaleAndRotation(i);
        draws := draws + [DrawOf(items[i])];
        i := i + 1;
      }
      assert items == UpdateAllItems(m).items;
    }

    /** drawItems without the GL calls: the frame's updates in their order, and the
        view, projection and draw list it hands to the shaders. */
    method DrawItems(aspect: real) returns (out: FrameOutput)
      requires Valid()
      modifies this
      ensures Valid()
      ensures Snapshot() == Step(old(Snapshot()))
      ensures out == Carousel.DrawItems(old(Snapshot()), aspect)
    {
      StepPreservesInvariant(Snapshot());
      UpdateCameraRotation();
      UpdateInventoryLerp();
      var view, projection := SetMatrices(aspect);
      var draws: seq<DrawCall>;
      if inspectMode {
        UpdateItemScaleAndRotation(selectedItemIndex);
        draws := [DrawOf(items[selectedItemIndex])];
      } else {
        draws := UpdateAndDrawAll();
      }
      out := FrameOutput(view, projection, draws);
    }
  }
}
