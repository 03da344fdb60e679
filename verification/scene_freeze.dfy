/**
 The scene freeze the lower-case scene builder registers with `addOnce` on the
 scene's after-render observable.

 The handler freezes the materials, then walks the mesh list freezing each
 mesh's world matrix, turning off bounding-info synchronisation and picking and
 forcing the mesh into the active set, and finally sets the scene's picking,
 frustum-clipping and material-dirty flags. Because it is registered with
 `addOnce`, it runs on the first render completion only: the subscription goes
 `Live -> Frozen` and every later render completion leaves everything as it is.
 */
module SceneFreeze {
  import opened SceneModel

  /** A mesh the handler has processed. */
  predicate MeshFrozen(m: Mesh) {
    m.worldMatrixFrozen && m.doNotSyncBoundingInfo && !m.isPickable && m.alwaysSelectAsActiveMesh
  }

  /** The scene-level flags the handler sets. */
  predicate FlagsSet(s: Scene) {
    && s.materialsFrozen
    && s.skipPointerMovePicking && s.skipPointerDownPicking && s.skipPointerUpPicking
    && s.skipFrustumClipping
    && s.blockMaterialDirtyMechanism
  }

  /** The handler's work on one mesh: the mesh is frozen, and it keeps its identity
      and its shadow setting; a mesh that is already frozen is left as it is. */
  function FreezeMesh(m: Mesh): (r: Mesh)
    ensures MeshFrozen(r)
    ensures r.uniqueId == m.uniqueId && r.receiveShadows == m.receiveShadows
    ensures MeshFrozen(m) ==> r == m
  {
    m.(worldMatrixFrozen := true, doNotSyncBoundingInfo := true, isPickable := false,
       alwaysSelectAsActiveMesh := true)
  }

  /** The scene after the handler: every mesh is frozen, the mesh list holds the
      same meshes in the same order, each keeps its shadow setting, and every
      scene-level flag is set. */
  function FreezeScene(s: Scene): (r: Scene)
    ensures SameMeshes(r.meshes, s.meshes)
    ensures forall k :: 0 <= k < |r.meshes| ==> MeshFrozen(r.meshes[k])
    ensures forall k :: 0 <= k < |r.meshes| ==> r.meshes[k].receiveShadows == s.meshes[k].receiveShadows
    ensures FlagsSet(r)
  {
    Scene(seq(|s.meshes|, k requires 0 <= k < |s.meshes| => FreezeMesh(s.meshes[k])),
          true, true, true, true, true, true)
  }

  /** The handler body, statement by statement: `freezeMaterials`, the indexed
      loop over the mesh list (with its repeated `doNotSyncBoundingInfo`
      assignment), then the five scene flags. */
  method FreezeHandler(s: Scene) returns (r: Scene)
    ensures r == FreezeScene(s)
  {
    r := s.(materialsFrozen := true);
    var meshes := r.meshes;
    var i, len := 0, |meshes|;
    while i < len
      invariant 0 <= i <= len == |meshes| == |s.meshes|
      invariant forall k :: 0 <= k < i ==> meshes[k] == FreezeMesh(s.meshes[k])
      invariant forall k :: i <= k < len ==> meshes[k] == s.meshes[k]
    {
      var mesh := meshes[i];
      mesh := mesh.(worldMatrixFrozen := true);
      mesh := mesh.(doNotSyncBoundingInfo := true);
      mesh := mesh.(isPickable := false);
      mesh := mesh.(doNotSyncBoundingInfo := true);
      mesh := mesh.(alwaysSelectAsActiveMesh := true);
      meshes := meshes[i := mesh];
      i := i + 1;
    }
    r := r.(meshes := meshes);
    r := r.(skipPointerMovePicking := true);
    r := r.(skipPointerDownPicking := true);
    r := r.(skipPointerUpPicking := true);
    r := r.(skipFrustumClipping := true);
    r := r.(blockMaterialDirtyMechanism := true);
  }

  /** Freezing a frozen scene changes nothing. */
  lemma FreezeIdempotent(s: Scene)
    ensures FreezeScene(FreezeScene(s)) == FreezeScene(s)
  {
    var once := FreezeScene(s);
    var twice := FreezeScene(once);
    assert twice.meshes == once.meshes by {
      forall k | 0 <= k < |once.meshes|
        ensures twice.meshes[k] == once.meshes[k]
      {
      }
    }
  }

  /** The `addOnce` subscription: armed (`Live`) until the first render completion,
      `Frozen` ever after. */
  datatype Phase = Live | Frozen

  /** The subscription, the scene, and how many times the handler has run. */
  datatype Session = Session(phase: Phase, scene: Scene, runs: nat)

  /** The session right after the handler is registered. */
  function Armed(s: Scene): Session {
    Session(Live, s, 0)
  }

  /** One render-completion event: a live subscription runs the handler once and
      removes itself; a removed one does nothing. */
  function RenderCompleted(x: Session): Session {
    match x.phase
    case Live => Session(Frozen, FreezeScene(x.scene), x.runs + 1)
    case Frozen => x
  }

  /** The session after `n` render-completion events. */
  function AfterRenders(x: Session, n: nat): Session
    decreases n
  {
    if n == 0 then x else AfterRenders(RenderCompleted(x), n - 1)
  }

  /** Once frozen, no number of further render completions changes anything. */
  lemma {:induction false} FrozenAbsorbs(x: Session, n: nat)
    requires x.phase == Frozen
    ensures AfterRenders(x, n) == x
    decreases n
  {
    if n > 0 {
      FrozenAbsorbs(RenderCompleted(x), n - 1);
    }
  }

  /** However many render completions follow registration, the handler runs at
      most once: after none the scene is untouched, after one or more it has
      been frozen exactly once and the subscription is gone. */
  lemma RunsAtMostOnce(s: Scene, n: nat)
    ensures n == 0 ==> AfterRenders(Armed(s), n) == Armed(s)
    ensures n > 0 ==> AfterRenders(Armed(s), n) == Session(Frozen, FreezeScene(s), 1)
    ensures AfterRenders(Armed(s), n).runs <= 1
  {
    if n > 0 {
      FrozenAbsorbs(RenderCompleted(Armed(s)), n - 1);
    }
  }
}
