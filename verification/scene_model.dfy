/**
 The part of a Babylon.js scene the freeze handler and the shadow loop touch:
 the scene's mesh list with the per-mesh flags they set, and the scene-level
 flags. A mesh is identified by its `uniqueId`; geometry, materials and
 transforms themselves stay abstract.
 */
module SceneModel {

  /** The per-mesh state the two loops read or write. */
  datatype Mesh = Mesh(
    uniqueId: nat,
    worldMatrixFrozen: bool,
    doNotSyncBoundingInfo: bool,
    isPickable: bool,
    alwaysSelectAsActiveMesh: bool,
    receiveShadows: bool)

  /** The scene: its mesh list, in order, and the scene-level flags the freeze sets.
      `materialsFrozen` stands for the effect of `freezeMaterials`. */
  datatype Scene = Scene(
    meshes: seq<Mesh>,
    materialsFrozen: bool,
    skipPointerMovePicking: bool,
    skipPointerDownPicking: bool,
    skipPointerUpPicking: bool,
    skipFrustumClipping: bool,
    blockMaterialDirtyMechanism: bool)

  /** The ids of a mesh list. */
  function Ids(meshes: seq<Mesh>): set<nat> {
    set k | 0 <= k < |meshes| :: meshes[k].uniqueId
  }

  /** Two mesh lists hold the same meshes in the same order (their flags may differ). */
  predicate SameMeshes(a: seq<Mesh>, b: seq<Mesh>) {
    |a| == |b| && forall k :: 0 <= k < |a| ==> a[k].uniqueId == b[k].uniqueId
  }

  /** The ids in a sequence of ids, as a set. */
  function Elems(s: seq<nat>): set<nat> {
    set x | x in s
  }

  /** No id occurs twice. */
  predicate NoDup(s: seq<nat>) {
    forall i, j :: 0 <= i < j < |s| ==> s[i] != s[j]
  }
}
