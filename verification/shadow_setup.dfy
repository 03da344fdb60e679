/**
 The shadow loop of the upper-case scene builder: once every load has finished,
 each mesh of the scene is made a shadow receiver and registered with the
 shadow generator as a caster.

 The generator's caster registry is its shadow map's render list, a sequence of
 mesh ids. Registering a mesh appends it unless the list already holds it.
 */
module ShadowSetup {
  import opened SceneModel

  /** `addShadowCaster(mesh)`: the render list gains the mesh if it lacks it and
      keeps everything it had, in order, without introducing a duplicate. */
  function AddShadowCaster(casters: seq<nat>, id: nat): (r: seq<nat>)
    ensures Elems(r) == Elems(casters) + {id}
    ensures |casters| <= |r| && r[..|casters|] == casters
    ensures NoDup(casters) ==> NoDup(r)
    ensures id in casters ==> r == casters
  {
    if id in casters then casters else casters + [id]
  }

  /** The ids of a mesh list are those of all but its last mesh, plus the last mesh's. */
  lemma IdsSnoc(meshes: seq<Mesh>)
    requires 0 < |meshes|
    ensures Ids(meshes) == Ids(meshes[..|meshes| - 1]) + {meshes[|meshes| - 1].uniqueId}
  {
    var init := meshes[..|meshes| - 1];
    forall x | x in Ids(meshes)
      ensures x in Ids(init) + {meshes[|meshes| - 1].uniqueId}
    {
      var k :| 0 <= k < |meshes| && meshes[k].uniqueId == x;
      if k < |meshes| - 1 {
        assert init[k].uniqueId == x;
      }
    }
    forall x | x in Ids(init)
      ensures x in Ids(meshes)
    {
      var k :| 0 <= k < |init| && init[k].uniqueId == x;
      assert meshes[k].uniqueId == x;
    }
  }

  /** The render list after registering each mesh of a list in turn: it holds
      exactly the casters it had and the meshes' ids, and stays free of duplicates. */
  function AddCasters(casters: seq<nat>, meshes: seq<Mesh>): (r: seq<nat>)
    ensures Elems(r) == Elems(casters) + Ids(meshes)
    ensures |casters| <= |r| && r[..|casters|] == casters
    ensures NoDup(casters) ==> NoDup(r)
    decreases |meshes|
  {
    if |meshes| == 0 then casters
    else
      IdsSnoc(meshes);
      var prev := AddCasters(casters, meshes[..|meshes| - 1]);
      var r := AddShadowCaster(prev, meshes[|meshes| - 1].uniqueId);
      assert r[..|prev|][..|casters|] == r[..|casters|];
      r
  }

  /** Every registered mesh is in the resulting render list. */
  lemma AddCastersCovers(casters: seq<nat>, meshes: seq<Mesh>)
    ensures forall k :: 0 <= k < |meshes| ==> meshes[k].uniqueId in AddCasters(casters, meshes)
  {
    var r := AddCasters(casters, meshes);
    forall k | 0 <= k < |meshes|
      ensures meshes[k].uniqueId in r
    {
      assert meshes[k].uniqueId in Ids(meshes);
      assert meshes[k].uniqueId in Elems(r);
    }
  }

  /** The loop over `scene.meshes`, one mesh at a time: set `receiveShadows`
      and register the mesh as a caster. Afterwards every mesh receives shadows
      and is a caster, the mesh list keeps its meshes and their order, only
      `receiveShadows` changes, and the render list is the one registering the
      meshes in order yields (see `AddCasters`). */
  method AddShadows(meshes: seq<Mesh>, casters: seq<nat>) returns (ms: seq<Mesh>, cs: seq<nat>)
    ensures SameMeshes(ms, meshes)
    ensures forall k :: 0 <= k < |ms| ==> ms[k] == meshes[k].(receiveShadows := true)
    ensures forall k :: 0 <= k < |ms| ==> ms[k].receiveShadows && ms[k].uniqueId in cs
    ensures cs == AddCasters(casters, meshes)
  {
    ms, cs := meshes, casters;
    var i := 0;
    while i < |meshes|
      invariant 0 <= i <= |meshes| == |ms|
      invariant forall k :: 0 <= k < i ==> ms[k] == meshes[k].(receiveShadows := true)
      invariant forall k :: i <= k < |ms| ==> ms[k] == meshes[k]
      invariant cs == AddCasters(casters, meshes[..i])
    {
      var mesh := ms[i].(receiveShadows := true);
      ms := ms[i := mesh];
      cs := AddShadowCaster(cs, mesh.uniqueId);
      assert meshes[..i + 1][..i] == meshes[..i];
      i := i + 1;
    }
    assert meshes[..i] == meshes;
    AddCastersCovers(casters, meshes);
  }

  /** Registering meshes that are all registered already leaves the render list
      as it is, so running the loop a second time adds nothing. */
  lemma {:induction false} AddCastersAbsorbs(casters: seq<nat>, meshes: seq<Mesh>)
    requires Ids(meshes) <= Elems(casters)
    ensures AddCasters(casters, meshes) == casters
    decreases |meshes|
  {
    if |meshes| > 0 {
      IdsSnoc(meshes);
      AddCastersAbsorbs(casters, meshes[..|meshes| - 1]);
      assert meshes[|meshes| - 1].uniqueId in Elems(casters);
    }
  }
}
