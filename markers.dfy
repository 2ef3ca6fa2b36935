/** The two point markers built before any point moves: the points on physical
    boundary patches (`vertOnPatch`) and the points on excluded patches
    (`vertOnExcludePatch`). */
module Markers {
  import opened PolyMesh
  import opened BitSets

  function PatchPoints(m: Mesh, p: nat): set<nat>
    requires p < |m.patches|
  {
    set v | v in m.patches[p].meshPoints
  }

  /** Points marked by visiting patches `ids` in order, skipping the four
      non-physical patch types. */
  function OnPatchUnion(m: Mesh, ids: seq<nat>): set<nat>
    requires IndicesBelow(ids, |m.patches|)
  {
    if ids == [] then {}
    else
      var last := ids[|ids| - 1];
      OnPatchUnion(m, ids[..|ids| - 1])
        + (if IsSkippedType(m.patches[last].typeName) then {} else PatchPoints(m, last))
  }

  /** The content of `vertOnPatch`: one visit per boundary face. */
  function VertOnPatch(m: Mesh): set<nat>
    requires Valid(m)
  {
    OnPatchUnion(m, m.patchID)
  }

  /** The content of `vertOnExcludePatch` after visiting the excluded patches
      `excludePatchSet` in order, whatever their type. */
  function VertOnExcludePatch(m: Mesh, excludePatchSet: seq<nat>): set<nat>
    requires IndicesBelow(excludePatchSet, |m.patches|)
  {
    if excludePatchSet == [] then {}
    else
      VertOnExcludePatch(m, excludePatchSet[..|excludePatchSet| - 1])
        + PatchPoints(m, excludePatchSet[|excludePatchSet| - 1])
  }

  /** A point is marked exactly when some visited patch of a physical type holds it. */
  lemma {:induction false} OnPatchUnionMembers(m: Mesh, ids: seq<nat>, v: nat)
    requires IndicesBelow(ids, |m.patches|)
    ensures v in OnPatchUnion(m, ids) <==>
      exists k :: 0 <= k < |ids| && !IsSkippedType(m.patches[ids[k]].typeName)
                  && v in m.patches[ids[k]].meshPoints
  {
    if ids != [] {
      var init := ids[..|ids| - 1];
      OnPatchUnionMembers(m, init, v);
      if v in OnPatchUnion(m, ids) && v !in OnPatchUnion(m, init) {
        var k := |ids| - 1;
        assert !IsSkippedType(m.patches[ids[k]].typeName) && v in m.patches[ids[k]].meshPoints;
      }
      if exists k :: 0 <= k < |ids| && !IsSkippedType(m.patches[ids[k]].typeName)
                     && v in m.patches[ids[k]].meshPoints {
        var k :| 0 <= k < |ids| && !IsSkippedType(m.patches[ids[k]].typeName)
                 && v in m.patches[ids[k]].meshPoints;
        if k < |ids| - 1 {
          assert init[k] == ids[k];
        }
      }
    }
  }

  /** `vertOnExcludePatch` holds exactly the points of the excluded patches, with no type filter. */
  lemma {:induction false} VertOnExcludePatchExactly(m: Mesh, excludePatchSet: seq<nat>, v: nat)
    requires IndicesBelow(excludePatchSet, |m.patches|)
    ensures v in VertOnExcludePatch(m, excludePatchSet) <==>
      exists k :: 0 <= k < |excludePatchSet| && v in m.patches[excludePatchSet[k]].meshPoints
  {
    if excludePatchSet != [] {
      var init := excludePatchSet[..|excludePatchSet| - 1];
      VertOnExcludePatchExactly(m, init, v);
      if exists k :: 0 <= k < |excludePatchSet| && v in m.patches[excludePatchSet[k]].meshPoints {
        var k :| 0 <= k < |excludePatchSet| && v in m.patches[excludePatchSet[k]].meshPoints;
        if k < |excludePatchSet| - 1 {
          assert init[k] == excludePatchSet[k];
        }
      }
    }
  }

  /** `vertOnPatch` holds exactly the points of the patches whose type is not
      wedge, symmetry, empty or cyclic. */
  lemma VertOnPatchExactly(m: Mesh, v: nat)
    requires Valid(m) && PatchIDCoversPatches(m)
    ensures v in VertOnPatch(m) <==>
      exists p :: 0 <= p < |m.patches| && !IsSkippedType(m.patches[p].typeName)
                  && v in m.patches[p].meshPoints
  {
    OnPatchUnionMembers(m, m.patchID, v);
    if exists p :: 0 <= p < |m.patches| && !IsSkippedType(m.patches[p].typeName)
                   && v in m.patches[p].meshPoints {
      var p :| 0 <= p < |m.patches| && !IsSkippedType(m.patches[p].typeName)
               && v in m.patches[p].meshPoints;
      assert p in m.patchID;
      var k :| 0 <= k < |m.patchID| && m.patchID[k] == p;
    }
  }

  /** Visiting a patch again, as `patchID()` does once per face, marks nothing new. */
  lemma RevisitMarksNothingNew(m: Mesh, ids: seq<nat>, p: nat)
    requires IndicesBelow(ids, |m.patches|) && p in ids
    ensures IndicesBelow(ids + [p], |m.patches|)
    ensures OnPatchUnion(m, ids + [p]) == OnPatchUnion(m, ids)
  {
    assert (ids + [p])[..|ids|] == ids;
    var k :| 0 <= k < |ids| && ids[k] == p;
    if !IsSkippedType(m.patches[p].typeName) {
      forall v | v in PatchPoints(m, p) ensures v in OnPatchUnion(m, ids) {
        OnPatchUnionMembers(m, ids, v);
      }
    }
  }

  /** The loop that fills `vertOnPatch`, one pass over `patchID()`. */
  method MarkPatchPoints(m: Mesh) returns (vertOnPatch: BitSet)
    requires Valid(m)
    ensures fresh(vertOnPatch.bits) && vertOnPatch.bits.Length == |m.points|
    ensures vertOnPatch.Members() == VertOnPatch(m)
  {
    vertOnPatch := new BitSet(|m.points|);
    var i := 0;
    while i < |m.patchID|
      invariant 0 <= i <= |m.patchID|
      invariant fresh(vertOnPatch.bits) && vertOnPatch.bits.Length == |m.points|
      invariant vertOnPatch.Members() == OnPatchUnion(m, m.patchID[..i])
    {
      var patchi := m.patchID[i];
      assert m.patchID[..i + 1][..i] == m.patchID[..i];
      if !IsSkippedType(m.patches[patchi].typeName) {
        assert ValidPatch(m.patches[patchi], |m.points|);
        vertOnPatch.Set(m.patches[patchi].meshPoints);
      }
      i := i + 1;
    }
    assert m.patchID[..i] == m.patchID;
  }

  /** The loop that fills `vertOnExcludePatch`. */
  method MarkExcludedPoints(m: Mesh, excludePatchSet: seq<nat>) returns (vertOnExcludePatch: BitSet)
    requires Valid(m) && IndicesBelow(excludePatchSet, |m.patches|)
    ensures fresh(vertOnExcludePatch.bits) && vertOnExcludePatch.bits.Length == |m.points|
    ensures vertOnExcludePatch.Members() == VertOnExcludePatch(m, excludePatchSet)
  {
    vertOnExcludePatch := new BitSet(|m.points|);
    var i := 0;
    while i < |excludePatchSet|
      invariant 0 <= i <= |excludePatchSet|
      invariant fresh(vertOnExcludePatch.bits) && vertOnExcludePatch.bits.Length == |m.points|
      invariant vertOnExcludePatch.Members() == VertOnExcludePatch(m, excludePatchSet[..i])
    {
      var excludePatchi := excludePatchSet[i];
      assert excludePatchSet[..i + 1][..i] == excludePatchSet[..i];
      assert ValidPatch(m.patches[excludePatchi], |m.points|);
      vertOnExcludePatch.Set(m.patches[excludePatchi].meshPoints);
      i := i + 1;
    }
    assert excludePatchSet[..i] == excludePatchSet;
  }
}
