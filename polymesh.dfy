/** The parts of a polyMesh the correction pass reads: the point positions, the
    point-to-point connectivity, the boundary patches and the patch of every
    boundary face. */
module PolyMesh {
  import opened Vectors

  /** One boundary patch (a polyPatch). `typeName` is what `type()` returns;
      `meshPoints[j]` is the global index of the patch's local point `j`;
      `pointFaces[j]` lists the patch-local faces around local point `j`;
      `faceNormals[f]` is the unit normal of patch-local face `f`. */
  datatype Patch = Patch(
    typeName: string,
    meshPoints: seq<nat>,
    pointFaces: seq<seq<nat>>,
    faceNormals: seq<Vec3>)

  /** `points[v]` is the position of vertex `v`, `pointPoints[v]` its neighbours
      in connectivity order, `patchID[i]` the patch of boundary face `i`. */
  datatype Mesh = Mesh(
    points: seq<Vec3>,
    pointPoints: seq<seq<nat>>,
    patches: seq<Patch>,
    patchID: seq<nat>)

  /** The four patch types that never mark their points as boundary points. */
  predicate IsSkippedType(typeName: string) {
    typeName == "wedge" || typeName == "symmetry" || typeName == "empty" || typeName == "cyclic"
  }

  predicate IndicesBelow(s: seq<nat>, n: nat) {
    forall k :: 0 <= k < |s| ==> s[k] < n
  }

  /** The index invariants every polyMesh keeps. */
  predicate ValidPatch(pp: Patch, nPoints: nat) {
    IndicesBelow(pp.meshPoints, nPoints) &&
    |pp.pointFaces| == |pp.meshPoints| &&
    forall j :: 0 <= j < |pp.pointFaces| ==> IndicesBelow(pp.pointFaces[j], |pp.faceNormals|)
  }

  predicate Valid(m: Mesh) {
    |m.pointPoints| == |m.points| &&
    (forall v :: 0 <= v < |m.pointPoints| ==> IndicesBelow(m.pointPoints[v], |m.points|)) &&
    (forall p :: 0 <= p < |m.patches| ==> ValidPatch(m.patches[p], |m.points|)) &&
    IndicesBelow(m.patchID, |m.patches|)
  }

  /** Every patch that has points owns at least one boundary face, so it occurs in `patchID`. */
  predicate PatchIDCoversPatches(m: Mesh) {
    forall p :: 0 <= p < |m.patches| && m.patches[p].meshPoints != [] ==> p in m.patchID
  }

  /** `whichPoint`: the local index of global point `v` in a patch, -1 when the
      patch does not hold it. */
  function WhichPoint(meshPoints: seq<nat>, v: nat): (j: int)
    ensures -1 <= j < |meshPoints|
    ensures j == -1 <==> v !in meshPoints
    ensures j >= 0 ==> meshPoints[j] == v && forall i :: 0 <= i < j ==> meshPoints[i] != v
  {
    if meshPoints == [] then -1
    else if meshPoints[0] == v then 0
    else
      var r := WhichPoint(meshPoints[1..], v);
      if r < 0 then -1 else r + 1
  }
}
