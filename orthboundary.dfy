/** The correction pass of makeOrthBoundary: every point of an included patch
    that is not on an excluded patch and has an interior neighbour is moved so
    that the edge from that neighbour lies along the boundary normal. */
module OrthBoundary {
  import opened Vectors
  import opened PolyMesh
  import opened BitSets
  import opened Markers
  import opened Anchor
  import opened Normals
  import opened Projection

  /** The fatal errors raised before any point is adjusted. */
  datatype ConfigError = NoIncludedPatches | NoExcludedPatches

  datatype Result<T> = Success(value: T) | Failure(error: ConfigError)

  /** A point the pass moves when one of the included patches holds it: it is
      not excluded and has a neighbour off the boundary. */
  predicate Eligible(m: Mesh, onPatch: set<nat>, onExclude: set<nat>, v: nat)
    requires Valid(m) && v < |m.points|
  {
    v !in onExclude && FirstInternal(m.pointPoints[v], onPatch) >= 0
  }

  /** The position patch `patchi` gives its point `v`, computed from the original points only. */
  function CorrectedPosition(m: Mesh, patchi: nat, v: nat, onPatch: set<nat>, normalise: Vec3 -> Vec3): Vec3
    requires Valid(m) && patchi < |m.patches| && v in m.patches[patchi].meshPoints
    requires v < |m.points| && FirstInternal(m.pointPoints[v], onPatch) >= 0
  {
    var pp := m.patches[patchi];
    assert ValidPatch(pp, |m.points|);
    var internalPointi := FirstInternal(m.pointPoints[v], onPatch);
    var localPointI := WhichPoint(pp.meshPoints, v);
    var boundaryNormal := normalise(NormalSum(pp.pointFaces[localPointI], pp.faceNormals));
    Project(m.points[v], m.points[internalPointi], boundaryNormal)
  }

  /** `points` after visiting the first `k` points of patch `patchi`. */
  function PatchPass(points: seq<Vec3>, m: Mesh, patchi: nat, k: nat, onPatch: set<nat>, onExclude: set<nat>,
                     normalise: Vec3 -> Vec3): (r: seq<Vec3>)
    requires Valid(m) && patchi < |m.patches| && k <= |m.patches[patchi].meshPoints|
    requires |points| == |m.points|
    ensures |r| == |points|
  {
    if k == 0 then points
    else
      var prev := PatchPass(points, m, patchi, k - 1, onPatch, onExclude, normalise);
      var v := m.patches[patchi].meshPoints[k - 1];
      assert ValidPatch(m.patches[patchi], |m.points|);
      if Eligible(m, onPatch, onExclude, v) then prev[v := CorrectedPosition(m, patchi, v, onPatch, normalise)]
      else prev
  }

  /** `newPoints` after visiting the patches `ids` in order, starting from a copy of the points. */
  function Pass(m: Mesh, ids: seq<nat>, onPatch: set<nat>, onExclude: set<nat>, normalise: Vec3 -> Vec3): (r: seq<Vec3>)
    requires Valid(m) && IndicesBelow(ids, |m.patches|)
    ensures |r| == |m.points|
  {
    if ids == [] then m.points
    else
      var last := ids[|ids| - 1];
      PatchPass(Pass(m, ids[..|ids| - 1], onPatch, onExclude, normalise), m, last,
                |m.patches[last].meshPoints|, onPatch, onExclude, normalise)
  }

  /** The points the tool hands to `movePoints` when the included patches `patchSet` are processed in
      the order given and `excludePatchSet` are the excluded patches. */
  function Corrected(m: Mesh, patchSet: seq<nat>, excludePatchSet: seq<nat>, normalise: Vec3 -> Vec3): (r: seq<Vec3>)
    requires Valid(m) && IndicesBelow(patchSet, |m.patches|) && IndicesBelow(excludePatchSet, |m.patches|)
    ensures |r| == |m.points|
  {
    Pass(m, patchSet, VertOnPatch(m), VertOnExcludePatch(m, excludePatchSet), normalise)
  }

  /** The position in `ids` of the last patch that holds `v`; -1 when none does. */
  function LastPatchWith(m: Mesh, ids: seq<nat>, v: nat): (i: int)
    requires IndicesBelow(ids, |m.patches|)
    ensures -1 <= i < |ids|
    ensures i == -1 <==> forall k :: 0 <= k < |ids| ==> v !in m.patches[ids[k]].meshPoints
    ensures i >= 0 ==> v in m.patches[ids[i]].meshPoints &&
                       forall k :: i < k < |ids| ==> v !in m.patches[ids[k]].meshPoints
  {
    if ids == [] then -1
    else if v in m.patches[ids[|ids| - 1]].meshPoints then |ids| - 1
    else
      var i := LastPatchWith(m, ids[..|ids| - 1], v);
      assert forall k :: 0 <= k < |ids| - 1 ==> ids[..|ids| - 1][k] == ids[k];
      i
  }

  /** One patch moves exactly its own eligible points, each to the position that patch gives it. */
  lemma {:induction false} PatchPassAt(points: seq<Vec3>, m: Mesh, patchi: nat, k: nat, onPatch: set<nat>,
                                       onExclude: set<nat>, normalise: Vec3 -> Vec3, v: nat)
    requires Valid(m) && patchi < |m.patches| && k <= |m.patches[patchi].meshPoints|
    requires |points| == |m.points| && v < |points|
    ensures PatchPass(points, m, patchi, k, onPatch, onExclude, normalise)[v] ==
      if v in m.patches[patchi].meshPoints[..k] && Eligible(m, onPatch, onExclude, v)
      then CorrectedPosition(m, patchi, v, onPatch, normalise)
      else points[v]
  {
    if k > 0 {
      var mp := m.patches[patchi].meshPoints;
      assert mp[..k] == mp[..k - 1] + [mp[k - 1]];
      PatchPassAt(points, m, patchi, k - 1, onPatch, onExclude, normalise, v);
    }
  }

  /** The whole pass: a point moves exactly when an included patch holds it and it is
      eligible, and then the last such patch in processing order decides where. */
  lemma {:induction false} PassAt(m: Mesh, ids: seq<nat>, onPatch: set<nat>, onExclude: set<nat>,
                                  normalise: Vec3 -> Vec3, v: nat)
    requires Valid(m) && IndicesBelow(ids, |m.patches|) && v < |m.points|
    ensures Pass(m, ids, onPatch, onExclude, normalise)[v] ==
      var i := LastPatchWith(m, ids, v);
      if i >= 0 && Eligible(m, onPatch, onExclude, v)
      then CorrectedPosition(m, ids[i], v, onPatch, normalise)
      else m.points[v]
  {
    if ids != [] {
      var init := ids[..|ids| - 1];
      var last := ids[|ids| - 1];
      var mp := m.patches[last].meshPoints;
      PassAt(m, init, onPatch, onExclude, normalise, v);
      PatchPassAt(Pass(m, init, onPatch, onExclude, normalise), m, last, |mp|, onPatch, onExclude, normalise, v);
      assert mp[..|mp|] == mp;
    }
  }

  /** The output has one position per mesh point, and a point differs from its
      original position only if it lies on an included patch, is not on an
      excluded patch and has an interior neighbour. */
  lemma OnlyEligiblePointsMove(m: Mesh, patchSet: seq<nat>, excludePatchSet: seq<nat>,
                               normalise: Vec3 -> Vec3, v: nat)
    requires Valid(m) && IndicesBelow(patchSet, |m.patches|) && IndicesBelow(excludePatchSet, |m.patches|)
    requires v < |m.points|
    ensures |Corrected(m, patchSet, excludePatchSet, normalise)| == |m.points|
    ensures Corrected(m, patchSet, excludePatchSet, normalise)[v] != m.points[v] ==>
      (exists k :: 0 <= k < |patchSet| && v in m.patches[patchSet[k]].meshPoints) &&
      v !in VertOnExcludePatch(m, excludePatchSet) &&
      FirstInternal(m.pointPoints[v], VertOnPatch(m)) >= 0
  {
    PassAt(m, patchSet, VertOnPatch(m), VertOnExcludePatch(m, excludePatchSet), normalise, v);
  }

  /** Exclusion wins: a point on an excluded patch keeps its position, even on an included patch. */
  lemma ExclusionWins(m: Mesh, patchSet: seq<nat>, excludePatchSet: seq<nat>,
                      normalise: Vec3 -> Vec3, v: nat, k: nat)
    requires Valid(m) && IndicesBelow(patchSet, |m.patches|) && IndicesBelow(excludePatchSet, |m.patches|)
    requires v < |m.points| && k < |excludePatchSet| && v in m.patches[excludePatchSet[k]].meshPoints
    ensures Corrected(m, patchSet, excludePatchSet, normalise)[v] == m.points[v]
  {
    VertOnExcludePatchExactly(m, excludePatchSet, v);
    PassAt(m, patchSet, VertOnPatch(m), VertOnExcludePatch(m, excludePatchSet), normalise, v);
  }

  /** A point whose every neighbour is a boundary point keeps its position. */
  lemma NoAnchorPassthrough(m: Mesh, patchSet: seq<nat>, excludePatchSet: seq<nat>,
                            normalise: Vec3 -> Vec3, v: nat)
    requires Valid(m) && IndicesBelow(patchSet, |m.patches|) && IndicesBelow(excludePatchSet, |m.patches|)
    requires v < |m.points|
    requires forall k :: 0 <= k < |m.pointPoints[v]| ==> m.pointPoints[v][k] in VertOnPatch(m)
    ensures Corrected(m, patchSet, excludePatchSet, normalise)[v] == m.points[v]
  {
    PassAt(m, patchSet, VertOnPatch(m), VertOnExcludePatch(m, excludePatchSet), normalise, v);
  }

  /** A moved point: its new edge from the anchor lies along the normal the last
      included patch holding it gives, and with a unit normal the edge keeps its
      component along that normal. */
  lemma MovedPointIsOrthogonal(m: Mesh, patchSet: seq<nat>, excludePatchSet: seq<nat>,
                               normalise: Vec3 -> Vec3, v: nat)
    requires Valid(m) && IndicesBelow(patchSet, |m.patches|) && IndicesBelow(excludePatchSet, |m.patches|)
    requires v < |m.points| && LastPatchWith(m, patchSet, v) >= 0
    requires Eligible(m, VertOnPatch(m), VertOnExcludePatch(m, excludePatchSet), v)
    ensures
      var pp := m.patches[patchSet[LastPatchWith(m, patchSet, v)]];
      var anchor := m.points[FirstInternal(m.pointPoints[v], VertOnPatch(m))];
      var n := normalise(NormalSum(pp.pointFaces[WhichPoint(pp.meshPoints, v)], pp.faceNormals));
      var q := Corrected(m, patchSet, excludePatchSet, normalise)[v];
      Sub(q, anchor) == Scale(Dot(Sub(m.points[v], anchor), n), n) &&
      Parallel(Sub(q, anchor), n) &&
      (Dot(n, n) == 1.0 ==> Dot(Sub(q, anchor), n) == Dot(Sub(m.points[v], anchor), n))
  {
    var onPatch := VertOnPatch(m);
    PassAt(m, patchSet, onPatch, VertOnExcludePatch(m, excludePatchSet), normalise, v);
    var pp := m.patches[patchSet[LastPatchWith(m, patchSet, v)]];
    assert ValidPatch(pp, |m.points|);
    var p := m.points[v];
    var anchor := m.points[FirstInternal(m.pointPoints[v], onPatch)];
    var n := normalise(NormalSum(pp.pointFaces[WhichPoint(pp.meshPoints, v)], pp.faceNormals));
    EdgeAlongNormal(p, anchor, n);
    EdgeParallelToNormal(p, anchor, n);
    if Dot(n, n) == 1.0 {
      NormalComponentPreserved(p, anchor, n);
    }
  }

  /** At a point that only one included patch holds, processing the included
      patches in another order gives the same position. */
  lemma OrderIrrelevantAtUnsharedPoint(m: Mesh, patchSet: seq<nat>, patchSet': seq<nat>,
                                       excludePatchSet: seq<nat>, normalise: Vec3 -> Vec3, v: nat)
    requires Valid(m) && IndicesBelow(patchSet, |m.patches|) && IndicesBelow(patchSet', |m.patches|)
    requires IndicesBelow(excludePatchSet, |m.patches|) && v < |m.points|
    requires forall p :: p in patchSet <==> p in patchSet'
    requires forall p, q ::
      p in patchSet && q in patchSet && v in m.patches[p].meshPoints && v in m.patches[q].meshPoints ==> p == q
    ensures Corrected(m, patchSet, excludePatchSet, normalise)[v] ==
            Corrected(m, patchSet', excludePatchSet, normalise)[v]
  {
    var onPatch, onExclude := VertOnPatch(m), VertOnExcludePatch(m, excludePatchSet);
    PassAt(m, patchSet, onPatch, onExclude, normalise, v);
    PassAt(m, patchSet', onPatch, onExclude, normalise, v);
    var i, i' := LastPatchWith(m, patchSet, v), LastPatchWith(m, patchSet', v);
    if i >= 0 {
      assert patchSet[i] in patchSet';
      var j :| 0 <= j < |patchSet'| && patchSet'[j] == patchSet[i];
      assert i' >= 0;
      assert patchSet'[i'] in patchSet;
    }
  }

  /** At a point held by two included patches the one processed last decides its
      position, so swapping the two changes the result whenever the two patches
      give the point different corrected positions. */
  lemma LastIncludedPatchWins(m: Mesh, p: nat, q: nat, excludePatchSet: seq<nat>,
                              normalise: Vec3 -> Vec3, v: nat)
    requires Valid(m) && p < |m.patches| && q < |m.patches| && IndicesBelow(excludePatchSet, |m.patches|)
    requires v < |m.points| && v in m.patches[p].meshPoints && v in m.patches[q].meshPoints
    requires Eligible(m, VertOnPatch(m), VertOnExcludePatch(m, excludePatchSet), v)
    ensures Corrected(m, [p, q], excludePatchSet, normalise)[v] == CorrectedPosition(m, q, v, VertOnPatch(m), normalise)
    ensures Corrected(m, [q, p], excludePatchSet, normalise)[v] == CorrectedPosition(m, p, v, VertOnPatch(m), normalise)
  {
    var onPatch, onExclude := VertOnPatch(m), VertOnExcludePatch(m, excludePatchSet);
    PassAt(m, [p, q], onPatch, onExclude, normalise, v);
    PassAt(m, [q, p], onPatch, onExclude, normalise, v);
  }

  /** The nested loop over one patch's points: skip excluded points and points
      without an interior neighbour, move the rest. */
  method AdjustPatch(m: Mesh, patchi: nat, vertOnPatch: BitSet, vertOnExcludePatch: BitSet,
                     normalise: Vec3 -> Vec3, newPoints: array<Vec3>)
    requires Valid(m) && patchi < |m.patches| && newPoints.Length == |m.points|
    modifies newPoints
    ensures newPoints[..] == PatchPass(old(newPoints[..]), m, patchi, |m.patches[patchi].meshPoints|,
                                       vertOnPatch.Members(), vertOnExcludePatch.Members(), normalise)
  {
    var pp := m.patches[patchi];
    assert ValidPatch(pp, |m.points|);
    var meshPoints := pp.meshPoints;
    var k := 0;
    while k < |meshPoints|
      invariant 0 <= k <= |meshPoints|
      invariant newPoints[..] == PatchPass(old(newPoints[..]), m, patchi, k,
                                           vertOnPatch.Members(), vertOnExcludePatch.Members(), normalise)
    {
      var meshPointi := meshPoints[k];
      if !vertOnExcludePatch.Test(meshPointi) {
        var boundaryPoint := m.points[meshPointi];
        var localPointI := WhichPoint(meshPoints, meshPointi);
        var pPoints := m.pointPoints[meshPointi];
        var internalPointi := FindInternalPoint(pPoints, vertOnPatch);
        if internalPointi >= 0 {
          var boundaryNormal := SumFaceNormals(pp.pointFaces[localPointI], pp.faceNormals);
          boundaryNormal := normalise(boundaryNormal);
          var internalPoint := m.points[internalPointi];
          newPoints[meshPointi] := Project(boundaryPoint, internalPoint, boundaryNormal);
        }
      }
      k := k + 1;
    }
  }

  /** The tool's `main` from the point field copy to the call of `movePoints`.
      `patchSet` and `excludePatchSet` are the patch indices the name lists matched, in any order. */
  method MakeOrthBoundary(m: Mesh, patchSet: seq<nat>, excludePatchSet: seq<nat>, normalise: Vec3 -> Vec3)
    returns (r: Result<seq<Vec3>>)
    requires Valid(m) && IndicesBelow(patchSet, |m.patches|) && IndicesBelow(excludePatchSet, |m.patches|)
    ensures patchSet == [] ==> r == Failure(NoIncludedPatches)
    ensures patchSet != [] && excludePatchSet == [] ==> r == Failure(NoExcludedPatches)
    ensures patchSet != [] && excludePatchSet != [] ==>
      r == Success(Corrected(m, patchSet, excludePatchSet, normalise))
  {
    var newPoints := new Vec3[|m.points|](i requires 0 <= i < |m.points| => m.points[i]);
    if |patchSet| == 0 {
      return Failure(NoIncludedPatches);
    }
    var vertOnPatch := MarkPatchPoints(m);
    if |excludePatchSet| == 0 {
      return Failure(NoExcludedPatches);
    }
    var vertOnExcludePatch := MarkExcludedPoints(m, excludePatchSet);
    assert newPoints[..] == m.points;
    var i := 0;
    while i < |patchSet|
      invariant 0 <= i <= |patchSet|
      modifies newPoints
      invariant newPoints[..] == Pass(m, patchSet[..i], vertOnPatch.Members(), vertOnExcludePatch.Members(), normalise)
    {
      assert patchSet[..i + 1][..i] == patchSet[..i];
      AdjustPatch(m, patchSet[i], vertOnPatch, vertOnExcludePatch, normalise, newPoints);
      i := i + 1;
    }
    assert patchSet[..i] == patchSet;
    r := Success(newPoints[..]);
  }
}
