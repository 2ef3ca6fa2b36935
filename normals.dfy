/** The boundary normal at a patch point: the sum of the normals of the patch
    faces around it, before `normalise()`. */
module Normals {
  import opened Vectors
  import opened PolyMesh

  /** The sum of `faceNormals[f]` over the faces `f` listed, in list order. */
  function NormalSum(faces: seq<nat>, faceNormals: seq<Vec3>): Vec3
    requires IndicesBelow(faces, |faceNormals|)
  {
    if faces == [] then Zero
    else Add(NormalSum(faces[..|faces| - 1], faceNormals), faceNormals[faces[|faces| - 1]])
  }

  /** Summing two face lists one after the other adds their sums. */
  lemma {:induction false} NormalSumConcat(a: seq<nat>, b: seq<nat>, faceNormals: seq<Vec3>)
    requires IndicesBelow(a, |faceNormals|) && IndicesBelow(b, |faceNormals|)
    ensures IndicesBelow(a + b, |faceNormals|)
    ensures NormalSum(a + b, faceNormals) == Add(NormalSum(a, faceNormals), NormalSum(b, faceNormals))
  {
    if b == [] {
      assert a + b == a;
    } else {
      var b' := b[..|b| - 1];
      assert (a + b)[..|a + b| - 1] == a + b';
      NormalSumConcat(a, b', faceNormals);
    }
  }

  /** Swapping the two parts of a split face list leaves the sum unchanged. */
  lemma NormalSumRotate(a: seq<nat>, b: seq<nat>, faceNormals: seq<Vec3>)
    requires IndicesBelow(a, |faceNormals|) && IndicesBelow(b, |faceNormals|)
    ensures IndicesBelow(a + b, |faceNormals|) && IndicesBelow(b + a, |faceNormals|)
    ensures NormalSum(a + b, faceNormals) == NormalSum(b + a, faceNormals)
  {
    NormalSumConcat(a, b, faceNormals);
    NormalSumConcat(b, a, faceNormals);
  }

  /** The accumulator loop over the faces of one point. */
  method SumFaceNormals(faces: seq<nat>, faceNormals: seq<Vec3>) returns (boundaryNormal: Vec3)
    requires IndicesBelow(faces, |faceNormals|)
    ensures boundaryNormal == NormalSum(faces, faceNormals)
  {
    boundaryNormal := Zero;
    var k := 0;
    while k < |faces|
      invariant 0 <= k <= |faces|
      invariant boundaryNormal == NormalSum(faces[..k], faceNormals)
    {
      var facei := faces[k];
      assert faces[..k + 1][..k] == faces[..k];
      boundaryNormal := Add(boundaryNormal, faceNormals[facei]);
      k := k + 1;
    }
    assert faces[..k] == faces;
  }
}
