/** Two wall patches sharing the boundary point 0 of a two-point mesh, with
    face normals (0,1,0) and (0,0,1); patch 2 is an empty excluded patch. */
module OrderExample {
  import opened Vectors
  import opened PolyMesh
  import opened Markers
  import opened Anchor
  import opened Normals
  import opened Projection
  import opened OrthBoundary

  const AlongY: Vec3 := Vec3(0.0, 1.0, 0.0)
  const AlongZ: Vec3 := Vec3(0.0, 0.0, 1.0)
  const Corner: Vec3 := Vec3(1.0, 1.0, 0.0)

  /** A wall patch holding point 0 with one face of normal `n`. */
  function Wall(n: Vec3): Patch {
    Patch("wall", [0], [[0]], [n])
  }

  /** Point 0 at (1,1,0) on both walls, point 1 at the origin inside; patch 2 has no points. */
  function SharedCorner(): (m: Mesh)
    ensures Valid(m)
  {
    Mesh([Corner, Zero], [[1], [0]], [Wall(AlongY), Wall(AlongZ), Patch("wall", [], [], [])], [0, 1])
  }

  /** The face normals are already of unit length, so `normalise` may leave them alone. */
  function Identity(n: Vec3): Vec3 { n }

  /** Both walls mark point 0, the empty excluded patch marks nothing, and point 0 has anchor 1. */
  lemma SharedCornerMarkers()
    ensures VertOnPatch(SharedCorner()) == {0}
    ensures VertOnExcludePatch(SharedCorner(), [2]) == {}
    ensures Eligible(SharedCorner(), {0}, {}, 0)
  {
    var m := SharedCorner();
    assert [0, 1][..1] == [0];
    assert [0, 1][..1][..0] == [];
    assert [2][..0] == [];
  }

  /** The position patch `patchi` gives the shared point is the projection along its face normal. */
  lemma SharedCornerPosition(patchi: nat)
    requires patchi < 2
    ensures FirstInternal([1], {0}) == 1
    ensures CorrectedPosition(SharedCorner(), patchi, 0, {0}, Identity)
         == Project(Corner, Zero, SharedCorner().patches[patchi].faceNormals[0])
  {
    assert [1][1..] == [];
    var n := SharedCorner().patches[patchi].faceNormals[0];
    assert NormalSum([0], [n]) == n by {
      assert [0][..0] == [];
    }
  }

  /** Processing the two walls in the two orders puts the shared point in two different places. */
  lemma OrderChangesSharedCorner()
    ensures Corrected(SharedCorner(), [0, 1], [2], Identity)[0] == Zero
    ensures Corrected(SharedCorner(), [1, 0], [2], Identity)[0] == AlongY
  {
    var m := SharedCorner();
    SharedCornerMarkers();
    LastIncludedPatchWins(m, 0, 1, [2], Identity, 0);
    SharedCornerPosition(0);
    SharedCornerPosition(1);
    ExampleNormalAlongY();
    ExampleNormalAlongZ();
  }

  /** So the pass depends on the order of the included patches. */
  lemma OrderMatters()
    ensures Corrected(SharedCorner(), [0, 1], [2], Identity)[0] != Corrected(SharedCorner(), [1, 0], [2], Identity)[0]
  {
    OrderChangesSharedCorner();
    assert Zero.y != AlongY.y;
  }
}
