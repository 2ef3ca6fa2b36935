# makeOrthBoundary: a verified model of the boundary orthogonalisation pass

makeOrthBoundary is an OpenFOAM utility. It moves the points of chosen boundary
patches so that the edge from each such point to a neighbouring interior point
lies along the boundary normal there. The user gives an include list and an
exclude list of patch names. Points on an excluded patch never move, even when an
included patch also holds them.

The model covers the whole correction pass in `main`:

- **Markers** (module `Markers`, class `BitSets.BitSet`). `vertOnPatch` is built by
  visiting `patchID()`, once per boundary face. It holds the points of every patch
  whose type is not `wedge`, `symmetry`, `empty` or `cyclic`. `vertOnExcludePatch`
  holds the points of every excluded patch, whatever its type.
- **Anchor search** (module `Anchor`). The anchor is the first neighbour in
  `pointPoints` order that is not in `vertOnPatch`. `-1` means there is none.
- **Normal sum** (module `Normals`). This is the sum of the face normals of the
  patch faces around the point.
- **Projection** (module `Projection`). The new point is `p - (d - (d·n) n)`, where
  `d = p - anchor`.
- **Pass** (module `OrthBoundary`). `newPoints` starts as a copy of the points.
  Each included patch, in the order the patch set yields them, overwrites its
  eligible points. Every value written is computed from the original points only.

The mesh is a value (`PolyMesh.Mesh`): point positions over `real`,
`pointPoints`, the patches and `patchID`. A patch is a `PolyMesh.Patch`:
- its type name;
- `meshPoints`;
- `pointFaces`;
- `faceNormals`.

The two bit sets are objects over `array<bool>` that `set` updates in place.
`newPoints` is an `array<Vec3>`. The main method copies it from the points,
updates it patch by patch, and returns its contents.

`normalise()` is a parameter of the pass: `normalise: Vec3 -> Vec3`. The model
attaches no meaning to it. The corrected edge is parallel to the normal whatever
`normalise` returns. That the edge keeps its component along the normal is
proved for a normal of unit length.

Two behaviours of the code are worth stating outright:
- **Order.** The last included patch that holds a shared point decides its
  position (`LastIncludedPatchWins`). So the result at a shared point depends on
  the order in which the `labelHashSet` yields the included patches, whenever
  two included patches give that point different corrected positions. The
  source leaves that order unspecified. `OrderExample` builds such a mesh: one
  corner point on two walls with normals (0,1,0) and (0,0,1). The two
  processing orders put the corner in two different places (`OrderMatters`).
  The order does not matter at a point held by only one included patch
  (`OrderIrrelevantAtUnsharedPoint`).
- **Zero normal sum.** The code does not check for a zero normal sum. It calls
  `normalise()` on the sum whatever it is. The model does the same: the sum goes
  through the `normalise` parameter, and no result is invented for a zero sum.

## Model

| member | source | states |
|---|---|---|
| `PolyMesh.IsSkippedType` | makeOrthBoundary.C:60-63 | the type test of the marker loop: true exactly for the type names `wedge`, `symmetry`, `empty` and `cyclic`, compared as whole strings |
| `PolyMesh.WhichPoint` | makeOrthBoundary.C:119 | `whichPoint` gives a local index holding the point, the first such one, and -1 exactly when the patch does not hold the point |
| `BitSets.BitSet.constructor` | makeOrthBoundary.C:53 | `bitSet(nPoints)` has one flag per mesh point, all off |
| `BitSets.BitSet.Set` | makeOrthBoundary.C:71 | `set(meshPoints)` adds exactly the listed labels to the set and keeps every label already in it |
| `BitSets.BitSet.Test` | makeOrthBoundary.C:112 | `test(i)` is true exactly when `i` is a member; false for a negative label |
| `Markers.OnPatchUnion` | makeOrthBoundary.C:56-73 | the points marked by visiting the patches `ids` in order, skipping the four type names |
| `Markers.VertOnPatch` | makeOrthBoundary.C:53-73 | `OnPatchUnion` over `patchID()`, one visit per boundary face |
| `Markers.VertOnExcludePatch` | makeOrthBoundary.C:88-96 | the union of the excluded patches' `meshPoints`, with no type test |
| `Markers.OnPatchUnionMembers` | makeOrthBoundary.C:56-73 | a point is marked by the `patchID()` loop iff some visited patch of a type other than the four skipped ones holds it |
| `Markers.VertOnPatchExactly` | makeOrthBoundary.C:53-73 | when every patch with points owns a face, `vertOnPatch` holds exactly the points of the patches whose type is not wedge, symmetry, empty or cyclic |
| `Markers.RevisitMarksNothingNew` | makeOrthBoundary.C:56-71 | visiting a patch a second time, as `patchID()` does once per face, leaves the marker unchanged |
| `Markers.VertOnExcludePatchExactly` | makeOrthBoundary.C:88-96 | a point is marked by the exclude loop iff some excluded patch holds it; there is no type test |
| `Markers.MarkPatchPoints` | makeOrthBoundary.C:53-73 | the loop over `patchID()` leaves `vertOnPatch` holding exactly `VertOnPatch(m)`, one flag per mesh point |
| `Markers.MarkExcludedPoints` | makeOrthBoundary.C:88-96 | the loop over the excluded patches leaves `vertOnExcludePatch` holding exactly `VertOnExcludePatch(m, excludePatchSet)` |
| `Anchor.FirstInternal` | makeOrthBoundary.C:126-138 | the result is -1 iff every neighbour is a boundary point; otherwise it is a neighbour off the boundary, and every neighbour listed before it is on the boundary |
| `Anchor.FindInternalPoint` | makeOrthBoundary.C:123-136 | the search loop with `break` returns exactly the first neighbour not in `vertOnPatch`, or -1 |
| `Normals.NormalSum` | makeOrthBoundary.C:147-157 | the sum of `faceNormals[f]` over the listed faces `f`, zero for no faces; `SumFaceNormals` is proved equal to it |
| `Normals.NormalSumConcat` | makeOrthBoundary.C:147-157 | the normal sum over two face lists one after the other is the sum of the two normal sums |
| `Normals.NormalSumRotate` | makeOrthBoundary.C:148-157 | the normal sum does not change when the two parts of the face list are swapped |
| `Normals.SumFaceNormals` | makeOrthBoundary.C:147-157 | the accumulator loop returns the sum of `faceNormals[f]` over the faces `f` of the point |
| `Projection.Project` | makeOrthBoundary.C:163-169 | the new position `p - movement`, with `movement = d - (d·n) n` and `d = p - anchor`; what it guarantees is in the lemmas below |
| `Projection.EdgeAlongNormal` | makeOrthBoundary.C:163-169 | the corrected edge from the anchor is `(d·n) n` |
| `Projection.EdgeParallelToNormal` | makeOrthBoundary.C:163-169 | the corrected edge from the anchor is parallel to `n`: its cross product with `n` is zero, for any `n` |
| `Projection.NormalComponentPreserved` | makeOrthBoundary.C:163-169 | for a unit `n`, the component of the edge along `n` is the same before and after the correction |
| `Projection.MovementIsTangential` | makeOrthBoundary.C:165 | for a unit `n`, `movement` has no component along `n` |
| `Projection.ProjectIdempotent` | makeOrthBoundary.C:163-169 | for a unit `n`, correcting an already corrected point against the same anchor leaves it where it is |
| `Projection.ExampleNormalAlongY` | makeOrthBoundary.C:163-169 | anchor (0,0,0), point (1,1,0) and normal (0,1,0) give the point (0,1,0) |
| `Projection.ExampleNormalAlongZ` | makeOrthBoundary.C:163-169 | the same anchor and point with normal (0,0,1) give the anchor itself |
| `OrthBoundary.Eligible` | makeOrthBoundary.C:111-142 | the two skip tests: a point is processed only when it is not in `vertOnExcludePatch` and the anchor search finds a neighbour |
| `OrthBoundary.CorrectedPosition` | makeOrthBoundary.C:118-169 | the position one patch writes for its point: the anchor from the neighbour search, the local index from `whichPoint`, the normal `normalise` of that local point's face-normal sum, then `Project` |
| `OrthBoundary.PatchPass` | makeOrthBoundary.C:107-170 | visiting a patch's points keeps one position per mesh point |
| `OrthBoundary.Pass` | makeOrthBoundary.C:37 | `newPoints` has exactly as many entries as the mesh has points |
| `OrthBoundary.Corrected` | makeOrthBoundary.C:176 | the point field handed to `movePoints`: the whole pass over the included patches, in the order the patch set yields them, with the two markers built from the mesh, one position per mesh point |
| `OrthBoundary.LastPatchWith` | makeOrthBoundary.C:101-107 | the result is the position of the last patch in processing order that holds the point, or -1 exactly when none does |
| `OrthBoundary.PatchPassAt` | makeOrthBoundary.C:107-170 | one patch moves exactly its own points that are not excluded and have an anchor, each to the position that patch gives it; every other entry keeps its value |
| `OrthBoundary.PassAt` | makeOrthBoundary.C:101-175 | a point ends up at the position the last included patch holding it gives, when it is not excluded and has an anchor; otherwise it keeps its original position |
| `OrthBoundary.OnlyEligiblePointsMove` | makeOrthBoundary.C:37 | the output has as many entries as the input, and a point moves only when an included patch holds it, it is not on an excluded patch and it has an anchor |
| `OrthBoundary.ExclusionWins` | makeOrthBoundary.C:111-116 | a point on an excluded patch keeps its original position, even when an included patch holds it |
| `OrthBoundary.NoAnchorPassthrough` | makeOrthBoundary.C:138-142 | a point whose every neighbour is in `vertOnPatch` keeps its original position |
| `OrthBoundary.MovedPointIsOrthogonal` | makeOrthBoundary.C:147-169 | the new edge from the anchor of a moved point is `(d·n) n` for the normal its last included patch gives: it is parallel to `n`, and for a unit `n` its component along `n` is unchanged |
| `OrthBoundary.OrderIrrelevantAtUnsharedPoint` | makeOrthBoundary.C:101 | at a point held by only one included patch, any order of the same included patches gives the same position |
| `OrthBoundary.LastIncludedPatchWins` | makeOrthBoundary.C:169 | at a point held by two included patches, the one processed second decides the position, in both orders |
| `OrderExample.SharedCornerMarkers` | makeOrthBoundary.C:53-142 | on the example mesh both walls mark the corner, the empty excluded patch marks nothing, and the corner's anchor is the interior point |
| `OrderExample.SharedCornerPosition` | makeOrthBoundary.C:118-169 | on the example mesh each wall moves the corner to the projection along its own face normal |
| `OrderExample.OrderChangesSharedCorner` | makeOrthBoundary.C:101-169 | walls in the order (0,1) leave the corner at the anchor (0,0,0); in the order (1,0) they leave it at (0,1,0) |
| `OrderExample.OrderMatters` | makeOrthBoundary.C:101-169 | the two processing orders of the same included patches give the corner different positions |
| `OrthBoundary.AdjustPatch` | makeOrthBoundary.C:104-174 | the nested loop over one patch's points changes `newPoints` exactly as `PatchPass` describes |
| `OrthBoundary.MakeOrthBoundary` | makeOrthBoundary.C:37-176 | an empty include set fails with `NoIncludedPatches`; otherwise an empty exclude set fails with `NoExcludedPatches`; in both cases no points are produced; otherwise the result is the point field `Corrected(m, patchSet, excludePatchSet, normalise)` |

## Left out

- Argument parsing, `Time`, loading the mesh, and the overwrite and instance handling (makeOrthBoundary.C:11-35, 41, 178-186) are framework plumbing.
- Resolving the patch-name lists (`wordRes`, `patchSet`, makeOrthBoundary.C:40, 43, 77-78) is a library call. Its result is a parameter: a sequence of patch indices in an unspecified order.
- `mesh.movePoints` and `mesh.write()` (makeOrthBoundary.C:176, 190) are I/O and library state. The model returns the point field that would be handed to `movePoints`.
- `Info` logging has no effect on the result and is not modelled.
- `normalise()` and its square root (makeOrthBoundary.C:158) are a parameter with no properties. As a result, what happens when the normal sum is zero is not modelled.
- IEEE floating-point rounding is not modelled. The arithmetic is over `real`.
- `bitSet::set` grows the set for a label past its end. The model requires every label to be below the number of points, which holds for every valid mesh.
- `whichPoint` is modelled as the first position of the point in `meshPoints`. The library looks the point up in a map. The two agree because a patch lists each point once.
- `MovedPointIsOrthogonal`: the component along the normal is proved unchanged only for a unit normal. Nothing is known of `normalise`, so it is not known that its result has unit length.
- `NormalSumRotate`: shows only that the sum is unchanged when two parts of the face list are swapped, not under every permutation.
- `MakeOrthBoundary`: `vertOnPatch` is built before the exclude list is checked, as in the source (makeOrthBoundary.C:53-85). That step reads only patch point lists and cannot be seen in the result.
