/** The correction of one boundary point: remove from the anchor-to-point edge
    its component across the normal. */
module Projection {
  import opened Vectors

  /** The moved point, `p - (d - (d·n) n)` with `d = p - anchor`. */
  function Project(p: Vec3, anchor: Vec3, n: Vec3): Vec3 {
    var internalToBoundary := Sub(p, anchor);
    var movement := Sub(internalToBoundary, Scale(Dot(internalToBoundary, n), n));
    Sub(p, movement)
  }

  /** The corrected edge from the anchor is `(d·n) n`: only the part of `d` along `n` is kept. */
  lemma EdgeAlongNormal(p: Vec3, anchor: Vec3, n: Vec3)
    ensures Sub(Project(p, anchor, n), anchor) == Scale(Dot(Sub(p, anchor), n), n)
  {
  }

  /** The corrected edge from the anchor is parallel to the normal, whatever its length. */
  lemma EdgeParallelToNormal(p: Vec3, anchor: Vec3, n: Vec3)
    ensures Parallel(Sub(Project(p, anchor, n), anchor), n)
  {
    EdgeAlongNormal(p, anchor, n);
    ScaleParallel(Dot(Sub(p, anchor), n), n);
  }

  /** With a unit normal the edge keeps its component along the normal. */
  lemma NormalComponentPreserved(p: Vec3, anchor: Vec3, n: Vec3)
    requires Dot(n, n) == 1.0
    ensures Dot(Sub(Project(p, anchor, n), anchor), n) == Dot(Sub(p, anchor), n)
  {
    EdgeAlongNormal(p, anchor, n);
    DotScale(Dot(Sub(p, anchor), n), n, n);
  }

  /** With a unit normal the movement is tangential: it has no component along the normal. */
  lemma MovementIsTangential(p: Vec3, anchor: Vec3, n: Vec3)
    requires Dot(n, n) == 1.0
    ensures Dot(Sub(p, Project(p, anchor, n)), n) == 0.0
  {
    var d := Sub(p, anchor);
    var q := Project(p, anchor, n);
    EdgeAlongNormal(p, anchor, n);
    assert Sub(p, q) == Sub(d, Sub(q, anchor));
    DotScale(Dot(d, n), n, n);
  }

  /** With a unit normal, correcting an already corrected point changes nothing. */
  lemma ProjectIdempotent(p: Vec3, anchor: Vec3, n: Vec3)
    requires Dot(n, n) == 1.0
    ensures Project(Project(p, anchor, n), anchor, n) == Project(p, anchor, n)
  {
    NormalComponentPreserved(p, anchor, n);
  }

  /** Anchor (0,0,0), point (1,1,0), normal (0,1,0): the point moves to (0,1,0). */
  lemma ExampleNormalAlongY()
    ensures Project(Vec3(1.0, 1.0, 0.0), Zero, Vec3(0.0, 1.0, 0.0)) == Vec3(0.0, 1.0, 0.0)
  {
    var p, n := Vec3(1.0, 1.0, 0.0), Vec3(0.0, 1.0, 0.0);
    EdgeAlongNormal(p, Zero, n);
    assert Dot(Sub(p, Zero), n) == 1.0 by { assert Sub(p, Zero) == p; }
  }

  /** Same anchor and point, normal (0,0,1): the point collapses onto the anchor. */
  lemma ExampleNormalAlongZ()
    ensures Project(Vec3(1.0, 1.0, 0.0), Zero, Vec3(0.0, 0.0, 1.0)) == Zero
  {
    var p, n := Vec3(1.0, 1.0, 0.0), Vec3(0.0, 0.0, 1.0);
    EdgeAlongNormal(p, Zero, n);
    assert Dot(Sub(p, Zero), n) == 0.0 by { assert Sub(p, Zero) == p; }
  }
}
