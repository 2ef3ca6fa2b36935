/** The search for the interior point a boundary point is straightened against. */
module Anchor {
  import opened BitSets

  /** The first neighbour, in connectivity order, that is not a boundary point;
      -1 when every neighbour is one. */
  function FirstInternal(pPoints: seq<nat>, onPatch: set<nat>): (r: int)
    ensures r == -1 <==> forall k :: 0 <= k < |pPoints| ==> pPoints[k] in onPatch
    ensures r != -1 ==>
      exists k :: 0 <= k < |pPoints| && pPoints[k] == r && r !in onPatch
                  && forall j :: 0 <= j < k ==> pPoints[j] in onPatch
  {
    if pPoints == [] then -1
    else if pPoints[0] !in onPatch then pPoints[0]
    else
      var r := FirstInternal(pPoints[1..], onPatch);
      assert r != -1 ==>
        exists k :: 0 < k < |pPoints| && pPoints[k] == r && r !in onPatch
                    && forall j :: 0 <= j < k ==> pPoints[j] in onPatch
      by {
        if r != -1 {
          var k :| 0 <= k < |pPoints[1..]| && pPoints[1..][k] == r && r !in onPatch
                  && forall j :: 0 <= j < k ==> pPoints[1..][j] in onPatch;
          assert forall j :: 0 <= j < k + 1 ==> pPoints[j] in onPatch by {
            forall j | 0 < j < k + 1 ensures pPoints[j] in onPatch {
              assert pPoints[j] == pPoints[1..][j - 1];
            }
          }
        }
      }
      assert r == -1 ==> forall k :: 0 <= k < |pPoints| ==> pPoints[k] in onPatch
      by {
        if r == -1 {
          forall k | 0 < k < |pPoints| ensures pPoints[k] in onPatch {
            assert pPoints[k] == pPoints[1..][k - 1];
          }
        }
      }
      r
  }

  /** The search loop with its `break` over `internalPointi`. */
  method FindInternalPoint(pPoints: seq<nat>, vertOnPatch: BitSet) returns (internalPointi: int)
    ensures internalPointi == FirstInternal(pPoints, vertOnPatch.Members())
  {
    ghost var onPatch := vertOnPatch.Members();
    internalPointi := -1;
    var k := 0;
    while k < |pPoints|
      invariant 0 <= k <= |pPoints|
      invariant FirstInternal(pPoints, onPatch) == FirstInternal(pPoints[k..], onPatch)
      invariant internalPointi == -1
    {
      var pPointi := pPoints[k];
      if !vertOnPatch.Test(pPointi) {
        internalPointi := pPointi;
        break;
      }
      assert pPoints[k..][1..] == pPoints[k + 1..];
      k := k + 1;
    }
  }
}
