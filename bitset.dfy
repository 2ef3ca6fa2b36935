/** A fixed-size set of point labels stored as one flag per point (the library's `bitSet`). */
module BitSets {

  class BitSet {
    const bits: array<bool>

    /** The labels whose flag is on. */
    ghost function Members(): (s: set<nat>)
      reads bits
      ensures forall i :: i in s ==> i < bits.Length
    {
      set i: nat | i < bits.Length && bits[i]
    }

    /** `bitSet(n)`: n flags, all off. */
    constructor (n: nat)
      ensures fresh(bits) && bits.Length == n
      ensures Members() == {}
    {
      bits := new bool[n](_ => false);
    }

    /** `set(labels)`: switch on the flag of every label in the list. */
    method Set(labels: seq<nat>)
      requires forall k :: 0 <= k < |labels| ==> labels[k] < bits.Length
      modifies bits
      ensures Members() == old(Members()) + set l | l in labels
    {
      ghost var before := Members();
      var k := 0;
      while k < |labels|
        invariant 0 <= k <= |labels|
        invariant Members() == before + set l | l in labels[..k]
      {
        ghost var pre := Members();
        bits[labels[k]] := true;
        assert Members() == pre + {labels[k]};
        assert labels[..k + 1] == labels[..k] + [labels[k]];
        k := k + 1;
      }
      assert labels[..k] == labels;
    }

    /** `test(i)`: whether label `i` is in the set; false outside the range. */
    function Test(i: int): (b: bool)
      reads bits
      ensures b <==> i >= 0 && i in Members()
    {
      0 <= i < bits.Length && bits[i]
    }
  }
}
