/**
 The array of rings: `generate_rings` fills it from the centre outwards,
 and `remove_ring` drops its first ring by shifting the rest down in place
 and shrinking the array by one.
 */
module RingList {
  import opened Entities
  import opened Buffers

  /** The inner radii never decrease along the array. */
  predicate InnerAscending(rings: seq<Ring>) {
    forall i, k :: 0 <= i < k < |rings| ==> rings[i].innerR <= rings[k].innerR
  }

  /** `generate_rings(n)`: ring `i` is `RingAt(i)`. */
  method GenerateRings(n: nat) returns (rings: array<Ring>)
    ensures fresh(rings) && rings.Length == n
    ensures forall i :: 0 <= i < n ==> rings[i] == RingAt(i)
  {
    rings := new Ring[n];
    var initVel := BaseSpin;
    var innerR := FirstInnerRadius;
    var outerR := FirstOuterRadius;
    for i := 0 to n
      invariant innerR == FirstInnerRadius + RadiusStep * i as real
      invariant outerR == FirstOuterRadius + RadiusStep * i as real
      invariant forall l :: 0 <= l < i ==> rings[l] == RingAt(l)
    {
      rings[i] := Ring(StartAngle, EndAngle, innerR, outerR, Center, initVel * (i + 1) as real);
      innerR := innerR + RadiusStep;
      outerR := outerR + RadiusStep;
    }
  }

  /** The layout `generate_rings` produces is ordered from the innermost ring outwards. */
  lemma {:induction false} LayoutAscending(n: nat)
    ensures InnerAscending(seq(n, i requires 0 <= i => RingAt(i)))
  {
    var s := seq(n, i requires 0 <= i => RingAt(i));
    forall i, k | 0 <= i < k < |s|
      ensures s[i].innerR <= s[k].innerR
    {
      RingsNest(i, k);
    }
  }

  /** Dropping rings from the front keeps the order. */
  lemma {:induction false} SuffixAscending(rings: seq<Ring>, from: nat)
    requires InnerAscending(rings) && from <= |rings|
    ensures InnerAscending(rings[from..])
  {
    forall i, k | 0 <= i < k < |rings| - from
      ensures rings[from..][i].innerR <= rings[from..][k].innerR
    {
      assert rings[from..][i] == rings[from + i] && rings[from..][k] == rings[from + k];
    }
  }

  /**
   `remove_ring`: shift rings `1 .. ringsN - 1` down by one in place, then
   reallocate to `ringsN - 1` rings. The caller gets the new count and the
   new array, which holds the old rings without the first, in order.
   */
  method RemoveRing(rings: array<Ring>, ringsN: nat) returns (shrunk: array<Ring>, n: nat)
    requires 1 <= ringsN <= rings.Length
    modifies rings
    ensures n == ringsN - 1
    ensures fresh(shrunk) && shrunk[..] == old(rings[1..ringsN])
    ensures rings[..ringsN - 1] == old(rings[1..ringsN])
    ensures rings[ringsN - 1..] == old(rings[ringsN - 1..])
  {
    var i := 0;
    while i < ringsN - 1
      invariant 0 <= i <= ringsN - 1
      invariant forall l :: 0 <= l < i ==> rings[l] == old(rings[l + 1])
      invariant forall l :: i <= l < rings.Length ==> rings[l] == old(rings[l])
    {
      rings[i] := rings[i + 1];
      i := i + 1;
    }
    n := ringsN - 1;
    shrunk := Resized(rings, n);
  }
}
