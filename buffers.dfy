/**
 `realloc` on the arrays of rings and balls: a fresh array of the new
 size that keeps the old contents up to the smaller of the two sizes.
 Slots beyond the old size start with arbitrary values.
 */
module Buffers {

  method Resized<T(0)>(a: array<T>, size: nat) returns (b: array<T>)
    ensures fresh(b) && b.Length == size
    ensures size <= a.Length ==> b[..] == a[..size]
    ensures a.Length <= size ==> b[..a.Length] == a[..]
  {
    b := new T[size];
    var keep := if size <= a.Length then size else a.Length;
    var i := 0;
    while i < keep
      invariant 0 <= i <= keep
      invariant b[..i] == a[..i]
    {
      b[i] := a[i];
      i := i + 1;
    }
    assert b[..keep] == a[..keep];
  }
}
