/**
 * The two C library block operations the point matrix relies on, over an
 * array of elements.  Offsets and lengths count elements; the C code passes
 * byte counts that are all multiples of the element size, so the element
 * view and the byte view move the same data.
 */
module Blocks {

  /** memmove: copies `n` elements from `src` to `dst`; the ranges may overlap. */
  method MemMove<T>(a: array<T>, dst: nat, src: nat, n: nat)
    requires dst + n <= a.Length && src + n <= a.Length
    modifies a
    ensures forall j {:trigger a[j]} :: dst <= j < dst + n ==> a[j] == old(a[j - dst + src])
    ensures forall i {:trigger a[i]} :: 0 <= i < a.Length && !(dst <= i < dst + n) ==> a[i] == old(a[i])
  {
    if dst <= src {
      var k := 0;
      while k < n
        invariant 0 <= k <= n
        invariant forall j :: dst <= j < dst + k ==> a[j] == old(a[j - dst + src])
        invariant forall i :: 0 <= i < a.Length && !(dst <= i < dst + k) ==> a[i] == old(a[i])
      {
        a[dst + k] := a[src + k];
        k := k + 1;
      }
    } else {
      var k := n;
      while k > 0
        invariant 0 <= k <= n
        invariant forall j :: dst + k <= j < dst + n ==> a[j] == old(a[j - dst + src])
        invariant forall i :: 0 <= i < a.Length && !(dst + k <= i < dst + n) ==> a[i] == old(a[i])
      {
        k := k - 1;
        a[dst + k] := a[src + k];
      }
    }
  }

  /** memset to zero: sets `n` elements from `off` to the all-zero value `zero`. */
  method MemSet<T>(a: array<T>, off: nat, n: nat, zero: T)
    requires off + n <= a.Length
    modifies a
    ensures forall i :: off <= i < off + n ==> a[i] == zero
    ensures forall i {:trigger a[i]} :: 0 <= i < a.Length && !(off <= i < off + n) ==> a[i] == old(a[i])
  {
    var k := off;
    while k < off + n
      invariant off <= k <= off + n
      invariant forall i :: off <= i < k ==> a[i] == zero
      invariant forall i :: 0 <= i < a.Length && !(off <= i < k) ==> a[i] == old(a[i])
    {
      a[k] := zero;
      k := k + 1;
    }
  }
}
