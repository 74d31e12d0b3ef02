/**
 * The second version of the point window (02_clustering/src/clm_points.c):
 * both the point matrix and the array of retention times are shifted by one
 * generic helper, `memstep`, which moves a block up and zeroes its end.
 * Pointmatrix itself is unchanged from the first version (Points.Pointmatrix).
 */
module Window {
  import opened Common
  import opened Blocks
  import opened Points

  /**
   * memstep: None (NULL) and no change when `step > size`; otherwise the first
   * `size - step` elements take the old elements `step` further on, the last
   * `step` elements of the block become zero, and the offset of the zeroed
   * area is returned.  Sizes count elements rather than bytes.
   */
  method MemStep<T>(base: array<T>, size: nat, step: nat, zero: T) returns (r: Option<nat>)
    requires size <= base.Length
    modifies base
    ensures step > size ==> r == None && base[..] == old(base[..])
    ensures step <= size ==> r == Some(size - step)
    ensures step <= size ==> forall i {:trigger base[i]} :: 0 <= i < size - step ==> base[i] == old(base[i + step])
    ensures step <= size ==> forall i :: size - step <= i < size ==> base[i] == zero
    ensures forall i {:trigger base[i]} :: size <= i < base.Length ==> base[i] == old(base[i])
  {
    if step > size { return None; }
    MemMove(base, 0, step, size - step);
    MemSet(base, size - step, step, zero);
    return Some(size - step);
  }

  /**
   * stepPointmatrix through memstep: the same contract as the first version,
   * with the moved block addressed from the start of the matrix.
   */
  method StepPointmatrix(m: PointMatrix, step: int) returns (r: int)
    requires m.Valid()
    modifies m.block
    ensures step <= 0 || step > m.dim1 ==> r == -1 && m.block[..] == old(m.block[..])
    ensures 0 < step <= m.dim1 ==> r == m.dim1 - step
    ensures 0 < step <= m.dim1 ==>
      forall a, b :: 0 <= a < m.dim1 - step && 0 <= b < m.dim2 ==> m.At(a, b) == old(m.At(a + step, b))
    ensures 0 < step <= m.dim1 ==>
      forall a, b :: m.dim1 - step <= a < m.dim1 && 0 <= b < m.dim2 ==> m.At(a, b) == ZERO
  {
    if step <= 0 { return -1; }
    if step > m.dim1 { return -1; }
    var d1, d2 := m.dim1, m.dim2;
    CellsAdd(d1 - step, step, d2);
    m.AtOffsets();
    ghost var before := m.block[..];
    var tail := MemStep(m.block, Cells(d1, d2), Cells(step, d2), ZERO);
    if tail.None? {
      assert false;
      return -1;
    }
    m.ShiftedCells(before, step);
    return d1 - step;
  }

  /**
   * stepDoubles: -1 and no change when `step <= 0` or `step > len`; otherwise
   * the first `len - step` values take the old values `step` further on, the
   * last `step` become 0.0, and `len - step` is returned.
   */
  method StepDoubles(values: array<real>, len: int, step: int) returns (r: int)
    requires len <= values.Length
    modifies values
    ensures step <= 0 || step > len ==> r == -1 && values[..] == old(values[..])
    ensures 0 < step <= len ==> r == len - step
    ensures 0 < step <= len ==> forall i :: 0 <= i < len - step ==> values[i] == old(values[i + step])
    ensures 0 < step <= len ==> forall i :: len - step <= i < len ==> values[i] == 0.0
    ensures forall i :: 0 <= len <= i < values.Length ==> values[i] == old(values[i])
  {
    if step <= 0 { return -1; }
    if step > len { return -1; }
    var tail := MemStep(values, len, step, 0.0);
    if tail.None? {
      assert false;
      return -1;
    }
    return len - step;
  }
}
