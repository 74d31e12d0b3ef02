/**
 * The point matrix of the streaming clusterer (clustering/clm_points.c): a
 * window of `dim1` scan rows by `dim2` m/z slots, allocated as one zeroed
 * block plus a table of row starts, which `StepPointmatrix` shifts up.
 */
module Points {
  import opened Common
  import opened Blocks

  /**
   * A point of the window.  `flag` is the index of the cluster flag the point
   * belongs to in the flag pool (the C code holds a pointer; None is NULL).
   */
  datatype Point = Point(mz: real, intensity: real, flag: Option<nat>)

  /** The all-zero point that calloc and memset produce: an unoccupied slot. */
  const ZERO: Point := Point(0.0, 0.0, None)

  /** The number of points in `n` rows of `width` points (n * width). */
  function Cells(n: nat, width: nat): nat
  {
    if n == 0 then 0 else Cells(n - 1, width) + width
  }

  lemma {:induction false} CellsAdd(m: nat, n: nat, width: nat)
    ensures Cells(m + n, width) == Cells(m, width) + Cells(n, width)
  {
    if m > 0 {
      CellsAdd(m - 1, n, width);
    }
  }

  /** The position of cell (a, b) in a block of rows `width` points long. */
  function Offset(a: nat, b: nat, width: nat): nat
  {
    Cells(a, width) + b
  }

  /** Every cell of the first `n` rows lies in the first Cells(n, width) points. */
  lemma CellInBlock(a: nat, b: nat, n: nat, width: nat)
    requires a < n && b < width
    ensures Offset(a, b, width) < Cells(n, width)
  {
    CellsAdd(a + 1, n - a - 1, width);
  }

  /** Distinct cells of a block of rows `width` points long lie at distinct positions. */
  lemma OffsetsDistinct(a: nat, b: nat, a': nat, b': nat, width: nat)
    requires b < width && b' < width && (a != a' || b != b')
    ensures Offset(a, b, width) != Offset(a', b', width)
  {
    if a < a' {
      CellInBlock(a, b, a', width);
    } else if a' < a {
      CellInBlock(a', b', a, width);
    }
  }

  /** The row-by-row reading of a block moved up by `step` rows and zero-filled at its end. */
  lemma ShiftedRows(before: seq<Point>, after: seq<Point>, d1: nat, d2: nat, step: nat)
    requires step <= d1 && |before| == |after| == Cells(d1, d2)
    requires Cells(d1 - step, d2) + Cells(step, d2) == Cells(d1, d2)
    requires forall j :: 0 <= j < Cells(d1 - step, d2) ==> after[j] == before[j + Cells(step, d2)]
    requires forall j :: Cells(d1 - step, d2) <= j < Cells(d1, d2) ==> after[j] == ZERO
    ensures forall a, b :: 0 <= a < d1 - step && 0 <= b < d2 ==>
      Offset(a, b, d2) < |after| && Cells(a + step, d2) + b < |before| &&
      after[Offset(a, b, d2)] == before[Cells(a + step, d2) + b]
    ensures forall a, b :: d1 - step <= a < d1 && 0 <= b < d2 ==>
      Offset(a, b, d2) < |after| && after[Offset(a, b, d2)] == ZERO
  {
    forall a, b | 0 <= a < d1 - step && 0 <= b < d2
      ensures Offset(a, b, d2) < |after| && Cells(a + step, d2) + b < |before|
      ensures after[Offset(a, b, d2)] == before[Cells(a + step, d2) + b]
    {
      CellInBlock(a, b, d1 - step, d2);
      CellInBlock(a + step, b, d1, d2);
      CellsAdd(a, step, d2);
    }
    forall a, b | d1 - step <= a < d1 && 0 <= b < d2
      ensures Offset(a, b, d2) < |after| && after[Offset(a, b, d2)] == ZERO
    {
      CellInBlock(a, b, d1, d2);
      CellsAdd(d1 - step, a - (d1 - step), d2);
    }
  }

  class PointMatrix {
    const dim1: nat
    const dim2: nat
    /** `matrix[0]`: the single calloc'd block holding all `dim1 * dim2` points. */
    const block: array<Point>
    /** `matrix[a]`: the start of row `a`, as an offset into `block`. */
    const rows: array<nat>

    ghost predicate Valid()
      reads this, rows
    {
      dim1 > 0 && dim2 > 0 &&
      block.Length == Cells(dim1, dim2) && rows.Length == dim1 &&
      forall a :: 0 <= a < dim1 ==> rows[a] == Cells(a, dim2)
    }

    /** `matrix[a][b]`. */
    function At(a: nat, b: nat): Point
      requires Valid() && a < dim1 && b < dim2
      reads this, rows, block
    {
      CellInBlock(a, b, dim1, dim2);
      block[rows[a] + b]
    }

    /** Row `a` as a sequence: `matrix[a][0 .. dim2)`. */
    function Row(a: nat): (r: seq<Point>)
      requires Valid() && a < dim1
      reads this, rows, block
      ensures |r| == dim2 && forall b :: 0 <= b < dim2 ==> r[b] == At(a, b)
    {
      AtOffsets();
      CellsAdd(a + 1, dim1 - a - 1, dim2);
      block[rows[a] .. rows[a] + dim2]
    }

    /** `matrix[a][b] = p`: that cell becomes `p` and every other cell keeps its point. */
    method Set(a: nat, b: nat, p: Point)
      requires Valid() && a < dim1 && b < dim2
      modifies block
      ensures At(a, b) == p
      ensures forall a', b' :: 0 <= a' < dim1 && 0 <= b' < dim2 && (a' != a || b' != b) ==>
        At(a', b') == old(At(a', b'))
    {
      AtOffsets();
      CellInBlock(a, b, dim1, dim2);
      block[rows[a] + b] := p;
      AtOffsets();
      forall a', b' | 0 <= a' < dim1 && 0 <= b' < dim2 && (a' != a || b' != b)
        ensures At(a', b') == old(At(a', b'))
      {
        OffsetsDistinct(a, b, a', b', dim2);
      }
    }

    /** Every cell lies at its offset in the block. */
    lemma AtOffsets()
      requires Valid()
      ensures forall a, b :: 0 <= a < dim1 && 0 <= b < dim2 ==>
        Offset(a, b, dim2) < block.Length && At(a, b) == block[Offset(a, b, dim2)]
    {
      forall a, b | 0 <= a < dim1 && 0 <= b < dim2
        ensures Offset(a, b, dim2) < block.Length && At(a, b) == block[Offset(a, b, dim2)]
      {
        CellInBlock(a, b, dim1, dim2);
      }
    }

    /**
     * After the block has been moved up by `step` rows from `before` and its
     * end zero-filled, row `a` holds the old row `a + step` and the last
     * `step` rows are zero.
     */
    lemma ShiftedCells(before: seq<Point>, step: nat)
      requires Valid() && step <= dim1 && |before| == block.Length
      requires Cells(dim1 - step, dim2) + Cells(step, dim2) == Cells(dim1, dim2)
      requires forall j :: 0 <= j < Cells(dim1 - step, dim2) ==> block[j] == before[j + Cells(step, dim2)]
      requires forall j :: Cells(dim1 - step, dim2) <= j < Cells(dim1, dim2) ==> block[j] == ZERO
      ensures forall a, b :: 0 <= a < dim1 - step && 0 <= b < dim2 ==>
        Offset(a + step, b, dim2) < |before| && At(a, b) == before[Offset(a + step, b, dim2)]
      ensures forall a, b :: dim1 - step <= a < dim1 && 0 <= b < dim2 ==> At(a, b) == ZERO
    {
      ShiftedRows(before, block[..], dim1, dim2, step);
      AtOffsets();
      forall a, b | 0 <= a < dim1 - step && 0 <= b < dim2
        ensures Offset(a + step, b, dim2) < |before| && At(a, b) == before[Offset(a + step, b, dim2)]
      {
        CellInBlock(a + step, b, dim1, dim2);
      }
    }

    /** The construction part of Pointmatrix for valid dimensions. */
    constructor (d1: nat, d2: nat)
      requires d1 > 0 && d2 > 0
      ensures Valid() && dim1 == d1 && dim2 == d2
      ensures fresh(block) && fresh(rows)
      ensures forall i :: 0 <= i < block.Length ==> block[i] == ZERO
    {
      dim1, dim2 := d1, d2;
      block := new Point[Cells(d1, d2)](_ => ZERO);
      rows := new nat[d1];
      new;
      rows[0] := 0;
      var a := 1;
      while a < d1
        invariant 1 <= a <= d1
        invariant forall k {:trigger rows[k]} :: 0 <= k < a ==> rows[k] == Cells(k, d2)
        modifies rows
      {
        rows[a] := rows[a - 1] + d2;
        assert rows[a] == Cells(a, d2);
        a := a + 1;
      }
    }
  }

  /**
   * Pointmatrix: NULL when either dimension is not positive; otherwise a new
   * matrix whose every point is zero and whose rows lie `dim2` points apart.
   * Allocation failure is not modelled.
   */
  method Pointmatrix(dim1: int, dim2: int) returns (m: PointMatrix?)
    ensures m == null <==> dim1 <= 0 || dim2 <= 0
    ensures m != null ==>
      fresh(m) && fresh(m.block) && fresh(m.rows) && m.Valid() && m.dim1 == dim1 && m.dim2 == dim2
    ensures m != null ==> m.rows[0] == 0 && forall a :: 1 <= a < dim1 ==> m.rows[a] - m.rows[a - 1] == dim2
    ensures m != null ==> forall a, b :: 0 <= a < dim1 && 0 <= b < dim2 ==> m.At(a, b) == ZERO
  {
    if dim1 <= 0 { return null; }
    if dim2 <= 0 { return null; }
    m := new PointMatrix(dim1, dim2);
    forall a, b | 0 <= a < dim1 && 0 <= b < dim2
      ensures m.At(a, b) == ZERO
    {
      CellInBlock(a, b, dim1, dim2);
    }
  }

  /**
   * stepPointmatrix: -1 and no change when `step <= 0` or `step > dim1`;
   * otherwise row `a` takes the old row `a + step` for every `a < dim1 - step`,
   * the last `step` rows become zero, and the new tail row `dim1 - step` is
   * returned.
   */
  method StepPointmatrix(m: PointMatrix, step: int) returns (r: int)
    requires m.Valid()
    modifies m.block
    ensures step <= 0 || step > m.dim1 ==> r == -1 && m.block[..] == old(m.block[..])
    ensures 0 < step <= m.dim1 ==> r == m.dim1 - step
    ensures 0 < step <= m.dim1 ==>
      forall a, b :: 0 <= a < m.dim1 - step && 0 <= b < m.dim2 ==> m.At(a, b) == old(m.At(a + step, b))
    ensures 0 < step <= m.dim1 ==>
      forall a, b :: m.dim1 - step <= a < m.dim1 && 0 <= b < m.dim2 ==> m.At(a, b) == ZERO
  {
    if step <= 0 { return -1; }
    if step > m.dim1 { return -1; }
    ShiftRows(m, step);
    return m.dim1 - step;
  }

  /** The memmove and memset of stepPointmatrix, for a step already checked. */
  method ShiftRows(m: PointMatrix, step: nat)
    requires m.Valid() && 0 < step <= m.dim1
    modifies m.block
    ensures forall a, b :: 0 <= a < m.dim1 - step && 0 <= b < m.dim2 ==> m.At(a, b) == old(m.At(a + step, b))
    ensures forall a, b :: m.dim1 - step <= a < m.dim1 && 0 <= b < m.dim2 ==> m.At(a, b) == ZERO
  {
    var d1, d2 := m.dim1, m.dim2;
    CellsAdd(d1 - step, step, d2);
    m.AtOffsets();
    ghost var before := m.block[..];
    var moved, shift := Cells(d1 - step, d2), Cells(step, d2);
    MemMove(m.block, 0, shift, moved);
    MemSet(m.block, moved, shift, ZERO);
    m.ShiftedCells(before, step);
  }
}
