/** The four integer 2-D convolution kernels. Each call is sequential; `id` and
    `numThreads` only select the columns (a stride class, or a block) the call writes.
    Images are flat row-major buffers of `inX * inY` cells, the kernel a flat buffer of
    `kX * kY` unsigned weights. */
module ConvKernels {

  import opened Grid
  import opened CInt
  import opened ConvSpec
  import opened ColumnBlocks

  /** Output cells whose whole centred window lies inside the image. */
  predicate Interior(inX: nat, inY: nat, kX: nat, kY: nat, p: nat)
  {
    && kX / 2 <= Col(inX, p) < inX - kX / 2
    && kY / 2 <= Row(inX, p) < inY - kY / 2
  }

  /** The cells one `conv2d_parallel` call writes: interior cells in its column stride. */
  predicate CentredWrites(inX: nat, inY: nat, kX: nat, kY: nat, id: nat, nt: nat, p: nat)
    requires nt > 0
  {
    Interior(inX, inY, kX, kY, p) && InStride(Col(inX, p), id, nt)
  }

  /** The cells one `conv2d_shifted_parallel` call writes: interior cells whose window's
      left column is in its stride. */
  predicate ShiftedWrites(inX: nat, inY: nat, kX: nat, kY: nat, id: nat, nt: nat, p: nat)
    requires nt > 0
  {
    Interior(inX, inY, kX, kY, p) && InStride(Col(inX, p) - kX / 2, id, nt)
  }

  /** The cells one `conv2d_3x3_unrolled_parallel` call writes: its column block, rows 1..inY-2. */
  predicate Unrolled3x3Writes(inX: nat, inY: nat, id: nat, nt: nat, p: nat)
    requires nt > 0
  {
    UnrolledCovers(inX, nt, id, Col(inX, p)) && 1 <= Row(inX, p) < inY - 1
  }

  /** The weight loop every kernel starts with: `weight += k[i]` over the first n entries,
      in `uint32_t`. */
  method KernelWeight(k: array<nat>, n: nat) returns (weight: nat)
    requires n <= k.Length
    ensures weight == KernelSum(k[..], n) % TWO_32
  {
    weight := 0;
    for i := 0 to n
      invariant weight == KernelSum(k[..], i) % TWO_32
    {
      ModAddLeft(KernelSum(k[..], i), k[i]);
      weight := (weight + k[i]) % TWO_32;
    }
  }

  /** Every read of the centred loops at output cell (i, j) is inside the image and the kernel. */
  lemma CentredIndices(inX: nat, inY: nat, kX: nat, kY: nat, i: int, j: int, m: int, n: int)
    requires kX / 2 <= i < inX - kX / 2 && kY / 2 <= j < inY - kY / 2
    requires -(kY / 2) <= m < kY - kY / 2 && -(kX / 2) <= n < kX - kX / 2
    ensures 0 <= (j + m) * inX + (i + n) < inX * inY
    ensures 0 <= (m + kY / 2) * kX + (n + kX / 2) < kX * kY
  {
    CellIndex(inX, inY, j + m, i + n);
    CellIndex(kX, kY, m + kY / 2, n + kX / 2);
  }

  /** Every read of the shifted loops for the window anchored at (i, j) is inside the
      image and the kernel. */
  lemma ShiftedIndices(inX: nat, inY: nat, kX: nat, kY: nat, i: nat, j: nat, m: nat, n: nat)
    requires i < inX - 2 * (kX / 2) && j < inY - 2 * (kY / 2)
    requires m < kY && n < kX
    ensures 0 <= (j + m) * inX + (i + n) < inX * inY
    ensures 0 <= m * kX + n < kX * kY
  {
    CellIndex(inX, inY, j + m, i + n);
    CellIndex(kX, kY, m, n);
  }

  /** The nine cells `conv2d_3x3_unrolled_parallel` reads around (i, j) are inside the image. */
  lemma Window3x3Centred(inX: nat, inY: nat, i: int, j: int)
    requires 1 <= i < inX - 1 && 1 <= j < inY - 1
    ensures 0 <= (j - 1) * inX + (i - 1) < inX * inY
    ensures 0 <= (j - 1) * inX + (i + 0) < inX * inY
    ensures 0 <= (j - 1) * inX + (i + 1) < inX * inY
    ensures 0 <= (j + 0) * inX + (i - 1) < inX * inY
    ensures 0 <= (j + 0) * inX + (i + 0) < inX * inY
    ensures 0 <= (j + 0) * inX + (i + 1) < inX * inY
    ensures 0 <= (j + 1) * inX + (i - 1) < inX * inY
    ensures 0 <= (j + 1) * inX + (i + 0) < inX * inY
    ensures 0 <= (j + 1) * inX + (i + 1) < inX * inY
  {
    CellIndex(inX, inY, j - 1, i - 1);
    CellIndex(inX, inY, j - 1, i + 0);
    CellIndex(inX, inY, j - 1, i + 1);
    CellIndex(inX, inY, j + 0, i - 1);
    CellIndex(inX, inY, j + 0, i + 0);
    CellIndex(inX, inY, j + 0, i + 1);
    CellIndex(inX, inY, j + 1, i - 1);
    CellIndex(inX, inY, j + 1, i + 0);
    CellIndex(inX, inY, j + 1, i + 1);
  }

  /** The nine cells `conv2d_3x3_shifted_unrolled_parallel` reads from anchor (i, j) are inside the image. */
  lemma Window3x3Shifted(inX: nat, inY: nat, i: int, j: int)
    requires 0 <= i < inX - 2 && 0 <= j < inY - 2
    ensures 0 <= (j + 0) * inX + (i + 0) < inX * inY
    ensures 0 <= (j + 0) * inX + (i + 1) < inX * inY
    ensures 0 <= (j + 0) * inX + (i + 2) < inX * inY
    ensures 0 <= (j + 1) * inX + (i + 0) < inX * inY
    ensures 0 <= (j + 1) * inX + (i + 1) < inX * inY
    ensures 0 <= (j + 1) * inX + (i + 2) < inX * inY
    ensures 0 <= (j + 2) * inX + (i + 0) < inX * inY
    ensures 0 <= (j + 2) * inX + (i + 1) < inX * inY
    ensures 0 <= (j + 2) * inX + (i + 2) < inX * inY
  {
    CellIndex(inX, inY, j + 0, i + 0);
    CellIndex(inX, inY, j + 0, i + 1);
    CellIndex(inX, inY, j + 0, i + 2);
    CellIndex(inX, inY, j + 1, i + 0);
    CellIndex(inX, inY, j + 1, i + 1);
    CellIndex(inX, inY, j + 1, i + 2);
    CellIndex(inX, inY, j + 2, i + 0);
    CellIndex(inX, inY, j + 2, i + 1);
    CellIndex(inX, inY, j + 2, i + 2);
  }

  /** The two inner loops of `conv2d_parallel` for output cell (i, j). */
  method CentredWindow(input: array<int>, inX: nat, inY: nat, k: array<nat>, kX: nat, kY: nat, i: int, j: int)
    returns (sum: int)
    requires input.Length == inX * inY && k.Length == kX * kY
    requires kX / 2 <= i < inX - kX / 2 && kY / 2 <= j < inY - kY / 2
    ensures sum == CentredConv(input[..], inX, k[..], kX, kY, i, j)
  {
    var halfX, halfY := kX / 2, kY / 2;
    sum := 0;
    var m := -halfY;
    while m < kY - halfY
      invariant -halfY <= m <= kY - halfY
      invariant sum == CentredRows(input[..], inX, k[..], kX, kY, i, j, m)
    {
      var n := -halfX;
      while n < kX - halfX
        invariant -halfX <= n <= kX - halfX
        invariant sum == CentredRows(input[..], inX, k[..], kX, kY, i, j, m)
                       + CentredRow(input[..], inX, k[..], kX, kY, i, j, m, n)
      {
        var q, kq := (j + m) * inX + (i + n), (m + halfY) * kX + (n + halfX);
        CentredIndices(inX, inY, kX, kY, i, j, m, n);
        assert CentredRow(input[..], inX, k[..], kX, kY, i, j, m, n + 1)
            == CentredRow(input[..], inX, k[..], kX, kY, i, j, m, n) + Get(input[..], q) * Get(k[..], kq);
        sum := sum + input[q] * k[kq];
        n := n + 1;
      }
      m := m + 1;
    }
  }

  /** The two inner loops of `conv2d_shifted_parallel` for the window anchored at (i, j). */
  method ShiftedWindow(input: array<int>, inX: nat, inY: nat, k: array<nat>, kX: nat, kY: nat, i: nat, j: nat)
    returns (sum: int)
    requires input.Length == inX * inY && k.Length == kX * kY
    requires i < inX - 2 * (kX / 2) && j < inY - 2 * (kY / 2)
    ensures sum == ShiftedConv(input[..], inX, k[..], kX, kY, i, j)
  {
    sum := 0;
    var m := 0;
    while m < kY
      invariant m <= kY
      invariant sum == ShiftedRows(input[..], inX, k[..], kX, i, j, m)
    {
      var n := 0;
      while n < kX
        invariant n <= kX
        invariant sum == ShiftedRows(input[..], inX, k[..], kX, i, j, m)
                       + ShiftedRow(input[..], inX, k[..], kX, i, j, m, n)
      {
        var q, kq := (j + m) * inX + (i + n), m * kX + n;
        ShiftedIndices(inX, inY, kX, kY, i, j, m, n);
        assert ShiftedRow(input[..], inX, k[..], kX, i, j, m, n + 1)
            == ShiftedRow(input[..], inX, k[..], kX, i, j, m, n) + Get(input[..], q) * Get(k[..], kq);
        sum := sum + input[q] * k[kq];
        n := n + 1;
      }
      m := m + 1;
    }
  }

  /** What `conv2d_parallel` stores at cell p: the centred kernel-weighted sum around
      the cell divided, as `int32_t / uint32_t`, by the kernel weight. */
  function CentredOut(input: seq<int>, inX: nat, k: seq<nat>, kX: nat, kY: nat, p: nat): (v: int)
    requires kX * kY <= |k| && Weight(k, kX * kY) != 0
    ensures -TWO_31 <= v < TWO_31
  {
    MixedDiv(CentredConv(input, inX, k, kX, kY, Col(inX, p), Row(inX, p)), Weight(k, kX * kY))
  }

  /** What `conv2d_shifted_parallel` stores at cell p: the kernel-weighted sum of the
      window anchored kX/2 columns left of and kY/2 rows above the cell, divided by the
      kernel weight. */
  function ShiftedOut(input: seq<int>, inX: nat, k: seq<nat>, kX: nat, kY: nat, p: nat): (v: int)
    requires kX * kY <= |k| && Weight(k, kX * kY) != 0
    ensures -TWO_31 <= v < TWO_31
  {
    MixedDiv(ShiftedConv(input, inX, k, kX, kY, Col(inX, p) - kX / 2, Row(inX, p) - kY / 2), Weight(k, kX * kY))
  }

  /** The centred and the shifted kernels store the same value at every cell: the two
      ways of indexing implement the same convolution. */
  lemma ShiftedOutIsCentredOut(input: seq<int>, inX: nat, k: seq<nat>, kX: nat, kY: nat, p: nat)
    requires kX * kY <= |k| && Weight(k, kX * kY) != 0
    ensures ShiftedOut(input, inX, k, kX, kY, p) == CentredOut(input, inX, k, kX, kY, p)
  {
    ShiftedMatchesCentred(input, inX, k, kX, kY, Col(inX, p), Row(inX, p));
  }

  /** The inner loop of `conv2d_parallel` for column i: rows kY/2 .. inY-kY/2-1. */
  method CentredColumn(input: array<int>, inX: nat, inY: nat, k: array<nat>, kX: nat, kY: nat,
                       weight: nat, out: array<int>, i: nat)
    requires input != out
    requires input.Length == inX * inY && out.Length == inX * inY && k.Length == kX * kY
    requires weight == Weight(k[..], kX * kY) && weight != 0
    requires kX / 2 <= i < inX - kX / 2
    modifies out
    ensures forall p | 0 <= p < out.Length ::
      out[p] == if Col(inX, p) == i && kY / 2 <= Row(inX, p) < inY - kY / 2
                then CentredOut(input[..], inX, k[..], kX, kY, p) else old(out[p])
  {
    ghost var img, ker := input[..], k[..];
    var halfY := kY / 2;
    var j := halfY;
    while j < inY - halfY
      invariant halfY <= j && (j == halfY || j <= inY - halfY)
      invariant forall p | 0 <= p < out.Length ::
        out[p] == if Col(inX, p) == i && halfY <= Row(inX, p) < j
                  then CentredOut(img, inX, ker, kX, kY, p) else old(out[p])
    {
      var sum := CentredWindow(input, inX, inY, k, kX, kY, i, j);
      CellIndex(inX, inY, j, i);
      ghost var q := j * inX + i;
      assert MixedDiv(sum, weight) == CentredOut(img, inX, ker, kX, kY, q);
      forall p | 0 <= p < out.Length && p != q
        ensures !(Col(inX, p) == i && Row(inX, p) == j)
      {
        RowBound(inX, inY, p);
      }
      out[j * inX + i] := MixedDiv(sum, weight);
      j := j + 1;
    }
  }

  /** `conv2d_parallel`: for every interior cell whose column is in this call's stride
      (the columns id, id + numThreads, ... from kX/2 on), store the centred
      kernel-weighted sum divided by the kernel weight; leave every other cell alone. */
  method Conv2dParallel(input: array<int>, inX: nat, inY: nat, k: array<nat>, kX: nat, kY: nat,
                        out: array<int>, id: nat, numThreads: nat)
    requires input != out
    requires input.Length == inX * inY && out.Length == inX * inY && k.Length == kX * kY
    requires kX / 2 <= inX && kY / 2 <= inY
    requires Weight(k[..], kX * kY) != 0
    requires numThreads > 0
    modifies out
    ensures forall p | 0 <= p < out.Length ::
      out[p] == if CentredWrites(inX, inY, kX, kY, id, numThreads, p)
                then CentredOut(input[..], inX, k[..], kX, kY, p) else old(out[p])
  {
    var halfX := kX / 2;
    // Skip the stride's columns left of the first interior column.
    var first := id;
    while first < halfX
      invariant InStride(first, id, numThreads)
      invariant forall c: nat | InStride(c, id, numThreads) && c < first :: c < halfX
      invariant unchanged(out)
    {
      forall c: nat | InStride(c, id, numThreads) && c < first + numThreads
        ensures c < halfX
      {
        if c > first {
          StrideGap(first, c, id, numThreads);
        }
      }
      StrideNext(first, id, numThreads);
      first := first + numThreads;
    }
    var weight := KernelWeight(k, kX * kY);
    var i := first;
    while i < inX - halfX
      invariant halfX <= i && InStride(i, id, numThreads)
      invariant forall p | 0 <= p < out.Length ::
        out[p] == if CentredWrites(inX, inY, kX, kY, id, numThreads, p) && Col(inX, p) < i
                  then CentredOut(input[..], inX, k[..], kX, kY, p) else old(out[p])
    {
      CentredColumn(input, inX, inY, k, kX, kY, weight, out, i);
      forall c: nat | InStride(c, id, numThreads) && i < c
        ensures i + numThreads <= c
      {
        StrideGap(i, c, id, numThreads);
      }
      StrideNext(i, id, numThreads);
      i := i + numThreads;
    }
    forall p | 0 <= p < out.Length && CentredWrites(inX, inY, kX, kY, id, numThreads, p)
      ensures first <= Col(inX, p) < i
    {
      assert InStride(Col(inX, p), id, numThreads);
    }
  }

  /** The inner loop of `conv2d_shifted_parallel` for anchor column i: anchors (i, j) for
      j in 0 .. inY-2*(kY/2)-1, each stored at (i + kX/2, j + kY/2). */
  method ShiftedColumn(input: array<int>, inX: nat, inY: nat, k: array<nat>, kX: nat, kY: nat,
                       weight: nat, out: array<int>, i: nat)
    requires input != out
    requires input.Length == inX * inY && out.Length == inX * inY && k.Length == kX * kY
    requires weight == Weight(k[..], kX * kY) && weight != 0
    requires 2 * (kY / 2) <= inY && i < inX - 2 * (kX / 2)
    modifies out
    ensures forall p | 0 <= p < out.Length ::
      out[p] == if Col(inX, p) == i + kX / 2 && kY / 2 <= Row(inX, p) < inY - kY / 2
                then ShiftedOut(input[..], inX, k[..], kX, kY, p) else old(out[p])
  {
    var halfX, halfY := kX / 2, kY / 2;
    var j := 0;
    while j < inY - 2 * halfY
      invariant j <= inY - 2 * halfY
      invariant forall p | 0 <= p < out.Length ::
        out[p] == if Col(inX, p) == i + halfX && halfY <= Row(inX, p) < j + halfY
                  then ShiftedOut(input[..], inX, k[..], kX, kY, p) else old(out[p])
    {
      var sum := ShiftedWindow(input, inX, inY, k, kX, kY, i, j);
      CellIndex(inX, inY, j + halfY, i + halfX);
      ghost var q := (j + halfY) * inX + (i + halfX);
      assert MixedDiv(sum, weight) == ShiftedOut(input[..], inX, k[..], kX, kY, q);
      forall p | 0 <= p < out.Length && p != q
        ensures !(Col(inX, p) == i + halfX && Row(inX, p) == j + halfY)
      {
        RowBound(inX, inY, p);
      }
      out[(j + halfY) * inX + (i + halfX)] := MixedDiv(sum, weight);
      j := j + 1;
    }
  }

  /** `conv2d_shifted_parallel`: for every window anchor (i, j) with i in this call's
      stride (id, id + numThreads, ...), store the window's kernel-weighted sum divided by
      the kernel weight at the window's centre (i + kX/2, j + kY/2); leave every other
      cell alone. */
  method Conv2dShiftedParallel(input: array<int>, inX: nat, inY: nat, k: array<nat>, kX: nat, kY: nat,
                               out: array<int>, id: nat, numThreads: nat)
    requires input != out
    requires input.Length == inX * inY && out.Length == inX * inY && k.Length == kX * kY
    requires 2 * (kX / 2) <= inX && 2 * (kY / 2) <= inY
    requires Weight(k[..], kX * kY) != 0
    requires numThreads > 0
    modifies out
    ensures forall p | 0 <= p < out.Length ::
      out[p] == if ShiftedWrites(inX, inY, kX, kY, id, numThreads, p)
                then ShiftedOut(input[..], inX, k[..], kX, kY, p) else old(out[p])
  {
    var halfX := kX / 2;
    var weight := KernelWeight(k, kX * kY);
    var i := id;
    while i < inX - 2 * halfX
      invariant InStride(i, id, numThreads)
      invariant forall p | 0 <= p < out.Length ::
        out[p] == if ShiftedWrites(inX, inY, kX, kY, id, numThreads, p) && Col(inX, p) - halfX < i
                  then ShiftedOut(input[..], inX, k[..], kX, kY, p) else old(out[p])
    {
      ShiftedColumn(input, inX, inY, k, kX, kY, weight, out, i);
      forall c: nat | InStride(c, id, numThreads) && i < c
        ensures i + numThreads <= c
      {
        StrideGap(i, c, id, numThreads);
      }
      StrideNext(i, id, numThreads);
      i := i + numThreads;
    }
    assert forall p | 0 <= p < out.Length && ShiftedWrites(inX, inY, kX, kY, id, numThreads, p) :: Col(inX, p) - halfX < i;
  }

  /** The inner loop of `conv2d_3x3_unrolled_parallel` for column i: rows 1..inY-2, the
      nine products written out. */
  method Unrolled3x3Column(input: array<int>, inX: nat, inY: nat, k: array<nat>,
                           weight: nat, out: array<int>, i: nat)
    requires input != out
    requires input.Length == inX * inY && out.Length == inX * inY && k.Length == 9
    requires weight == Weight(k[..], 9) && weight != 0
    requires 1 <= i < inX - 1
    modifies out
    ensures forall p | 0 <= p < out.Length ::
      out[p] == if Col(inX, p) == i && 1 <= Row(inX, p) < inY - 1
                then CentredOut(input[..], inX, k[..], 3, 3, p) else old(out[p])
  {
    var j := 1;
    while j < inY - 1
      invariant 1 <= j && (j == 1 || j <= inY - 1)
      invariant forall p | 0 <= p < out.Length ::
        out[p] == if Col(inX, p) == i && 1 <= Row(inX, p) < j
                  then CentredOut(input[..], inX, k[..], 3, 3, p) else old(out[p])
    {
      Window3x3Centred(inX, inY, i, j);
      var sum := 0;
      sum := sum + input[(j - 1) * inX + (i - 1)] * k[0];
      sum := sum + input[(j - 1) * inX + (i + 0)] * k[1];
      sum := sum + input[(j - 1) * inX + (i + 1)] * k[2];
      sum := sum + input[(j + 0) * inX + (i - 1)] * k[3];
      sum := sum + input[(j + 0) * inX + (i + 0)] * k[4];
      sum := sum + input[(j + 0) * inX + (i + 1)] * k[5];
      sum := sum + input[(j + 1) * inX + (i - 1)] * k[6];
      sum := sum + input[(j + 1) * inX + (i + 0)] * k[7];
      sum := sum + input[(j + 1) * inX + (i + 1)] * k[8];
      Unrolled3x3IsCentred(input[..], inX, k[..], i, j);
      CellIndex(inX, inY, j, i);
      ghost var q := j * inX + i;
      assert MixedDiv(sum, weight) == CentredOut(input[..], inX, k[..], 3, 3, q);
      forall p | 0 <= p < out.Length && p != q
        ensures !(Col(inX, p) == i && Row(inX, p) == j)
      {
        RowBound(inX, inY, p);
      }
      out[j * inX + i] := MixedDiv(sum, weight);
      j := j + 1;
    }
  }

  /** `conv2d_3x3_unrolled_parallel`: over the columns of this call's block (see
      `UnrolledColumns`) and rows 1..inY-2, store the nine-term sum divided by the weight
      of the nine kernel entries: what `conv2d_parallel` stores with a 3x3 kernel. */
  method Conv2d3x3UnrolledParallel(input: array<int>, inX: nat, inY: nat, k: array<nat>,
                                   out: array<int>, id: nat, numThreads: nat)
    requires input != out
    requires input.Length == inX * inY && out.Length == inX * inY && k.Length == 9
    requires 1 <= inX && 1 <= inY
    requires Weight(k[..], 9) != 0
    requires numThreads > 0
    modifies out
    ensures forall p | 0 <= p < out.Length ::
      out[p] == if Unrolled3x3Writes(inX, inY, id, numThreads, p)
                then CentredOut(input[..], inX, k[..], 3, 3, p) else old(out[p])
  {
    var weight := KernelWeight(k, 9);
    var div := inX / numThreads;
    var rem := inX % numThreads;
    var start := div * id;
    var end := div * (id + 1);
    start := start + (if id < rem then id else rem);
    end := end + (if id < rem then id else rem);
    if start < 1 {
      start := 1;
    }
    if end > inX - 1 {
      end := inX - 1;
    }
    assert (start, end) == UnrolledColumns(inX, numThreads, id);
    var i := start;
    while i < end
      invariant start <= i
      invariant forall p | 0 <= p < out.Length ::
        out[p] == if Unrolled3x3Writes(inX, inY, id, numThreads, p) && Col(inX, p) < i
                  then CentredOut(input[..], inX, k[..], 3, 3, p) else old(out[p])
    {
      Unrolled3x3Column(input, inX, inY, k, weight, out, i);
      i := i + 1;
    }
  }

  /** The inner loop of `conv2d_3x3_shifted_unrolled_parallel` for anchor column i:
      anchors (i, j) for j in 0..inY-3, each stored at (i + 1, j + 1). */
  method ShiftedUnrolled3x3Column(input: array<int>, inX: nat, inY: nat, k: array<nat>,
                                  weight: nat, out: array<int>, i: nat)
    requires input != out
    requires input.Length == inX * inY && out.Length == inX * inY && k.Length == 9
    requires weight == Weight(k[..], 9) && weight != 0
    requires 2 <= inY && i < inX - 2
    modifies out
    ensures forall p | 0 <= p < out.Length ::
      out[p] == if Col(inX, p) == i + 1 && 1 <= Row(inX, p) < inY - 1
                then ShiftedOut(input[..], inX, k[..], 3, 3, p) else old(out[p])
  {
    var j := 0;
    while j < inY - 2
      invariant j <= inY - 2
      invariant forall p | 0 <= p < out.Length ::
        out[p] == if Col(inX, p) == i + 1 && 1 <= Row(inX, p) < j + 1
                  then ShiftedOut(input[..], inX, k[..], 3, 3, p) else old(out[p])
    {
      Window3x3Shifted(inX, inY, i, j);
      var sum := 0;
      sum := sum + input[(j + 0) * inX + (i + 0)] * k[0];
      sum := sum + input[(j + 0) * inX + (i + 1)] * k[1];
      sum := sum + input[(j + 0) * inX + (i + 2)] * k[2];
      sum := sum + input[(j + 1) * inX + (i + 0)] * k[3];
      sum := sum + input[(j + 1) * inX + (i + 1)] * k[4];
      sum := sum + input[(j + 1) * inX + (i + 2)] * k[5];
      sum := sum + input[(j + 2) * inX + (i + 0)] * k[6];
      sum := sum + input[(j + 2) * inX + (i + 1)] * k[7];
      sum := sum + input[(j + 2) * inX + (i + 2)] * k[8];
      Unrolled3x3IsShifted(input[..], inX, k[..], i, j);
      CellIndex(inX, inY, j + 1, i + 1);
      ghost var q := (j + 1) * inX + (i + 1);
      assert MixedDiv(sum, weight) == ShiftedOut(input[..], inX, k[..], 3, 3, q);
      forall p | 0 <= p < out.Length && p != q
        ensures !(Col(inX, p) == i + 1 && Row(inX, p) == j + 1)
      {
        RowBound(inX, inY, p);
      }
      out[(j + 1) * inX + (i + 1)] := MixedDiv(sum, weight);
      j := j + 1;
    }
  }

  /** `conv2d_3x3_shifted_unrolled_parallel`: for window anchors (i, j) with i in this
      call's stride, store the nine-term sum divided by the weight at (i + 1, j + 1):
      what `conv2d_shifted_parallel` stores with a 3x3 kernel. */
  method Conv2d3x3ShiftedUnrolledParallel(input: array<int>, inX: nat, inY: nat, k: array<nat>,
                                          out: array<int>, id: nat, numThreads: nat)
    requires input != out
    requires input.Length == inX * inY && out.Length == inX * inY && k.Length == 9
    requires 2 <= inX && 2 <= inY
    requires Weight(k[..], 9) != 0
    requires numThreads > 0
    modifies out
    ensures forall p | 0 <= p < out.Length ::
      out[p] == if ShiftedWrites(inX, inY, 3, 3, id, numThreads, p)
                then ShiftedOut(input[..], inX, k[..], 3, 3, p) else old(out[p])
  {
    var weight := KernelWeight(k, 9);
    var i := id;
    while i < inX - 2
      invariant InStride(i, id, numThreads)
      invariant forall p | 0 <= p < out.Length ::
        out[p] == if ShiftedWrites(inX, inY, 3, 3, id, numThreads, p) && Col(inX, p) - 1 < i
                  then ShiftedOut(input[..], inX, k[..], 3, 3, p) else old(out[p])
    {
      ShiftedUnrolled3x3Column(input, inX, inY, k, weight, out, i);
      forall c: nat | InStride(c, id, numThreads) && i < c
        ensures i + numThreads <= c
      {
        StrideGap(i, c, id, numThreads);
      }
      StrideNext(i, id, numThreads);
      i := i + numThreads;
    }
  }

  // ---------------------------------------------------------------------------
  // All calls together: which cells the calls of ids 0..numThreads-1 write.
  // ---------------------------------------------------------------------------

  /** The `conv2d_parallel` calls of ids 0..numThreads-1 write exactly the interior
      cells, each cell from exactly one call. */
  lemma CentredCallsPartitionInterior(inX: nat, inY: nat, kX: nat, kY: nat, nt: nat, p: nat)
    requires nt > 0
    ensures Interior(inX, inY, kX, kY, p) <==> exists id: nat :: id < nt && CentredWrites(inX, inY, kX, kY, id, nt, p)
    ensures forall a: nat, b: nat | a < nt && b < nt && CentredWrites(inX, inY, kX, kY, a, nt, p)
                                    && CentredWrites(inX, inY, kX, kY, b, nt, p) :: a == b
  {
    var c := Col(inX, p);
    StridePartition(c, nt);
    if Interior(inX, inY, kX, kY, p) {
      assert CentredWrites(inX, inY, kX, kY, c % nt, nt, p);
    }
  }

  /** The `conv2d_shifted_parallel` calls of ids 0..numThreads-1 write exactly the same
      cells as the `conv2d_parallel` calls: the interior cells, each from exactly one call. */
  lemma ShiftedCallsPartitionInterior(inX: nat, inY: nat, kX: nat, kY: nat, nt: nat, p: nat)
    requires nt > 0
    ensures Interior(inX, inY, kX, kY, p) <==> exists id: nat :: id < nt && ShiftedWrites(inX, inY, kX, kY, id, nt, p)
    ensures forall a: nat, b: nat | a < nt && b < nt && ShiftedWrites(inX, inY, kX, kY, a, nt, p)
                                    && ShiftedWrites(inX, inY, kX, kY, b, nt, p) :: a == b
  {
    if Interior(inX, inY, kX, kY, p) {
      var c: nat := Col(inX, p) - kX / 2;
      StridePartition(c, nt);
      assert ShiftedWrites(inX, inY, kX, kY, c % nt, nt, p);
    }
  }

  /** The `conv2d_3x3_unrolled_parallel` calls of distinct ids never write the same cell,
      and when numThreads divides inX the calls of ids 0..numThreads-1 write every
      interior cell. */
  lemma Unrolled3x3CallsPartitionWhenDivisible(inX: nat, inY: nat, nt: nat, p: nat)
    requires nt > 0
    ensures forall a: nat, b: nat | Unrolled3x3Writes(inX, inY, a, nt, p) && Unrolled3x3Writes(inX, inY, b, nt, p) :: a == b
    ensures inX % nt == 0 && Interior(inX, inY, 3, 3, p) ==>
              exists id: nat :: id < nt && Unrolled3x3Writes(inX, inY, id, nt, p)
  {
    var c := Col(inX, p);
    forall a: nat, b: nat | Unrolled3x3Writes(inX, inY, a, nt, p) && Unrolled3x3Writes(inX, inY, b, nt, p)
      ensures a == b
    {
      if a != b {
        UnrolledColumnsDisjoint(inX, nt, a, b);
      }
    }
    if inX % nt == 0 && Interior(inX, inY, 3, 3, p) {
      UnrolledColumnsCoverWhenDivisible(inX, nt, c);
      var id: nat :| id < nt && UnrolledCovers(inX, nt, id, c);
      assert Unrolled3x3Writes(inX, inY, id, nt, p);
    }
  }
}
