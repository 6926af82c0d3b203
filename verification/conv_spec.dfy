/** What the convolution kernels compute, as functions of the input image and the
    kernel: the kernel-weighted window sum in the centred indexing (offsets around the
    output cell) and in the shifted indexing (window anchored at its top-left cell),
    and the kernel weight. */
module ConvSpec {

  import opened CInt

  /** Cell `q` of a flat buffer; reads outside the buffer never happen in the kernels
      (their methods prove every index in range), so the fallback value is irrelevant. */
  function Get(s: seq<int>, q: int): int
  {
    if 0 <= q < |s| then s[q] else 0
  }

  /** Sum of the first `n` kernel entries, as an exact integer. */
  function KernelSum(k: seq<nat>, n: nat): nat
    requires n <= |k|
  {
    if n == 0 then 0 else KernelSum(k, n - 1) + k[n - 1]
  }

  /** The `uint32_t weight` the kernels accumulate from the first `n` kernel entries. */
  function Weight(k: seq<nat>, n: nat): (w: nat)
    requires n <= |k|
    ensures w < TWO_32
  {
    KernelSum(k, n) % TWO_32
  }

  // ---------------------------------------------------------------------------
  // Centred indexing: output cell (i, j), kernel offsets m in [-(kY/2), kY - kY/2),
  // n in [-(kX/2), kX - kX/2); kernel entry (m + kY/2) * kX + (n + kX/2).
  // ---------------------------------------------------------------------------

  /** Kernel row `m` of the centred sum at (i, j), over column offsets n in [-(kX/2), hi). */
  function CentredRow(img: seq<int>, inX: nat, k: seq<nat>, kX: nat, kY: nat, i: int, j: int, m: int, hi: int): int
    decreases hi + kX / 2
  {
    if hi <= -(kX / 2) then 0
    else CentredRow(img, inX, k, kX, kY, i, j, m, hi - 1)
         + Get(img, (j + m) * inX + (i + (hi - 1))) * Get(k, (m + kY / 2) * kX + ((hi - 1) + kX / 2))
  }

  /** The centred sum at (i, j) over kernel row offsets m in [-(kY/2), hi). */
  function CentredRows(img: seq<int>, inX: nat, k: seq<nat>, kX: nat, kY: nat, i: int, j: int, hi: int): int
    decreases hi + kY / 2
  {
    if hi <= -(kY / 2) then 0
    else CentredRows(img, inX, k, kX, kY, i, j, hi - 1)
         + CentredRow(img, inX, k, kX, kY, i, j, hi - 1, kX - kX / 2)
  }

  /** The kernel-weighted sum `conv2d_parallel` stores (divided by the weight) at cell (i, j). */
  function CentredConv(img: seq<int>, inX: nat, k: seq<nat>, kX: nat, kY: nat, i: int, j: int): int
  {
    CentredRows(img, inX, k, kX, kY, i, j, kY - kY / 2)
  }

  // ---------------------------------------------------------------------------
  // Shifted indexing: window anchored at (i, j), kernel offsets m in [0, kY),
  // n in [0, kX); kernel entry m * kX + n.
  // ---------------------------------------------------------------------------

  /** Kernel row `m` of the window anchored at (i, j), over column offsets n in [0, hi). */
  function ShiftedRow(img: seq<int>, inX: nat, k: seq<nat>, kX: nat, i: int, j: int, m: int, hi: nat): int
  {
    if hi == 0 then 0
    else ShiftedRow(img, inX, k, kX, i, j, m, hi - 1)
         + Get(img, (j + m) * inX + (i + (hi - 1))) * Get(k, m * kX + (hi - 1))
  }

  /** The window sum anchored at (i, j) over kernel rows m in [0, hi). */
  function ShiftedRows(img: seq<int>, inX: nat, k: seq<nat>, kX: nat, i: int, j: int, hi: nat): int
  {
    if hi == 0 then 0
    else ShiftedRows(img, inX, k, kX, i, j, hi - 1) + ShiftedRow(img, inX, k, kX, i, j, hi - 1, kX)
  }

  /** The kernel-weighted sum `conv2d_shifted_parallel` stores (divided by the weight)
      for the window anchored at (i, j). */
  function ShiftedConv(img: seq<int>, inX: nat, k: seq<nat>, kX: nat, kY: nat, i: int, j: int): int
  {
    ShiftedRows(img, inX, k, kX, i, j, kY)
  }

  // ---------------------------------------------------------------------------
  // The two indexings compute the same convolution.
  // ---------------------------------------------------------------------------

  lemma {:induction false} CentredRowIsShiftedRow(img: seq<int>, inX: nat, k: seq<nat>, kX: nat, kY: nat,
                                                  i: int, j: int, m: int, hi: int)
    requires hi >= -(kX / 2)
    ensures CentredRow(img, inX, k, kX, kY, i, j, m, hi)
         == ShiftedRow(img, inX, k, kX, i - kX / 2, j - kY / 2, m + kY / 2, hi + kX / 2)
    decreases hi + kX / 2
  {
    if hi > -(kX / 2) {
      CentredRowIsShiftedRow(img, inX, k, kX, kY, i, j, m, hi - 1);
      assert (j - kY / 2) + (m + kY / 2) == j + m;
      assert (i - kX / 2) + (hi + kX / 2 - 1) == i + (hi - 1);
      assert (m + kY / 2) * kX + (hi + kX / 2 - 1) == (m + kY / 2) * kX + ((hi - 1) + kX / 2);
    }
  }

  lemma {:induction false} CentredRowsIsShiftedRows(img: seq<int>, inX: nat, k: seq<nat>, kX: nat, kY: nat,
                                                    i: int, j: int, hi: int)
    requires hi >= -(kY / 2)
    ensures CentredRows(img, inX, k, kX, kY, i, j, hi)
         == ShiftedRows(img, inX, k, kX, i - kX / 2, j - kY / 2, hi + kY / 2)
    decreases hi + kY / 2
  {
    if hi > -(kY / 2) {
      CentredRowsIsShiftedRows(img, inX, k, kX, kY, i, j, hi - 1);
      CentredRowIsShiftedRow(img, inX, k, kX, kY, i, j, hi - 1, kX - kX / 2);
    }
  }

  /** The centred sum at output cell (i, j) is the shifted sum of the window anchored
      kX/2 columns to the left and kY/2 rows above: the centred and the shifted kernels
      store the same value at every cell they write. */
  lemma ShiftedMatchesCentred(img: seq<int>, inX: nat, k: seq<nat>, kX: nat, kY: nat, i: int, j: int)
    ensures CentredConv(img, inX, k, kX, kY, i, j) == ShiftedConv(img, inX, k, kX, kY, i - kX / 2, j - kY / 2)
  {
    CentredRowsIsShiftedRows(img, inX, k, kX, kY, i, j, kY - kY / 2);
  }

  // ---------------------------------------------------------------------------
  // The unrolled 3x3 kernels compute the general ones with kX = kY = 3.
  // ---------------------------------------------------------------------------

  /** The nine products `conv2d_3x3_unrolled_parallel` adds up at cell (i, j) are the
      centred sum of the general kernel with a 3x3 kernel. */
  lemma Unrolled3x3IsCentred(img: seq<int>, inX: nat, k: seq<nat>, i: int, j: int)
    ensures CentredConv(img, inX, k, 3, 3, i, j)
         == Get(img, (j - 1) * inX + (i - 1)) * Get(k, 0)
          + Get(img, (j - 1) * inX + (i + 0)) * Get(k, 1)
          + Get(img, (j - 1) * inX + (i + 1)) * Get(k, 2)
          + Get(img, (j + 0) * inX + (i - 1)) * Get(k, 3)
          + Get(img, (j + 0) * inX + (i + 0)) * Get(k, 4)
          + Get(img, (j + 0) * inX + (i + 1)) * Get(k, 5)
          + Get(img, (j + 1) * inX + (i - 1)) * Get(k, 6)
          + Get(img, (j + 1) * inX + (i + 0)) * Get(k, 7)
          + Get(img, (j + 1) * inX + (i + 1)) * Get(k, 8)
  {
    assert CentredRows(img, inX, k, 3, 3, i, j, -1) == 0;
    assert CentredRow(img, inX, k, 3, 3, i, j, -1, 2)
        == Get(img, (j - 1) * inX + (i - 1)) * Get(k, 0)
         + Get(img, (j - 1) * inX + (i + 0)) * Get(k, 1)
         + Get(img, (j - 1) * inX + (i + 1)) * Get(k, 2);
    assert CentredRow(img, inX, k, 3, 3, i, j, 0, 2)
        == Get(img, (j + 0) * inX + (i - 1)) * Get(k, 3)
         + Get(img, (j + 0) * inX + (i + 0)) * Get(k, 4)
         + Get(img, (j + 0) * inX + (i + 1)) * Get(k, 5);
    assert CentredRow(img, inX, k, 3, 3, i, j, 1, 2)
        == Get(img, (j + 1) * inX + (i - 1)) * Get(k, 6)
         + Get(img, (j + 1) * inX + (i + 0)) * Get(k, 7)
         + Get(img, (j + 1) * inX + (i + 1)) * Get(k, 8);
  }

  /** The nine products `conv2d_3x3_shifted_unrolled_parallel` adds up for the window
      anchored at (i, j) are the shifted sum of the general kernel with a 3x3 kernel. */
  lemma Unrolled3x3IsShifted(img: seq<int>, inX: nat, k: seq<nat>, i: int, j: int)
    ensures ShiftedConv(img, inX, k, 3, 3, i, j)
         == Get(img, (j + 0) * inX + (i + 0)) * Get(k, 0)
          + Get(img, (j + 0) * inX + (i + 1)) * Get(k, 1)
          + Get(img, (j + 0) * inX + (i + 2)) * Get(k, 2)
          + Get(img, (j + 1) * inX + (i + 0)) * Get(k, 3)
          + Get(img, (j + 1) * inX + (i + 1)) * Get(k, 4)
          + Get(img, (j + 1) * inX + (i + 2)) * Get(k, 5)
          + Get(img, (j + 2) * inX + (i + 0)) * Get(k, 6)
          + Get(img, (j + 2) * inX + (i + 1)) * Get(k, 7)
          + Get(img, (j + 2) * inX + (i + 2)) * Get(k, 8)
  {
    forall m | 0 <= m < 3
      ensures ShiftedRow(img, inX, k, 3, i, j, m, 3)
           == Get(img, (j + m) * inX + (i + 0)) * Get(k, m * 3 + 0)
            + Get(img, (j + m) * inX + (i + 1)) * Get(k, m * 3 + 1)
            + Get(img, (j + m) * inX + (i + 2)) * Get(k, m * 3 + 2)
    {
      assert ShiftedRow(img, inX, k, 3, i, j, m, 1) == Get(img, (j + m) * inX + (i + 0)) * Get(k, m * 3 + 0);
    }
    assert ShiftedRow(img, inX, k, 3, i, j, 0, 3)
        == Get(img, (j + 0) * inX + (i + 0)) * Get(k, 0)
         + Get(img, (j + 0) * inX + (i + 1)) * Get(k, 1)
         + Get(img, (j + 0) * inX + (i + 2)) * Get(k, 2);
    assert ShiftedRow(img, inX, k, 3, i, j, 1, 3)
        == Get(img, (j + 1) * inX + (i + 0)) * Get(k, 3)
         + Get(img, (j + 1) * inX + (i + 1)) * Get(k, 4)
         + Get(img, (j + 1) * inX + (i + 2)) * Get(k, 5);
    assert ShiftedRow(img, inX, k, 3, i, j, 2, 3)
        == Get(img, (j + 2) * inX + (i + 0)) * Get(k, 6)
         + Get(img, (j + 2) * inX + (i + 1)) * Get(k, 7)
         + Get(img, (j + 2) * inX + (i + 2)) * Get(k, 8);
    assert ShiftedRows(img, inX, k, 3, i, j, 1) == ShiftedRow(img, inX, k, 3, i, j, 0, 3);
    assert ShiftedRows(img, inX, k, 3, i, j, 3)
        == ShiftedRow(img, inX, k, 3, i, j, 0, 3) + ShiftedRow(img, inX, k, 3, i, j, 1, 3)
         + ShiftedRow(img, inX, k, 3, i, j, 2, 3);
  }
}
