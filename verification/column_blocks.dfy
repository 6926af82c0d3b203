/** The block partition of columns that `conv2d_3x3_unrolled_parallel` gives each call:
    `inX` columns are cut into `numThreads` blocks of `inX / numThreads` columns, the
    first `inX % numThreads` blocks being meant to take one extra column, and each
    block is then clamped to the interior columns [1, inX - 1). */
module ColumnBlocks {

  import Grid

  /** `id < rem ? id : rem` */
  function Min(a: int, b: int): int
  {
    if a < b then a else b
  }

  /** First column of block `id` before clamping: `div * id + min(id, rem)`. */
  function BlockStart(inX: nat, nt: nat, id: nat): int
    requires nt > 0
  {
    (inX / nt) * id + Min(id, inX % nt)
  }

  /** The column range [start, end) a call iterates, as the code computes it: the end is
      `div * (id + 1) + min(id, rem)`, then start is raised to 1 and end lowered to inX - 1. */
  function UnrolledColumns(inX: nat, nt: nat, id: nat): (r: (int, int))
    requires nt > 0
    ensures 1 <= r.0 && r.1 <= inX - 1
  {
    var start := BlockStart(inX, nt, id);
    var end := (inX / nt) * (id + 1) + Min(id, inX % nt);
    (if start < 1 then 1 else start, if end > inX - 1 then inX - 1 else end)
  }

  /** Column `c` is in the range of call `id`. */
  predicate UnrolledCovers(inX: nat, nt: nat, id: nat, c: int)
    requires nt > 0
  {
    UnrolledColumns(inX, nt, id).0 <= c < UnrolledColumns(inX, nt, id).1
  }

  /** Later blocks start no earlier than earlier blocks end. */
  lemma BlockStartMonotone(inX: nat, nt: nat, a: nat, b: nat)
    requires nt > 0 && a <= b
    ensures BlockStart(inX, nt, a) <= BlockStart(inX, nt, b)
  {
    Grid.MulMono(a, b, inX / nt);
  }

  /** Ranges of distinct calls share no column. */
  lemma UnrolledColumnsDisjoint(inX: nat, nt: nat, a: nat, b: nat)
    requires nt > 0 && a != b
    ensures forall c :: UnrolledCovers(inX, nt, a, c) ==> !UnrolledCovers(inX, nt, b, c)
  {
    var lo, hi := if a < b then a else b, if a < b then b else a;
    BlockStartMonotone(inX, nt, lo + 1, hi);
    Grid.MulMono(lo + 1, hi, inX / nt);
    assert UnrolledColumns(inX, nt, lo).1 <= UnrolledColumns(inX, nt, hi).0;
  }

  /** When numThreads divides inX, the ranges of ids 0..numThreads-1 together cover every
      interior column 1..inX-2. */
  lemma UnrolledColumnsCoverWhenDivisible(inX: nat, nt: nat, c: int)
    requires nt > 0 && inX % nt == 0 && 1 <= c < inX - 1
    ensures exists id: nat :: id < nt && UnrolledCovers(inX, nt, id, c)
  {
    BalancedColumnsPartition(inX, nt, c);
    var id: nat :| id < nt && BalancedCovers(inX, nt, id, c);
    assert UnrolledCovers(inX, nt, id, c);
  }

  /** With a remainder, the code skips a column after every block id < rem: the column
      div * (id + 1) + id lies between block id and block id + 1, and no call covers it. */
  lemma UnrolledColumnsSkip(inX: nat, nt: nat, id: nat, g: int)
    requires nt > 0 && id < inX % nt && g == (inX / nt) * (id + 1) + id
    ensures forall other: nat :: !UnrolledCovers(inX, nt, other, g)
  {
    var div, rem := inX / nt, inX % nt;
    forall other: nat
      ensures !UnrolledCovers(inX, nt, other, g)
    {
      if other <= id {
        Grid.MulMono(other + 1, id + 1, div);
      } else {
        BlockStartMonotone(inX, nt, id + 1, other);
      }
    }
  }

  /** A concrete instance: a 5-column image split over 2 calls. The interior columns are
      1, 2 and 3; call 0 covers [1, 2), call 1 covers [3, 4), and column 2 is never written. */
  lemma UnrolledColumnsSkipExample()
    ensures UnrolledColumns(5, 2, 0) == (1, 2) && UnrolledColumns(5, 2, 1) == (3, 4)
    ensures forall other: nat :: !UnrolledCovers(5, 2, other, 2)
  {
    UnrolledColumnsSkip(5, 2, 0, 2);
  }

  // ---------------------------------------------------------------------------
  // The evidently intended partition: block id ends where block id + 1 starts.
  // ---------------------------------------------------------------------------

  /** The column range of call `id` with the end `div * (id + 1) + min(id + 1, rem)`,
      clamped like the code clamps it. */
  function BalancedColumns(inX: nat, nt: nat, id: nat): (r: (int, int))
    requires nt > 0
    ensures 1 <= r.0 && r.1 <= inX - 1
  {
    var start := BlockStart(inX, nt, id);
    var end := BlockStart(inX, nt, id + 1);
    (if start < 1 then 1 else start, if end > inX - 1 then inX - 1 else end)
  }

  predicate BalancedCovers(inX: nat, nt: nat, id: nat, c: int)
    requires nt > 0
  {
    BalancedColumns(inX, nt, id).0 <= c < BalancedColumns(inX, nt, id).1
  }

  /** Every column below the end of block t lies in one of the blocks 0..t. */
  lemma {:induction false} BlocksPrefix(inX: nat, nt: nat, t: nat, c: int)
    requires nt > 0 && 0 <= c < BlockStart(inX, nt, t + 1)
    ensures exists id: nat :: id <= t && BlockStart(inX, nt, id) <= c < BlockStart(inX, nt, id + 1)
  {
    if t > 0 && c < BlockStart(inX, nt, t) {
      BlocksPrefix(inX, nt, t - 1, c);
      var id: nat :| id <= t - 1 && BlockStart(inX, nt, id) <= c < BlockStart(inX, nt, id + 1);
      assert id <= t;
    } else {
      assert BlockStart(inX, nt, 0) == 0;
      assert BlockStart(inX, nt, t) <= c < BlockStart(inX, nt, t + 1);
    }
  }

  /** With the intended end, the ranges of ids 0..numThreads-1 partition the interior
      columns: each column 1..inX-2 is covered by exactly one call. */
  lemma BalancedColumnsPartition(inX: nat, nt: nat, c: int)
    requires nt > 0 && 1 <= c < inX - 1
    ensures exists id: nat :: id < nt && BalancedCovers(inX, nt, id, c)
    ensures forall a: nat, b: nat | BalancedCovers(inX, nt, a, c) && BalancedCovers(inX, nt, b, c) :: a == b
  {
    var div, rem := inX / nt, inX % nt;
    assert inX == div * nt + rem;
    assert BlockStart(inX, nt, nt) == inX;
    BlocksPrefix(inX, nt, nt - 1, c);
    var id: nat :| id <= nt - 1 && BlockStart(inX, nt, id) <= c < BlockStart(inX, nt, id + 1);
    assert BalancedCovers(inX, nt, id, c);
    forall a: nat, b: nat | BalancedCovers(inX, nt, a, c) && BalancedCovers(inX, nt, b, c)
      ensures a == b
    {
      if a < b {
        BlockStartMonotone(inX, nt, a + 1, b);
      } else if b < a {
        BlockStartMonotone(inX, nt, b + 1, a);
      }
    }
  }
}
