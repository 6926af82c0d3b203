/** The test helpers of the convolution application: filling an image with a test
    pattern, zeroing it, and checking (and clearing) the interior of a convolved image.
    Like the kernels, each call is sequential and `id` / `numThreads` only select the
    rows or columns (a stride class) it handles. */
module ImageHelpers {

  import opened Grid
  import opened CInt
  import opened ConvSpec

  /** What a fill call stores: the test ramp of `init_conv2d_image` or the zero of
      `zero_conv2d_image`. */
  datatype Pattern = Ramp | Zero

  /** The value a fill call stores at row `r`, column `c`. */
  function Paint(pat: Pattern, r: nat, c: nat): (v: int)
    ensures pat == Zero ==> v == 0
    ensures 0 <= v <= 18
  {
    match pat
    case Ramp => (r % 16) + (c % 4)
    case Zero => 0
  }

  /** The cells one fill call handles: the rows of its stride when the image is taller
      than wide, the columns of its stride otherwise. */
  predicate Touches(imgX: nat, imgY: nat, id: nat, nt: nat, p: nat)
    requires nt > 0
  {
    if imgY > imgX then InStride(Row(imgX, p), id, nt) else InStride(Col(imgX, p), id, nt)
  }

  /** The image after one fill call on image `s`. */
  function PaintCall(s: seq<int>, imgX: nat, imgY: nat, id: nat, nt: nat, pat: Pattern): (r: seq<int>)
    requires nt > 0
    ensures |r| == |s|
  {
    seq(|s|, p requires 0 <= p < |s| =>
      if Touches(imgX, imgY, id, nt, p) then Paint(pat, Row(imgX, p), Col(imgX, p)) else s[p])
  }

  /** The image after fill calls with the ids of `ids`, in that order. */
  function PaintCalls(s: seq<int>, imgX: nat, imgY: nat, nt: nat, ids: seq<nat>, pat: Pattern): (r: seq<int>)
    requires nt > 0
    ensures |r| == |s|
  {
    if ids == [] then s
    else PaintCall(PaintCalls(s, imgX, imgY, nt, ids[..|ids| - 1], pat), imgX, imgY, ids[|ids| - 1], nt, pat)
  }

  /** Rows id, id + nt, ...: every cell of those rows gets the pattern. */
  method PaintRows(img: array<int>, imgX: nat, imgY: nat, id: nat, nt: nat, pat: Pattern)
    requires img.Length == imgX * imgY && nt > 0
    modifies img
    ensures forall p | 0 <= p < img.Length ::
      img[p] == if InStride(Row(imgX, p), id, nt) then Paint(pat, Row(imgX, p), Col(imgX, p)) else old(img[p])
  {
    var i := id;
    while i < imgY
      invariant InStride(i, id, nt)
      invariant forall p | 0 <= p < img.Length ::
        img[p] == if InStride(Row(imgX, p), id, nt) && Row(imgX, p) < i
                  then Paint(pat, Row(imgX, p), Col(imgX, p)) else old(img[p])
    {
      for j := 0 to imgX
        invariant forall p | 0 <= p < img.Length ::
          img[p] == if InStride(Row(imgX, p), id, nt) && (Row(imgX, p) < i || (Row(imgX, p) == i && Col(imgX, p) < j))
                    then Paint(pat, Row(imgX, p), Col(imgX, p)) else old(img[p])
      {
        CellIndex(imgX, imgY, i, j);
        ghost var q := i * imgX + j;
        img[i * imgX + j] := Paint(pat, i, j);
        forall p | 0 <= p < img.Length && p != q
          ensures !(Row(imgX, p) == i && Col(imgX, p) == j)
        {
          RowBound(imgX, imgY, p);
        }
      }
      forall r: nat | InStride(r, id, nt) && i < r
        ensures i + nt <= r
      {
        StrideGap(i, r, id, nt);
      }
      StrideNext(i, id, nt);
      i := i + nt;
    }
    forall p | 0 <= p < img.Length
      ensures Row(imgX, p) < i
    {
      RowBound(imgX, imgY, p);
    }
  }

  /** Columns id, id + nt, ...: every cell of those columns gets the pattern. */
  method PaintColumns(img: array<int>, imgX: nat, imgY: nat, id: nat, nt: nat, pat: Pattern)
    requires img.Length == imgX * imgY && nt > 0
    modifies img
    ensures forall p | 0 <= p < img.Length ::
      img[p] == if InStride(Col(imgX, p), id, nt) then Paint(pat, Row(imgX, p), Col(imgX, p)) else old(img[p])
  {
    var j := id;
    while j < imgX
      invariant InStride(j, id, nt)
      invariant forall p | 0 <= p < img.Length ::
        img[p] == if InStride(Col(imgX, p), id, nt) && Col(imgX, p) < j
                  then Paint(pat, Row(imgX, p), Col(imgX, p)) else old(img[p])
    {
      for i := 0 to imgY
        invariant forall p | 0 <= p < img.Length ::
          img[p] == if InStride(Col(imgX, p), id, nt) && (Col(imgX, p) < j || (Col(imgX, p) == j && Row(imgX, p) < i))
                    then Paint(pat, Row(imgX, p), Col(imgX, p)) else old(img[p])
      {
        CellIndex(imgX, imgY, i, j);
        ghost var q := i * imgX + j;
        img[i * imgX + j] := Paint(pat, i, j);
        forall p | 0 <= p < img.Length && p != q
          ensures !(Row(imgX, p) == i && Col(imgX, p) == j)
        {
          RowBound(imgX, imgY, p);
        }
      }
      forall p | 0 <= p < img.Length && Col(imgX, p) == j
        ensures Row(imgX, p) < imgY
      {
        RowBound(imgX, imgY, p);
      }
      forall c: nat | InStride(c, id, nt) && j < c
        ensures j + nt <= c
      {
        StrideGap(j, c, id, nt);
      }
      StrideNext(j, id, nt);
      j := j + nt;
    }
  }

  /** `init_conv2d_image`: one call writes the ramp (r % 16) + (c % 4) into the rows of its
      stride when the image is taller than wide, into the columns of its stride otherwise. */
  method InitConv2dImage(img: array<int>, imgX: nat, imgY: nat, id: nat, numThreads: nat)
    requires img.Length == imgX * imgY && numThreads > 0
    modifies img
    ensures img[..] == PaintCall(old(img[..]), imgX, imgY, id, numThreads, Ramp)
  {
    if imgY > imgX {
      PaintRows(img, imgX, imgY, id, numThreads, Ramp);
    } else {
      PaintColumns(img, imgX, imgY, id, numThreads, Ramp);
    }
  }

  /** `zero_conv2d_image`: the same split as `init_conv2d_image`, storing 0. */
  method ZeroConv2dImage(img: array<int>, imgX: nat, imgY: nat, id: nat, numThreads: nat)
    requires img.Length == imgX * imgY && numThreads > 0
    modifies img
    ensures img[..] == PaintCall(old(img[..]), imgX, imgY, id, numThreads, Zero)
  {
    if imgY > imgX {
      PaintRows(img, imgX, imgY, id, numThreads, Zero);
    } else {
      PaintColumns(img, imgX, imgY, id, numThreads, Zero);
    }
  }

  /** After any sequence of fill calls, a cell holds the pattern when one of the calls
      handles it and its original value otherwise. */
  lemma {:induction false} PaintCallsCell(s: seq<int>, imgX: nat, imgY: nat, nt: nat, ids: seq<nat>, pat: Pattern, p: nat)
    requires nt > 0 && p < |s|
    ensures PaintCalls(s, imgX, imgY, nt, ids, pat)[p]
         == if exists id :: id in ids && Touches(imgX, imgY, id, nt, p) then Paint(pat, Row(imgX, p), Col(imgX, p)) else s[p]
  {
    if ids != [] {
      var front := ids[..|ids| - 1];
      PaintCallsCell(s, imgX, imgY, nt, front, pat, p);
      assert forall id :: id in ids <==> id in front || id == ids[|ids| - 1];
    }
  }

  /** Each cell is handled by exactly one of the calls with ids 0..numThreads-1. */
  lemma PaintCallsPartition(imgX: nat, imgY: nat, nt: nat, p: nat)
    requires nt > 0
    ensures Touches(imgX, imgY, if imgY > imgX then Row(imgX, p) % nt else Col(imgX, p) % nt, nt, p)
    ensures forall a: nat, b: nat | a < nt && b < nt && Touches(imgX, imgY, a, nt, p) && Touches(imgX, imgY, b, nt, p) :: a == b
  {
    StridePartition(Row(imgX, p), nt);
    StridePartition(Col(imgX, p), nt);
  }

  /** Calls with every id 0..numThreads-1, in any order (repeats allowed), fill the whole
      image with the pattern, whatever it held before. */
  lemma PaintCallsFillImage(s: seq<int>, imgX: nat, imgY: nat, nt: nat, ids: seq<nat>, pat: Pattern)
    requires nt > 0
    requires forall id: nat | id < nt :: id in ids
    ensures forall p | 0 <= p < |s| :: PaintCalls(s, imgX, imgY, nt, ids, pat)[p] == Paint(pat, Row(imgX, p), Col(imgX, p))
  {
    forall p | 0 <= p < |s|
      ensures PaintCalls(s, imgX, imgY, nt, ids, pat)[p] == Paint(pat, Row(imgX, p), Col(imgX, p))
    {
      PaintCallsPartition(imgX, imgY, nt, p);
      var id: nat := if imgY > imgX then Row(imgX, p) % nt else Col(imgX, p) % nt;
      assert id in ids && Touches(imgX, imgY, id, nt, p);
      PaintCallsCell(s, imgX, imgY, nt, ids, pat, p);
    }
  }

  // ---------------------------------------------------------------------------
  // verify_conv2d_image
  // ---------------------------------------------------------------------------

  /** The value the check expects at row `r`: r % 16, except 4 for a row that is a
      multiple of 16 and 11 for a row one below a multiple of 16. */
  function ExpectedRow(r: nat): (y: int)
    ensures 1 <= y <= 14
  {
    if r % 16 == 0 then 4 else if r % 16 == 15 then 11 else r % 16
  }

  /** The value the check expects at row `r`, column `c`: (c % 4) / 2 + 1 plus the row part. */
  function Expected(r: nat, c: nat): (e: int)
    ensures 2 <= e <= 16
  {
    ((c % 4) / 2 + 1) + ExpectedRow(r)
  }

  /** The cells one check call inspects: interior cells whose row is in the stride
      id + 1, id + 1 + numThreads, ... */
  predicate Checked(imgX: nat, imgY: nat, id: nat, nt: nat, p: nat)
    requires nt > 0
  {
    && 1 <= Row(imgX, p) < imgY - 1
    && InStride(Row(imgX, p), id + 1, nt)
    && 1 <= Col(imgX, p) < imgX - 1
  }

  /** A checked cell holding something other than the expected value. */
  predicate Mismatch(s: seq<int>, imgX: nat, imgY: nat, id: nat, nt: nat, p: nat)
    requires nt > 0
  {
    p < |s| && Checked(imgX, imgY, id, nt, p) && s[p] != Expected(Row(imgX, p), Col(imgX, p))
  }

  /** The smallest mismatching index at or after `from`, or 0 when there is none. */
  function FirstMismatch(s: seq<int>, imgX: nat, imgY: nat, id: nat, nt: nat, from: nat): (r: nat)
    requires nt > 0
    ensures r == 0 ==> forall p | from <= p < |s| :: !Mismatch(s, imgX, imgY, id, nt, p)
    ensures r != 0 ==> from <= r && Mismatch(s, imgX, imgY, id, nt, r)
                       && forall p | from <= p < r :: !Mismatch(s, imgX, imgY, id, nt, p)
    decreases |s| - from
  {
    if from >= |s| then 0
    else if Mismatch(s, imgX, imgY, id, nt, from) then from
    else FirstMismatch(s, imgX, imgY, id, nt, from + 1)
  }

  /** The image after a check call that returned `r`: every checked cell before index `r`
      (every checked cell when `r` is 0) is zeroed; all other cells keep their values, in
      particular every unchecked cell and the mismatching cell `r` itself. */
  function Cleared(s: seq<int>, imgX: nat, imgY: nat, id: nat, nt: nat, r: nat): (t: seq<int>)
    requires nt > 0
    ensures |t| == |s|
    ensures forall p | 0 <= p < |s| && !Checked(imgX, imgY, id, nt, p) :: t[p] == s[p]
    ensures r != 0 && r < |s| ==> t[r] == s[r]
  {
    seq(|s|, p requires 0 <= p < |s| =>
      if Checked(imgX, imgY, id, nt, p) && (r == 0 || p < r) then 0 else s[p])
  }

  /** No checked cell is index 0: a check's result 0 can only mean "no mismatch". */
  lemma CheckedIsNotFirst(imgX: nat, imgY: nat, id: nat, nt: nat, p: nat)
    requires nt > 0 && Checked(imgX, imgY, id, nt, p)
    ensures p >= imgX + 1
  {
    assert imgX > 0;
    assert p == Row(imgX, p) * imgX + Col(imgX, p);
    MulMono(1, Row(imgX, p), imgX);
  }

  /** The check call's result is 0 exactly when every cell it inspects holds the expected
      value; otherwise it is the index of a mismatching cell, and no smaller index
      mismatches. */
  lemma FirstMismatchMeaning(s: seq<int>, imgX: nat, imgY: nat, id: nat, nt: nat)
    requires nt > 0
    ensures FirstMismatch(s, imgX, imgY, id, nt, 0) == 0 <==>
            forall p | 0 <= p < |s| && Checked(imgX, imgY, id, nt, p) :: s[p] == Expected(Row(imgX, p), Col(imgX, p))
    ensures FirstMismatch(s, imgX, imgY, id, nt, 0) != 0 ==>
            FirstMismatch(s, imgX, imgY, id, nt, 0) >= imgX + 1
  {
    var r := FirstMismatch(s, imgX, imgY, id, nt, 0);
    if r == 0 {
      forall p | 0 <= p < |s| && Checked(imgX, imgY, id, nt, p)
        ensures s[p] == Expected(Row(imgX, p), Col(imgX, p))
      {
        assert !Mismatch(s, imgX, imgY, id, nt, p);
      }
    } else {
      CheckedIsNotFirst(imgX, imgY, id, nt, r);
    }
  }

  /** The inner loop of `verify_conv2d_image` over row `i` (expected row part `y`): walks
      the interior columns left to right, zeroing each cell holding its expected value, and
      stops at the first that does not, returning its index; returns 0 when the whole row
      matches. */
  method CheckRow(img: array<int>, imgX: nat, imgY: nat, id: nat, numThreads: nat, i: nat, y: int)
    returns (r: int)
    requires img.Length == imgX * imgY && numThreads > 0
    requires 1 <= i < imgY - 1 && InStride(i, id + 1, numThreads) && y == ExpectedRow(i)
    modifies img
    ensures r != 0 ==> 0 <= r < img.Length && Row(imgX, r) == i
                       && Checked(imgX, imgY, id, numThreads, r)
                       && old(img[r]) != Expected(i, Col(imgX, r))
    ensures forall p | 0 <= p < img.Length && Checked(imgX, imgY, id, numThreads, p) && Row(imgX, p) == i
                       && (r == 0 || Col(imgX, p) < Col(imgX, r)) ::
              old(img[p]) == Expected(i, Col(imgX, p))
    ensures forall p | 0 <= p < img.Length ::
              img[p] == if Checked(imgX, imgY, id, numThreads, p) && Row(imgX, p) == i
                           && (r == 0 || Col(imgX, p) < Col(imgX, r)) then 0 else old(img[p])
  {
    var j := 1;
    while j < imgX - 1
      invariant 1 <= j
      invariant forall p | 0 <= p < img.Length && Checked(imgX, imgY, id, numThreads, p)
                           && Row(imgX, p) == i && Col(imgX, p) < j ::
        old(img[p]) == Expected(i, Col(imgX, p))
      invariant forall p | 0 <= p < img.Length ::
        img[p] == if Checked(imgX, imgY, id, numThreads, p) && Row(imgX, p) == i && Col(imgX, p) < j
                  then 0 else old(img[p])
    {
      var x := ((j % 4) / 2) + 1;
      CellIndex(imgX, imgY, i, j);
      ghost var q := i * imgX + j;
      assert Checked(imgX, imgY, id, numThreads, q);
      if img[i * imgX + j] != x + y {
        r := if i + j == 0 then -1 else i * imgX + j;
        return;
      }
      forall p | 0 <= p < img.Length && p != q
        ensures !(Row(imgX, p) == i && Col(imgX, p) == j)
      {
        RowBound(imgX, imgY, p);
      }
      img[i * imgX + j] := 0;
      j := j + 1;
    }
    r := 0;
  }

  /** `verify_conv2d_image`: scans the rows of its stride from row id + 1, interior columns
      left to right; returns the index of the first cell not holding the expected value, or
      0 when all match; every cell it found correct before stopping is zeroed. */
  method VerifyConv2dImage(img: array<int>, imgX: nat, imgY: nat, id: nat, numThreads: nat) returns (r: int)
    requires img.Length == imgX * imgY && 1 <= imgX && 1 <= imgY && numThreads > 0
    modifies img
    ensures r == FirstMismatch(old(img[..]), imgX, imgY, id, numThreads, 0)
    ensures img[..] == Cleared(old(img[..]), imgX, imgY, id, numThreads, r)
  {
    ghost var s := img[..];
    ghost var first := id + 1;
    var i := id + 1;
    while i < imgY - 1
      invariant InStride(i, id + 1, numThreads)
      invariant forall p | 0 <= p < img.Length && Checked(imgX, imgY, id, numThreads, p) && Row(imgX, p) < i ::
        s[p] == Expected(Row(imgX, p), Col(imgX, p))
      invariant forall p | 0 <= p < img.Length ::
        img[p] == if Checked(imgX, imgY, id, numThreads, p) && Row(imgX, p) < i then 0 else s[p]
    {
      var y := i % 16;
      if i % 16 == 0 {
        y := 4;
      }
      if i % 16 == 15 {
        y := 11;
      }
      r := CheckRow(img, imgX, imgY, id, numThreads, i, y);
      if r != 0 {
        var q: nat := r;
        forall p | 0 <= p < img.Length && Checked(imgX, imgY, id, numThreads, p)
          ensures p < q <==> (Row(imgX, p) < i || (Row(imgX, p) == i && Col(imgX, p) < Col(imgX, q)))
        {
          FlatOrder(imgX, p, q);
        }
        FirstMismatchIs(s, imgX, imgY, id, numThreads, q);
        return;
      }
      forall t: nat | InStride(t, first, numThreads) && i < t
        ensures i + numThreads <= t
      {
        StrideGap(i, t, first, numThreads);
      }
      StrideNext(i, first, numThreads);
      i := i + numThreads;
    }
    r := 0;
    assert FirstMismatch(s, imgX, imgY, id, numThreads, 0) == 0;
  }

  /** A mismatch with no mismatch before it is the first mismatch. */
  lemma FirstMismatchIs(s: seq<int>, imgX: nat, imgY: nat, id: nat, nt: nat, q: nat)
    requires nt > 0 && q > 0 && Mismatch(s, imgX, imgY, id, nt, q)
    requires forall p | 0 <= p < q :: !Mismatch(s, imgX, imgY, id, nt, p)
    ensures FirstMismatch(s, imgX, imgY, id, nt, 0) == q
  {
  }

  /** Each interior row 1..imgY-2 is inspected by exactly one of the check calls with
      ids 0..numThreads-1: the call with id (row - 1) % numThreads. */
  lemma CheckCallsPartitionInterior(imgX: nat, imgY: nat, nt: nat, p: nat)
    requires nt > 0
    ensures (1 <= Row(imgX, p) < imgY - 1 && 1 <= Col(imgX, p) < imgX - 1) <==>
            exists id: nat :: id < nt && Checked(imgX, imgY, id, nt, p)
    ensures forall a: nat, b: nat | a < nt && b < nt && Checked(imgX, imgY, a, nt, p) && Checked(imgX, imgY, b, nt, p) :: a == b
  {
    var r := Row(imgX, p);
    if 1 <= r {
      StridePartition(r - 1, nt);
      if 1 <= r < imgY - 1 && 1 <= Col(imgX, p) < imgX - 1 {
        assert Checked(imgX, imgY, (r - 1) % nt, nt, p);
      }
      forall a: nat | a < nt && Checked(imgX, imgY, a, nt, p)
        ensures a == (r - 1) % nt
      {
        assert InStride(r - 1, a, nt);
      }
    }
  }

  // ---------------------------------------------------------------------------
  // The expected values are the 3x3 binomial blur of the ramp. The convolution
  // header names no kernel: the binomial kernel below is a reconstruction, a kernel
  // of weight 16 under which the fill's blur yields exactly the constants of
  // verify_conv2d_image, and it is proved to do so here.
  // ---------------------------------------------------------------------------

  /** The 3x3 binomial kernel {1, 2, 1, 2, 4, 2, 1, 2, 1}, of weight 16; not stated in
      apps/common/kernel/convolution.h, reconstructed from the checked values. */
  const Binomial3x3: seq<nat> := [1, 2, 1, 2, 4, 2, 1, 2, 1]

  /** Rows r - 1, r, r + 1 of the ramp, weighted 1, 2, 1, add up to four times the row
      part the check expects (r % 16 wraps from 15 to 0, hence the values 4 and 11). */
  lemma RampRowBlur(r: nat)
    requires r >= 1
    ensures ((r - 1) % 16) + 2 * (r % 16) + ((r + 1) % 16) == 4 * ExpectedRow(r)
  {
    var q := r / 16;
    assert r == 16 * q + r % 16;
    if r % 16 == 0 {
      DivModUnique(r - 1, 16, q - 1, 15);
      DivModUnique(r + 1, 16, q, 1);
    } else if r % 16 == 15 {
      DivModUnique(r - 1, 16, q, 14);
      DivModUnique(r + 1, 16, q + 1, 0);
    } else {
      DivModUnique(r - 1, 16, q, r % 16 - 1);
      DivModUnique(r + 1, 16, q, r % 16 + 1);
    }
  }

  /** Columns c - 1, c, c + 1 of the ramp, weighted 1, 2, 1, add up to four times the
      column part the check expects. */
  lemma RampColumnBlur(c: nat)
    requires c >= 1
    ensures ((c - 1) % 4) + 2 * (c % 4) + ((c + 1) % 4) == 4 * ((c % 4) / 2 + 1)
  {
    var q := c / 4;
    assert c == 4 * q + c % 4;
    if c % 4 == 0 {
      DivModUnique(c - 1, 4, q - 1, 3);
      DivModUnique(c + 1, 4, q, 1);
    } else if c % 4 == 3 {
      DivModUnique(c - 1, 4, q, 2);
      DivModUnique(c + 1, 4, q + 1, 0);
    } else {
      DivModUnique(c - 1, 4, q, c % 4 - 1);
      DivModUnique(c + 1, 4, q, c % 4 + 1);
    }
  }

  /** Cell (r, c) of a row-major image `inX` cells wide. */
  function At(img: seq<int>, inX: nat, r: int, c: int): int
  {
    Get(img, r * inX + c)
  }

  /** An image holding the ramp at every flat index holds it at every (row, column). */
  lemma RampByCoordinates(img: seq<int>, inX: nat, inY: nat)
    requires |img| == inX * inY
    requires forall p | 0 <= p < |img| :: img[p] == Paint(Ramp, Row(inX, p), Col(inX, p))
    ensures forall r: nat, c: nat | r < inY && c < inX :: At(img, inX, r, c) == Paint(Ramp, r, c)
  {
    forall r: nat, c: nat | r < inY && c < inX
      ensures At(img, inX, r, c) == Paint(Ramp, r, c)
    {
      CellIndex(inX, inY, r, c);
    }
  }

  /** A binomial-weighted window whose nine cells each hold a row part plus a column
      part sums to four times the weighted row parts plus four times the weighted
      column parts. */
  lemma BinomialWindowSum(img: seq<int>, inX: nat, i: int, j: int, a0: int, a1: int, a2: int, b0: int, b1: int, b2: int)
    requires Get(img, (j - 1) * inX + (i - 1)) == a0 + b0
    requires Get(img, (j - 1) * inX + (i + 0)) == a0 + b1
    requires Get(img, (j - 1) * inX + (i + 1)) == a0 + b2
    requires Get(img, (j + 0) * inX + (i - 1)) == a1 + b0
    requires Get(img, (j + 0) * inX + (i + 0)) == a1 + b1
    requires Get(img, (j + 0) * inX + (i + 1)) == a1 + b2
    requires Get(img, (j + 1) * inX + (i - 1)) == a2 + b0
    requires Get(img, (j + 1) * inX + (i + 0)) == a2 + b1
    requires Get(img, (j + 1) * inX + (i + 1)) == a2 + b2
    ensures CentredConv(img, inX, Binomial3x3, 3, 3, i, j) == 4 * (a0 + 2 * a1 + a2) + 4 * (b0 + 2 * b1 + b2)
  {
    Unrolled3x3IsCentred(img, inX, Binomial3x3, i, j);
    assert Get(Binomial3x3, 0) == 1;
    assert Get(Binomial3x3, 1) == 2;
    assert Get(Binomial3x3, 2) == 1;
    assert Get(Binomial3x3, 3) == 2;
    assert Get(Binomial3x3, 4) == 4;
    assert Get(Binomial3x3, 5) == 2;
    assert Get(Binomial3x3, 6) == 1;
    assert Get(Binomial3x3, 7) == 2;
    assert Get(Binomial3x3, 8) == 1;
  }

  /** The binomial-weighted window sum of the ramp around (i, j). */
  lemma RampWindowSum(img: seq<int>, inX: nat, inY: nat, i: nat, j: nat)
    requires forall r: nat, c: nat | r < inY && c < inX :: At(img, inX, r, c) == Paint(Ramp, r, c)
    requires 1 <= i < inX - 1 && 1 <= j < inY - 1
    ensures CentredConv(img, inX, Binomial3x3, 3, 3, i, j)
         == 4 * (((j - 1) % 16) + 2 * (j % 16) + ((j + 1) % 16)) + 4 * (((i - 1) % 4) + 2 * (i % 4) + ((i + 1) % 4))
  {
    assert At(img, inX, j - 1, i - 1) == Paint(Ramp, j - 1, i - 1);
    assert At(img, inX, j - 1, i + 0) == Paint(Ramp, j - 1, i + 0);
    assert At(img, inX, j - 1, i + 1) == Paint(Ramp, j - 1, i + 1);
    assert At(img, inX, j + 0, i - 1) == Paint(Ramp, j + 0, i - 1);
    assert At(img, inX, j + 0, i + 0) == Paint(Ramp, j + 0, i + 0);
    assert At(img, inX, j + 0, i + 1) == Paint(Ramp, j + 0, i + 1);
    assert At(img, inX, j + 1, i - 1) == Paint(Ramp, j + 1, i - 1);
    assert At(img, inX, j + 1, i + 0) == Paint(Ramp, j + 1, i + 0);
    assert At(img, inX, j + 1, i + 1) == Paint(Ramp, j + 1, i + 1);
    BinomialWindowSum(img, inX, i, j, (j - 1) % 16, j % 16, (j + 1) % 16, (i - 1) % 4, i % 4, (i + 1) % 4);
  }

  /** The image `init_conv2d_image` produces, convolved by the centred kernels with the
      3x3 binomial kernel (a reconstructed kernel, not named in the source), holds at
      every interior cell exactly the value `verify_conv2d_image` expects there: the
      weighted sum is 16 times that value and the kernel weight is 16. */
  lemma BinomialBlurOfRampIsExpected(img: seq<int>, inX: nat, inY: nat, i: nat, j: nat)
    requires forall r: nat, c: nat | r < inY && c < inX :: At(img, inX, r, c) == Paint(Ramp, r, c)
    requires 1 <= i < inX - 1 && 1 <= j < inY - 1
    ensures CentredConv(img, inX, Binomial3x3, 3, 3, i, j) == 16 * Expected(j, i)
    ensures Weight(Binomial3x3, 9) == 16
    ensures MixedDiv(CentredConv(img, inX, Binomial3x3, 3, 3, i, j), Weight(Binomial3x3, 9)) == Expected(j, i)
  {
    RampWindowSum(img, inX, inY, i, j);
    RampRowBlur(j);
    RampColumnBlur(i);
    var sum := CentredConv(img, inX, Binomial3x3, 3, 3, i, j);
    assert sum == 16 * Expected(j, i);
    assert KernelSum(Binomial3x3, 9) == 16;
    MixedDivOfNonNegative(sum, 16);
    assert sum / 16 == Expected(j, i);
  }

  /** The whole test: after `init_conv2d_image` calls with every id 0..numThreads-1 on an
      image of any previous contents, the centred kernels with the reconstructed 3x3
      binomial kernel store at each interior cell the value `verify_conv2d_image` expects there. */
  lemma InitThenBlurPassesCheck(s: seq<int>, inX: nat, inY: nat, nt: nat, ids: seq<nat>, i: nat, j: nat)
    requires |s| == inX * inY && nt > 0
    requires forall id: nat | id < nt :: id in ids
    requires 1 <= i < inX - 1 && 1 <= j < inY - 1
    ensures MixedDiv(CentredConv(PaintCalls(s, inX, inY, nt, ids, Ramp), inX, Binomial3x3, 3, 3, i, j), Weight(Binomial3x3, 9))
         == Expected(j, i)
  {
    var img := PaintCalls(s, inX, inY, nt, ids, Ramp);
    PaintCallsFillImage(s, inX, inY, nt, ids, Ramp);
    RampByCoordinates(img, inX, inY);
    BinomialBlurOfRampIsExpected(img, inX, inY, i, j);
  }
}
