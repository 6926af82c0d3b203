/** Row-major images stored in flat buffers, and the strided index sets that a
    call with a given `id` out of `numThreads` visits. */
module Grid {

  /** Row of flat index `p` in an image `width` cells wide (no cells when the width is 0). */
  function Row(width: nat, p: nat): nat
  {
    if width == 0 then 0 else p / width
  }

  /** Column of flat index `p` in an image `width` cells wide. */
  function Col(width: nat, p: nat): nat
  {
    if width == 0 then 0 else p % width
  }

  /** Multiplying by a non-negative factor preserves order. */
  lemma MulMono(a: int, b: int, d: nat)
    requires a <= b
    ensures a * d <= b * d
  {
    var e := b - a;
    assert b * d == a * d + e * d;
  }

  /** Euclidean quotient and remainder are unique. */
  lemma DivModUnique(a: int, d: int, q: int, m: int)
    requires d > 0 && a == q * d + m && 0 <= m < d
    ensures a / d == q && a % d == m
  {
    var q', m' := a / d, a % d;
    assert a == q' * d + m';
    if q' > q {
      MulMono(q + 1, q', d);
      assert false;
    } else if q' < q {
      MulMono(q' + 1, q, d);
      assert false;
    }
  }

  /** The flat index `r * width + c` of a cell lies inside the buffer and maps back to (r, c). */
  lemma CellIndex(width: nat, height: nat, r: nat, c: nat)
    requires r < height && c < width
    ensures r * width + c < width * height
    ensures Row(width, r * width + c) == r && Col(width, r * width + c) == c
  {
    MulMono(r + 1, height, width);
    DivModUnique(r * width + c, width, r, c);
  }

  /** Any flat index inside a `width * height` buffer is the cell (Row, Col) of the image. */
  lemma RowBound(width: nat, height: nat, p: nat)
    requires p < width * height
    ensures width > 0 && Row(width, p) < height && Col(width, p) < width
    ensures p == Row(width, p) * width + Col(width, p)
  {
    var r := p / width;
    if r >= height {
      MulMono(height, r, width);
      assert false;
    }
  }

  /** Flat indices are ordered row-major: p < q iff (row, column) is lexicographically smaller. */
  lemma FlatOrder(width: nat, p: nat, q: nat)
    requires width > 0
    ensures p < q <==> (Row(width, p) < Row(width, q) || (Row(width, p) == Row(width, q) && Col(width, p) < Col(width, q)))
  {
    var rp, cp, rq, cq := p / width, p % width, q / width, q % width;
    assert p == rp * width + cp && q == rq * width + cq;
    if rp < rq {
      MulMono(rp + 1, rq, width);
    } else if rp > rq {
      MulMono(rq + 1, rp, width);
    }
  }

  /** `x` is visited by a loop `for (x = first; ...; x += step)`. */
  predicate InStride(x: int, first: int, step: nat)
    requires step > 0
  {
    first <= x && (x - first) % step == 0
  }

  /** The loop's next index is in the stride. */
  lemma StrideNext(x: int, first: int, step: nat)
    requires step > 0 && InStride(x, first, step)
    ensures InStride(x + step, first, step)
  {
    var q := (x - first) / step;
    assert x - first == q * step;
    DivModUnique(x + step - first, step, q + 1, 0);
  }

  /** Two indices of one stride are at least one step apart. */
  lemma StrideGap(x: int, y: int, first: int, step: nat)
    requires step > 0 && InStride(x, first, step) && InStride(y, first, step) && x < y
    ensures x + step <= y
  {
    var a, b := (x - first) / step, (y - first) / step;
    assert x - first == a * step && y - first == b * step;
    if a >= b {
      MulMono(b, a, step);
      assert false;
    }
    MulMono(a + 1, b, step);
  }

  /** `x` is in the stride that starts at `x % step`. */
  lemma StrideOfRemainder(x: nat, step: nat)
    requires step > 0
    ensures InStride(x, x % step, step)
  {
    var q := x / step;
    assert x - x % step == q * step;
    DivModUnique(x - x % step, step, q, 0);
  }

  /** A stride starting below `step` that contains `x` starts at `x % step`. */
  lemma StrideStartUnique(x: nat, id: nat, step: nat)
    requires step > 0 && id < step && InStride(x, id, step)
    ensures id == x % step
  {
    var q := (x - id) / step;
    assert x - id == q * step + (x - id) % step;
    DivModUnique(x, step, q, id);
  }

  /** The strides of ids 0..step-1 partition the naturals:
      x belongs to the stride of id x % step and of no other id. */
  lemma StridePartition(x: nat, step: nat)
    requires step > 0
    ensures InStride(x, x % step, step)
    ensures forall id: nat | id < step && InStride(x, id, step) :: id == x % step
  {
    StrideOfRemainder(x, step);
    forall id: nat | id < step && InStride(x, id, step)
      ensures id == x % step
    {
      StrideStartUnique(x, id, step);
    }
  }
}
