# Convolution kernels and fair hash generator, modelled in Dafny

This project models two parts of the MemPool repository.

- **The integer 2-D convolution library** of the MemPool applications (`apps/common/kernel/convolution.h`):
  - the four convolution kernels: `conv2d_parallel`, `conv2d_shifted_parallel`, `conv2d_3x3_unrolled_parallel` and `conv2d_3x3_shifted_unrolled_parallel`;
  - the three test helpers: `init_conv2d_image`, `zero_conv2d_image` and `verify_conv2d_image`.

  Each routine is a method over Dafny arrays, with the same loops and the same in-place stores as the C code. Each is proved against specification functions of the input image.
  - Every core calls the routines with its own `id`; `numThreads` is the number of calls. A single call is sequential. The model verifies one call. It then quantifies over all ids to show which calls write which cells: the stride classes partition the interior, the column blocks of the unrolled variant may not, and the fill calls together cover the whole image.
- **The fair hash generator** (`hardware/scripts/gen_hash.py`, `generate_even_hash_mapping`):
  - It lists the keys 0..2^w-1 and shuffles a copy of them into the values with Python's Fisher–Yates shuffle.
  - It writes the table out as a SystemVerilog `case` function.

  The model rejects the same key widths as the script. It shuffles an array in place and builds the generated file as a sequence of lines. It proves four things:
  - the values are a permutation of the keys, so the table is a bijection;
  - every arm line reads back as its key and value;
  - the lines appear in a fixed layout;
  - the output depends only on the key width, the seed and the generator.

Modules:

| module | file | contents |
|---|---|---|
| `Grid` | grid.dfy | flat row-major indexing (row `p / w`, column `p % w`) and stride classes `first, first + step, ...` |
| `CInt` | c_int.dfy | the 32-bit C arithmetic of the kernels: `uint32_t` wrap-around, `int32_t / uint32_t` division |
| `ConvSpec` | conv_spec.dfy | the centred and the shifted window sums as recursive functions, and their equivalence |
| `ColumnBlocks` | column_blocks.dfy | the column blocks of `conv2d_3x3_unrolled_parallel`, as written and as intended |
| `ConvKernels` | conv_kernels.dfy | the four kernels as methods, and which calls write which cells |
| `ImageHelpers` | image_helpers.dfy | fill, zero and check of a test image, and why the check's constants are what a blur of the fill yields. The source names no kernel for this test; the 3x3 binomial kernel {1, 2, 1, 2, 4, 2, 1, 2, 1} is a reconstruction that yields exactly those constants |
| `Wrappers` | wrappers.dfy | `Option` and `Result` |
| `Decimal` | decimal.dfy | Python's `str` of an integer, `format(s, "2")` padding, and a parser that reads numbers back |
| `FairHash` | fair_hash.dfy | Fisher–Yates shuffle, the table, the emitted lines |

Arithmetic of the kernels:
- The image is `int32_t` and the kernel and weight are `uint32_t`. The weight is accumulated modulo 2^32.
- `sum / weight` converts the signed sum to unsigned before it divides (`CInt.MixedDiv`). For a negative sum and a weight of at least 2 the stored value is therefore (sum + 2^32) / weight, which is non-negative, and not the quotient: -9 / 9 stores 477218587. The model keeps this behaviour.
- The sum is kept as an unbounded integer. Only its value modulo 2^32 enters the division, so a 32-bit wrap-around of the accumulator gives the same stored value as the exact sum.

Where the code and its description disagree, the model follows the code:
- The column blocks of `conv2d_3x3_unrolled_parallel` are not described at all. Two things show that they are meant to split the columns: the header comment at convolution.h:19 says every variant implements the same convolution, and line 99 starts block id after min(id, rem) extra columns, so the block before it should end there too. The code can skip columns (see Findings).

## Model

| member | source | states |
|---|---|---|
| `ConvKernels.KernelWeight` | apps/common/kernel/convolution.h:37-40 | the weight loop yields the sum of the first n kernel entries modulo 2^32 (the `uint32_t` wrap) |
| `ConvKernels.CentredIndices` | apps/common/kernel/convolution.h:46-49 | at an output cell inside the halo, every image index and kernel index the centred loops read is in bounds |
| `ConvKernels.CentredWindow` | apps/common/kernel/convolution.h:45-51 | the two inner loops of `conv2d_parallel` compute the centred kernel-weighted window sum at (i, j) |
| `ConvKernels.CentredColumn` | apps/common/kernel/convolution.h:44-53 | one column i: each cell of rows kY/2..inY-kY/2-1 gets the centred sum divided by the weight; every other cell keeps its value |
| `ConvKernels.Conv2dParallel` | apps/common/kernel/convolution.h:25-55 | `id` is first raised past the left halo in steps of numThreads; then exactly the interior cells whose column is in the call's stride get sum / weight, and every other output cell is unchanged |
| `ConvKernels.ShiftedIndices` | apps/common/kernel/convolution.h:74-76 | for every window anchor the shifted loops visit, every image and kernel index read is in bounds |
| `ConvKernels.ShiftedWindow` | apps/common/kernel/convolution.h:73-78 | the two inner loops of `conv2d_shifted_parallel` compute the kernel-weighted sum of the window anchored at (i, j) |
| `ConvKernels.ShiftedColumn` | apps/common/kernel/convolution.h:72-80 | one anchor column i: for each anchor row j, cell (i + kX/2, j + kY/2) gets the window sum divided by the weight; every other cell keeps its value |
| `ConvKernels.Conv2dShiftedParallel` | apps/common/kernel/convolution.h:57-82 | exactly the interior cells whose window's left column is in the call's stride get sum / weight; every other output cell is unchanged |
| `ConvKernels.ShiftedOutIsCentredOut` | apps/common/kernel/convolution.h:71-79 | the value the shifted kernel stores at a cell equals the value `conv2d_parallel` stores there, for every kernel size |
| `ConvKernels.Window3x3Centred` | apps/common/kernel/convolution.h:112-120 | the nine cells read around an interior cell (i, j) are inside the image |
| `ConvKernels.Unrolled3x3Column` | apps/common/kernel/convolution.h:110-122 | one column: each of rows 1..inY-2 gets the nine-term sum divided by the weight, which is what `conv2d_parallel` stores with kX = kY = 3 |
| `ConvKernels.Conv2d3x3UnrolledParallel` | apps/common/kernel/convolution.h:84-124 | the block [start, end) is computed as in the code (remainder and clamping included); exactly the cells of that block and rows 1..inY-2 get the 3x3 centred result; other cells are unchanged |
| `ConvKernels.Window3x3Shifted` | apps/common/kernel/convolution.h:141-149 | the nine cells read from anchor (i, j) are inside the image |
| `ConvKernels.ShiftedUnrolled3x3Column` | apps/common/kernel/convolution.h:139-151 | one anchor column: cell (i + 1, j + 1) gets the nine-term sum divided by the weight, which is what `conv2d_shifted_parallel` stores with a 3x3 kernel |
| `ConvKernels.Conv2d3x3ShiftedUnrolledParallel` | apps/common/kernel/convolution.h:126-153 | exactly the interior cells whose left neighbour column is in the call's stride get the 3x3 result; other cells are unchanged |
| `ConvKernels.CentredCallsPartitionInterior` | apps/common/kernel/convolution.h:30-44 | a cell is written by some `conv2d_parallel` call of ids 0..numThreads-1 iff it is interior, and by only one of them |
| `ConvKernels.ShiftedCallsPartitionInterior` | apps/common/kernel/convolution.h:62-72 | the `conv2d_shifted_parallel` calls write exactly the interior cells, each from exactly one call |
| `ConvKernels.Unrolled3x3CallsPartitionWhenDivisible` | apps/common/kernel/convolution.h:94-110 | distinct `conv2d_3x3_unrolled_parallel` calls never write the same cell; when numThreads divides inX they write every interior cell |
| `ConvKernels.CentredWrites` | apps/common/kernel/convolution.h:43-44 | the cells one `conv2d_parallel` call writes: columns in [kX/2, inX - kX/2) that are id plus a multiple of numThreads, rows in [kY/2, inY - kY/2) |
| `ConvKernels.ShiftedWrites` | apps/common/kernel/convolution.h:71-72 | the cells one `conv2d_shifted_parallel` call writes: interior cells whose window's left column (the cell's column minus kX/2) is id plus a multiple of numThreads |
| `ConvKernels.Unrolled3x3Writes` | apps/common/kernel/convolution.h:109-110 | the cells one `conv2d_3x3_unrolled_parallel` call writes: the columns of its block [start, end) as the code computes it, rows 1..inY-2 |
| `ConvKernels.CentredOut` | apps/common/kernel/convolution.h:52 | the value `conv2d_parallel` stores at a cell: the centred window sum divided by the weight as `int32_t / uint32_t`; always within the `int32_t` range |
| `ConvKernels.ShiftedOut` | apps/common/kernel/convolution.h:79 | the value `conv2d_shifted_parallel` stores at a cell: the sum of the window anchored kX/2 columns left and kY/2 rows up, divided by the weight; always within the `int32_t` range |
| `ConvSpec.CentredRowIsShiftedRow` | apps/common/kernel/convolution.h:47-49 | one kernel row of the centred sum equals the matching row of the shifted sum with the window moved kX/2 left and kY/2 up |
| `ConvSpec.CentredRowsIsShiftedRows` | apps/common/kernel/convolution.h:46-51 | the same for the first rows of the window |
| `ConvSpec.ShiftedMatchesCentred` | apps/common/kernel/convolution.h:19-23 | the centred sum at (i, j) equals the shifted sum anchored at (i - kX/2, j - kY/2): both indexings compute the same convolution |
| `ConvSpec.Unrolled3x3IsCentred` | apps/common/kernel/convolution.h:111-120 | the nine unrolled products add up to the general centred sum with kX = kY = 3 |
| `ConvSpec.Unrolled3x3IsShifted` | apps/common/kernel/convolution.h:140-149 | the nine unrolled products add up to the general shifted sum with kX = kY = 3 |
| `ConvSpec.Weight` | apps/common/kernel/convolution.h:37-40 | the `uint32_t` weight: the sum of the first n kernel entries reduced modulo 2^32, so below 2^32 |
| `CInt.MixedDiv` | apps/common/kernel/convolution.h:52 | `sum / weight` with an `int32_t` sum and a `uint32_t` weight, stored in `int32_t`, is a 32-bit signed value |
| `CInt.MixedDivOfNonNegative` | apps/common/kernel/convolution.h:52 | for a non-negative sum that fits in `int32_t`, the stored value is the plain quotient and no larger than the sum |
| `CInt.MixedDivOfNegativeSum` | apps/common/kernel/convolution.h:52 | for every negative `int32_t` sum and every weight of at least 2, the stored value is (sum + 2^32) / weight, which is non-negative: the sign is lost (-9 / 9 stores 477218587) |
| `CInt.ModAddLeft` | apps/common/kernel/convolution.h:39 | wrapping the accumulator after each addition gives the same result modulo 2^32 as wrapping once at the end |
| `CInt.ToInt32` | apps/common/kernel/convolution.h:52 | storing an unsigned 32-bit quotient into `int32_t`: the result is in the `int32_t` range and is either the value itself or the value minus 2^32 |
| `ColumnBlocks.UnrolledColumns` | apps/common/kernel/convolution.h:94-107 | every block after clamping lies within the interior columns [1, inX - 1) |
| `ColumnBlocks.BlockStartMonotone` | apps/common/kernel/convolution.h:96-99 | block starts grow with the id |
| `ColumnBlocks.UnrolledColumnsDisjoint` | apps/common/kernel/convolution.h:94-107 | the column ranges of distinct ids share no column |
| `ColumnBlocks.UnrolledColumnsCoverWhenDivisible` | apps/common/kernel/convolution.h:94-109 | when numThreads divides inX, every interior column is in some id's range |
| `ColumnBlocks.UnrolledColumnsSkip` | apps/common/kernel/convolution.h:100 | for each id < inX % numThreads, the column div * (id + 1) + id is in no id's range |
| `ColumnBlocks.UnrolledColumnsSkipExample` | apps/common/kernel/convolution.h:100 | with inX = 5 and numThreads = 2 the ranges are [1, 2) and [3, 4), and column 2 is never written |
| `ColumnBlocks.BalancedColumns` | apps/common/kernel/convolution.h:97-107 | the corrected range (end `div * (id + 1) + min(id + 1, rem)`) lies within the interior columns |
| `ColumnBlocks.BlocksPrefix` | apps/common/kernel/convolution.h:96-100 | with the corrected end, every column below the end of block t lies in one of blocks 0..t |
| `ColumnBlocks.BalancedColumnsPartition` | apps/common/kernel/convolution.h:94-109 | with the corrected end, each interior column is in the range of exactly one id |
| `ImageHelpers.PaintRows` | apps/common/kernel/convolution.h:160-164 | every cell of the rows id, id + numThreads, ... gets the pattern; all other cells keep their values |
| `ImageHelpers.PaintColumns` | apps/common/kernel/convolution.h:166-171 | every cell of the columns id, id + numThreads, ... gets the pattern; all other cells keep their values |
| `ImageHelpers.InitConv2dImage` | apps/common/kernel/convolution.h:157-173 | one call writes (r % 16) + (c % 4) into its stride of rows when imgY > imgX and of columns otherwise; nothing else changes |
| `ImageHelpers.ZeroConv2dImage` | apps/common/kernel/convolution.h:176-192 | one call writes 0 into its stride of rows or columns, split as in init; nothing else changes |
| `ImageHelpers.Paint` | apps/common/kernel/convolution.h:163 | the value a fill stores at row r, column c: the ramp (r % 16) + (c % 4), between 0 and 18; 0 for `zero_conv2d_image` (line 182) |
| `ImageHelpers.Touches` | apps/common/kernel/convolution.h:160-171 | the cells one fill call handles: the rows id, id + numThreads, ... when imgY > imgX, else the columns id, id + numThreads, ... |
| `ImageHelpers.PaintCall` | apps/common/kernel/convolution.h:159-172 | the image after one fill call has the same size; handled cells hold the pattern, the rest their old value |
| `ImageHelpers.PaintCallsCell` | apps/common/kernel/convolution.h:157-173 | after any sequence of fill calls, a cell holds the pattern iff one of the calls handles it, and otherwise its original value |
| `ImageHelpers.PaintCallsPartition` | apps/common/kernel/convolution.h:159-171 | every cell is handled by exactly one of the ids 0..numThreads-1 |
| `ImageHelpers.PaintCallsFillImage` | apps/common/kernel/convolution.h:157-192 | the calls of all ids, in any order, set every cell to the ramp (init) or to 0 (zero), whatever the image held |
| `ImageHelpers.FirstMismatch` | apps/common/kernel/convolution.h:206-210 | the result is 0 when no checked cell mismatches; otherwise it is the smallest index of a mismatching checked cell |
| `ImageHelpers.CheckedIsNotFirst` | apps/common/kernel/convolution.h:200-207 | every checked cell has index at least imgX + 1, so the result 0 cannot name a cell and the -1 branch is unreachable |
| `ImageHelpers.FirstMismatchMeaning` | apps/common/kernel/convolution.h:197-215 | the check returns 0 iff every cell it inspects holds x + y; otherwise it returns an index at least imgX + 1 |
| `ImageHelpers.CheckRow` | apps/common/kernel/convolution.h:206-212 | one row: matching cells are zeroed left to right up to the first mismatch, whose index is returned; 0 when the row matches |
| `ImageHelpers.VerifyConv2dImage` | apps/common/kernel/convolution.h:197-215 | returns the first mismatch in row-major order over its rows id + 1, id + 1 + numThreads, ... (0 if none); zeroes exactly the checked cells before it, and leaves the mismatching and unchecked cells alone |
| `ImageHelpers.FirstMismatchIs` | apps/common/kernel/convolution.h:209-210 | a mismatch with no mismatch before it is the one returned |
| `ImageHelpers.CheckCallsPartitionInterior` | apps/common/kernel/convolution.h:200-207 | a cell is inspected by some check call of ids 0..numThreads-1 iff it is interior, and by only one of them |
| `ImageHelpers.ExpectedRow` | apps/common/kernel/convolution.h:201-205 | the row part y of the expected value: r % 16, except 4 when r % 16 == 0 and 11 when r % 16 == 15; so 1 <= y <= 14 |
| `ImageHelpers.Expected` | apps/common/kernel/convolution.h:207-208 | the value the check compares against: x + y with x = (c % 4) / 2 + 1; so between 2 and 16 |
| `ImageHelpers.Checked` | apps/common/kernel/convolution.h:200-206 | the cells one check call inspects: rows id + 1, id + 1 + numThreads, ... below imgY - 1, columns 1..imgX-2 |
| `ImageHelpers.Cleared` | apps/common/kernel/convolution.h:206-211 | the image after a check call that returned r: checked cells before r (all of them when r is 0) are zeroed; every unchecked cell, and the mismatching cell r, keeps its value |
| `ImageHelpers.RampRowBlur` | apps/common/kernel/convolution.h:201-205 | rows r-1, r, r+1 of the ramp weighted 1, 2, 1 add up to 4 times y, with y = 4 when r % 16 == 0 and y = 11 when r % 16 == 15 |
| `ImageHelpers.RampColumnBlur` | apps/common/kernel/convolution.h:207 | columns c-1, c, c+1 of the ramp weighted 1, 2, 1 add up to 4 times x = (c % 4) / 2 + 1 |
| `ImageHelpers.RampWindowSum` | apps/common/kernel/convolution.h:163 | the 1-2-1 binomial window sum of the ramp around (i, j) splits into a row part and a column part |
| `ImageHelpers.BinomialBlurOfRampIsExpected` | apps/common/kernel/convolution.h:200-209 | with the reconstructed 3x3 binomial kernel (not stated in the source), the blur of the ramp is 16 times x + y and the kernel weight is 16, so the stored value is exactly the x + y the check expects |
| `ImageHelpers.InitThenBlurPassesCheck` | apps/common/kernel/convolution.h:157-215 | after init calls of all ids, the centred convolution with the reconstructed 3x3 binomial kernel stores at each interior cell the value the check expects |
| `FairHash.Range` | hardware/scripts/gen_hash.py:12 | `list(range(n))` has n entries, entry k being k |
| `FairHash.Pow2` | hardware/scripts/gen_hash.py:11 | `2 ** key_width`, the number of entries; at least 1 |
| `FairHash.Pick` | hardware/scripts/gen_hash.py:16 | the index drawn at shuffle position i is in 0..i |
| `FairHash.ShuffleDown` | hardware/scripts/gen_hash.py:16 | the Fisher–Yates steps for positions i, i - 1, ..., 1, each exchanging position i with the drawn index; the length is kept |
| `FairHash.Shuffled` | hardware/scripts/gen_hash.py:16 | `random.shuffle` of a list with the given draws: a list of the same length (lists of 0 or 1 entries unchanged) |
| `FairHash.SwapPermutes` | hardware/scripts/gen_hash.py:16 | exchanging two entries keeps the multiset of entries |
| `FairHash.ShuffleDownPermutes` | hardware/scripts/gen_hash.py:16 | the shuffle steps i, i - 1, ..., 1 keep the multiset of entries |
| `FairHash.ShuffledPermutes` | hardware/scripts/gen_hash.py:13-16 | for any draws, the shuffled list has the same entries, each as often, as the list it shuffled |
| `FairHash.SwapKeepsPermutationOfRange` | hardware/scripts/gen_hash.py:16 | exchanging two entries of a list of 0..n-1 keeps every number exactly once |
| `FairHash.ShuffleDownKeepsPermutationOfRange` | hardware/scripts/gen_hash.py:16 | the shuffle steps keep a list of 0..n-1 listing every number exactly once |
| `FairHash.ShuffledRangeIsPermutation` | hardware/scripts/gen_hash.py:12-16 | the shuffled keys list every key 0..n-1 exactly once |
| `FairHash.Shuffle` | hardware/scripts/gen_hash.py:16 | the in-place shuffle leaves the array holding the Fisher–Yates result for its draws |
| `FairHash.SizedLiteral` | hardware/scripts/gen_hash.py:26 | `"{}'d{:2}".format(w, x)`: starts with the width and `'d`, ends with the digits of x |
| `FairHash.ArmLine` | hardware/scripts/gen_hash.py:26 | one `case` arm `    w'dk : fair_hash = w'dv;`, with both numbers padded to two characters |
| `FairHash.HeaderLines` | hardware/scripts/gen_hash.py:19-24 | five lines: the two comments, the blank line, the function header, `  case (key)` |
| `FairHash.FooterLines` | hardware/scripts/gen_hash.py:27-29 | the `default` arm yielding '0, `endcase`, `endfunction` |
| `FairHash.HashFile` | hardware/scripts/gen_hash.py:19-29 | the whole file: header, one arm per key, footer; 2^w + 8 lines |
| `FairHash.SizedLiteralRoundTrip` | hardware/scripts/gen_hash.py:26 | the literal `{}'d{:2}`, followed by text not starting with a digit, reads back as its width, its value and that text |
| `FairHash.ArmLineRoundTrip` | hardware/scripts/gen_hash.py:26 | an arm line reads back as exactly its key width, key and value |
| `FairHash.ArmLines` | hardware/scripts/gen_hash.py:25-26 | one arm line per key |
| `FairHash.AppendArms` | hardware/scripts/gen_hash.py:25-26 | the loop over `zip(keys, values)` appends, in key order, the arm of each key with its value |
| `FairHash.GenerateEvenHashMapping` | hardware/scripts/gen_hash.py:9-29 | fails with the script's message iff the key width is outside 1..16; otherwise returns the file for keys 0..2^w-1 and values shuffled with the seed's draws, a function of key width, seed and generator |
| `FairHash.HashFileLayout` | hardware/scripts/gen_hash.py:19-29 | the file has 2^w + 8 lines: the 5 header lines (two comments, a blank line, the header with [w-1:0] on argument and result, `case (key)`), then at 5 + k the arm of key k, then `default` yielding '0, `endcase`, `endfunction` |
| `FairHash.HashFileArmsReadBack` | hardware/scripts/gen_hash.py:25-26 | line 5 + k reads back as the arm mapping key k to the k-th value |
| `FairHash.HashFileIsBijection` | hardware/scripts/gen_hash.py:12-26 | line 5 + k maps key k to the k-th shuffled value, and those values list every key exactly once, so `fair_hash` is a bijection on [0, 2^w) |
| `Decimal.NatToString` | hardware/scripts/gen_hash.py:26 | `str(n)` is a non-empty run of digits with no leading zero |
| `Decimal.NatToStringValue` | hardware/scripts/gen_hash.py:26 | the digits of `str(n)` denote n |
| `Decimal.PadLeft` | hardware/scripts/gen_hash.py:26 | `{:2}` right-aligns the number in at least two characters, padding with spaces on the left |
| `Decimal.ParseNatToString` | hardware/scripts/gen_hash.py:26 | reading `str(n)` followed by a non-digit gives n back |
| `Decimal.SkipPadding` | hardware/scripts/gen_hash.py:26 | skipping the spaces of a padded number gives back its digits |
| `Decimal.IntToString` | hardware/scripts/gen_hash.py:20 | `str(seed)` for a seed of any sign: a minus sign before the digits of a negative number; never empty |

## Left out

- Parallel execution: the `volatile` qualifiers, `__restrict__`, the `barrier_init` extern (convolution.h:194) and any synchronisation between cores. A call is modelled alone; `id` and `numThreads` are parameters, and the partition lemmas quantify over ids.
- Aliasing: the kernels require `input != out`, as the `__restrict__` qualifiers promise.
- The boundary halo, which the code leaves unimplemented (TODOs at convolution.h:41, 69, 93, 136): border cells are not written, and the model proves they keep their values.
- The kernels' `requires` exclude what the C code cannot handle: a zero weight (division by zero), `numThreads == 0`, and an image smaller than the kernel (unsigned underflow of `in_x - boundary_x`). With `numThreads == 0`, `conv2d_parallel` spins in the loop at convolution.h:33-35 when id < boundary_x; otherwise it spins in the column loop at line 43 when id < in_x - boundary_x, and returns at once when id >= in_x - boundary_x. The stride loops of the other kernels and of the helpers do not advance either, and `conv2d_3x3_unrolled_parallel` divides by `numThreads` (convolution.h:94-95).
- ConvKernels.Conv2d3x3UnrolledParallel: `requires 1 <= inX && 1 <= inY` excludes the empty image, where `in_x - 1` and `in_y - 1` (convolution.h:105, 110) wrap around as `uint32_t`.
- ConvKernels.Conv2d3x3ShiftedUnrolledParallel: `requires 2 <= inX && 2 <= inY` excludes images narrower or lower than 2, where `in_x - 2` and `in_y - 2` (convolution.h:138-139) wrap around as `uint32_t`.
- ImageHelpers.VerifyConv2dImage: `requires 1 <= imgX && 1 <= imgY` excludes the empty image, where `img_y - 1` and `img_x - 1` (convolution.h:200, 206) wrap around as `uint32_t`.
- ImageHelpers.VerifyConv2dImage: the returned index `i * img_x + j` is an unbounded integer; its `int` overflow for images of 2^31 cells or more is not modelled.
- Values are unbounded integers: the image entries are not restricted to the `int32_t` range and the kernel entries not to `uint32_t`; the weight wrap and the signed-to-unsigned conversion in the division are modelled exactly.
- Python's Mersenne Twister: `random.seed` / `random.shuffle` draws are a parameter `rng: int -> nat -> nat -> nat`. `rng(seed)(n)(i) % (i + 1)` is the index drawn at position i of the shuffle of an n-entry list; it depends on n because Python draws from position n - 1 downwards, so the draw used at position i is the (n - 1 - i)-th. The distribution of the draws is not modelled.
- File opening and writing, the success message, `argparse` and `main` (gen_hash.py:18, 31, 33-43). The generated file is the sequence of its lines; each line is written followed by a newline.
- The assertion at gen_hash.py:10 is modelled as a `Failure` result carrying the assertion's message.
- Only the arm lines are parsed back; the header lines are stated as text, with the seed written by `str` (a minus sign before the digits of a negative seed).
- ConvKernels.Conv2d3x3UnrolledParallel: keeps the column blocks as the code computes them (see Findings), so its calls cover every interior cell only when numThreads divides inX; the intended blocks are proved to partition the columns in `ColumnBlocks.BalancedColumnsPartition`.

## Findings

| source | as written | input that shows it | evidently intended | confidence | as-written member | corrected member |
|---|---|---|---|---|---|---|
| apps/common/kernel/convolution.h:100 | `end += id < rem ? id : rem;` gives block id the end `div * (id + 1) + min(id, rem)`, while the next block starts at `div * (id + 1) + min(id + 1, rem)` | inX = 5, numThreads = 2: call 0 covers column [1, 2), call 1 covers [3, 4); interior column 2 is never convolved | `end += id + 1 < rem ? id + 1 : rem;`, i.e. the end is `min(id + 1, rem)` and each block ends where the next begins | high (not executed) | `ColumnBlocks.UnrolledColumnsSkipExample` | `ColumnBlocks.BalancedColumnsPartition` |
