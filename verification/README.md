# SCAMP profile bookkeeping, in Dafny

SCAMP computes matrix profiles. It splits the all-pairs comparison of two time series into tiles and runs each tile through a correlation kernel. It then merges each tile's result into full-length profiles. This project models the bookkeeping around that kernel and proves properties of it:

- **Merging a tile into a profile** (`merge.dfy`, module `ProfileMerge`).
  - the pointwise sum and maximum over a window, including the packed (correlation, index) variant that rebases the index;
  - the bounded per-column neighbour queues;
  - the downsampled neighbour matrix, with its out-of-range error;
  - profile allocation with its sentinel fills;
  - the type-checked dispatch of `Profile::MergeTileToProfile`.
- **Sizing and validation of a computation** (`config.dfy`, module `Config`): the `OpInfo` tile arithmetic and `SCAMPArgs::validate`.
- **Parsing and output** (`utils.dfy`, module `ScampUtils`; decimal text in `decimal.dfy`, module `Decimal`).
  - the comma-separated integer list, the precision flags and the profile-type names;
  - the profile-size check before allocation;
  - what each output file receives, written as a sequence of records rather than text;
  - the reduction of the neighbour queues to a matrix.
- **The piecewise manager** (`piecewise.dfy`, module `Piecewise`).
  - Segments wait in a FIFO queue.
  - Each new segment is joined against every accepted one in ascending order and then against itself, and its profile is kept index-aligned with the accepted segments.
  - The join is a function parameter, and the manager relies only on it handing back profiles of the lengths it was given.
- **The kernel's argument record** (`kernel_args.dfy`, module `KernelArgs`): the a/b swap under `transpose`, the 32-bit subsequence counts and the choice of exclusion zone.

Shared types (entries, matches, profiles, errors) are in `types.dfy` (module `ScampTypes`).

Correlations are `real`. A packed profile entry is the pair `Entry(corr, index)`; its IEEE-754 bit layout is not modelled. A priority queue is the sequence of its elements in pop order. Where a pushed element lands is a parameter (`place`), because the heap comparator is not part of this model.

An operation that throws part-way through an in-place update returns `Step<T>`:
- `Done(value)` when it finishes;
- `Threw(partial, error)` when it throws, where `partial` is the state the throw leaves behind.

### Two behaviours of the piecewise manager

- **Short segments.** `update_mp` pops the front segment before it checks anything (`src/PiecewiseSCAMP.cpp:61-63`).
  - It computes `series.size() - op.window() + 1` and passes it to `get_new_mp_segment`, whose parameter is `uint64_t`. The model takes `window` to be a 64-bit or a signed 32-bit protobuf field. For a segment shorter than a window, the length then arrives as 2^64 minus a small number, and the vector constructor throws `std::length_error`.
  - `update_mp` stops there, and the segment is gone from the queue without being accepted.
  - A segment of exactly window - 1 points gets a length of zero. The manager itself accepts it, with an empty profile, and hands it to `do_SCAMP`. Whether `do_SCAMP` then rejects it is not modelled.
- **Piecewise output.** The file-local writer `WriteProfileToFile` (`src/PiecewiseSCAMP.cpp:14-26`) writes the raw correlation and `index + 1` for every entry. An untouched entry therefore writes 0, where the main writer (`src/scamp_utils.cpp:172-178`) writes -1. The sum `index + 1` is taken in the entry's 32-bit index field and printed unsigned. The model takes that field to be `unsigned int`, as the `-1u` stores suggest (`src/common.cpp:208`, `src/PiecewiseSCAMP.cpp:116`), so index 2^31 - 1 writes 2^31 and the sentinel -1 writes 0.

## Model

| member | source | states |
|---|---|---|
| Config.TileFloor | src/common.cpp:45-48 | The least tile length is the window narrowed to signed 32 bits plus the window, in 64 bits. Below a window of 2^31 that is two windows. From 2^31 to 2^32 it is 2 * window - 2^32, which is less than one window. |
| Config.TileLength | src/common.cpp:34-48 | The tile length is the per-worker share capped at `max_tile_size`, then raised to the floor, so the floor wins over the cap. For a window below 2^31 the tile holds at least two windows. A cap that leaves room for two windows and lies below the share is the length. |
| Config.NewOpInfo | src/common.cpp:10-62 | A self-join takes series A's length for B. The tile length is max(TileFloor(window), min(`max_tile_size`, the longer series' length / workers)), so the floor wins over the cap. For a window below 2^31 that floor is two windows and the width is at least window + 1. Width is tile length - window + 1, height equals width, and the match budget is the largest count whose bytes fit the per-worker share of the memory. |
| Config.Validate | src/common.cpp:317-336 | Returns normally exactly on valid arguments. Otherwise it fails with the first check that fails, in source order: window < 3, tile < 1024, tile / 2 < window, a used series shorter than the window. |
| ProfileMerge.MergeWindow | src/common.cpp:122-152 | The shared loop of the pointwise merges: positions outside `[start, start + size)` keep their value, and position `start + i` combines the old value with `tile[i]`. |
| ProfileMerge.ElementwiseSum | src/common.cpp:122-128 | Outside the window nothing changes. Inside it, each position gains exactly the tile's value. |
| ProfileMerge.ElementwiseSumCounts | src/common.cpp:122-128 | The 64-bit counter sum: outside the window nothing changes, and inside it each counter becomes (old + tile) mod 2^64. |
| ProfileMerge.ElementwiseMax | src/common.cpp:144-152 | Outside the window nothing changes. Inside it, a position takes the tile's value exactly when that value is strictly greater. |
| ProfileMerge.ElementwiseMaxPacked | src/common.cpp:130-142 | A position changes only when the incoming correlation is strictly greater. It then takes that correlation with index + offset, wrapped to 32 bits. Ties and worse values leave the entry as it was, and outside the window nothing changes. |
| ProfileMerge.ElementwiseMaxIdempotent | src/common.cpp:144-152 | Merging the same tile twice equals merging it once. |
| ProfileMerge.ElementwiseMaxPackedIdempotent | src/common.cpp:130-142 | Merging the same packed tile twice with the same offset equals merging it once. |
| ProfileMerge.ElementwiseMaxCommutes | src/common.cpp:144-152 | Merging two tiles in either order gives the same profile. |
| ProfileMerge.Push | src/common.cpp:164-168 | A push adds exactly the pushed element to the queue's contents. |
| ProfileMerge.Pop | src/common.cpp:160-161 | A pop removes exactly the top. |
| ProfileMerge.MergeOneMatch | src/common.cpp:157-169 | Only the queue of column `col + merge_start_col` changes. Below capacity it gains the shifted match. At capacity it swaps its top for the shifted match exactly when the top's correlation is strictly smaller, and it is otherwise left alone. |
| ProfileMerge.MatchMerge | src/common.cpp:154-171 | No queue is added or removed, and no queue gets shorter. |
| ProfileMerge.MatchMergeEvolves | src/common.cpp:154-171 | Each queue keeps within a capacity it started within. It holds only old elements and matches shifted into its column. While the capacity lasts it keeps every such match, and a queue no match targets is untouched. The capacity is `max_matches` read as unsigned. |
| ProfileMerge.MatrixMergeOne | src/common.cpp:177-192 | A match whose cell `((row + start_row) / reduced_rows, (col + start_col) / reduced_cols)` lies outside throws, naming that cell, with the matrix untouched. Otherwise only that cell changes, to the greater of itself and the correlation. |
| ProfileMerge.MatrixMerge | src/common.cpp:173-194 | The shape never changes. It throws exactly when some match falls outside, naming the first such match's cell and keeping the earlier updates. No cell decreases, and every cell holds its old value or a correlation that fell into it. On success every cell is at least each correlation that fell into it. |
| ProfileMerge.MatrixMergeThrowState | src/common.cpp:173-194 | On a throw there is a match that does not fit, and the matrix left behind is exactly the merge of the matches before it, each of which fitted. |
| ProfileMerge.Alloc | src/common.cpp:196-231 | Unsupported kinds change nothing. Otherwise one empty storage record is appended and the later records are kept. The first record's vector for the kind is resized to `size` (or `matrix_height` rows): its other fields and its first elements are kept, and new places get the kind's fill. A fresh profile gets `size` entries of (-2.0, -1) for 1NN_INDEX, `size` values -2.0 for 1NN, `size` zeros for SUM_THRESH and FREQUENCY_THRESH, `size` empty queues, or a `matrix_height` by `matrix_width` matrix of -2.0. |
| ProfileMerge.MergeTileToProfile | src/common.cpp:270-315 | Different kinds throw with the profile untouched, and so do unimplemented kinds. Otherwise only the first storage record's field for the kind changes. It becomes the sum (SUM_THRESH, FREQUENCY_THRESH), the max (1NN), the packed max rebased by `index_start` (1NN_INDEX), or the queue or matrix merge with rows shifted by `index_start` and columns by `position`. It finishes exactly when every match fits the matrix. |
| ProfileMerge.MergeTileIdempotent | src/common.cpp:285-293 | Merging the same 1NN or 1NN_INDEX tile twice equals merging it once. |
| ProfileMerge.MergeTileCommutes | src/common.cpp:290-293 | Two 1NN tiles merged in either order give the same profile. |
| ProfileMerge.MergeIntoFreshProfile | src/common.cpp:270-293 | A tile merged into a freshly allocated 1NN or SUM_THRESH profile appears verbatim in its window, and the fill stays everywhere else. |
| Decimal.Stoi | src/scamp_utils.cpp:102-115 | The `std::stoi` reading of a field succeeds only within the 32-bit range, and any other failure is an invalid argument or out of range. It is an invalid argument exactly when no digit follows the leading white space and the optional sign. |
| Decimal.StoiReadsDigits | src/scamp_utils.cpp:102-115 | For text made of white space, an optional sign, a run of digits and a rest not starting with a digit, `std::stoi` gives the digits' value, negated after '-', whenever it lies in the 32-bit range, and is out of range otherwise. Leading zeros and the rest play no part. |
| Decimal.StoiReadsNumber | src/scamp_utils.cpp:102-115 | White space, an optional '+', a printed 32-bit integer and any text not starting with a digit read back as that integer. |
| Decimal.StoiIntToString | src/scamp_utils.cpp:102-115 | Reading back a printed 32-bit integer gives the integer. |
| Decimal.Split | src/scamp_utils.cpp:102-115 | Cutting at every comma gives commas + 1 fields, none containing a comma. |
| Decimal.JoinSplit | src/scamp_utils.cpp:102-115 | Joining the fields again gives back the text. |
| Decimal.SplitJoin | src/scamp_utils.cpp:102-115 | Splitting comma-free fields joined with commas gives back the fields. |
| ScampUtils.ParseFields | src/scamp_utils.cpp:108-113 | The list reads exactly when every field reads, giving each field's value in order. Otherwise it fails with the error of the first field that does not read. |
| ScampUtils.ParseIntList | src/scamp_utils.cpp:102-115 | The empty string is the empty list. Otherwise a list that reads holds commas + 1 integers, each the reading of its field in order. A list that does not read fails with the first failing field's error. |
| ScampUtils.ParseIntListRoundTrip | src/scamp_utils.cpp:102-115 | A non-empty list of 32-bit integers written with commas parses back to itself. |
| ScampUtils.GetPrecisionType | src/scamp_utils.cpp:117-129 | Double wins over mixed, which wins over single, with both directions of each case. With no flag the precision is invalid. |
| ScampUtils.ParseProfileType | src/scamp_utils.cpp:131-145 | The result is valid exactly for "1NN_INDEX", "SUM_THRESH", "1NN" and "ALL_NEIGHBORS"; any other text gives the invalid kind. |
| ScampUtils.ParseProfileTypeInverse | src/scamp_utils.cpp:131-145 | Each of the four kinds parses back from its name, and text that parses to a valid kind is that kind's name. |
| ScampUtils.ConvertToEuclidean | src/scamp_utils.cpp:147-153 | No distance exactly when corr < -1. Otherwise the distance is the root of max(2 * window * (1 - corr), 0). |
| ScampUtils.ConvertToEuclideanMonotone | src/scamp_utils.cpp:147-153 | A higher correlation never gives a larger distance. |
| ScampUtils.DrainReversed | src/scamp_utils.cpp:207-214 | Emptying a queue top first into the front of a list gives its elements in the reverse of pop order. |
| ScampUtils.NeighborLines | src/scamp_utils.cpp:215-224 | One `(col, row, value)` record per match, in order. |
| ScampUtils.QueueLinesLayout | src/scamp_utils.cpp:203-227 | The queue output is laid out queue by queue. Queue `c`'s block starts after all earlier queues' matches and lists its matches in the reverse of pop order. |
| ScampUtils.WriteProfile | src/scamp_utils.cpp:155-233 | The value file is written exactly for the four named kinds, and the index file exactly for 1NN_INDEX. 1NN_INDEX writes one value and one index record per entry, the index being -1 when corr < -1 and otherwise index + 1 wrapped to 32 bits. 1NN writes its values, SUM_THRESH writes its raw sums whatever the output option, and ALL_NEIGHBORS writes the matrix when one exists, else the queue layout. |
| ScampUtils.IndexFileDecodes | src/scamp_utils.cpp:172-178 | For a non-negative 32-bit index, the record is -1 exactly for an entry with no match. Otherwise subtracting one gives the neighbour, except at index 2^31 - 1, whose record wraps to -2^31. |
| ScampUtils.InitProfileMemory | src/scamp_utils.cpp:235-252 | It succeeds exactly when the A size (length of A - window + 1) is positive and, when rows are kept separate, so is the B size: length of B - window + 1 with a second series, else the A size. Failure leaves the arguments untouched. Success allocates A, and allocates B only when rows are kept separate. |
| ScampUtils.ValidArgsGetMemory | src/scamp_utils.cpp:235-245 | Arguments that pass validation always get their profile memory. |
| ScampUtils.InitProfileMemorySizesA | src/scamp_utils.cpp:235-247 | A fresh 1NN_INDEX profile A receives one no-match entry per subsequence of series A. |
| ScampUtils.CeilDiv | src/scamp_utils.cpp:29-30 | The reduction factor covers the size (`r * output >= size`) and, for a positive size, is the least such `r`. |
| ScampUtils.ReduceAllNeighbors | src/scamp_utils.cpp:25-51 | The result is `output_height` by `output_width`. A match is dropped exactly when its cell lies outside. Each kept match leaves its cell at least at its correlation. Every cell is -1.0 or the correlation of a match in it, and never below -1.0. |
| ScampUtils.InProfileColumnFits | src/scamp_utils.cpp:29-30 | With the column factor `ceil(width / output_width)`, a column inside the profile always falls into one of the output columns. |
| ScampUtils.ReduceAllNeighborsAsWritten | src/scamp_utils.cpp:25-51 | The loop as written, with the column compared to the output height. When it finishes, its result is `output_height` by `output_width`. |
| ScampUtils.ReduceLoopWithin | src/scamp_utils.cpp:33-48 | With the column compared to any limit up to the output width, the loop never writes outside. It drops exactly the matches whose cell lies outside the rows or at or beyond the limit, and its matrix is the matrix merge of the others, in order. |
| ScampUtils.ReduceLoopEscapes | src/scamp_utils.cpp:33-48 | With the column compared to a limit at least the output width, the loop writes outside a row exactly when some match has a row that fits and a column between the width and the limit; the match it stops at is such a match. |
| ScampUtils.ReduceAsWrittenWide | src/scamp_utils.cpp:25-51 | For an output with no more rows than columns, the code as written finishes. It drops exactly the matches whose cell row or cell column is at least `output_height`, and merges the rest into the -1.0 matrix. |
| ScampUtils.ReduceAsWrittenTall | src/scamp_utils.cpp:25-51 | For an output with more rows than columns, the code as written writes outside a row exactly when some match has a cell row below `output_height` and a cell column from `output_width` up to `output_height`; the match it stops at is such a match. |
| ScampUtils.ReduceAllNeighborsIsFixedLoop | src/scamp_utils.cpp:39 | The corrected reduction is the source loop with only the column bound changed. |
| ScampUtils.ReduceAsWrittenSquare | src/scamp_utils.cpp:39 | For a square output the code as written agrees with the corrected reduction. |
| ScampUtils.ReduceAsWrittenDropsFittingMatch | src/scamp_utils.cpp:39-44 | For any output with fewer rows than columns where some profile column falls into output column `output_height`, the code as written drops a match that fits, leaving the matrix at -1.0. The corrected reduction raises that cell to the match's correlation. |
| Piecewise.NewManager | src/PiecewiseSCAMP.cpp:30-45 | The op template of a fresh manager has the window, precision and type given; tile size 2^20; a second series; rows and columns computed and kept separate; no distributed offsets; and nothing accepted or pending. |
| Piecewise.NewSegment | src/PiecewiseSCAMP.cpp:113-121 | Exactly `len` copies of (lowest float, -1). |
| Piecewise.AddData | src/PiecewiseSCAMP.cpp:47-57 | The segment joins the back of the queue whatever its length, and the accepted segments and profiles are unchanged. |
| Piecewise.CrossJoins | src/PiecewiseSCAMP.cpp:71-89 | The cross-join loop keeps the new profile's length, the number of old profiles and each old profile's length. |
| Piecewise.CrossJoinsVisitOnce | src/PiecewiseSCAMP.cpp:71-89 | Iteration `i` rewrites only old profile `i`, from that call's B result. That call sees profile `i` as it was before the loop and the new profile threaded through the earlier iterations. Profiles not yet reached are unchanged. |
| Piecewise.CrossJoinsNone | src/PiecewiseSCAMP.cpp:71-91 | With nothing accepted, the new profile stays the sentinel profile. |
| Piecewise.ProcessFront | src/PiecewiseSCAMP.cpp:59-99 | The front segment always leaves the queue. The step throws a length error exactly when `size - window + 1 < 0`, with nothing accepted. Otherwise the segment is appended to the accepted ones, and profiles stay aligned with segments, each of `size - window + 1` entries. |
| Piecewise.ProcessFrontProfiles | src/PiecewiseSCAMP.cpp:71-99 | Accepted segment `k`'s profile becomes the B profile the `k`-th cross-join hands back. That join sees the profile as it was before the step and the new profile as the earlier cross-joins left it. The new profile is the self-join, without a second series and without keeping rows separate, of the profile the last cross-join leaves. |
| Piecewise.UpdateMp | src/PiecewiseSCAMP.cpp:58-101 | Profiles stay aligned with accepted segments, and a finished update leaves the queue empty. |
| Piecewise.UpdateMpFifo | src/PiecewiseSCAMP.cpp:58-101 | Pending segments are accepted in arrival order, after the earlier ones. The update finishes exactly when every pending segment is long enough. Otherwise it stops at the first segment that is not, with those before it accepted and that one gone from the queue. |
| Piecewise.UpdateMpIdempotent | src/PiecewiseSCAMP.cpp:58-60 | A second update after a finished one changes nothing. |
| Piecewise.FirstSegmentSelfJoinOnly | src/PiecewiseSCAMP.cpp:91-99 | The first segment's profile is the self-join of the sentinel profile. |
| Piecewise.ProfileToFiles | src/PiecewiseSCAMP.cpp:14-26 | One value record (the raw correlation) and one index record per entry. Every index record lies in [0, 2^32). Subtracting one from it in 32 bits gives the index back. For -1 and every index from 0 to 2^32 - 2 the record is exactly index + 1. |
| Piecewise.WriteMp | src/PiecewiseSCAMP.cpp:102-110 | Profile `k` goes to `piecewise_mp/mp_k` and `piecewise_mp/mpi_k`, in accepted order. |
| Piecewise.WriteMpNamesDistinct | src/PiecewiseSCAMP.cpp:104-107 | No two profiles share a file name, and no value file is named like an index file. |
| Piecewise.SentinelIndexIsZero | src/PiecewiseSCAMP.cpp:22 | An untouched entry writes index 0 here, where the main writer writes -1. |
| KernelArgs.NewInputArgs | src/kernel_common.h:31-56 | `transpose` swaps every a/b operand and the two profile lengths; without it each slot holds the tile's own. The subsequence counts are the chosen dimension - window + 1 in 32 bits. The exclusion comes from the ab-join getter exactly for an ab-join, asked with `!transpose`. `cov`, `opt` and the match budget are copied either way. |
| KernelArgs.TransposeIsSwap | src/kernel_common.h:35-54 | Building the arguments transposed equals building them untransposed from the tile seen the other way round. |
| KernelArgs.TransposeSwapsOperands | src/kernel_common.h:35-54 | The two orientations hold the same operands and counts in swapped a/b slots, and the same `cov`, `opt` and match budget. |

## Left out

- Stream I/O and text formatting are not modelled: `std::ofstream`, `setprecision(10)`, `readFile`, `read_value`, `write_matrix`'s text layout and the warning printed for a dropped match. The output is modelled as sequences of records.
- ScampUtils.ConvertToEuclidean: the square root and NaN are not computed. The result is `SqrtOf(radicand)` or `NotANumber`, because floating point is not modelled.
- The IEEE-754 reinterpretation in `mp_entry` is not modelled, nor is narrowing a correlation to `float`. Correlations are exact reals.
- ProfileMerge.MergeTileToProfile: the `ASSERT` for unimplemented kinds lives in common.h, which is not part of this model. It is modelled as a throw (`Unimplemented`) with the profile untouched.
- The mutex in `MergeTileToProfile` is not modelled: merges are sequential.
- The heap order of `std::priority_queue` is not modelled. The `SCAMPmatch` comparator is not part of this model, so the queue's top is `q[0]` and where a push lands is the parameter `place`.
- Decimal.Stoi: its own contract states the range of a value read and when the argument is invalid. The value read and the out-of-range case are stated by Decimal.StoiReadsDigits.
- ProfileMerge.MatchMerge: its own contract states only the shape. What each queue holds is stated by ProfileMerge.MatchMergeEvolves, one column at a time.
- ScampUtils.ReduceAllNeighbors: it requires non-zero profile and output sizes. With a zero size the source divides by zero once a match is read. `std::ceil` on doubles is modelled as exact integer ceiling division.
- ScampUtils.ReduceAllNeighborsAsWritten: its own contract states only the shape of a finished result. What it drops, merges and where it writes outside is stated by ScampUtils.ReduceAsWrittenWide, ScampUtils.ReduceAsWrittenTall and ScampUtils.ReduceAsWrittenSquare.
- Piecewise.UpdateMp: its own contract states alignment only. The order and the stopping point are stated by Piecewise.UpdateMpFifo.
- Piecewise.ProfileToFiles: `mp_entry` is declared in common.h, which is not part of this model. Its index field is taken to be `unsigned int`, following the `-1u` stores. A negative index other than -1 therefore writes 2^32 + index + 1, not index + 1.
- Config.NewOpInfo: the width `max_tile_ts_size - mp_window + 1` is computed in plain integers. common.h, which declares the field, is not part of this model. For a window of 2^31 or more the floor is below one window, and an unsigned field would wrap that width at 2^64.
- `do_SCAMP` is a function parameter. Its numerical result is not modelled, and neither is a kernel failure.
- Piecewise.ProcessFront: the protobuf definition of `SCAMPArgs` is not part of this model. The thrown `std::length_error` assumes `window` is a 64-bit or a signed 32-bit field. With an unsigned 32-bit field, `series.size() - op.window() + 1` would wrap at 2^32, and the vector would get about 4 * 10^9 entries instead of throwing.
- The Boost.Python list conversion and the protobuf `RepeatedField` copies are plain sequences. The size `add_data` prints is left out.
- `tile.h` is not part of this model. The tile is a record of opaque handles and its exclusion getters are parameters.
- The `extras` operands of `SCAMPKernelInputArgs` are not set by the constructor and are not modelled. Its `Print` is left out.
- The CUDA and device plumbing is not modelled: `ExecInfo`, `Memcopy`, `CopyFromDevice`, `gpuAssert`.
- The `print`/`Get*String` helpers are not modelled.

## Findings

| source | as written | input that shows it | evidently intended | confidence | as-written member | corrected member |
|---|---|---|---|---|---|---|
| src/scamp_utils.cpp:39 | a match is dropped when `col >= output_height`, so the matrix column is compared with the output height | height 1, width 2, output 1 by 2, one queue holding the match (corr 0.5, row 0, col 1): its cell (0, 1) lies inside the output, yet it is dropped and the cell stays -1.0 | drop when `col >= output_width`; a match whose column is below `width` then always fits | not executed | ScampUtils.ReduceAsWrittenDropsFittingMatch | ScampUtils.ReduceAllNeighbors |

The finding has three consequences:
- When the output has fewer rows than columns, matches whose cell column lies between `output_height` and `output_width` are lost (`ScampUtils.ReduceAsWrittenWide`). The instance in the table is the smallest one.
- When the output has more rows than columns, the bound is too loose. The code writes outside a row (`ScampUtils.ReduceLoop` yields `WroteOutside`) exactly for a match described by `ScampUtils.ReduceAsWrittenTall`. Such a match has a column beyond the profile width (`ScampUtils.InProfileColumnFits`).
- For square outputs the two agree (`ScampUtils.ReduceAsWrittenSquare`).
