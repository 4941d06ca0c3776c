# Parallel longest common subsequence: a verified model

The modelled system computes the length of a longest common subsequence (LCS)
of two symbol sequences, and in two of its three variants the subsequence
itself. It fills the usual dynamic-programming table in parallel. All three
variants use the same recurrence; they differ in how they split the table:

- **Column solver** (`lcs_parallel_columns.cpp`). The columns are split into
  load-balanced bands, one per thread, and each thread fills its band row by
  row. Reconstruction walks back from the corner and steps up on ties (`>=`).
- **Diagonal solver** (`lcs_parallel_diagonal.cpp`). Each anti-diagonal is cut
  into chunks of ceil(size / T) cells, one per thread, with a barrier after every
  diagonal. Reconstruction steps up only when the up cell is strictly larger (`>`).
- **Distributed solver** (`lcs_mpi.cpp`). The columns are split among
  processes ("ranks"). Each rank keeps two rows of its band. For every row it
  receives the cell left of its band from the rank before it, fills its band, and
  sends its last cell to the rank after it. The last rank's last cell is the
  length. Its input reader drops every `,` from the two input lines.

The model has one module per concern:

- `Recurrence` (recurrence.dfy) states the table once, as the recursive
  function `Table`, together with the step invariants every filled cell keeps.
  It proves that the corner is the LCS length: no common subsequence is longer,
  and the backward walk `Walk` yields a common subsequence of that length. It
  covers both tie-break rules.
- `Partition` (partition.dfy) is the load-balanced split of n columns among P
  workers that the column and distributed solvers share. It proves the split
  contiguous, covering, disjoint and balanced, and that it agrees with the
  closed formula of the distributed solver.
- `ColumnWavefront` (columns.dfy) works in place on an `array2`. It fills the
  bands in band order, proves that the filled table is exactly `Table`, and
  proves the reconstruction equal to `Walk` with ties going up.
- `DiagonalWavefront` (diagonal.dfy) works in place on an `array2`. It fills the
  diagonals in order, and within each diagonal it runs the chunks in any order,
  which may change from one diagonal to the next (`schedules`). It proves that every in-grid cell is written by exactly one
  (diagonal, thread) pair, that no chunk reaches outside the grid, that the table
  is exactly `Table`, and that the reconstruction is `Walk` with ties going left.
- `DistributedPipeline` (pipeline.dfy) models each rank as a program over the
  stream of values it receives, with its two row buffers as arrays. It proves
  that a rank sends exactly the boundary column the next rank needs, and that
  chaining the ranks yields the table corner. It also models the comma-stripping
  input reader and its round trip with the generator's comma-joined lines.
- `Wrappers` (wrappers.dfy) holds the `Option` type used for a file that cannot
  be opened.

The three source files index the table differently:

- The column solver allocates `dp` with `|s1| + 1` rows but runs `i` over `s2`
  and `j` over `s1`, so its cell `dp[i][j]` is `Table(s2, s1, i, j)`. The fill
  stays inside the table when `|s1| == |s2|`, which is what the input generator
  produces. It also stays inside when one input is empty, because then no cell
  is written.
- The diagonal solver's cell is `Table(s1, s2, i, j)`.
- In the distributed solver, `a` gives the rows and `b` the columns.

The two thread-based solvers break ties differently during reconstruction. The
column solver steps up when the up cell is at least the left cell
(lcs_parallel_columns.cpp:115, `>=`). The diagonal solver steps up only when
the up cell is strictly larger (lcs_parallel_diagonal.cpp:104, `>`). The model
follows each file as written. `Recurrence.TieBreaksCanDiffer` shows an input on
which the two rules rebuild different subsequences.

## Model

| member | source | states |
|---|---|---|
| `Recurrence.Table` | lcs_parallel_diagonal.cpp:63-68 | The cell recurrence (0 on the border, up-left + 1 on a match, max of up and left otherwise); a cell never exceeds either prefix length. |
| `Recurrence.TableSteps` | lcs_parallel_columns.cpp:40-47 | Every non-border cell is at least its up and its left neighbour, exceeds each by at most one, and exceeds its up-left neighbour by at most one. |
| `Recurrence.CommonSubseqBound` | lcs_parallel_diagonal.cpp:111 | No common subsequence of two prefixes is longer than the table cell for those prefixes. |
| `Recurrence.Walk` | lcs_parallel_columns.cpp:108-120 | The backward walk with either tie-break rule has exactly as many symbols as the cell it starts from. |
| `Recurrence.WalkIsCommonSubseq` | lcs_parallel_diagonal.cpp:97-110 | Whatever the tie-break rule, the walk's output is a subsequence of both prefixes. |
| `Recurrence.CornerIsLcsLength` | lcs_parallel_diagonal.cpp:97-111 | The corner is the LCS length: the walk from it gives a common subsequence of that length, and no common subsequence is longer. |
| `Recurrence.TieBreaksCanDiffer` | lcs_parallel_columns.cpp:115 | On "AB" and "BA", stepping up on ties (`>=`) rebuilds "A", while stepping up only on a strictly larger cell (`>`) rebuilds "B". |
| `Recurrence.Reverse` | lcs_parallel_columns.cpp:123 | The reversal keeps the length and puts the k-th symbol from the end at position k. |
| `Partition.BandStartClosedForm` | lcs_mpi.cpp:75-84 | The band start written as the sum of the widths of earlier bands equals the closed formula r*(q+1) for r < n%P, and (n%P)*(q+1)+(r-n%P)*q otherwise, where q = n/P. |
| `Partition.BandsCover` | lcs_parallel_columns.cpp:82-96 | The first band starts at column 0, the last band ends at column n-1, and band P would start at n: every column is handed out. |
| `Partition.BandStartMonotone` | lcs_mpi.cpp:75-84 | Band starts never decrease with the worker index. |
| `Partition.BandBounds` | lcs_mpi.cpp:75-84 | Every band lies within the columns 0..n-1; it may be empty, but its end is never more than one before its start. |
| `Partition.BandsDisjoint` | lcs_mpi.cpp:75-84 | A lower-numbered worker's band ends before a higher-numbered worker's band starts. |
| `Partition.Owner` | lcs_mpi.cpp:75-84 | For a column at or before band r's end, it returns a worker at or below r whose band holds the column. |
| `Partition.ColumnOwnedOnce` | lcs_mpi.cpp:75-84 | Every column 0 <= c < n lies in the band of exactly one worker below P. |
| `ColumnWavefront.ColumnBands` | lcs_parallel_columns.cpp:82-96 | The computed 1-based bounds are the partition's bands shifted by one: the first band starts at 1, the last ends at n, each starts right after the one before, and all lie within 1..n+1. |
| `ColumnWavefront.FillBand` | lcs_parallel_columns.cpp:40-47 | One thread's rows 1..m over its band: if every column left of the band is finished, the band's columns are finished afterwards, and no cell outside the band's rows 1..m changes. |
| `ColumnWavefront.FillBands` | lcs_parallel_columns.cpp:86-106 | Running the threads' bands in band order turns a zeroed table into exactly the recurrence table, and leaves row 0 and column 0 at 0. |
| `ColumnWavefront.FinishedTableInvariant` | lcs_parallel_columns.cpp:80 | On the finished table, row 0 and column 0 are still 0, and every cell keeps the step invariant towards its up, left and up-left cells. |
| `ColumnWavefront.Reconstruct` | lcs_parallel_columns.cpp:108-123 | The walk over the finished table, followed by the reversal, is exactly `Walk` with ties going up. |
| `ColumnWavefront.Solve` | lcs_parallel_columns.cpp:69-125 | With equal lengths or one empty input, 1 <= T <= m when m >= 1, and T = 1 when m = 0: the reported length is the table corner, the string is `Walk` with ties going up, it is a common subsequence of that length, and no common subsequence is longer; an empty input gives (0, ""). |
| `DiagonalWavefront.DiagonalRange` | lcs_parallel_diagonal.cpp:51-52 | Row x lies in [base_start, base_end] exactly when cell (x, d-x+1) is a non-border grid cell. |
| `DiagonalWavefront.DiagonalSize` | lcs_parallel_diagonal.cpp:47 | The size is base_end - base_start + 1. It is never negative on the diagonals 1..n+m-1, and it is at least one there when both inputs are non-empty. |
| `DiagonalWavefront.ChunkSizeIsCeiling` | lcs_parallel_diagonal.cpp:48 | The chunk length is ceil(size / T): T chunks cover the diagonal, and a chunk is non-empty when the diagonal is. |
| `DiagonalWavefront.ChunkWithinDiagonal` | lcs_parallel_diagonal.cpp:55-56 | Every thread's slice lies within [base_start, base_end + 1), holds at most chunkSize cells, and contains only in-grid cells. |
| `DiagonalWavefront.Owner` | lcs_parallel_diagonal.cpp:55-56 | Every in-grid cell of a diagonal lies in the slice of some thread below T. |
| `DiagonalWavefront.SliceIndex` | lcs_parallel_diagonal.cpp:48-56 | An offset below the diagonal's size falls in slice offset / chunkSize, which is below T. |
| `DiagonalWavefront.ChunksDisjoint` | lcs_parallel_diagonal.cpp:55-56 | No two threads' slices of one diagonal share a row. |
| `DiagonalWavefront.CellWrittenOnce` | lcs_parallel_diagonal.cpp:31-73 | Each non-border cell (x, y) is written on diagonal x+y-1 by its owner, and by no other (diagonal, thread) pair. |
| `DiagonalWavefront.FillSlice` | lcs_parallel_diagonal.cpp:59-70 | If the diagonals before d are finished, a slice within the diagonal's range is finished afterwards, and no other cell changes. |
| `DiagonalWavefront.FillChunk` | lcs_parallel_diagonal.cpp:47-70 | A thread's share of a diagonal: if earlier diagonals are finished, every cell in its slice is finished afterwards, and no other cell changes. |
| `DiagonalWavefront.FillDiagonals` | lcs_parallel_diagonal.cpp:31-73 | Running the diagonals in order, with the threads' slices within each diagonal in an order chosen separately for that diagonal, turns a zeroed table into exactly the recurrence table. |
| `DiagonalWavefront.Reconstruct` | lcs_parallel_diagonal.cpp:97-110 | The walk over the finished table, followed by the reversal, is exactly `Walk` with ties going left. |
| `DiagonalWavefront.Solve` | lcs_parallel_diagonal.cpp:76-112 | For T >= 1 and any per-diagonal schedules: the length is the corner, the string is `Walk` with ties going left, it is a longest common subsequence, and an empty input gives (0, ""). |
| `DistributedPipeline.RankBand` | lcs_mpi.cpp:75-84 | The rank's [start, end] is the partition's band, holding n/P + 1 columns for the first n%P ranks and n/P columns for the rest. |
| `DistributedPipeline.FillRow` | lcs_mpi.cpp:109-115 | Given the previous row in one buffer and the left boundary cell in slot 0 of the other, the second buffer ends up holding the current row's cells start+k. |
| `DistributedPipeline.RunRank` | lcs_mpi.cpp:90-124 | A rank that receives its left boundary column sends exactly the next rank's left boundary column (the last rank sends nothing), and its last cell is the cell of row m at its band's last column. A rank with an empty band forwards what it receives unchanged. |
| `DistributedPipeline.Pipeline` | lcs_mpi.cpp:94-129 | Chaining ranks 0..P-1 makes the last rank's last cell equal to the full table corner, which is the LCS length; the result is 0 when a is empty. |
| `DistributedPipeline.WithoutCommas` | lcs_mpi.cpp:21-36 | The converted line contains no ',' and is no longer than the line. |
| `DistributedPipeline.WithoutCommasKeepsLetters` | lcs_mpi.cpp:22-26 | The conversion only deletes: the result is a subsequence of the line and holds every other symbol exactly as often as the line does. |
| `DistributedPipeline.StripCommas` | lcs_mpi.cpp:22-26 | The append loop builds exactly the line with its commas removed. |
| `DistributedPipeline.ReadSequences` | lcs_mpi.cpp:10-37 | A file that cannot be opened gives two empty sequences; otherwise line 1 gives a and line 2 gives b with commas removed, and a missing line leaves its sequence empty. |
| `DistributedPipeline.JoinWithCommas` | inputs/generator.py:14 | A generator line for k >= 1 letters has 2k-1 symbols. |
| `DistributedPipeline.JoinWithCommasLayout` | inputs/generator.py:14 | A generator line holds the letters at its even positions and ',' at its odd positions. |
| `DistributedPipeline.CommaJoinRoundTrip` | lcs_mpi.cpp:21-36 | Reading a generator line of letters other than ',' gives back exactly those letters. |

## Left out

- `main` in all three files: option parsing, file opening, timers and output.
  The input file is a parameter of `ReadSequences`, given as its lines.
- Threads and barriers are not modelled as concurrency, and the barrier class
  (`core/utils.h`) is not part of this model.
  - The column solver's ladder schedule, with a barrier every `gap` rows and
    elastic thread spawning through `activeThreadID` (lines 33, 50-61), is
    modelled as running the bands one after the other, in band order. The model
    relies on the barrier to let band k fill row i only after band k-1 has filled
    it.
  - The diagonal solver's concurrent slices are modelled as the slices of one
    diagonal running one after the other, in any order, chosen separately for
    each diagonal (`schedules`).
- MPI is modelled as one sequence of values per rank pair, consumed in row
  order. The model does not cover real sends and receives (lines 69-71, 102,
  122, 133), tag matching, or deadlock. Every rank returns its last cell, but
  only rank P-1 prints it.
- `splitString` in the two thread-based files is not modelled. It is not used
  by the solvers.
- `inputs/generator.py`: only the comma-joined line layout is modelled, not the
  random letters or the file writing. A line terminator that `getline` leaves in
  the line (a `\r` from a Windows line ending) is treated as part of the line.
- The diagonal solver's unused partition variables (lcs_parallel_diagonal.cpp:85-87).
- `ColumnWavefront.Solve` requires equal lengths, or one empty input. With two
  non-empty inputs of unequal length, the fill at lines 40-47 indexes outside
  the table allocated at line 80 (undefined behaviour).
- `ColumnWavefront.Solve` requires `1 <= T <= m` when `m >= 1`. With `T == 0`,
  line 82 divides by zero. With `T > m`, the gap `m / T` of line 33 is 0 and
  line 50 divides by it.
- `ColumnWavefront.Solve` requires `T == 1` when `m == 0`. Then the row loop of
  line 40 never runs, so threads 1..T-1 are never started (lines 54-59), and
  line 105 joins a thread that was never started (`std::system_error`).
- `DiagonalWavefront.Solve` requires `T >= 1`. With `T == 0`, line 77 declares a
  zero-length thread array and line 85 divides by zero.
- `DistributedPipeline.Pipeline` requires `P >= 1`, as MPI guarantees.
- `ColumnWavefront.ColumnBands` does not restate each band's width. The widths
  follow from `Partition.Width` and are stated by `DistributedPipeline.RankBand`.
- Machine integers: the model uses unbounded integers. The sources use 32-bit
  `int`, and `uint` in the band arithmetic. On the inputs the solvers accept,
  every value is at most n + m + T in absolute value, where T is the number of
  threads or processes. The largest are the diagonal solver's
  `size + number_of_threads - 1` (lcs_parallel_diagonal.cpp:48) and
  `threadID * chunkSize` (lcs_parallel_diagonal.cpp:55). Some `int` values are
  negative: `diagonal - m + 1` (lcs_parallel_diagonal.cpp:47, 51) on the early
  diagonals, and `end` for an empty band at lcs_mpi.cpp:83. The values that
  enter `uint` arithmetic (lcs_parallel_columns.cpp:82-95,
  lcs_parallel_diagonal.cpp:85-87) are never negative. Nothing wraps around
  while n + m + T < 2^31.
- `ColumnWavefront.Solve` assumes that both inputs stay readable for as long as
  any worker runs. The source does not guarantee this when T >= 2. lcs_parallel_columns.cpp:101
  hands thread 0 its own copies of s1 and s2. Lines 57-58 hand every later
  thread references to the spawning thread's parameters, so in the end
  references to thread 0's copies. Thread 0 returns after its band (line 65),
  while the later bands are still reading `s1[j - 1]` and `s2[i - 1]` at
  line 42. Those reads of destroyed strings are undefined behaviour. The model
  gives every worker the caller's s1 and s2.
