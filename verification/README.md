# Helios distance matrix: a verified model of its core

Helios computes the full pairwise Euclidean distance matrix of N points in
DIM dimensions. The work is spread over an MPI process group of `size`
ranks, and within each rank over OpenMP threads. Each rank sums its part,
and the per-rank sums are reduced to one global total at rank 0. This
project models the three algorithmic pieces of `main` in
`Source/Helios.c` as sequential Dafny code:

- **Row-range partitioning** (module `Partition`, `partition.dfy`). Rank 0
  fills `range[i] = i`. Every rank computes its `localRowSize`. A scatter
  hands rank `r` the slice `[r*w, r*w + w)` with `w = N / size`. The last
  rank then appends `N % size` further consecutive indices. The lemmas prove
  that, in rank order, the blocks are exactly `0, 1, ..., N-1`. So they are
  pairwise disjoint, they cover `[0, N)`, and their sizes add up to N.
- **Tiled fill of the local distance block** (module `TiledDistance`,
  `tiled_distance.dfy`). This is the four-deep loop nest. Row tiles have
  `stepSize = min(localRowSize, tileSize)` rows and column tiles have
  `tileSize` columns, both clamped to the true extent. The innermost loop
  over the DIM coordinates is its own method. The loop nest is proved to
  write every cell of the `localRowSize x N` block. Each cell holds the
  distance between point `localRange[i]` and point `j`, so the block does
  not depend on the tile size.
- **Local and global summation** (module `Reduction`, `reduction.dfy`). The
  row-major local sum is modelled, and `MPI_Reduce` with `MPI_SUM` becomes
  the sum of the per-rank contributions. Together with the partition, the
  global sum equals the total of all N x N entries. No triangular halving
  takes place.

Module `Helios` (`helios.dfy`) chains the pieces for one rank, and then
runs every rank and reduces their sums. The ranks run one after another
there, since they share nothing but the data set. Module `Scenarios`
(`scenarios.dfy`) proves two worked cases.

Coordinates are integers. A cell holds `root(SquaredDistance(p, q, DIM))`.
Here `root: nat -> real` is a parameter that stands for the C library's
`sqrt`, and nothing is assumed about it except where a lemma states its
requirement (for example `root(0) == 0.0` for a zero diagonal). Sums are
exact `real` sums.

Preconditions and shapes that come from the code:

- **Short last rank.** The last rank's extension starts by reading
  `localRange[w - 1]`. When `N < size`, then `w = 0`, and the code reads
  `localRange[-1]` (Helios.c:128-129). So `ReceiveBlock` and
  `RankLocalSum` require `w >= 1` on the last rank whenever `N % size != 0`.
- **Other ranks.** Only the last rank reads `localRange[w - 1]`
  (Helios.c:128-129), so only it needs `N >= size`. Other ranks may have
  `N < size`; they get empty blocks.
- **Tile size.** `tileSize` is never validated. For `tileSize < 1`, a rank
  with at least one row never leaves the row and column loops
  (Helios.c:143-149). A rank with an empty block never enters them and
  finishes with an empty matrix for any tile size. So `FillTiled` requires
  `tileSize >= 1` only when its block is not empty, `RankLocalSum` only when
  the rank has rows, and `GlobalSum` only when N >= 1.
- **Column tiles.** A column tile is exactly `tileSize` columns, clamped at N
  (Helios.c:145, 149).

## Model

| member | source | states |
|---|---|---|
| `Partition.RowCount` | Source/Helios.c:113-117 | a rank's localRowSize lies between N/size and N, and the last rank's extra N%size rows are fewer than the number of ranks |
| `Partition.InitRange` | Source/Helios.c:106-111 | rank 0's buffer is freshly allocated, has N entries and holds exactly 0, 1, ..., N-1 |
| `Partition.BlockStart` | Source/Helios.c:123-124 | rank r's scattered slice starts at r*(N/size), and for every existing rank its N/size entries stay below N |
| `Partition.Block` | Source/Helios.c:113-130 | a rank's intended block has localRowSize entries (N/size, plus N%size on the last rank when there is a remainder), all of them indices in [0, N) |
| `Partition.ReceiveBlock` | Source/Helios.c:113-130 | localRange is freshly allocated and has localRowSize entries; its first N/size entries are the root buffer's slice [r*w, r*w+w); each appended entry continues the last scattered one consecutively; fed rank 0's range, it is exactly the rank's block |
| `Partition.ReceivedIsBlock` | Source/Helios.c:123-129 | a received slice of 0..N-1 extended one by one is the consecutive run of indices starting at r*(N/size) |
| `Partition.BlockBounds` | Source/Helios.c:113-124 | a non-last rank's block ends where the next rank's begins; the last rank's block ends exactly at N |
| `Partition.BlocksPrefix` | Source/Helios.c:113-130 | the blocks of ranks below k, laid end to end, are 0 .. k*(N/size)-1, and all ranks together give 0 .. N-1 |
| `Partition.BlocksCoverAll` | Source/Helios.c:106-130 | the blocks of all ranks in rank order are exactly 0, 1, ..., N-1 |
| `Partition.BlockSizesSum` | Source/Helios.c:113-120 | the localRowSize values of all ranks add up to N |
| `Partition.BlocksCover` | Source/Helios.c:113-130 | an index is owned by some rank if and only if it lies in [0, N) |
| `Partition.BlocksDisjoint` | Source/Helios.c:113-130 | every index of a lower rank's block is below every index of a higher rank's block, so no index is owned twice |
| `TiledDistance.SquaredDistanceZeroIff` | Source/Helios.c:151-155 | the accumulated squared difference is 0 if and only if the two points agree on all DIM coordinates |
| `TiledDistance.SquaredDistanceSymmetric` | Source/Helios.c:151-155 | the accumulated squared difference is the same with the two points swapped |
| `TiledDistance.Distance` | Source/Helios.c:150-157 | a cell is the root of the squared distance between its two points, the same with the points swapped, and the root of 0 for two equal points |
| `TiledDistance.DiagonalIsZero` | Source/Helios.c:150-157 | a point's cell against itself is exactly 0 when the root of 0 is 0 |
| `TiledDistance.DistanceSymmetric` | Source/Helios.c:150-157 | cell (a, b) equals cell (b, a), whichever rank computes each |
| `TiledDistance.SquaredDistanceOf` | Source/Helios.c:151-156 | the k-loop yields the sum over all DIM coordinates of the squared differences, which is 0 exactly when the points are equal |
| `TiledDistance.FillTiled` | Source/Helios.c:138-161 | the result is a freshly allocated localRowSize x N matrix; for every tile size >= 1 (any tile size when the block is empty) the nest writes every cell of the localRowSize x N block in bounds, and cell (i, j) is the distance between points localRange[i] and j; cell (i, localRange[i]) is 0 when the root of 0 is 0 |
| `Reduction.LocalSum` | Source/Helios.c:171-176 | the row-major accumulation equals the sum of all localRowSize x N cells of the block |
| `Reduction.RowsTotalAppend` | Source/Helios.c:171-177 | splitting a list of rows in two and adding the two totals gives the total of the whole list |
| `Reduction.RowSumOfFilled` | Source/Helios.c:174-175 | a block row holding the distances from one point sums to that point's row total in the full matrix |
| `Reduction.GridSumOfFilled` | Source/Helios.c:171-176 | a filled block sums to the total of the full-matrix rows it was computed for |
| `Reduction.Reduce` | Source/Helios.c:177 | the per-rank contributions added up in rank order; one rank's contribution is the result itself, and non-negative contributions give a non-negative sum |
| `Reduction.ReducePrefix` | Source/Helios.c:177 | the contributions of ranks 0..k-1 add up to the total of their blocks laid end to end |
| `Reduction.ReduceIsMatrixTotal` | Source/Helios.c:177 | the global sum at rank 0 equals the sum of all N x N entries of the full matrix |
| `Reduction.GlobalSumIndependentOfRankCount` | Source/Helios.c:113-177 | the global sum is the same for any two rank counts |
| `Helios.RankLocalSum` | Source/Helios.c:104-176 | a rank's local sum, for any tile size >= 1 (any tile size when the rank has no rows), is the total of the full-matrix rows it owns |
| `Helios.GlobalSum` | Source/Helios.c:104-177 | running every rank and reducing their local sums gives the total of all N x N entries, for any rank count and any tile size >= 1 (any tile size when N = 0) |
| `Scenarios.PartitionOfTenOverThree` | Source/Helios.c:113-130 | N = 10 over 3 ranks gives blocks 0..2, 3..5 and 6..9 |
| `Scenarios.ThreePointTotal` | Source/Helios.c:138-177 | the points (0,0), (3,4), (0,0) give a full-matrix total of 20 |

## Left out

- `importDataSet` (Helios.c:14-47): this is file reading and `%lf` parsing. The data set is a parameter: a `Dataset` of integer points, each with exactly DIM coordinates.
- Command-line parsing and its validation (Helios.c:63-82): N, DIM and tile size arrive as parameters. The model does not need N >= 1 or DIM >= 1.
- MPI runtime setup and teardown (`MPI_Init_thread`, `MPI_Comm_rank`, `MPI_Comm_size`, `MPI_Finalize`). `MPI_Scatter` is modelled as a slice of rank 0's buffer. `MPI_Reduce` is modelled as `Reduce`, a sum over the per-rank contributions. No messages are modelled.
- OpenMP: the thread count (`omp_set_num_threads`) and the parallel row-tile loop (Helios.c:142) are not modelled. The loop nest runs sequentially. Each cell's value depends only on its own row and column, which `FillTiled` states, so the order in which row tiles run cannot change the block.
- Floating point: `sqrt` is the parameter `root`, with no properties beyond those a lemma requires. Double accumulation and its rounding (Helios.c:155, 175) are replaced by exact integer and real arithmetic. As a result, the triangle inequality of the distance is not stated.
- Wall-clock timing and printing (Helios.c:100-101, 164-168, 178-181).
- `malloc`/`free` (Helios.c:87-91, 106, 118-120, 133-137, 184-195): `range`, `localRange` and `distanceMatrix` are Dafny arrays allocated where the code allocates them (Helios.c:106, 118-120, 133-137); the data set is a value parameter, so its allocation and release are not modelled.
