/** One rank's run of the distance-matrix program, from its share of the row
    range to the local sum it contributes to the reduction. */
module Helios {
  import opened Partition
  import opened TiledDistance
  import opened Reduction

  /** The work of rank `rank` out of `size` (Helios.c:104-176): rank 0's range
      is scattered, the last rank extends its slice, the rank fills its block
      of the distance matrix tile by tile, and sums the block. The sum is the
      total of the full-matrix rows the rank owns, for every tile size. */
  method RankLocalSum(ds: Dataset, root: nat -> real, size: nat, rank: nat, tileSize: int)
    returns (localSum: real)
    requires WellFormed(ds)
    requires size >= 1 && rank < size
    requires rank == size - 1 && |ds.points| % size != 0 ==> |ds.points| / size >= 1
    requires RowCount(|ds.points|, size, rank) > 0 ==> tileSize >= 1
    ensures localSum == RowsTotal(ds, root, Block(|ds.points|, size, rank))
  {
    var n := |ds.points|;
    var range := InitRange(n);
    var localRange := ReceiveBlock(range[..], n, size, rank);
    var distanceMatrix := FillTiled(ds, root, localRange[..], tileSize);
    localSum := LocalSum(distanceMatrix);
    GridSumOfFilled(distanceMatrix, ds, root, localRange[..], localRange.Length);
    assert localRange[..][..localRange.Length] == localRange[..];
  }

  /** The whole run (Helios.c:104-177): every rank computes its local sum, and
      the sum-reduction to rank 0 adds them up. The ranks run concurrently in
      the program; here they run one after another, which cannot change the
      exact sum. The global sum is the total of all N x N entries, whatever
      the tile size and the number of ranks. */
  method GlobalSum(ds: Dataset, root: nat -> real, size: nat, tileSize: int) returns (globalSum: real)
    requires WellFormed(ds)
    requires size >= 1
    requires |ds.points| % size != 0 ==> |ds.points| / size >= 1
    requires |ds.points| > 0 ==> tileSize >= 1
    ensures globalSum == MatrixTotal(ds, root)
  {
    var n := |ds.points|;
    var sums: seq<real> := [];
    var rank := 0;
    while rank < size
      invariant 0 <= rank <= size && |sums| == rank
      invariant forall r :: 0 <= r < rank ==> sums[r] == RowsTotal(ds, root, Block(n, size, r))
    {
      var localSum := RankLocalSum(ds, root, size, rank, tileSize);
      sums := sums + [localSum];
      rank := rank + 1;
    }
    globalSum := Reduce(sums);
    ReduceIsMatrixTotal(ds, root, size, sums);
  }
}
