/** Two worked cases of the program: a partition with a remainder, and a
    three-point data set whose distance matrix is known by hand. */
module Scenarios {
  import opened Partition
  import opened TiledDistance
  import opened Reduction

  /** Ten points over three ranks: blocks of 3, 3 and 4 indices, the
      remainder going to the last rank only. */
  lemma PartitionOfTenOverThree()
    ensures Block(10, 3, 0) == [0, 1, 2]
    ensures Block(10, 3, 1) == [3, 4, 5]
    ensures Block(10, 3, 2) == [6, 7, 8, 9]
  {
  }

  /** The points (0,0), (3,4), (0,0): the matrix rows are [0,5,0], [5,0,5]
      and [0,5,0], so the global sum is 20 when the root maps 0 to 0 and 25
      to 5. */
  lemma ThreePointTotal(root: nat -> real)
    requires root(0) == 0.0 && root(25) == 5.0
    ensures MatrixTotal(Dataset([[0, 0], [3, 4], [0, 0]], 2), root) == 20.0
  {
    var ds := Dataset([[0, 0], [3, 4], [0, 0]], 2);
    assert SquaredDistance([0, 0], [3, 4], 2) == 25;
    assert SquaredDistance([3, 4], [0, 0], 2) == 25;
    assert SquaredDistance([0, 0], [0, 0], 2) == 0;
    assert SquaredDistance([3, 4], [3, 4], 2) == 0;
    assert RowTotal(ds, root, 0, 3) == 5.0;
    assert RowTotal(ds, root, 1, 3) == 10.0;
    assert RowTotal(ds, root, 2, 3) == 5.0;
    var rows := Range(0, 3);
    assert rows == [0, 1, 2];
    assert rows[..2] == [0, 1] && rows[..2][..1] == [0] && rows[..2][..1][..0] == [];
    assert RowsTotal(ds, root, [0]) == 5.0;
    assert RowsTotal(ds, root, [0, 1]) == 15.0;
  }
}
