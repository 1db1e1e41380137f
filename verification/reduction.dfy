/** The summation of a rank's block into one number and the sum-reduction of
    the per-rank numbers at rank 0, together with the facts that make the
    result the total of the full N x N distance matrix. */
module Reduction {
  import opened Partition
  import opened TiledDistance

  /** The sum of the first `cols` cells of row i of a block. */
  function RowSum(m: array2<real>, i: nat, cols: nat): real
    reads m
    requires i < m.Length0 && cols <= m.Length1
  {
    if cols == 0 then 0.0 else RowSum(m, i, cols - 1) + m[i, cols - 1]
  }

  /** The sum of every cell in the first `rows` rows of a block. */
  function GridSum(m: array2<real>, rows: nat): real
    reads m
    requires rows <= m.Length0
  {
    if rows == 0 then 0.0 else GridSum(m, rows - 1) + RowSum(m, rows - 1, m.Length1)
  }

  /** The local sum (Helios.c:171-176): every cell of the block, added up row
      by row. */
  method LocalSum(m: array2<real>) returns (localSum: real)
    ensures localSum == GridSum(m, m.Length0)
  {
    localSum := 0.0;
    var i := 0;
    while i < m.Length0
      invariant 0 <= i <= m.Length0
      invariant localSum == GridSum(m, i)
    {
      var j := 0;
      while j < m.Length1
        invariant 0 <= j <= m.Length1
        invariant localSum == GridSum(m, i) + RowSum(m, i, j)
      {
        localSum := localSum + m[i, j];
        j := j + 1;
      }
      i := i + 1;
    }
  }

  /** The sum of the first `cols` entries of row a of the full distance
      matrix. */
  function RowTotal(ds: Dataset, root: nat -> real, a: int, cols: nat): real
    requires WellFormed(ds) && 0 <= a < |ds.points| && cols <= |ds.points|
  {
    if cols == 0 then 0.0 else RowTotal(ds, root, a, cols - 1) + Distance(ds, root, a, cols - 1)
  }

  /** Every entry of a list of rows is a valid point index. */
  predicate ValidRows(ds: Dataset, rows: seq<int>)
  {
    forall i :: 0 <= i < |rows| ==> 0 <= rows[i] < |ds.points|
  }

  /** The sum of the full-matrix rows listed in `rows`, each over all N
      columns. */
  function RowsTotal(ds: Dataset, root: nat -> real, rows: seq<int>): real
    requires WellFormed(ds) && ValidRows(ds, rows)
  {
    if rows == [] then 0.0
    else RowsTotal(ds, root, rows[..|rows| - 1]) + RowTotal(ds, root, rows[|rows| - 1], |ds.points|)
  }

  /** The sum of all N x N entries of the full distance matrix. */
  function MatrixTotal(ds: Dataset, root: nat -> real): real
    requires WellFormed(ds)
  {
    RowsTotal(ds, root, Range(0, |ds.points|))
  }

  /** MPI_Reduce with MPI_SUM (Helios.c:177): the per-rank contributions
      added up in rank order. A single rank's contribution is the result
      itself, and contributions that are never negative, as sums of distances
      are, give a result that is not negative either. */
  function Reduce(contributions: seq<real>): (total: real)
    ensures |contributions| == 1 ==> total == contributions[0]
    ensures (forall r :: 0 <= r < |contributions| ==> contributions[r] >= 0.0) ==> total >= 0.0
  {
    if contributions == [] then 0.0
    else Reduce(contributions[..|contributions| - 1]) + contributions[|contributions| - 1]
  }

  /** Summing rows a and then rows b gives the same as summing a + b. */
  lemma {:induction false} RowsTotalAppend(ds: Dataset, root: nat -> real, a: seq<int>, b: seq<int>)
    requires WellFormed(ds) && ValidRows(ds, a) && ValidRows(ds, b)
    ensures ValidRows(ds, a + b)
    ensures RowsTotal(ds, root, a + b) == RowsTotal(ds, root, a) + RowsTotal(ds, root, b)
  {
    if b != [] {
      var b' := b[..|b| - 1];
      RowsTotalAppend(ds, root, a, b');
      assert (a + b)[..|a + b| - 1] == a + b';
      assert (a + b)[|a + b| - 1] == b[|b| - 1];
    } else {
      assert a + b == a;
    }
  }

  lemma {:induction false} RowSumOfFilled(m: array2<real>, ds: Dataset, root: nat -> real, i: nat, a: int, cols: nat)
    requires WellFormed(ds) && 0 <= a < |ds.points|
    requires i < m.Length0 && cols <= m.Length1 == |ds.points|
    requires forall j :: 0 <= j < cols ==> m[i, j] == Distance(ds, root, a, j)
    ensures RowSum(m, i, cols) == RowTotal(ds, root, a, cols)
  {
    if cols > 0 {
      RowSumOfFilled(m, ds, root, i, a, cols - 1);
    }
  }

  /** A block whose cell (i, j) holds the distance between point rows[i] and
      point j sums to the total of those rows of the full matrix. */
  lemma {:induction false} GridSumOfFilled(m: array2<real>, ds: Dataset, root: nat -> real, rows: seq<int>, k: nat)
    requires WellFormed(ds) && ValidRows(ds, rows)
    requires m.Length0 == |rows| && m.Length1 == |ds.points| && k <= |rows|
    requires forall i, j :: 0 <= i < |rows| && 0 <= j < |ds.points| ==> m[i, j] == Distance(ds, root, rows[i], j)
    ensures GridSum(m, k) == RowsTotal(ds, root, rows[..k])
  {
    if k > 0 {
      GridSumOfFilled(m, ds, root, rows, k - 1);
      assert rows[..k][..k - 1] == rows[..k - 1];
      RowSumOfFilled(m, ds, root, k - 1, rows[k - 1], |ds.points|);
    }
  }

  /** The contributions of ranks 0 .. k - 1, each the total of its own block,
      add up to the total of the blocks laid end to end. */
  lemma {:induction false} ReducePrefix(ds: Dataset, root: nat -> real, size: nat, contributions: seq<real>, k: nat)
    requires WellFormed(ds) && 1 <= size && k <= size == |contributions|
    requires forall r :: 0 <= r < size ==>
      contributions[r] == RowsTotal(ds, root, Block(|ds.points|, size, r))
    ensures ValidRows(ds, Blocks(|ds.points|, size, k))
    ensures Reduce(contributions[..k]) == RowsTotal(ds, root, Blocks(|ds.points|, size, k))
  {
    var n := |ds.points|;
    if k > 0 {
      var earlier, last := Blocks(n, size, k - 1), Block(n, size, k - 1);
      ReducePrefix(ds, root, size, contributions, k - 1);
      RowsTotalAppend(ds, root, earlier, last);
      assert contributions[..k][..k - 1] == contributions[..k - 1];
      calc {
        Reduce(contributions[..k]);
        Reduce(contributions[..k - 1]) + contributions[k - 1];
        RowsTotal(ds, root, earlier) + RowsTotal(ds, root, last);
        RowsTotal(ds, root, earlier + last);
      }
    }
  }

  /** The global sum landing at rank 0 is the total of the whole N x N matrix,
      with every entry counted once: the blocks of all ranks together are the
      rows 0 .. N - 1. */
  lemma ReduceIsMatrixTotal(ds: Dataset, root: nat -> real, size: nat, contributions: seq<real>)
    requires WellFormed(ds) && 1 <= size == |contributions|
    requires forall r :: 0 <= r < size ==>
      contributions[r] == RowsTotal(ds, root, Block(|ds.points|, size, r))
    ensures Reduce(contributions) == MatrixTotal(ds, root)
  {
    ReducePrefix(ds, root, size, contributions, size);
    assert contributions[..size] == contributions;
    BlocksCoverAll(|ds.points|, size);
  }

  /** The global sum is the same whatever the number of ranks. */
  lemma GlobalSumIndependentOfRankCount(ds: Dataset, root: nat -> real,
                                        size1: nat, sums1: seq<real>, size2: nat, sums2: seq<real>)
    requires WellFormed(ds) && 1 <= size1 == |sums1| && 1 <= size2 == |sums2|
    requires forall r :: 0 <= r < size1 ==> sums1[r] == RowsTotal(ds, root, Block(|ds.points|, size1, r))
    requires forall r :: 0 <= r < size2 ==> sums2[r] == RowsTotal(ds, root, Block(|ds.points|, size2, r))
    ensures Reduce(sums1) == Reduce(sums2)
  {
    ReduceIsMatrixTotal(ds, root, size1, sums1);
    ReduceIsMatrixTotal(ds, root, size2, sums2);
  }
}
