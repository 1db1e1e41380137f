/** Row-range partitioning: how the N global point indices are handed out to
    the `size` ranks of the process group (rank 0 fills the index range, a
    scatter gives every rank N / size consecutive indices, and the last rank
    appends the N % size leftover indices itself). */
module Partition {

  /** The consecutive integers lo, lo + 1, ..., hi - 1. */
  function Range(lo: int, hi: int): seq<int>
    requires lo <= hi
  {
    seq(hi - lo, i => lo + i)
  }

  /** localRowSize of a rank: N / size rows, plus the remainder N % size for
      the last rank. No rank gets more than N rows, and the last rank's extra
      rows are fewer than the number of ranks. */
  function RowCount(n: nat, size: nat, rank: nat): (count: nat)
    requires size >= 1 && rank < size
    ensures n / size <= count <= n
    ensures count - n / size < size
  {
    MulMonotone(1, size, n / size);
    assert n == size * (n / size) + n % size;
    if rank == size - 1 && n % size != 0 then n / size + n % size else n / size
  }

  /** The global indices a rank is meant to own: RowCount consecutive indices
      starting at rank * (N / size). */
  function Block(n: nat, size: nat, rank: nat): (block: seq<int>)
    requires size >= 1 && rank < size
    ensures |block| == RowCount(n, size, rank)
    ensures forall i :: 0 <= i < |block| ==> 0 <= block[i] < n
  {
    BlockBounds(n, size, rank);
    Range(BlockStart(n, size, rank), BlockStart(n, size, rank) + RowCount(n, size, rank))
  }

  /** Where a rank's block starts: rank * (N / size). For a rank that exists,
      the N / size indices scattered to it from there stay below N. */
  function BlockStart(n: nat, size: nat, rank: nat): (start: nat)
    requires size >= 1 && rank < size
    ensures start + n / size <= n
  {
    SlotWithin(n, size, rank);
    rank * (n / size)
  }

  lemma SlotWithin(n: nat, size: nat, rank: nat)
    requires size >= 1 && rank < size
    ensures rank * (n / size) + n / size <= n
  {
    MulMonotone(rank + 1, size, n / size);
    assert (rank + 1) * (n / size) == rank * (n / size) + n / size;
  }

  /** The blocks of ranks 0 .. k - 1, laid end to end in rank order. */
  function Blocks(n: nat, size: nat, k: nat): seq<int>
    requires 1 <= size && k <= size
  {
    if k == 0 then [] else Blocks(n, size, k - 1) + Block(n, size, k - 1)
  }

  /** The total number of rows given to ranks 0 .. k - 1. */
  function TotalRows(n: nat, size: nat, k: nat): nat
    requires 1 <= size && k <= size
  {
    if k == 0 then 0 else TotalRows(n, size, k - 1) + RowCount(n, size, k - 1)
  }

  lemma RangeAppend(lo: int, mid: int, hi: int)
    requires lo <= mid <= hi
    ensures Range(lo, mid) + Range(mid, hi) == Range(lo, hi)
  {
    var a, b := Range(lo, mid) + Range(mid, hi), Range(lo, hi);
    assert |a| == |b|;
    forall i | 0 <= i < |a| ensures a[i] == b[i] {
      if i < mid - lo {
        assert a[i] == Range(lo, mid)[i];
      } else {
        assert a[i] == Range(mid, hi)[i - (mid - lo)];
      }
    }
  }

  lemma MulMonotone(a: nat, b: nat, c: nat)
    requires a <= b
    ensures a * c <= b * c
  {
  }

  /** Every rank's block lies inside [0, N): a non-last rank ends where the next
      one starts, and the last rank ends exactly at N. */
  lemma BlockBounds(n: nat, size: nat, rank: nat)
    requires 1 <= size && rank < size
    ensures rank < size - 1 ==> BlockStart(n, size, rank) + RowCount(n, size, rank) == BlockStart(n, size, rank + 1)
    ensures rank == size - 1 ==> BlockStart(n, size, rank) + RowCount(n, size, rank) == n
    ensures BlockStart(n, size, rank) + RowCount(n, size, rank) <= n
    ensures BlockStart(n, size, rank) + n / size <= n
  {
    var w := n / size;
    assert n == size * w + n % size;
    MulMonotone(rank + 1, size, w);
    assert (rank + 1) * w == rank * w + w;
    if rank == size - 1 {
      assert rank * w + w == size * w;
    }
  }

  /** Laying the blocks of ranks 0 .. k - 1 end to end gives the consecutive
      indices from 0 up to where rank k starts (or up to N once every rank is
      included). */
  lemma {:induction false} BlocksPrefix(n: nat, size: nat, k: nat)
    requires 1 <= size && k <= size
    ensures k < size ==> Blocks(n, size, k) == Range(0, k * (n / size))
    ensures k == size ==> Blocks(n, size, k) == Range(0, n)
  {
    var w := n / size;
    if k > 0 {
      BlocksPrefix(n, size, k - 1);
      assert Blocks(n, size, k - 1) == Range(0, (k - 1) * w);
      BlockBounds(n, size, k - 1);
      assert (k - 1) * w + w == k * w;
      RangeAppend(0, (k - 1) * w, (k - 1) * w + RowCount(n, size, k - 1));
    }
  }

  /** The blocks of all ranks, in rank order, are exactly 0, 1, ..., N - 1:
      together they form a complete cover of [0, N) without overlap. */
  lemma BlocksCoverAll(n: nat, size: nat)
    requires size >= 1
    ensures Blocks(n, size, size) == Range(0, n)
  {
    BlocksPrefix(n, size, size);
  }

  /** The block sizes add up to N. */
  lemma {:induction false} BlockSizesSum(n: nat, size: nat)
    requires size >= 1
    ensures TotalRows(n, size, size) == n
  {
    BlocksCountRows(n, size, size);
    BlocksCoverAll(n, size);
  }

  lemma {:induction false} BlocksCountRows(n: nat, size: nat, k: nat)
    requires 1 <= size && k <= size
    ensures |Blocks(n, size, k)| == TotalRows(n, size, k)
  {
    if k > 0 {
      BlocksCountRows(n, size, k - 1);
    }
  }

  /** An index lies in the concatenated blocks of ranks below k exactly when it
      lies in the block of one of those ranks. */
  lemma {:induction false} InBlocks(n: nat, size: nat, k: nat, x: int)
    requires 1 <= size && k <= size
    ensures x in Blocks(n, size, k) <==> exists r :: 0 <= r < k && x in Block(n, size, r)
  {
    if k > 0 {
      InBlocks(n, size, k - 1, x);
      assert Blocks(n, size, k) == Blocks(n, size, k - 1) + Block(n, size, k - 1);
      if x in Block(n, size, k - 1) {
        assert x in Blocks(n, size, k);
      }
    }
  }

  /** Every index 0 <= x < N is owned by some rank, and every index a rank owns
      is in [0, N). */
  lemma BlocksCover(n: nat, size: nat, x: int)
    requires size >= 1
    ensures (0 <= x < n) <==> exists r :: 0 <= r < size && x in Block(n, size, r)
  {
    InBlocks(n, size, size, x);
    BlocksCoverAll(n, size);
    if 0 <= x < n {
      assert Range(0, n)[x] == x;
    }
  }

  /** No index is owned by two different ranks: the blocks of lower ranks lie
      entirely below the blocks of higher ranks. */
  lemma BlocksDisjoint(n: nat, size: nat, r1: nat, r2: nat, x: int, y: int)
    requires size >= 1 && r1 < r2 < size
    requires x in Block(n, size, r1) && y in Block(n, size, r2)
    ensures x < y
  {
    var w := n / size;
    BlockBounds(n, size, r1);
    MulMonotone(r1 + 1, r2, w);
    assert (r1 + 1) * w <= r2 * w;
  }

  /** Rank 0's index buffer (Helios.c:106-111): range[i] = i for every i < N. */
  method InitRange(n: nat) returns (range: array<int>)
    ensures fresh(range)
    ensures range.Length == n
    ensures range[..] == Range(0, n)
  {
    range := new int[n];
    var i := 0;
    while i < n
      invariant 0 <= i <= n
      invariant forall k :: 0 <= k < i ==> range[k] == k
    {
      range[i] := i;
      i := i + 1;
    }
  }

  /** What rank `rank` ends up with in localRange (Helios.c:113-130): the
      scatter from the root's buffer `rootRange` delivers the slice
      [rank * w, rank * w + w) with w = N / size, and the last rank, when N is
      not a multiple of size, extends it by N % size indices, each one more
      than the one before. The extension starts by reading localRange[w - 1],
      so there it needs w >= 1. */
  method ReceiveBlock(rootRange: seq<int>, n: nat, size: nat, rank: nat) returns (localRange: array<int>)
    requires size >= 1 && rank < size
    requires |rootRange| == n
    requires rank == size - 1 && n % size != 0 ==> n / size >= 1
    ensures fresh(localRange)
    ensures localRange.Length == RowCount(n, size, rank)
    ensures localRange.Length >= n / size
    ensures localRange[..n / size] == rootRange[BlockStart(n, size, rank) .. BlockStart(n, size, rank) + n / size]
    ensures forall i :: n / size <= i < localRange.Length ==> localRange[i] == localRange[n / size - 1] + (i - n / size + 1)
    ensures rootRange == Range(0, n) ==> localRange[..] == Block(n, size, rank)
  {
    BlockBounds(n, size, rank);
    var workloadSize := n / size;
    var localRowSize := n / size;
    if rank == size - 1 && n % size != 0 {
      localRowSize := n / size + n % size;
    }
    var start := BlockStart(n, size, rank);
    var scattered := rootRange[start .. start + workloadSize];
    localRange := new int[localRowSize](i requires 0 <= i < localRowSize =>
      if i < |scattered| then scattered[i] else 0);
    if rank == size - 1 && n % size != 0 {
      var i := workloadSize;
      while i < localRowSize
        invariant workloadSize <= i <= localRowSize
        invariant localRange[..workloadSize] == scattered
        invariant forall k :: workloadSize <= k < i ==> localRange[k] == localRange[workloadSize - 1] + (k - workloadSize + 1)
      {
        localRange[i] := localRange[i - 1] + 1;
        i := i + 1;
      }
    }
    if rootRange == Range(0, n) {
      ReceivedIsBlock(localRange[..], n, size, rank);
    }
  }

  /** A received range whose first N / size entries are the rank's slice of
      0, 1, ..., N - 1 and whose remaining entries each exceed the previous
      one by 1 is exactly the rank's block. */
  lemma {:induction false} ReceivedIsBlock(local: seq<int>, n: nat, size: nat, rank: nat)
    requires size >= 1 && rank < size
    requires |local| == RowCount(n, size, rank)
    requires |local| > n / size ==> n / size >= 1
    requires local[..n / size] == Range(0, n)[BlockStart(n, size, rank) .. BlockStart(n, size, rank) + n / size]
    requires forall i :: n / size <= i < |local| ==> local[i] == local[n / size - 1] + (i - n / size + 1)
    ensures local == Block(n, size, rank)
  {
    var w, start := n / size, BlockStart(n, size, rank);
    forall i | 0 <= i < w ensures local[i] == start + i {
      assert local[i] == local[..w][i];
    }
    forall i | w <= i < |local| ensures local[i] == start + i {
      assert local[w - 1] == start + w - 1;
    }
    assert local == Range(start, start + |local|);
  }
}
