/** The tiled computation of a rank's block of the distance matrix: for every
    local row i and every global column j, the distance between the point the
    rank owns at position i and the j-th point of the data set. Coordinates
    are integers; the square root applied to each cell is the parameter
    `root`, about which nothing is assumed unless a lemma says so. */
module TiledDistance {

  /** The data set: N points, each with DIM coordinates. */
  datatype Dataset = Dataset(points: seq<seq<int>>, dim: nat)

  /** Every point carries exactly DIM coordinates. */
  predicate WellFormed(ds: Dataset)
  {
    forall p :: 0 <= p < |ds.points| ==> |ds.points[p]| == ds.dim
  }

  function Square(x: int): nat
  {
    x * x
  }

  /** The sum of (p[k] - q[k])^2 over the first `dim` coordinates: the value
      whose square root is the Euclidean distance between p and q. */
  function SquaredDistance(p: seq<int>, q: seq<int>, dim: nat): nat
    requires dim <= |p| && dim <= |q|
  {
    if dim == 0 then 0 else SquaredDistance(p, q, dim - 1) + Square(p[dim - 1] - q[dim - 1])
  }

  /** The squared distance is zero exactly when the points agree on every
      coordinate considered. */
  lemma {:induction false} SquaredDistanceZeroIff(p: seq<int>, q: seq<int>, dim: nat)
    requires dim <= |p| && dim <= |q|
    ensures SquaredDistance(p, q, dim) == 0 <==> p[..dim] == q[..dim]
  {
    if dim > 0 {
      SquaredDistanceZeroIff(p, q, dim - 1);
      assert p[..dim] == p[..dim - 1] + [p[dim - 1]];
      assert q[..dim] == q[..dim - 1] + [q[dim - 1]];
      if p[dim - 1] != q[dim - 1] {
        assert Square(p[dim - 1] - q[dim - 1]) > 0;
        assert p[..dim][dim - 1] != q[..dim][dim - 1];
      }
    }
  }

  /** The squared distance does not depend on the order of the two points. */
  lemma {:induction false} SquaredDistanceSymmetric(p: seq<int>, q: seq<int>, dim: nat)
    requires dim <= |p| && dim <= |q|
    ensures SquaredDistance(p, q, dim) == SquaredDistance(q, p, dim)
  {
    if dim > 0 {
      SquaredDistanceSymmetric(p, q, dim - 1);
      assert Square(p[dim - 1] - q[dim - 1]) == Square(q[dim - 1] - p[dim - 1]);
    }
  }

  /** The cell value for global points a and b (Helios.c:150-157): the root
      of their squared distance. It is the same with a and b swapped, and two
      equal points are as far apart as the root of zero. */
  function Distance(ds: Dataset, root: nat -> real, a: int, b: int): (d: real)
    requires WellFormed(ds)
    requires 0 <= a < |ds.points| && 0 <= b < |ds.points|
    ensures d == root(SquaredDistance(ds.points[b], ds.points[a], ds.dim))
    ensures ds.points[a] == ds.points[b] ==> d == root(0)
  {
    SquaredDistanceSymmetric(ds.points[a], ds.points[b], ds.dim);
    SquaredDistanceZeroIff(ds.points[a], ds.points[b], ds.dim);
    root(SquaredDistance(ds.points[a], ds.points[b], ds.dim))
  }

  /** A point's distance to itself is exactly zero, as long as the root of
      zero is zero. */
  lemma DiagonalIsZero(ds: Dataset, root: nat -> real, a: int)
    requires WellFormed(ds) && 0 <= a < |ds.points|
    requires root(0) == 0.0
    ensures Distance(ds, root, a, a) == 0.0
  {
    SquaredDistanceZeroIff(ds.points[a], ds.points[a], ds.dim);
  }

  /** The cell for (a, b) equals the cell for (b, a), whichever ranks compute
      them. */
  lemma DistanceSymmetric(ds: Dataset, root: nat -> real, a: int, b: int)
    requires WellFormed(ds)
    requires 0 <= a < |ds.points| && 0 <= b < |ds.points|
    ensures Distance(ds, root, a, b) == Distance(ds, root, b, a)
  {
    SquaredDistanceSymmetric(ds.points[a], ds.points[b], ds.dim);
  }

  /** The innermost loop of the nest (Helios.c:151-156): accumulate the squared
      coordinate differences of points a and b over all DIM dimensions. */
  method SquaredDistanceOf(ds: Dataset, a: int, b: int) returns (distance: int)
    requires WellFormed(ds)
    requires 0 <= a < |ds.points| && 0 <= b < |ds.points|
    ensures distance == SquaredDistance(ds.points[a], ds.points[b], ds.dim)
    ensures distance == 0 <==> ds.points[a] == ds.points[b]
  {
    distance := 0;
    var k := 0;
    while k < ds.dim
      invariant 0 <= k <= ds.dim
      invariant distance == SquaredDistance(ds.points[a], ds.points[b], k)
    {
      distance := distance + (ds.points[a][k] - ds.points[b][k]) * (ds.points[a][k] - ds.points[b][k]);
      k := k + 1;
    }
    SquaredDistanceZeroIff(ds.points[a], ds.points[b], ds.dim);
    assert ds.points[a][..ds.dim] == ds.points[a];
    assert ds.points[b][..ds.dim] == ds.points[b];
  }

  /** The tiled loop nest (Helios.c:138-161): rows are taken in tiles of
      stepSize = min(localRowSize, tileSize), columns in tiles of tileSize,
      and both are clamped at the true extent. Every cell of the
      localRowSize x N block is written, and it holds the distance between
      point localRange[i] and point j, whatever the tile size. */
  method FillTiled(ds: Dataset, root: nat -> real, localRange: seq<int>, tileSize: int)
    returns (distanceMatrix: array2<real>)
    requires WellFormed(ds)
    requires forall i :: 0 <= i < |localRange| ==> 0 <= localRange[i] < |ds.points|
    requires |localRange| > 0 ==> tileSize >= 1
    ensures fresh(distanceMatrix)
    ensures distanceMatrix.Length0 == |localRange| && distanceMatrix.Length1 == |ds.points|
    ensures forall i, j :: 0 <= i < |localRange| && 0 <= j < |ds.points| ==>
      distanceMatrix[i, j] == Distance(ds, root, localRange[i], j)
    ensures root(0) == 0.0 ==>
      forall i :: 0 <= i < |localRange| ==> distanceMatrix[i, localRange[i]] == 0.0
  {
    var n := |ds.points|;
    var localRowSize := |localRange|;
    distanceMatrix := new real[localRowSize, n];
    var stepSize := if localRowSize < tileSize then localRowSize else tileSize;
    var x := 0;
    while x < localRowSize
      invariant 0 <= x
      invariant forall i, j :: 0 <= i < x && i < localRowSize && 0 <= j < n ==>
        distanceMatrix[i, j] == Distance(ds, root, localRange[i], j)
      decreases localRowSize - x
    {
      var y := 0;
      while y < n
        invariant 0 <= y
        invariant forall i, j :: 0 <= i < x && i < localRowSize && 0 <= j < n ==>
          distanceMatrix[i, j] == Distance(ds, root, localRange[i], j)
        invariant forall i, j :: x <= i < x + stepSize && i < localRowSize && 0 <= j < y && j < n ==>
          distanceMatrix[i, j] == Distance(ds, root, localRange[i], j)
        decreases n - y
      {
        var i := x;
        while i < x + stepSize && i < localRowSize
          invariant x <= i <= localRowSize
          invariant forall i', j :: 0 <= i' < x && i' < localRowSize && 0 <= j < n ==>
            distanceMatrix[i', j] == Distance(ds, root, localRange[i'], j)
          invariant forall i', j :: x <= i' < x + stepSize && i' < localRowSize && 0 <= j < y && j < n ==>
            distanceMatrix[i', j] == Distance(ds, root, localRange[i'], j)
          invariant forall i', j :: x <= i' < i && y <= j < y + tileSize && j < n ==>
            distanceMatrix[i', j] == Distance(ds, root, localRange[i'], j)
          decreases localRowSize - i
        {
          var j := y;
          while j < y + tileSize && j < n
            invariant y <= j <= n
            invariant forall i', j' :: 0 <= i' < x && i' < localRowSize && 0 <= j' < n ==>
              distanceMatrix[i', j'] == Distance(ds, root, localRange[i'], j')
            invariant forall i', j' :: x <= i' < x + stepSize && i' < localRowSize && 0 <= j' < y && j' < n ==>
              distanceMatrix[i', j'] == Distance(ds, root, localRange[i'], j')
            invariant forall i', j' :: x <= i' < i && y <= j' < y + tileSize && j' < n ==>
              distanceMatrix[i', j'] == Distance(ds, root, localRange[i'], j')
            invariant forall j' :: y <= j' < j ==> distanceMatrix[i, j'] == Distance(ds, root, localRange[i], j')
            decreases n - j
          {
            var distance := SquaredDistanceOf(ds, localRange[i], j);
            distanceMatrix[i, j] := root(distance);
            j := j + 1;
          }
          i := i + 1;
        }
        y := y + tileSize;
      }
      x := x + stepSize;
    }
    if root(0) == 0.0 {
      forall i | 0 <= i < localRowSize
        ensures distanceMatrix[i, localRange[i]] == 0.0
      {
        DiagonalIsZero(ds, root, localRange[i]);
      }
    }
  }
}
