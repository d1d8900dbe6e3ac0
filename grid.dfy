/**
 * Row-major numbering of the cell grid (Generator3D.FindGridIndex).
 *
 * Cells are stored in one list in z, then y, then x order, so the cell at
 * (x, y, z) of an X by Y by Z grid sits at z*X*Y + y*X + x.
 */
module Grid {
  import opened Directions
  import opened Wrappers

  datatype Pos = Pos(x: int, y: int, z: int)

  datatype Dims = Dims(x: int, y: int, z: int)
  {
    predicate Positive()
    {
      x > 0 && y > 0 && z > 0
    }

    function Count(): int
    {
      x * y * z
    }
  }

  predicate InBounds(dims: Dims, p: Pos)
  {
    0 <= p.x < dims.x && 0 <= p.y < dims.y && 0 <= p.z < dims.z
  }

  /**
   * The list index of the cell at p; no bounds check, as in the source. The
   * x coordinate is the lowest digit of the index in base dims.x, and the
   * rest is the row number z * dims.y + y.
   */
  function FindGridIndex(dims: Dims, p: Pos): (r: int)
    ensures dims.x > 0 && 0 <= p.x < dims.x ==> r % dims.x == p.x && r / dims.x == p.z * dims.y + p.y
  {
    var i := p.z * dims.x * dims.y + p.y * dims.x + p.x;
    IndexForms(dims.x, dims.y, p.x, p.y, p.z);
    if dims.x > 0 && 0 <= p.x < dims.x then
      DivUnique(i, dims.x, p.z * dims.y + p.y, p.x);
      i
    else i
  }

  /** The position stored at list index i: the inverse of FindGridIndex. */
  function Decode(dims: Dims, i: int): Pos
    requires dims.x > 0 && dims.y > 0
  {
    Pos(i % dims.x, (i / dims.x) % dims.y, i / (dims.x * dims.y))
  }

  /** The position one step from p in direction d. */
  function Step(p: Pos, d: Direction): Pos
  {
    Pos(p.x + d.Dx(), p.y + d.Dy(), p.z + d.Dz())
  }

  lemma MulAtLeast(k: int, n: int)
    requires k >= 1 && n > 0
    ensures k * n >= n
  {
    assert k * n == (k - 1) * n + n;
  }

  /** Division by a positive number is determined by any quotient-remainder pair. */
  lemma DivUnique(c: int, n: int, q: int, r: int)
    requires n > 0 && 0 <= r < n && c == q * n + r
    ensures c / n == q && c % n == r
  {
    var q' := c / n;
    var k := q - q';
    assert k * n == c % n - r;
    if k > 0 {
      MulAtLeast(k, n);
    } else if k < 0 {
      MulAtLeast(-k, n);
    }
  }

  lemma MulMono(a: int, b: int, c: int)
    requires a <= b && c >= 0
    ensures a * c <= b * c
  {
    assert b * c - a * c == (b - a) * c;
  }

  /** A digit below its base keeps a two-digit number below the next power. */
  lemma Bounded(a: int, A: int, x: int, X: int)
    requires 0 <= a < A && 0 <= x < X
    ensures 0 <= a * X + x < A * X
  {
    MulMono(a, A - 1, X);
    MulMono(0, a, X);
    assert (A - 1) * X == A * X - X;
  }

  /** The index read as a number in the mixed radix (Z, Y, X), grouped two ways. */
  lemma IndexForms(X: int, Y: int, x: int, y: int, z: int)
    ensures z * X * Y + y * X + x == (z * Y + y) * X + x
    ensures z * X * Y + y * X + x == z * (X * Y) + (y * X + x)
  {
    assert (z * Y + y) * X == z * Y * X + y * X;
    assert z * X * Y == z * Y * X;
  }

  /** Every in-bounds position has an index inside the list, and Decode recovers it. */
  lemma IndexRoundTrip(dims: Dims, p: Pos)
    requires InBounds(dims, p)
    ensures 0 <= FindGridIndex(dims, p) < dims.Count()
    ensures Decode(dims, FindGridIndex(dims, p)) == p
  {
    var X, Y, Z := dims.x, dims.y, dims.z;
    var i := FindGridIndex(dims, p);
    var a := p.z * Y + p.y;
    var b := p.y * X + p.x;
    IndexForms(X, Y, p.x, p.y, p.z);
    Bounded(p.z, Z, p.y, Y);
    Bounded(a, Z * Y, p.x, X);
    assert Z * Y * X == dims.Count();
    DivUnique(i, X, a, p.x);
    DivUnique(a, Y, p.z, p.y);
    Bounded(p.y, Y, p.x, X);
    assert Y * X == X * Y;
    DivUnique(i, X * Y, p.z, b);
  }

  /** Walking x, then y, then z through the grid visits the indices 0, 1, 2, ... in turn. */
  lemma ScanOrder(dims: Dims, y: int, z: int)
    ensures FindGridIndex(dims, Pos(0, y, z)) + dims.x == FindGridIndex(dims, Pos(0, y + 1, z))
    ensures FindGridIndex(dims, Pos(0, dims.y, z)) == FindGridIndex(dims, Pos(0, 0, z + 1))
    ensures FindGridIndex(dims, Pos(0, 0, 0)) == 0
    ensures FindGridIndex(dims, Pos(0, 0, dims.z)) == dims.Count()
  {
    var X, Y := dims.x, dims.y;
    assert y * X + X == (y + 1) * X;
    assert z * X * Y + Y * X == (z + 1) * X * Y;
    assert dims.z * X * Y == X * Y * dims.z;
  }

  /** The indices of layer z run from the start of that layer up to the start of the next, inside the list. */
  lemma LayerSpan(dims: Dims, z: int)
    requires dims.Positive() && 0 <= z < dims.z
    ensures 0 <= FindGridIndex(dims, Pos(0, 0, z)) < FindGridIndex(dims, Pos(0, 0, z + 1)) <= dims.Count()
  {
    IndexRoundTrip(dims, Pos(0, 0, z));
    IndexRoundTrip(dims, Pos(dims.x - 1, dims.y - 1, z));
    ScanOrder(dims, dims.y - 1, z);
  }

  /** The indices of row y of layer z run from its start for X places, inside the list. */
  lemma RowSpan(dims: Dims, y: int, z: int)
    requires dims.Positive() && 0 <= y < dims.y && 0 <= z < dims.z
    ensures 0 <= FindGridIndex(dims, Pos(0, y, z))
    ensures FindGridIndex(dims, Pos(0, y, z)) + dims.x == FindGridIndex(dims, Pos(0, y + 1, z))
    ensures FindGridIndex(dims, Pos(0, y, z)) + dims.x <= dims.Count()
  {
    IndexRoundTrip(dims, Pos(0, y, z));
    IndexRoundTrip(dims, Pos(dims.x - 1, y, z));
    ScanOrder(dims, y, z);
  }

  /** Distinct in-bounds positions have distinct indices. */
  lemma IndexInjective(dims: Dims, p: Pos, q: Pos)
    requires InBounds(dims, p) && InBounds(dims, q)
    ensures FindGridIndex(dims, p) == FindGridIndex(dims, q) <==> p == q
  {
    IndexRoundTrip(dims, p);
    IndexRoundTrip(dims, q);
  }

  /** Dividing by X and then by Y is dividing by X*Y; the remainders are the lower digits. */
  lemma DivDiv(i: int, X: int, Y: int)
    requires X > 0 && Y > 0
    ensures i / (X * Y) == i / X / Y
    ensures i == i / X / Y * X * Y + (i / X % Y * X + i % X)
    ensures 0 <= i / X % Y * X + i % X < X * Y
  {
    var a := i / X;
    var c := a / Y;
    assert i == a * X + i % X;
    assert a == c * Y + a % Y;
    IndexForms(X, Y, i % X, a % Y, c);
    Bounded(a % Y, Y, i % X, X);
    assert Y * X == X * Y;
    DivUnique(i, X * Y, c, a % Y * X + i % X);
  }

  /** Every list index of a grid with positive dimensions decodes to an in-bounds position with that index. */
  lemma DecodeRoundTrip(dims: Dims, i: int)
    requires dims.Positive() && 0 <= i < dims.Count()
    ensures InBounds(dims, Decode(dims, i))
    ensures FindGridIndex(dims, Decode(dims, i)) == i
  {
    var X, Y, Z := dims.x, dims.y, dims.z;
    DivDiv(i, X, Y);
    var c := i / X / Y;
    var low := i / X % Y * X + i % X;
    assert i == c * X * Y + low;
    assert Decode(dims, i) == Pos(i % X, i / X % Y, c);
    assert c * X * Y == c * (X * Y);
    assert X * Y * Z == Z * (X * Y);
    if c < 0 {
      MulMono(c, -1, X * Y);
    }
    if c >= Z {
      MulMono(Z, c, X * Y);
    }
  }

  /**
   * The index of the neighbouring cell in direction d, or None when that
   * neighbour lies outside the grid.
   */
  function NeighbourIndex(dims: Dims, p: Pos, d: Direction): (r: Option<int>)
    ensures r.Some? <==> InBounds(dims, Step(p, d))
    ensures r.Some? ==> r.value == FindGridIndex(dims, Step(p, d))
  {
    var q := Step(p, d);
    if InBounds(dims, q) then Some(FindGridIndex(dims, q)) else None
  }

  /** Neighbourhood is symmetric: p is the opposite neighbour of its neighbour. */
  lemma NeighbourSymmetric(dims: Dims, p: Pos, d: Direction)
    requires InBounds(dims, p) && InBounds(dims, Step(p, d))
    ensures Step(Step(p, d), d.Opposite()) == p
    ensures NeighbourIndex(dims, Step(p, d), d.Opposite()) == Some(FindGridIndex(dims, p))
  {
    DirectionFacts();
  }

  /** The neighbour index the source computes: FindGridIndex of the stepped position, unchecked. */
  function RawNeighbourIndex(dims: Dims, p: Pos, d: Direction): int
  {
    FindGridIndex(dims, Step(p, d))
  }

  /** Where the stepped position is inside the grid, the unchecked index is the right one. */
  lemma RawNeighbourAgreesInside(dims: Dims, p: Pos, d: Direction)
    requires InBounds(dims, Step(p, d))
    ensures NeighbourIndex(dims, p, d) == Some(RawNeighbourIndex(dims, p, d))
  {
  }

  /**
   * Past the last column the unchecked index wraps to the first column of
   * the next row (in a 2 by 2 by 1 grid, the right neighbour of (1, 0, 0)
   * comes out as the cell at (0, 1, 0)), although there is no neighbour.
   */
  lemma RawNeighbourWrapsAround(dims: Dims, p: Pos)
    requires InBounds(dims, p) && p.x == dims.x - 1 && p.y + 1 < dims.y
    ensures NeighbourIndex(dims, p, Right) == None
    ensures InBounds(dims, Pos(0, p.y + 1, p.z))
    ensures RawNeighbourIndex(dims, p, Right) == FindGridIndex(dims, Pos(0, p.y + 1, p.z))
  {
    assert p.y * dims.x + dims.x == (p.y + 1) * dims.x;
  }

  /** Behind the first layer the unchecked index is negative, which the cell list rejects. */
  lemma RawNeighbourNegative(dims: Dims, p: Pos)
    requires InBounds(dims, p) && p.z == 0
    ensures NeighbourIndex(dims, p, Back) == None
    ensures RawNeighbourIndex(dims, p, Back) < 0
  {
    Bounded(p.y, dims.y, p.x, dims.x);
    assert RawNeighbourIndex(dims, p, Back) == -(dims.x * dims.y) + (p.y * dims.x + p.x);
    assert dims.y * dims.x == dims.x * dims.y;
  }
}
