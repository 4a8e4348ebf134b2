/**
 * The discrete part of `RicochetListener.onProjectileHit`: the early
 * returns, the single mirror reflection for steep impacts, and, for the
 * others, the 5x5x5 sample of the terrain around the impact block, its
 * occupancy grid, the centroid of the sampled locations, the distance-
 * weighted 5x5 collapse of the grid and the choice of the eigenvector with
 * the smallest eigenvalue.
 *
 * The floating-point and library steps are inputs: the impact angle in
 * degrees, the normalised velocity, the weight `exp(-distance)` of a grid
 * point seen from the point of view, and the eigenvalues of the collapsed
 * matrix. Vectors are over exact reals.
 */
module RicochetListener {
  import opened Geometry

  const RicochetAngleThreshold: real := 70.0
  const BlockCuboidSize: int := 5
  /** `BLOCK_CUBOID_SIZE / 2`; for positive operands Java and Dafny divide alike. */
  const HalfCuboidSize: int := BlockCuboidSize / 2
  const CellCount: int := BlockCuboidSize * BlockCuboidSize * BlockCuboidSize

  // ---------------------------------------------------------------------
  // The flat index layout of the sampled locations
  // ---------------------------------------------------------------------

  /** The grid cell of the i-th location: (i / 25, (i / 5) % 5, i % 5). */
  function CellOf(i: nat): (int, int, int) {
    (i / (BlockCuboidSize * BlockCuboidSize), (i / BlockCuboidSize) % BlockCuboidSize, i % BlockCuboidSize)
  }

  /** The place of cell (a, b, c) in the x-major, then y, then z order. */
  function FlatIndex(a: int, b: int, c: int): int {
    a * BlockCuboidSize * BlockCuboidSize + b * BlockCuboidSize + c
  }

  /** The layout is a bijection between 0..124 and the 5x5x5 cells, one way ... */
  lemma CellOfFlatIndex(a: int, b: int, c: int)
    requires InGrid(a, b, c)
    ensures 0 <= FlatIndex(a, b, c) < CellCount
    ensures CellOf(FlatIndex(a, b, c)) == (a, b, c)
  {
    var i := FlatIndex(a, b, c);
    assert i == 25 * a + (5 * b + c);
    assert 0 <= 5 * b + c < 25;
    assert i / 25 == a;
    assert i / 5 == 5 * a + b;
    assert (i / 5) % 5 == b;
    assert i % 5 == c;
  }

  /** ... and the other. */
  lemma FlatIndexOfCell(i: nat)
    requires i < CellCount
    ensures InGrid(CellOf(i).0, CellOf(i).1, CellOf(i).2)
    ensures FlatIndex(CellOf(i).0, CellOf(i).1, CellOf(i).2) == i
  {
    var a, b, c := i / 25, (i / 5) % 5, i % 5;
    assert i == 5 * (i / 5) + c;
    assert i / 5 == 5 * a + b by {
      assert i / 5 == 5 * ((i / 5) / 5) + b;
      assert (i / 5) / 5 == i / 25;
    }
  }

  /** The i-th location the cuboid loops produce around block b. */
  function CuboidCell(b: Loc, i: nat): Loc {
    GridLoc(b, CellOf(i).0, CellOf(i).1, CellOf(i).2)
  }

  predicate IsCuboid(locs: seq<Loc>, b: Loc) {
    |locs| == CellCount && forall i :: 0 <= i < |locs| ==> locs[i] == CuboidCell(b, i)
  }

  /** Every sampled location lies within two blocks of b on each axis. */
  lemma CuboidCellBounds(b: Loc, i: nat)
    requires i < CellCount
    ensures b.x - HalfCuboidSize <= CuboidCell(b, i).x <= b.x + HalfCuboidSize
    ensures b.y - HalfCuboidSize <= CuboidCell(b, i).y <= b.y + HalfCuboidSize
    ensures b.z - HalfCuboidSize <= CuboidCell(b, i).z <= b.z + HalfCuboidSize
  {
    FlatIndexOfCell(i);
  }

  /** The 125 sampled locations are distinct ... */
  lemma CuboidCellsDistinct(b: Loc, i: nat, j: nat)
    requires i < CellCount && j < CellCount && i != j
    ensures CuboidCell(b, i) != CuboidCell(b, j)
  {
    FlatIndexOfCell(i);
    FlatIndexOfCell(j);
  }

  /** ... and cover the whole cube: offset (dx, dy, dz) sits at the index of cell (dx+2, dy+2, dz+2). */
  lemma CuboidCovers(b: Loc, dx: int, dy: int, dz: int)
    requires -HalfCuboidSize <= dx <= HalfCuboidSize
    requires -HalfCuboidSize <= dy <= HalfCuboidSize
    requires -HalfCuboidSize <= dz <= HalfCuboidSize
    ensures var i := FlatIndex(dx + HalfCuboidSize, dy + HalfCuboidSize, dz + HalfCuboidSize);
      0 <= i < CellCount && CuboidCell(b, i) == Offset(b, dx, dy, dz)
  {
    CellOfFlatIndex(dx + HalfCuboidSize, dy + HalfCuboidSize, dz + HalfCuboidSize);
  }

  /** The three nested loops that list the 5x5x5 cuboid around the impact block b. */
  method CuboidLocations(b: Loc) returns (blockLocations: seq<Loc>)
    ensures IsCuboid(blockLocations, b)
  {
    blockLocations := [];
    var x := b.x - HalfCuboidSize;
    while x <= b.x + HalfCuboidSize
      invariant b.x - HalfCuboidSize <= x <= b.x + HalfCuboidSize + 1
      invariant |blockLocations| == FlatIndex(x - b.x + HalfCuboidSize, 0, 0)
      invariant forall i :: 0 <= i < |blockLocations| ==> blockLocations[i] == CuboidCell(b, i)
    {
      var y := b.y - HalfCuboidSize;
      while y <= b.y + HalfCuboidSize
        invariant b.y - HalfCuboidSize <= y <= b.y + HalfCuboidSize + 1
        invariant |blockLocations| == FlatIndex(x - b.x + HalfCuboidSize, y - b.y + HalfCuboidSize, 0)
        invariant forall i :: 0 <= i < |blockLocations| ==> blockLocations[i] == CuboidCell(b, i)
      {
        var z := b.z - HalfCuboidSize;
        while z <= b.z + HalfCuboidSize
          invariant b.z - HalfCuboidSize <= z <= b.z + HalfCuboidSize + 1
          invariant |blockLocations|
                 == FlatIndex(x - b.x + HalfCuboidSize, y - b.y + HalfCuboidSize, z - b.z + HalfCuboidSize)
          invariant forall i :: 0 <= i < |blockLocations| ==> blockLocations[i] == CuboidCell(b, i)
        {
          CellOfFlatIndex(x - b.x + HalfCuboidSize, y - b.y + HalfCuboidSize, z - b.z + HalfCuboidSize);
          blockLocations := blockLocations + [Loc(x, y, z)];
          z := z + 1;
        }
        y := y + 1;
      }
      x := x + 1;
    }
  }

  // ---------------------------------------------------------------------
  // The occupancy grid
  // ---------------------------------------------------------------------

  predicate IsCube(a: array3<real>) {
    a.Length0 == BlockCuboidSize && a.Length1 == BlockCuboidSize && a.Length2 == BlockCuboidSize
  }

  /**
   * Fills `blockMatrix`: the cell of location i is 1 when that location is
   * solid and keeps Java's initial 0 otherwise.
   */
  method FillBlockMatrix(blockLocations: seq<Loc>, isSolid: Loc -> bool) returns (blockMatrix: array3<real>)
    requires |blockLocations| == CellCount
    ensures IsCube(blockMatrix)
    ensures forall a, b, c :: InGrid(a, b, c) ==>
      blockMatrix[a, b, c] == if isSolid(blockLocations[FlatIndex(a, b, c)]) then 1.0 else 0.0
  {
    blockMatrix := new real[BlockCuboidSize, BlockCuboidSize, BlockCuboidSize]((_, _, _) => 0.0);
    var i := 0;
    while i < |blockLocations|
      invariant 0 <= i <= |blockLocations|
      invariant forall a, b, c :: InGrid(a, b, c) ==>
        blockMatrix[a, b, c] == if FlatIndex(a, b, c) < i && isSolid(blockLocations[FlatIndex(a, b, c)]) then 1.0 else 0.0
    {
      FlatIndexOfCell(i);
      var cell := CellOf(i);
      if isSolid(blockLocations[i]) {
        blockMatrix[cell.0, cell.1, cell.2] := 1.0;
      }
      i := i + 1;
    }
  }

  /** The occupancy grid of the cuboid: cell (a, b, c) tells whether b + (a-2, b-2, c-2) is solid. */
  lemma OccupancyOfCuboid(locs: seq<Loc>, b: Loc, a: int, c: int, d: int)
    requires IsCuboid(locs, b) && InGrid(a, c, d)
    ensures locs[FlatIndex(a, c, d)] == GridLoc(b, a, c, d)
  {
    CellOfFlatIndex(a, c, d);
  }

  // ---------------------------------------------------------------------
  // The centroid
  // ---------------------------------------------------------------------

  /** The sum of the locations' coordinates, as the loop accumulates it. */
  function SumLocs(s: seq<Loc>): Vec3 {
    if s == [] then Zero else Add(SumLocs(s[..|s| - 1]), ToVec(s[|s| - 1]))
  }

  lemma {:induction false} SumLocsAppend(a: seq<Loc>, b: seq<Loc>)
    ensures SumLocs(a + b) == Add(SumLocs(a), SumLocs(b))
  {
    if b == [] {
      assert a + b == a;
    } else {
      var init := b[..|b| - 1];
      assert (a + b)[..|a + b| - 1] == a + init;
      assert (a + b)[|a + b| - 1] == b[|b| - 1];
      SumLocsAppend(a, init);
    }
  }

  /** Each location and its mirror, counted from the other end, average to b. */
  predicate Symmetric(s: seq<Loc>, b: Loc) {
    forall i :: 0 <= i < |s| ==>
      && s[i].x + s[|s| - 1 - i].x == 2 * b.x
      && s[i].y + s[|s| - 1 - i].y == 2 * b.y
      && s[i].z + s[|s| - 1 - i].z == 2 * b.z
  }

  lemma SymmetricMiddle(s: seq<Loc>, b: Loc)
    requires |s| >= 2 && Symmetric(s, b)
    ensures Symmetric(s[1..|s| - 1], b)
  {
    var mid := s[1..|s| - 1];
    forall i | 0 <= i < |mid|
      ensures && mid[i].x + mid[|mid| - 1 - i].x == 2 * b.x
              && mid[i].y + mid[|mid| - 1 - i].y == 2 * b.y
              && mid[i].z + mid[|mid| - 1 - i].z == 2 * b.z
    {
      assert mid[i] == s[i + 1];
      assert mid[|mid| - 1 - i] == s[|s| - 1 - (i + 1)];
    }
  }

  /** The sum of a sequence split into its first element, a middle part and its last element. */
  lemma SumLocsEnds(s: seq<Loc>)
    requires |s| >= 2
    ensures SumLocs(s) == Add(Add(ToVec(s[0]), SumLocs(s[1..|s| - 1])), ToVec(s[|s| - 1]))
  {
    var first, mid, last := s[0], s[1..|s| - 1], s[|s| - 1];
    assert s == ([first] + mid) + [last];
    assert SumLocs([first]) == ToVec(first) by { assert [first][..0] == []; }
    assert SumLocs([last]) == ToVec(last) by { assert [last][..0] == []; }
    SumLocsAppend([first] + mid, [last]);
    SumLocsAppend([first], mid);
  }

  /** Locations that pair up, first with last, around b add up to |s| times b. */
  lemma {:induction false} SymmetricSum(s: seq<Loc>, b: Loc)
    requires Symmetric(s, b)
    ensures SumLocs(s) == Scale(|s| as real, ToVec(b))
  {
    if |s| == 1 {
      assert s[..0] == [];
    } else if |s| >= 2 {
      var n := |s|;
      SymmetricMiddle(s, b);
      SymmetricSum(s[1..n - 1], b);
      SumLocsEnds(s);
      assert s[0].x + s[n - 1].x == 2 * b.x && s[0].y + s[n - 1].y == 2 * b.y && s[0].z + s[n - 1].z == 2 * b.z;
      PairSum(ToVec(s[0]), SumLocs(s[1..n - 1]), ToVec(s[n - 1]), (n - 2) as real, ToVec(b));
    }
  }

  /** first + k * v + last == (k + 2) * v when first and last average to v. */
  lemma PairSum(first: Vec3, mid: Vec3, last: Vec3, k: real, v: Vec3)
    requires mid == Scale(k, v)
    requires first.x + last.x == 2.0 * v.x && first.y + last.y == 2.0 * v.y && first.z + last.z == 2.0 * v.z
    ensures Add(Add(first, mid), last) == Scale(k + 2.0, v)
  {
    AddTwice(k, v.x);
    AddTwice(k, v.y);
    AddTwice(k, v.z);
  }

  lemma AddTwice(k: real, v: real)
    ensures k * v + 2.0 * v == (k + 2.0) * v
  {
  }

  /** Cell 124 - i mirrors cell i through the centre of the cube. */
  lemma CuboidCellMirror(b: Loc, i: nat)
    requires i < CellCount
    ensures CuboidCell(b, i).x + CuboidCell(b, CellCount - 1 - i).x == 2 * b.x
    ensures CuboidCell(b, i).y + CuboidCell(b, CellCount - 1 - i).y == 2 * b.y
    ensures CuboidCell(b, i).z + CuboidCell(b, CellCount - 1 - i).z == 2 * b.z
  {
    FlatIndexOfCell(i);
    var (a, c, d) := CellOf(i);
    CellOfFlatIndex(4 - a, 4 - c, 4 - d);
    assert FlatIndex(4 - a, 4 - c, 4 - d) == CellCount - 1 - i;
  }

  /** The sampled locations add up to 125 times the impact block. */
  lemma CuboidSum(locs: seq<Loc>, b: Loc)
    requires IsCuboid(locs, b)
    ensures SumLocs(locs) == Scale(CellCount as real, ToVec(b))
  {
    forall i | 0 <= i < |locs|
      ensures && locs[i].x + locs[|locs| - 1 - i].x == 2 * b.x
              && locs[i].y + locs[|locs| - 1 - i].y == 2 * b.y
              && locs[i].z + locs[|locs| - 1 - i].z == 2 * b.z
    {
      CuboidCellMirror(b, i);
    }
    assert Symmetric(locs, b);
    SymmetricSum(locs, b);
  }

  /** The centroid loop: the mean of the sampled locations is the impact block. */
  method Centroid(blockLocations: seq<Loc>, ghost b: Loc) returns (centroid: Vec3)
    requires IsCuboid(blockLocations, b)
    ensures centroid == ToVec(b)
  {
    centroid := Zero;
    for i := 0 to |blockLocations|
      invariant centroid == SumLocs(blockLocations[..i])
    {
      assert blockLocations[..i + 1][..i] == blockLocations[..i];
      var l := blockLocations[i];
      centroid := Add(centroid, Vec3(l.x as real, l.y as real, l.z as real));
    }
    assert blockLocations[..|blockLocations|] == blockLocations;
    CuboidSum(blockLocations, b);
    centroid := Scale(1.0 / |blockLocations| as real, centroid);
  }

  // ---------------------------------------------------------------------
  // The weighted collapse to a 5x5 matrix
  // ---------------------------------------------------------------------

  /**
   * The weight of grid point (i, j, k), `exp(-distance)` from the point of
   * view `pov`; `weight` stands for that floating-point expression.
   */
  function CellWeight(weight: (Vec3, Vec3) -> real, pov: Vec3, i: int, j: int, k: int): real {
    weight(Vec3(i as real, j as real, k as real), pov)
  }

  /** The first n terms of `mat[i][j]`: the weighted sum over k of column (i, j). */
  ghost function ColumnSum(grid: array3<real>, weight: (Vec3, Vec3) -> real, pov: Vec3, i: int, j: int, n: nat): real
    reads grid
    requires IsCube(grid) && 0 <= i < BlockCuboidSize && 0 <= j < BlockCuboidSize && n <= BlockCuboidSize
  {
    if n == 0 then 0.0
    else ColumnSum(grid, weight, pov, i, j, n - 1) + grid[i, j, n - 1] * CellWeight(weight, pov, i, j, n - 1)
  }

  /** The value the fill loop leaves in the cell of location l: 1 when solid, else 0. */
  function Occupancy(isSolid: Loc -> bool, l: Loc): real {
    if isSolid(l) then 1.0 else 0.0
  }

  /**
   * The first n terms of entry (i, j) of the collapse around impact block b,
   * computed from the world: the occupancy of b + (i-2, j-2, k-2) times the weight of (i, j, k).
   */
  function CollapseEntry(b: Loc, isSolid: Loc -> bool, weight: (Vec3, Vec3) -> real, pov: Vec3,
                         i: int, j: int, n: nat): (r: real)
    ensures (forall k :: 0 <= k < n ==> !isSolid(GridLoc(b, i, j, k))) ==> r == 0.0
  {
    if n == 0 then 0.0
    else CollapseEntry(b, isSolid, weight, pov, i, j, n - 1)
         + Occupancy(isSolid, GridLoc(b, i, j, n - 1))
           * CellWeight(weight, pov, i, j, n - 1)
  }

  /** The 5x5 matrix the collapse is meant to produce for impact block b. */
  function CollapsedMatrix(b: Loc, isSolid: Loc -> bool, weight: (Vec3, Vec3) -> real, pov: Vec3): (m: seq<seq<real>>)
    ensures |m| == BlockCuboidSize && forall i :: 0 <= i < |m| ==> |m[i]| == BlockCuboidSize
    ensures (forall i, j, k :: CellWeight(weight, pov, i, j, k) >= 0.0) ==>
      forall i, j :: 0 <= i < BlockCuboidSize && 0 <= j < BlockCuboidSize ==> m[i][j] >= 0.0
  {
    var m := seq(BlockCuboidSize, i => seq(BlockCuboidSize, j => CollapseEntry(b, isSolid, weight, pov, i, j, BlockCuboidSize)));
    assert (forall i, j, k :: CellWeight(weight, pov, i, j, k) >= 0.0) ==>
      forall i, j :: 0 <= i < BlockCuboidSize && 0 <= j < BlockCuboidSize ==> m[i][j] >= 0.0
    by {
      if forall i, j, k :: CellWeight(weight, pov, i, j, k) >= 0.0 {
        forall i, j | 0 <= i < BlockCuboidSize && 0 <= j < BlockCuboidSize
          ensures m[i][j] >= 0.0
        {
          CollapseEntryNonNegative(b, isSolid, weight, pov, i, j, BlockCuboidSize);
        }
      }
    }
    m
  }

  /** With non-negative weights every entry of the matrix is non-negative. */
  lemma {:induction false} CollapseEntryNonNegative(b: Loc, isSolid: Loc -> bool, weight: (Vec3, Vec3) -> real,
                                                    pov: Vec3, i: int, j: int, n: nat)
    requires forall k :: 0 <= k < n ==> CellWeight(weight, pov, i, j, k) >= 0.0
    ensures CollapseEntry(b, isSolid, weight, pov, i, j, n) >= 0.0
  {
    if n > 0 {
      CollapseEntryNonNegative(b, isSolid, weight, pov, i, j, n - 1);
      var o := Occupancy(isSolid, GridLoc(b, i, j, n - 1));
      assert o * CellWeight(weight, pov, i, j, n - 1) >= 0.0;
    }
  }

  /**
   * With positive weights an entry is 0 exactly when no location of its
   * column b + (i-2, j-2, -2..2) is solid.
   */
  lemma {:induction false} CollapseEntryZero(b: Loc, isSolid: Loc -> bool, weight: (Vec3, Vec3) -> real,
                                             pov: Vec3, i: int, j: int, n: nat)
    requires forall k :: 0 <= k < n ==> CellWeight(weight, pov, i, j, k) > 0.0
    ensures CollapseEntry(b, isSolid, weight, pov, i, j, n) == 0.0
        <==> forall k :: 0 <= k < n ==> !isSolid(GridLoc(b, i, j, k))
  {
    if n > 0 {
      CollapseEntryZero(b, isSolid, weight, pov, i, j, n - 1);
      CollapseEntryNonNegative(b, isSolid, weight, pov, i, j, n - 1);
      var l := GridLoc(b, i, j, n - 1);
      var w := CellWeight(weight, pov, i, j, n - 1);
      if isSolid(l) {
        assert Occupancy(isSolid, l) * w > 0.0;
      }
    }
  }

  /** On the occupancy grid of the cuboid the array sums are the world-level entries. */
  lemma {:induction false} ColumnSumOfCuboid(grid: array3<real>, b: Loc, isSolid: Loc -> bool,
                                             weight: (Vec3, Vec3) -> real, pov: Vec3, i: int, j: int, n: nat)
    requires IsCube(grid) && 0 <= i < BlockCuboidSize && 0 <= j < BlockCuboidSize && n <= BlockCuboidSize
    requires forall k :: 0 <= k < BlockCuboidSize ==>
      grid[i, j, k] == Occupancy(isSolid, GridLoc(b, i, j, k))
    ensures ColumnSum(grid, weight, pov, i, j, n) == CollapseEntry(b, isSolid, weight, pov, i, j, n)
  {
    if n > 0 {
      ColumnSumOfCuboid(grid, b, isSolid, weight, pov, i, j, n - 1);
    }
  }

  /** The cells of `mat` before position t, in row-major order, hold their full weighted sum. */
  ghost predicate DoneBefore(mat: array2<real>, grid: array3<real>, weight: (Vec3, Vec3) -> real, pov: Vec3, t: int)
    reads mat, grid
    requires IsSquare(mat) && IsCube(grid)
  {
    forall a, b :: 0 <= a < BlockCuboidSize && 0 <= b < BlockCuboidSize && a * 5 + b < t ==>
      mat[a, b] == ColumnSum(grid, weight, pov, a, b, BlockCuboidSize)
  }

  /** The cells of `mat` from position t on still hold their initial 0. */
  ghost predicate ZeroFrom(mat: array2<real>, t: int)
    reads mat
    requires IsSquare(mat)
  {
    forall a, b :: 0 <= a < BlockCuboidSize && 0 <= b < BlockCuboidSize && a * 5 + b >= t ==>
      mat[a, b] == 0.0
  }

  predicate IsSquare(mat: array2<real>) {
    mat.Length0 == BlockCuboidSize && mat.Length1 == BlockCuboidSize
  }

  /** The innermost loop: `mat[i][j] += blockMatrix[i][j][k] * exp(-distance)` for k = 0..4. */
  method AccumulateColumn(mat: array2<real>, blockMatrix: array3<real>, weight: (Vec3, Vec3) -> real, pov: Vec3,
                          i: int, j: int)
    requires IsSquare(mat) && IsCube(blockMatrix)
    requires 0 <= i < BlockCuboidSize && 0 <= j < BlockCuboidSize
    modifies mat
    ensures mat[i, j] == old(mat[i, j]) + ColumnSum(blockMatrix, weight, pov, i, j, BlockCuboidSize)
    ensures forall a, b :: 0 <= a < BlockCuboidSize && 0 <= b < BlockCuboidSize && (a != i || b != j) ==>
      mat[a, b] == old(mat[a, b])
  {
    for k := 0 to BlockCuboidSize
      invariant mat[i, j] == old(mat[i, j]) + ColumnSum(blockMatrix, weight, pov, i, j, k)
      invariant forall a, b :: 0 <= a < BlockCuboidSize && 0 <= b < BlockCuboidSize && (a != i || b != j) ==>
        mat[a, b] == old(mat[a, b])
    {
      mat[i, j] := mat[i, j] + blockMatrix[i, j, k] * CellWeight(weight, pov, i, j, k);
    }
  }

  /** The nested loops of the collapse: entry (i, j) is the weighted sum of column (i, j) of the grid. */
  method WeightedCollapse(blockMatrix: array3<real>, weight: (Vec3, Vec3) -> real, pov: Vec3)
    returns (mat: array2<real>)
    requires IsCube(blockMatrix)
    ensures IsSquare(mat)
    ensures forall i, j :: 0 <= i < BlockCuboidSize && 0 <= j < BlockCuboidSize ==>
      mat[i, j] == ColumnSum(blockMatrix, weight, pov, i, j, BlockCuboidSize)
  {
    mat := new real[BlockCuboidSize, BlockCuboidSize]((_, _) => 0.0);
    for i := 0 to BlockCuboidSize
      invariant DoneBefore(mat, blockMatrix, weight, pov, i * 5)
      invariant ZeroFrom(mat, i * 5)
    {
      for j := 0 to BlockCuboidSize
        invariant DoneBefore(mat, blockMatrix, weight, pov, i * 5 + j)
        invariant ZeroFrom(mat, i * 5 + j)
      {
        AccumulateColumn(mat, blockMatrix, weight, pov, i, j);
      }
    }
  }

  /** The rows of `mat`, as `MatrixUtils.createRealMatrix` copies them. */
  function MatrixRows(mat: array2<real>): seq<seq<real>>
    reads mat
    requires IsSquare(mat)
  {
    seq(BlockCuboidSize, i reads mat requires 0 <= i < BlockCuboidSize =>
      seq(BlockCuboidSize, j reads mat requires 0 <= j < BlockCuboidSize => mat[i, j]))
  }

  // ---------------------------------------------------------------------
  // The smallest eigenvalue
  // ---------------------------------------------------------------------

  /** An index of a smallest value that no earlier index shares. */
  predicate IsFirstArgMin(vals: seq<real>, index: nat) {
    && index < |vals|
    && (forall j :: 0 <= j < |vals| ==> vals[index] <= vals[j])
    && (forall j :: 0 <= j < index ==> vals[j] > vals[index])
  }

  /** There is exactly one such index. */
  lemma FirstArgMinUnique(vals: seq<real>, i: nat, j: nat)
    requires IsFirstArgMin(vals, i) && IsFirstArgMin(vals, j)
    ensures i == j
  {
    assert vals[i] <= vals[j] && vals[j] <= vals[i];
  }

  /**
   * The argmin loop over the eigenvalues: an index of a smallest value and,
   * because the comparison is strict, the first such index.
   */
  method SmallestEigIndex(eigVals: seq<real>) returns (smallestEigIndex: nat, smallestEigVal: real)
    requires |eigVals| > 0
    ensures IsFirstArgMin(eigVals, smallestEigIndex) && smallestEigVal == eigVals[smallestEigIndex]
  {
    smallestEigIndex := 0;
    smallestEigVal := eigVals[0];
    for i := 1 to |eigVals|
      invariant smallestEigIndex < i && smallestEigVal == eigVals[smallestEigIndex]
      invariant forall j :: 0 <= j < i ==> smallestEigVal <= eigVals[j]
      invariant forall j :: 0 <= j < smallestEigIndex ==> eigVals[j] > smallestEigVal
    {
      if eigVals[i] < smallestEigVal {
        smallestEigIndex := i;
        smallestEigVal := eigVals[i];
      }
    }
  }

  // ---------------------------------------------------------------------
  // The mirror reflection
  // ---------------------------------------------------------------------

  /** `velocity - normal * (2 * velocity.dot(normal) / normal.lengthSquared())`. */
  function Reflect(v: Vec3, n: Vec3): (r: Vec3)
    requires Dot(n, n) != 0.0
    ensures Dot(r, n) == -Dot(v, n)
  {
    var d, q := Dot(v, n), Dot(n, n);
    var k := 2.0 * d / q;
    assert k * q == 2.0 * d;
    assert Dot(Sub(v, Scale(k, n)), n) == d - k * q;
    Sub(v, Scale(k, n))
  }

  /** The reflection keeps the speed and flips the velocity's component along the normal. */
  lemma ReflectionPreservesSpeed(v: Vec3, n: Vec3)
    requires Dot(n, n) != 0.0
    ensures Dot(Reflect(v, n), Reflect(v, n)) == Dot(v, v)
    ensures Dot(Reflect(v, n), n) == -Dot(v, n)
  {
    var d, q := Dot(v, n), Dot(n, n);
    var k := 2.0 * d / q;
    var r := Reflect(v, n);
    assert k * q == 2.0 * d;
    assert Dot(r, n) == d - k * q;
    assert Dot(r, r) == Dot(v, v) - 2.0 * k * d + k * k * q;
    assert k * k * q == k * (2.0 * d);
  }

  /** Reflecting twice about the same normal gives back the velocity. */
  lemma ReflectionInvolution(v: Vec3, n: Vec3)
    requires Dot(n, n) != 0.0
    ensures Reflect(Reflect(v, n), n) == v
  {
    ReflectionPreservesSpeed(v, n);
    var d, q := Dot(v, n), Dot(n, n);
    assert 2.0 * (-d) / q == -(2.0 * d / q);
  }

  // ---------------------------------------------------------------------
  // The event handler
  // ---------------------------------------------------------------------

  /** The projectile's shooter: none, an entity, or another source such as a dispenser. */
  datatype Shooter = NoShooter | EntityShooter | OtherSource

  /**
   * What `onProjectileHit` does to the projectile. Only `Mirrored` changes
   * it. `ProductThrows` records the eigenvector index the handler chooses
   * before line 122 throws: the transposed 3x1 direction is 1x3, the chosen
   * eigenvector column of the 5x5 matrix is 5x1, and by the contract of
   * commons-math's `multiply`, taken as given here, it refuses to multiply
   * them, so lines 123-130 never run.
   */
  datatype HitOutcome =
    | Unchanged                        // the handler returns early
    | Aborted                          // a failed cast or a null hit face throws
    | Mirrored(velocity: Vec3)         // the velocity is set and the shooter cleared
    | ProductThrows(eigIndex: nat)     // the index is chosen, then line 122 throws

  /** Whether the handler changes the projectile at all. */
  predicate ChangesProjectile(out: HitOutcome) {
    out.Mirrored?
  }

  /** The point of view: five blocks back from the centroid along the flight direction. */
  function PointOfView(centroid: Vec3, direction: Vec3): (pov: Vec3)
    ensures Sub(centroid, pov) == Scale(BlockCuboidSize as real, direction)
  {
    Add(centroid, Scale(-1.0 * BlockCuboidSize as real, direction))
  }

  /**
   * `onProjectileHit`. `shooter` is the projectile's shooter, which the
   * handler casts to an entity; `impact` is the block the projectile is in;
   * `face` is the direction of the hit block face, if any; `angle` is the
   * impact angle in degrees against it; `direction` is the normalised
   * velocity; `eigOf` gives the real eigenvalues the decomposition finds for
   * a matrix.
   */
  method OnProjectileHit(shooter: Shooter, impact: Loc, velocity: Vec3, face: Option<Vec3>, angle: real,
                         direction: Vec3, isSolid: Loc -> bool, weight: (Vec3, Vec3) -> real,
                         eigOf: seq<seq<real>> -> seq<real>)
    returns (out: HitOutcome)
    requires face.Some? && angle > RicochetAngleThreshold ==> Dot(face.value, face.value) != 0.0
    requires forall m :: |m| == BlockCuboidSize ==> |eigOf(m)| == BlockCuboidSize
    ensures ChangesProjectile(out) <==>
      shooter.EntityShooter? && isSolid(impact) && face.Some? && angle > RicochetAngleThreshold
    ensures shooter.OtherSource? ==> out == Aborted
    ensures shooter.NoShooter? || (shooter.EntityShooter? && !isSolid(impact)) ==> out == Unchanged
    ensures shooter.EntityShooter? && isSolid(impact) && face.None? ==> out == Aborted
    ensures shooter.EntityShooter? && isSolid(impact) && face.Some? && angle > RicochetAngleThreshold ==>
      out == Mirrored(Reflect(velocity, face.value))
    ensures shooter.EntityShooter? && isSolid(impact) && face.Some? && angle <= RicochetAngleThreshold ==>
      && out.ProductThrows?
      && IsFirstArgMin(eigOf(CollapsedMatrix(impact, isSolid, weight, PointOfView(ToVec(impact), direction))),
                       out.eigIndex)
  {
    if shooter.OtherSource? {
      // the cast to Entity fails
      return Aborted;
    }
    if shooter.NoShooter? {
      return Unchanged;
    }
    if !isSolid(impact) {
      return Unchanged;
    }
    if face.None? {
      // `getHitBlockFace()` is null
      return Aborted;
    }
    var normal := face.value;
    if angle > RicochetAngleThreshold {
      return Mirrored(Reflect(velocity, normal));
    }
    var blockLocations := CuboidLocations(impact);
    var blockMatrix := FillBlockMatrix(blockLocations, isSolid);
    var centroid := Centroid(blockLocations, impact);
    var pov := PointOfView(centroid, direction);
    var mat := WeightedCollapse(blockMatrix, weight, pov);
    ghost var spec := CollapsedMatrix(impact, isSolid, weight, pov);
    forall i | 0 <= i < BlockCuboidSize
      ensures MatrixRows(mat)[i] == spec[i]
    {
      forall j | 0 <= j < BlockCuboidSize
        ensures mat[i, j] == spec[i][j]
      {
        forall k | 0 <= k < BlockCuboidSize
          ensures blockMatrix[i, j, k] == Occupancy(isSolid, GridLoc(impact, i, j, k))
        {
          OccupancyOfCuboid(blockLocations, impact, i, j, k);
        }
        ColumnSumOfCuboid(blockMatrix, impact, isSolid, weight, pov, i, j, BlockCuboidSize);
      }
    }
    assert MatrixRows(mat) == spec;
    var eigVals := eigOf(MatrixRows(mat));
    var smallestEigIndex, _ := SmallestEigIndex(eigVals);
    // `cannonDirectionMatrix.transpose().multiply(smallestEigVec)`: a 1 x 3
    // matrix times a 5 x 1 column. The throw follows from the contract of
    // commons-math's `multiply`, which this model takes as given.
    out := ProductThrows(smallestEigIndex);
  }
}
