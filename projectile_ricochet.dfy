/**
 * `ProjectileRicochet.onProjectileImpact`: the early returns, the 5x5x5
 * sample of blocks around the impact block, the grid of non-air cells, and
 * the decision taken from the impact angle: the `< 70` threshold, the
 * fraction `(180 - angle) / 180`, the `0.6` speed gate and the
 * `reflectionAngle != 0` branch.
 *
 * The impact angle is an input (its computation, from an eigenvector of the
 * grid, is not valid Java as written), and so is the length of the
 * projectile's velocity. Vectors are over exact reals.
 */
module ProjectileRicochet {
  import opened Geometry

  const Size: int := 5
  const AngleThreshold: real := 70.0
  const MinRicochetSpeed: real := 0.6

  /** Java's `/` on `int`, which truncates toward zero (Dafny's rounds down). */
  function JavaDiv(a: int, b: int): (q: int)
    requires b > 0
    ensures a >= 0 ==> 0 <= a - q * b < b
    ensures a < 0 ==> -b < a - q * b <= 0
  {
    if a >= 0 then a / b else -((-a) / b)
  }

  /** The loop bounds `-size / 2` and `size / 2` are -2 and 2, where Euclidean division would give -3. */
  lemma LoopBounds()
    ensures JavaDiv(-Size, 2) == -2 && JavaDiv(Size, 2) == 2
    ensures -Size / 2 == -3
  {
  }

  // ---------------------------------------------------------------------
  // The sampled blocks and the occupancy data
  // ---------------------------------------------------------------------

  /** Cells before cell (x, y, z) hold their block; the others are still null. */
  ghost predicate WrittenBefore(blocks: array3<Option<Loc>>, impactBlock: Loc, x: int, y: int, z: int)
    reads blocks
    requires blocks.Length0 == Size && blocks.Length1 == Size && blocks.Length2 == Size
  {
    forall a, b, c :: InGrid(a, b, c) ==>
      blocks[a, b, c] == if Precedes(a, b, c, x, y, z) then Some(GridLoc(impactBlock, a, b, c)) else None
  }

  /** The innermost loop: the five cells of row (x, y), offsets z = -2..2. */
  method SampleRow(blocks: array3<Option<Loc>>, impactBlock: Loc, x: int, y: int)
    requires blocks.Length0 == Size && blocks.Length1 == Size && blocks.Length2 == Size
    requires -2 <= x <= 2 && -2 <= y <= 2
    requires WrittenBefore(blocks, impactBlock, x + 2, y + 2, 0)
    modifies blocks
    ensures WrittenBefore(blocks, impactBlock, x + 2, y + 3, 0)
  {
    var z := JavaDiv(-Size, 2);
    while z <= JavaDiv(Size, 2)
      invariant -2 <= z <= 3
      invariant WrittenBefore(blocks, impactBlock, x + 2, y + 2, z + 2)
    {
      blocks[x + JavaDiv(Size, 2), y + JavaDiv(Size, 2), z + JavaDiv(Size, 2)] := Some(Offset(impactBlock, x, y, z));
      z := z + 1;
    }
  }

  /**
   * The nested loops filling `blocks`: offset (x, y, z), for x, y, z in
   * -2..2, goes to cell (x + 2, y + 2, z + 2), so every cell is written.
   */
  method SampleBlocks(impactBlock: Loc) returns (blocks: array3<Option<Loc>>)
    ensures blocks.Length0 == Size && blocks.Length1 == Size && blocks.Length2 == Size
    ensures forall x, y, z :: -2 <= x <= 2 && -2 <= y <= 2 && -2 <= z <= 2 ==>
      blocks[x + 2, y + 2, z + 2] == Some(Offset(impactBlock, x, y, z))
    ensures forall a, b, c :: InGrid(a, b, c) ==> blocks[a, b, c] == Some(GridLoc(impactBlock, a, b, c))
  {
    blocks := new Option<Loc>[Size, Size, Size]((_, _, _) => None);
    var x := JavaDiv(-Size, 2);
    while x <= JavaDiv(Size, 2)
      invariant -2 <= x <= 3
      invariant WrittenBefore(blocks, impactBlock, x + 2, 0, 0)
    {
      var y := JavaDiv(-Size, 2);
      while y <= JavaDiv(Size, 2)
        invariant -2 <= y <= 3
        invariant WrittenBefore(blocks, impactBlock, x + 2, y + 2, 0)
      {
        SampleRow(blocks, impactBlock, x, y);
        y := y + 1;
      }
      x := x + 1;
    }
    assert forall x, y, z :: -2 <= x <= 2 && -2 <= y <= 2 && -2 <= z <= 2 ==>
      GridLoc(impactBlock, x + 2, y + 2, z + 2) == Offset(impactBlock, x, y, z);
  }

  /** Every cell of `blocks` holds a block, as `SampleBlocks` leaves it. */
  ghost predicate AllSampled(blocks: array3<Option<Loc>>)
    reads blocks
  {
    blocks.Length0 == Size && blocks.Length1 == Size && blocks.Length2 == Size
    && forall a, b, c :: InGrid(a, b, c) ==> blocks[a, b, c].Some?
  }

  /** The cells of `data` before cell (x, y, z) hold their occupancy; the others are still 0. */
  ghost predicate FilledBefore(data: array3<real>, blocks: array3<Option<Loc>>, isAir: Loc -> bool, x: int, y: int, z: int)
    reads data, blocks
    requires data.Length0 == Size && data.Length1 == Size && data.Length2 == Size
    requires AllSampled(blocks)
  {
    forall a, b, c :: InGrid(a, b, c) ==>
      data[a, b, c] == if Precedes(a, b, c, x, y, z) && !isAir(blocks[a, b, c].value) then 1.0 else 0.0
  }

  /** The innermost loop of the data fill: the five cells of row (x, y). */
  method FillRow(data: array3<real>, blocks: array3<Option<Loc>>, isAir: Loc -> bool, x: int, y: int)
    requires data.Length0 == Size && data.Length1 == Size && data.Length2 == Size
    requires AllSampled(blocks)
    requires 0 <= x < Size && 0 <= y < Size
    requires FilledBefore(data, blocks, isAir, x, y, 0)
    modifies data
    ensures FilledBefore(data, blocks, isAir, x, y + 1, 0)
  {
    for z := 0 to Size
      invariant FilledBefore(data, blocks, isAir, x, y, z)
    {
      if !isAir(blocks[x, y, z].value) {
        data[x, y, z] := 1.0;
      }
    }
  }

  /** The nested loops filling `data`: a cell is 1 exactly when its block is not air, and keeps Java's 0 otherwise. */
  method NonAirData(blocks: array3<Option<Loc>>, isAir: Loc -> bool) returns (data: array3<real>)
    requires AllSampled(blocks)
    ensures data.Length0 == Size && data.Length1 == Size && data.Length2 == Size
    ensures forall a, b, c :: InGrid(a, b, c) ==>
      data[a, b, c] == if isAir(blocks[a, b, c].value) then 0.0 else 1.0
  {
    data := new real[Size, Size, Size]((_, _, _) => 0.0);
    for x := 0 to Size
      invariant FilledBefore(data, blocks, isAir, x, 0, 0)
    {
      for y := 0 to Size
        invariant FilledBefore(data, blocks, isAir, x, y, 0)
      {
        FillRow(data, blocks, isAir, x, y);
      }
    }
  }

  // ---------------------------------------------------------------------
  // The decision
  // ---------------------------------------------------------------------

  /**
   * What `onProjectileImpact` does to the projectile. A rotation turns the
   * face direction about the face normal, keeps the old speed and clears the
   * shooter.
   */
  datatype ImpactOutcome =
    | Unchanged                                         // the handler returns early
    | Rotated(face: Vec3, degrees: real, speed: real)   // the face direction turned by `degrees`, at `speed`
    | ArcScheduled(launchSpeed: real)                   // the gravity arc starts at `launchSpeed`

  function Abs(r: real): real {
    if r < 0.0 then -r else r
  }

  /** `reflectionAngle` on the accepted path. */
  function ReflectionFraction(angle: real): (f: real)
    ensures f > 0.0 <==> angle < 180.0
    ensures f * 180.0 == 180.0 - angle
  {
    (180.0 - angle) / 180.0
  }

  /** The length of `velocity * reflectionAngle` when the velocity has length `speed`. */
  function RicochetSpeed(angle: real, speed: real): (v: real)
    ensures speed >= 0.0 ==> v >= 0.0
    ensures speed >= 0.0 && angle <= 180.0 ==> v == speed * ReflectionFraction(angle)
  {
    Abs(ReflectionFraction(angle)) * speed
  }

  /** Lines 66-87 of the handler, from the angle on. */
  function ImpactDecision(face: Vec3, angle: real, speed: real): (out: ImpactOutcome)
    ensures out != Unchanged ==> angle < AngleThreshold && RicochetSpeed(angle, speed) >= MinRicochetSpeed
    ensures out.Rotated? ==> out.face == face && out.degrees == 180.0 - angle && out.speed == speed
  {
    if !(angle < AngleThreshold) then Unchanged
    else
      var reflectionAngle := ReflectionFraction(angle);
      if RicochetSpeed(angle, speed) < MinRicochetSpeed then Unchanged
      else if reflectionAngle != 0.0 then Rotated(face, reflectionAngle * 180.0, speed)
      else ArcScheduled(RicochetSpeed(angle, speed))
  }

  /** For an angle in [0, 70) the fraction lies in (11/18, 1]. */
  lemma FractionBounds(angle: real)
    requires 0.0 <= angle < AngleThreshold
    ensures 11.0 / 18.0 < ReflectionFraction(angle) <= 1.0
  {
  }

  /** The fraction strictly decreases as the angle grows. */
  lemma FractionDecreasing(a1: real, a2: real)
    requires a1 < a2
    ensures ReflectionFraction(a1) > ReflectionFraction(a2)
  {
  }

  /** Below the threshold the fraction is positive, so the arc branch is dead code. */
  lemma ArcNeverScheduled(face: Vec3, angle: real, speed: real)
    ensures !ImpactDecision(face, angle, speed).ArcScheduled?
  {
    if angle < AngleThreshold {
      assert ReflectionFraction(angle) > 0.0;
    }
  }

  /**
   * The projectile is rotated exactly when the angle is below 70 and the
   * scaled speed reaches 0.6; it then turns by 180 - angle degrees and
   * keeps its speed. Otherwise it is left alone.
   */
  lemma RotatedExactly(face: Vec3, angle: real, speed: real)
    requires speed >= 0.0
    ensures var out := ImpactDecision(face, angle, speed);
      && (out.Rotated? <==> angle < AngleThreshold && speed * ReflectionFraction(angle) >= MinRicochetSpeed)
      && (out.Rotated? ==> out.face == face && out.degrees == 180.0 - angle && out.speed == speed)
      && (!out.Rotated? ==> out == Unchanged)
  {
    ArcNeverScheduled(face, angle, speed);
    if angle < AngleThreshold {
      assert ReflectionFraction(angle) > 0.0;
      assert RicochetSpeed(angle, speed) == speed * ReflectionFraction(angle);
    }
  }

  // ---------------------------------------------------------------------
  // The event handler
  // ---------------------------------------------------------------------

  /**
   * `onProjectileImpact`. `impactBlock` and `hitFace` are the nullable impact
   * block and hit face's direction, `speed` the length of the projectile's
   * velocity, `angle` the impact angle in degrees, `isAir` whether a block is
   * of type AIR.
   */
  method OnProjectileImpact(impactBlock: Option<Loc>, hitFace: Option<Vec3>, speed: real, angle: real,
                            isAir: Loc -> bool)
    returns (out: ImpactOutcome)
    requires speed >= 0.0
    ensures impactBlock.None? || hitFace.None? ==> out == Unchanged
    ensures impactBlock.Some? && hitFace.Some? ==> out == ImpactDecision(hitFace.value, angle, speed)
    ensures !out.ArcScheduled?
  {
    if impactBlock.None? {
      return Unchanged;
    }
    if hitFace.None? {
      return Unchanged;
    }
    var blocks := SampleBlocks(impactBlock.value);
    var data := NonAirData(blocks, isAir);
    out := ImpactDecision(hitFace.value, angle, speed);
    ArcNeverScheduled(hitFace.value, angle, speed);
  }
}
