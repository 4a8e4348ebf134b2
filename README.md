# Cannons fake blocks and ricochets, in Dafny

This project models three parts of the Cannons Bukkit plugin add-on and proves properties of the model.

- **`FakeBlockHandler`** keeps the fake blocks that are shown to a single player only, such as aiming reticles and impact predictors.
  - The state is an ordered list of entries (player, location, type, start time, duration) plus two timestamps: the last AIMING registration and the last IMPACT_PREDICTOR registration.
  - Registration skips cells that hold a real block. Otherwise it renews the entry that is already there for that player and location, or appends a new one.
  - Every tick runs two sweeps:
    - one drops entries of offline players and expired entries;
    - one drops entries older than their type's last registration minus 50.
  - Both sweeps send the real block back to the player when it can.
  - The two batch operations register each cell and then send the player the whole batch. That includes cells over real blocks, which registration skipped; see "## Findings".
  - A sphere builder and two distance predicates complete the class.
- **`RicochetListener.onProjectileHit`** handles a projectile hit.
  - It returns early when there is no shooter or the hit block is not solid. A shooter that is not an entity makes the cast throw, and a missing hit face makes line 49 throw; both abort the handler.
  - When the impact angle is above 70 degrees, it mirrors the velocity about the face normal.
  - Otherwise it samples the 5x5x5 cuboid around the impact block into an occupancy grid, takes the centroid, and collapses the grid to a 5x5 matrix. Each cell is weighted by `exp(-distance)` from a point of view five blocks behind the centroid. It then picks the eigenvector with the smallest eigenvalue of that matrix.
  - That branch never sets a velocity. Line 122 multiplies the transposed direction (1x3) by the chosen eigenvector column (5x1), and commons-math rejects the product. So the projectile is left as it was, and only the mirror branch changes it.
- **`ProjectileRicochet.onProjectileImpact`** handles a projectile impact.
  - It returns early without an impact block or a hit face.
  - It samples the 5x5x5 blocks around the impact and builds a grid marking the cells that are not air.
  - It keeps the projectile unchanged at angles of 70 or more, and when `velocity * (180 - angle) / 180` is slower than 0.6.
  - Otherwise it rotates the hit face's direction by that fraction of 180 degrees.

The model is split into these files:

- `geometry.dfy` holds the shared value types and the 5x5x5 grid that both ricochet handlers sample:
  - the value types are `Option`, integer block locations and exact real vectors;
  - the grid has its cells, their x-major order, and the block behind each cell.
- `fake_block_handler.dfy` (module `FakeBlocks`) has:
  - the sweeps and the registration as functions of the list they start from, with lemmas about those functions;
  - the class `FakeBlockHandler`, whose loops are proved against those functions.
- `ricochet_listener.dfy` (module `RicochetListener`) and `projectile_ricochet.dfy` (module `ProjectileRicochet`) model the two handlers.
  - Each loop of the handlers is a method over arrays or sequences, proved against a specification.
  - The handler methods are proved end to end. For example, the eigenvalue index `onProjectileHit` picks is the first arg-min of the eigenvalues of a matrix defined directly from the world around the impact block.

Inputs stand for everything outside the model:

- The world is `isEmpty`, `isSolid` or `isAir` on locations.
- Player presence is `online`.
- `FakeBlockEntry.isExpired` is `expired`.
- The clock is `now`. A batch takes one reading per registration, as the sequence `nows`.
- The map iteration order is `order`.
- The impact angle in degrees, the velocity's length and its normalised direction are values.
- `exp(-distance)` is `weight`.
- `Location.distance` is `distance`.
- The eigenvalue computation is `eigOf`.
- Blocks sent to players are returned as a log.

In `onProjectileHit`, the weight of cell (i, j, k) is taken between the grid indices (0..4) and the point of view, which is in world coordinates. The model keeps this as written.

## Model

| member | source | states |
|---|---|---|
| FakeBlocks.Superseded | src/main/java/at/pavlov/cannons/scheduler/FakeBlockHandler.java:94-95 | an entry is superseded if and only if its start time is below its own type's timestamp minus 50 |
| FakeBlocks.Evicts | src/main/java/at/pavlov/cannons/scheduler/FakeBlockHandler.java:61-80 | the expiry sweep removes every entry of an offline player, and an online player's entry if and only if it has expired |
| FakeBlocks.SendsRestore | src/main/java/at/pavlov/cannons/scheduler/FakeBlockHandler.java:61-103 | the expiry sweep sends a real block if and only if the player is online, the entry has expired and its location is not null; a block is only ever sent for an entry being removed |
| FakeBlocks.Restored | src/main/java/at/pavlov/cannons/scheduler/FakeBlockHandler.java:55-110 | a sweep sends at most one block per entry, and only to online players |
| FakeBlocks.Kept | src/main/java/at/pavlov/cannons/scheduler/FakeBlockHandler.java:57-81 | a sweep never grows the list and keeps only entries it does not evict |
| FakeBlocks.KeptExactly | src/main/java/at/pavlov/cannons/scheduler/FakeBlockHandler.java:57-81 | an entry survives a sweep if and only if it was in the list and the sweep does not evict it |
| FakeBlocks.KeptAppend | src/main/java/at/pavlov/cannons/scheduler/FakeBlockHandler.java:57-81 | in-place removal through the iterator keeps the survivors in their original order (filtering distributes over concatenation) |
| FakeBlocks.KeptUnchanged | src/main/java/at/pavlov/cannons/scheduler/FakeBlockHandler.java:57-81 | the list is left as it is if and only if no entry is evicted |
| FakeBlocks.KeptIdempotent | src/main/java/at/pavlov/cannons/scheduler/FakeBlockHandler.java:89-109 | running the same sweep a second time removes nothing more |
| FakeBlocks.KeptUnique | src/main/java/at/pavlov/cannons/scheduler/FakeBlockHandler.java:55-110 | a sweep preserves "at most one entry per (player, location)" |
| FakeBlocks.RestoredExactly | src/main/java/at/pavlov/cannons/scheduler/FakeBlockHandler.java:55-110 | a real block is sent for exactly the evicted entries whose player is online and whose location is not null, and for nothing else |
| FakeBlocks.KeptAndRestoredBound | src/main/java/at/pavlov/cannons/scheduler/FakeBlockHandler.java:55-110 | kept entries plus restorations never outnumber the entries swept |
| FakeBlocks.TickKeeps | src/main/java/at/pavlov/cannons/scheduler/FakeBlockHandler.java:43-46 | after both sweeps an entry remains if and only if its player is online, it has not expired, and it is not older than its type's last registration minus 50 |
| FakeBlocks.FirstMatch | src/main/java/at/pavlov/cannons/scheduler/FakeBlockHandler.java:195-206 | the renewal loop stops at the first entry equal to the new one, or runs off the end of the list |
| FakeBlocks.Register | src/main/java/at/pavlov/cannons/scheduler/FakeBlockHandler.java:186-220 | registration grows the list by at most one entry and keeps the (player, location) of every existing position |
| FakeBlocks.RegisterSkipsOccupied | src/main/java/at/pavlov/cannons/scheduler/FakeBlockHandler.java:189 | on a cell holding a real block, the list and both timestamps stay the same |
| FakeBlocks.RegisterRenews | src/main/java/at/pavlov/cannons/scheduler/FakeBlockHandler.java:194-206 | with an equal entry present, the length stays, only the first equal entry gets start time `now` (type and duration kept), and every other entry is untouched |
| FakeBlocks.RegisterAppends | src/main/java/at/pavlov/cannons/scheduler/FakeBlockHandler.java:207-211 | with no equal entry, the new list is the old list plus exactly one new entry at the end |
| FakeBlocks.RegisterStamps | src/main/java/at/pavlov/cannons/scheduler/FakeBlockHandler.java:214-217 | on an empty cell, renewed or added alike, only the registered type's timestamp becomes `now` |
| FakeBlocks.RegisterKeys | src/main/java/at/pavlov/cannons/scheduler/FakeBlockHandler.java:186-220 | registration preserves at most one entry per (player, location), leaves an entry for the pair on an empty cell, and loses no key |
| FakeBlocks.RegisterTwiceRenews | src/main/java/at/pavlov/cannons/scheduler/FakeBlockHandler.java:194-211 | registering the same player and location again renews instead of adding: the length stays, whatever the list held before |
| FakeBlocks.RegisterAll | src/main/java/at/pavlov/cannons/scheduler/FakeBlockHandler.java:148-150 | registering a batch adds at most one entry per location of the batch and never shrinks the list |
| FakeBlocks.RegisterAllKeys | src/main/java/at/pavlov/cannons/scheduler/FakeBlockHandler.java:148-150 | registering a batch preserves unique keys and leaves an entry for the player at every empty location of the batch |
| FakeBlocks.RegisterAllLastStamp | src/main/java/at/pavlov/cannons/scheduler/FakeBlockHandler.java:148-150 | after a batch whose last location is empty, the batch type's timestamp is the clock reading of that last registration |
| FakeBlocks.RegisterOverRealBlock | src/main/java/at/pavlov/cannons/scheduler/FakeBlockHandler.java:186-220 | a registration never creates an entry for a cell that holds a real block |
| FakeBlocks.RegisterAllOverRealBlock | src/main/java/at/pavlov/cannons/scheduler/FakeBlockHandler.java:148-150 | nor does a batch of registrations |
| FakeBlocks.NoEntryNoRestore | src/main/java/at/pavlov/cannons/scheduler/FakeBlockHandler.java:55-110 | without an entry for (player, location), a sweep sends no real block there and leaves no entry for it |
| FakeBlocks.MaskedCellNeverRestored | src/main/java/at/pavlov/cannons/scheduler/FakeBlockHandler.java:148-152 | a batch cell over a real block is sent but left without an entry, so no sweep ever restores it (as written) |
| FakeBlocks.OverlayCells | src/main/java/at/pavlov/cannons/scheduler/FakeBlockHandler.java:189 | the intended batch holds exactly the batch's cells without a real block, each with its block data (the corrected send) |
| FakeBlocks.OverlayCellsRestorable | src/main/java/at/pavlov/cannons/scheduler/FakeBlockHandler.java:148-152 | every cell of the intended batch has an entry after the batch is registered, and the expiry sweep restores it once that entry expires for an online player |
| FakeBlocks.InSphereExactly | src/main/java/at/pavlov/cannons/scheduler/FakeBlockHandler.java:122-131 | the sphere's cells are exactly the lattice offsets with x²+y²+z² ≤ r² (the loop bounds cut nothing off), and there are none for r < 0 |
| FakeBlocks.ImitateSphere | src/main/java/at/pavlov/cannons/scheduler/FakeBlockHandler.java:120-133 | the map holds exactly the locations of the sphere around the centre, each mapped to `blockData` |
| FakeBlocks.IsBetweenLimits | src/main/java/at/pavlov/cannons/scheduler/FakeBlockHandler.java:228-238 | true if and only if player and location are both present and min < distance < max, strictly |
| FakeBlocks.BelowMaxLimit | src/main/java/at/pavlov/cannons/scheduler/FakeBlockHandler.java:246-255 | true if and only if player and location are both present and distance < max, strictly |
| FakeBlocks.BetweenLimitsIsBelowMax | src/main/java/at/pavlov/cannons/scheduler/FakeBlockHandler.java:228-255 | a location between the limits is below the maximum limit |
| FakeBlocks.FakeBlockHandler.constructor | src/main/java/at/pavlov/cannons/scheduler/FakeBlockHandler.java:20-23 | a new handler has an empty list, both timestamps 0, and at most one entry per (player, location) |
| FakeBlocks.FakeBlockHandler.RemoveOldBlocks | src/main/java/at/pavlov/cannons/scheduler/FakeBlockHandler.java:55-82 | the new list is the old one without offline or expired entries; the log is the restorations of expired entries of online players with a location; the timestamps stay; at most one entry per (player, location) is preserved |
| FakeBlocks.FakeBlockHandler.RemoveOldBlockType | src/main/java/at/pavlov/cannons/scheduler/FakeBlockHandler.java:87-110 | the new list is the old one without entries older than their type's timestamp minus 50 (`&&` binds tighter than the disjunction); the log is their restorations where player and location exist; at most one entry per (player, location) is preserved |
| FakeBlocks.FakeBlockHandler.Tick | src/main/java/at/pavlov/cannons/scheduler/FakeBlockHandler.java:43-46 | one tick is the expiry sweep followed by the type sweep; the logs are concatenated and unique keys are preserved |
| FakeBlocks.FakeBlockHandler.RegisterBlockChangeToPlayer | src/main/java/at/pavlov/cannons/scheduler/FakeBlockHandler.java:186-220 | the loop with its `break` leaves exactly the state `Register` describes (see the Register lemmas), and preserves at most one entry per (player, location) |
| FakeBlocks.FakeBlockHandler.SendBlockChanges | src/main/java/at/pavlov/cannons/scheduler/FakeBlockHandler.java:143-153 | a null player changes nothing and sends nothing; otherwise every map key is registered once, in iteration order, each registration with its own clock reading, and the whole map is sent |
| FakeBlocks.FakeBlockHandler.ImitateLine | src/main/java/at/pavlov/cannons/scheduler/FakeBlockHandler.java:163-177 | null start or player changes nothing and sends nothing; otherwise every block of the ray is registered in turn, each with its own clock reading, and the batch maps exactly the ray's blocks to `blockData` |
| RicochetListener.CellOfFlatIndex | src/main/java/at/pavlov/cannons/listener/RicochetListener.java:74 | the cell of index 25a+5b+c is (a, b, c) |
| RicochetListener.FlatIndexOfCell | src/main/java/at/pavlov/cannons/listener/RicochetListener.java:70-76 | every index 0..124 maps to a cell inside the 5x5x5 grid, and back to itself |
| RicochetListener.CuboidLocations | src/main/java/at/pavlov/cannons/listener/RicochetListener.java:60-68 | the loops produce exactly 125 locations, the i-th being the impact block plus cell(i) − 2, in x-major, then y, then z order |
| RicochetListener.CuboidCellBounds | src/main/java/at/pavlov/cannons/listener/RicochetListener.java:60-68 | every sampled coordinate lies within [b−2, b+2] of the impact block, with half size 5 / 2 = 2 |
| RicochetListener.CuboidCellsDistinct | src/main/java/at/pavlov/cannons/listener/RicochetListener.java:60-68 | the 125 sampled locations are pairwise distinct |
| RicochetListener.CuboidCovers | src/main/java/at/pavlov/cannons/listener/RicochetListener.java:60-68 | every offset in [−2, 2]³ is sampled, at index 25(dx+2)+5(dy+2)+(dz+2) |
| RicochetListener.CuboidCellMirror | src/main/java/at/pavlov/cannons/listener/RicochetListener.java:60-68 | locations i and 124−i lie symmetrically about the impact block |
| RicochetListener.FillBlockMatrix | src/main/java/at/pavlov/cannons/listener/RicochetListener.java:69-76 | cell (a, b, c) is 1 if and only if location 25a+5b+c is solid, and keeps its initial 0 otherwise |
| RicochetListener.OccupancyOfCuboid | src/main/java/at/pavlov/cannons/listener/RicochetListener.java:69-76 | on the cuboid, the location behind cell (a, b, c) is the impact block plus (a−2, b−2, c−2) |
| RicochetListener.SymmetricSum | src/main/java/at/pavlov/cannons/listener/RicochetListener.java:79-82 | locations that pair up first-with-last around b sum to their count times b |
| RicochetListener.CuboidSum | src/main/java/at/pavlov/cannons/listener/RicochetListener.java:79-82 | the 125 sampled coordinates sum to 125 times the impact block |
| RicochetListener.Centroid | src/main/java/at/pavlov/cannons/listener/RicochetListener.java:79-83 | the centroid of the sampled locations is exactly the impact block |
| RicochetListener.CollapseEntry | src/main/java/at/pavlov/cannons/listener/RicochetListener.java:93-99 | an entry whose column holds no solid block is 0, whatever the weights |
| RicochetListener.CollapsedMatrix | src/main/java/at/pavlov/cannons/listener/RicochetListener.java:90-101 | the collapsed matrix is 5x5, and all its entries are ≥ 0 when the weights are |
| RicochetListener.CollapseEntryNonNegative | src/main/java/at/pavlov/cannons/listener/RicochetListener.java:90-101 | with non-negative weights every entry of the collapsed matrix is ≥ 0 |
| RicochetListener.CollapseEntryZero | src/main/java/at/pavlov/cannons/listener/RicochetListener.java:90-101 | with positive weights, entry (i, j) is 0 if and only if no block of column (i, j, ·) is solid (the direction from an empty column to 0 needs no weights; see `CollapseEntry`) |
| RicochetListener.ColumnSumOfCuboid | src/main/java/at/pavlov/cannons/listener/RicochetListener.java:90-101 | on the cuboid's occupancy grid, the array sums equal the entries defined directly from the world |
| RicochetListener.AccumulateColumn | src/main/java/at/pavlov/cannons/listener/RicochetListener.java:93-99 | the k loop adds the weighted column sum to `mat[i][j]` and touches no other entry |
| RicochetListener.WeightedCollapse | src/main/java/at/pavlov/cannons/listener/RicochetListener.java:90-101 | `mat[i][j]` is Σ_k `blockMatrix[i][j][k]`·w(i, j, k) for every i, j |
| RicochetListener.SmallestEigIndex | src/main/java/at/pavlov/cannons/listener/RicochetListener.java:109-116 | the argmin loop returns an index of a smallest eigenvalue together with that value; because the comparison is strict, it is the first such index |
| RicochetListener.FirstArgMinUnique | src/main/java/at/pavlov/cannons/listener/RicochetListener.java:109-116 | the first index of a smallest value is unique, so the loop's answer is determined |
| RicochetListener.Reflect | src/main/java/at/pavlov/cannons/listener/RicochetListener.java:53 | the reflected velocity's component along the normal is the negated original one |
| RicochetListener.PointOfView | src/main/java/at/pavlov/cannons/listener/RicochetListener.java:86-87 | the point of view lies five direction lengths behind the centroid |
| RicochetListener.ReflectionPreservesSpeed | src/main/java/at/pavlov/cannons/listener/RicochetListener.java:53 | for n ≠ 0, r = v − 2(v·n)/(n·n)·n has \|r\|² = \|v\|² and r·n = −(v·n) |
| RicochetListener.ReflectionInvolution | src/main/java/at/pavlov/cannons/listener/RicochetListener.java:53 | mirroring twice about the same normal gives back the velocity |
| RicochetListener.OnProjectileHit | src/main/java/at/pavlov/cannons/listener/RicochetListener.java:35-130 | the projectile changes if and only if an entity shooter hits a solid block with a face at an angle > 70 (strict), which mirrors the velocity before any sampling; a shooter that is not an entity aborts before anything else; no shooter or a non-solid block leaves the projectile alone; a solid block without a hit face aborts; otherwise the branch throws at line 122, after choosing the first arg-min of the eigenvalues of the matrix collapsed from the world around the impact block, seen from five blocks behind it |
| ProjectileRicochet.JavaDiv | src/main/java/at/pavlov/cannons/listener/ProjectileRicochet.java:41 | Java's integer division truncates toward zero: the remainder has the sign of the dividend and is smaller than the divisor |
| ProjectileRicochet.LoopBounds | src/main/java/at/pavlov/cannons/listener/ProjectileRicochet.java:41-43 | the loops run from −size/2 = −2 to size/2 = 2 (rounding down would give −3) |
| Geometry.GridLoc | src/main/java/at/pavlov/cannons/listener/ProjectileRicochet.java:44 | for a cell inside the grid, the sampled block lies within 2 of the impact block on every axis |
| ProjectileRicochet.SampleRow | src/main/java/at/pavlov/cannons/listener/ProjectileRicochet.java:43-45 | the z loop fills row (x+2, y+2) with the impact block plus (x, y, z) and leaves the later cells null |
| ProjectileRicochet.SampleBlocks | src/main/java/at/pavlov/cannons/listener/ProjectileRicochet.java:38-47 | `blocks[x+2][y+2][z+2]` is the impact block plus (x, y, z) for x, y, z in [−2, 2], and no cell is left null |
| ProjectileRicochet.FillRow | src/main/java/at/pavlov/cannons/listener/ProjectileRicochet.java:53-57 | the z loop sets the non-air cells of row (x, y) to 1 and changes nothing else |
| ProjectileRicochet.NonAirData | src/main/java/at/pavlov/cannons/listener/ProjectileRicochet.java:49-59 | `data[x][y][z]` is 1 if and only if the block there is not AIR, and 0 otherwise |
| ProjectileRicochet.ReflectionFraction | src/main/java/at/pavlov/cannons/listener/ProjectileRicochet.java:69 | the fraction is positive if and only if the angle is below 180, and 180 times it is 180 − angle |
| ProjectileRicochet.RicochetSpeed | src/main/java/at/pavlov/cannons/listener/ProjectileRicochet.java:74-77 | the ricochet speed is never negative, and for angles up to 180 it is the speed scaled by the fraction |
| ProjectileRicochet.ImpactDecision | src/main/java/at/pavlov/cannons/listener/ProjectileRicochet.java:66-87 | any change needs angle < 70 and a ricochet speed of at least 0.6; a rotation keeps the face and the speed and turns by 180 − angle degrees |
| ProjectileRicochet.FractionBounds | src/main/java/at/pavlov/cannons/listener/ProjectileRicochet.java:68-69 | for 0 ≤ angle < 70, (180 − angle)/180 lies in (11/18, 1] |
| ProjectileRicochet.FractionDecreasing | src/main/java/at/pavlov/cannons/listener/ProjectileRicochet.java:68-69 | the fraction strictly decreases as the angle grows |
| ProjectileRicochet.ArcNeverScheduled | src/main/java/at/pavlov/cannons/listener/ProjectileRicochet.java:82-90 | `reflectionAngle` is positive whenever line 82 is reached, so the timer task is never scheduled |
| ProjectileRicochet.RotatedExactly | src/main/java/at/pavlov/cannons/listener/ProjectileRicochet.java:66-87 | the projectile is rotated if and only if angle < 70 and speed·(180−angle)/180 ≥ 0.6; it then turns by 180 − angle degrees from the face direction and keeps its speed; in every other case nothing changes |
| ProjectileRicochet.OnProjectileImpact | src/main/java/at/pavlov/cannons/listener/ProjectileRicochet.java:25-87 | a null impact block or hit face changes nothing; otherwise the outcome is the angle decision, and it never schedules the arc |

## Left out

- The eigendecomposition (commons-math `EigenDecomposition`) is not modelled. In `onProjectileHit` its eigenvalues are the input `eigOf`, applied to the collapsed matrix.
- The eigenvector columns are not modelled, because they are floating-point matrix work in the library. `OnProjectileHit` returns the chosen eigenvalue index, with the outcome `ProductThrows`.
- Lines 123-130 of `RicochetListener.java` are not modelled, because line 122 always throws before them. Which exception is thrown is not modelled either.
- Floating point and transcendental functions are not modelled. `acos`, `toDegrees`, `exp`, `sqrt`, `normalize` and `length` become inputs: the impact angle, the weight function, the normalised direction and the speed. All arithmetic is over exact reals.
- ProjectileRicochet.OnProjectileImpact: the angle is an input that is not tied to the sampled grid.
  - Lines 61-65 of `ProjectileRicochet.java`, which build a matrix from `data` and take a dot product with an eigenvector, are not valid Java. The source builds a two-dimensional matrix from a three-dimensional array, and the dot-product call has no method name.
  - So the grids are computed and specified, but they do not influence the outcome.
- ProjectileRicochet.OnProjectileImpact: the rotation `rotateAroundAxis` is not computed. The outcome records the face direction, the rotation in degrees and the speed.
- The gravity and particle `BukkitRunnable` (lines 90-129 of `ProjectileRicochet.java`) is not modelled. It is float trajectory integration on the Bukkit scheduler, and it is unreachable, as `ArcNeverScheduled` shows.
- `NaN` is not modelled. In Java, a zero-length velocity or normal makes the angle `NaN`, and every comparison with it fails. `OnProjectileHit` instead requires a non-zero normal when the angle exceeds 70.
- The null checks on the projectile and world (lines 26-33 of `RicochetListener.java`) are not modelled. In the model a hit always has both. The failing shooter cast (line 35) and the missing hit face (line 49) are modelled as the outcome `Aborted`; which exception Java throws is not.
- Impact locations are not fractional. The impact is taken as the block the projectile is in, which is the block Java's `getBlockX/Y/Z` and `getBlockAt` give.
- `scheduleSyncRepeatingTask` and the network are not modelled, because they are Bukkit plumbing. The tick is a method.
  - The restorations `sendBlockChange` sends are returned as a log.
  - The batch `sendMultiBlockChange` sends is returned as a map: `SendBlockChanges`' `sent` and `ImitateLine`'s result.
- `imitateLine`'s `BlockIterator` traversal is not modelled, because it is a library ray walk. The ray is given as a sequence of locations.
- Duration conversion is not modelled. `(long)(duration*20.0)` is taken as an integer number of ticks.
- Timestamps stay in milliseconds while the grace value is 50, exactly as written.
- `FakeBlockEntry` is not part of this model.
  - `equals` is taken to compare the player and the location.
  - `isExpired` is the input `expired`.
- `getPlayerBukkit` returning null is modelled as the player being offline.
- FakeBlocks.Register: the two `currentTimeMillis` reads of one registration (line 201, and line 215 or 217) are one `now`. `NewEntry` assumes that the `FakeBlockEntry` constructor, which is not part of this model, sets the start time to the current time.
- The time that passes while a sweep runs is not modelled; a tick sees one state of the world and the clock.
- FakeBlocks.Register: a registry key is the player and the block coordinates, without the world and without fractional coordinates. Java's `equals` on `Location` also compares those, so a sphere around a fractional centre and a line of whole blocks can leave two Java entries where the model has one key.
- The iteration order of a `HashMap` is the input `order`.
- The minimum and maximum imitated-block distances are parameters rather than config lookups.
- FakeBlocks.IsBetweenLimits: worlds are not modelled. When the player and the location are in different worlds, Bukkit's `Location.distance` at line 233 throws `IllegalArgumentException`, but the model returns a result.
- FakeBlocks.BelowMaxLimit: worlds are not modelled. When the player and the location are in different worlds, `Location.distance` at line 251 throws `IllegalArgumentException`, but the model returns a result.
- `imitateSphere` ignores Java `int` overflow of `r * r` and `Location` identity beyond its coordinates.

## Findings

| source | as written | input that shows it | evidently intended | confidence | as-written member | corrected member |
|---|---|---|---|---|---|---|
| src/main/java/at/pavlov/cannons/scheduler/FakeBlockHandler.java:152 | the whole batch is sent to the player (and likewise at line 176), including the cells that the `isEmpty` guard at line 189 kept out of the registry | a batch with one location `l` over a real block, for a player with no entry at `l`: `l` is sent as a fake block, gets no entry, and no later sweep sends the real block back | send only the registered cells, as the commented-out send at line 209 did, so that every fake block shown is restored later | medium, not executed | FakeBlocks.MaskedCellNeverRestored | FakeBlocks.OverlayCellsRestorable |
