# Goal-based vector field pathfinding, modelled in Dafny

This project models the core of a goal-based vector-field pathfinder written in TypeScript. Particles
flow across a grid toward a goal cell that the mouse chooses.

## The main board

The main thread keeps a grid of cells (`Board`, module `Boards`, over the grid views of module `Grids`).

- Each cell has an integer address, a size, a distance, a visited flag and a force vector.
- A cell is a `Boxes.Box` object. Its state is the value `Boxes.BoxState`.
- Solving for a goal (`calculateBoxesDistance`) runs four steps:
  1. it resets every cell;
  2. it marks the goal with distance 0;
  3. it fills distances ring by ring, breadth first, over the eight king-move neighbours;
  4. it computes each cell's force from its neighbours' distances.

The fill is proved against an independent specification in module `Hops`: `WithinHops` and the hop
count of a cell. Afterwards a cell is visited exactly when it is reachable, and its distance is its
hop count. Further lemmas show that neighbouring distances differ by at most one, and that every
reachable cell has a neighbour one step closer.

## The older board

The older list-based board of the boilerplate directory is `FlatBoards.FlatBoard`. It is proved to
agree with the grid (`AgreesWithGrid`).

## Workers and buffers

The board is sent to web workers as a flat number buffer (`toArrayBuffer`, module `BoardCodec`).

- A worker decodes it into a light board (`ShallowBoards.WorkerShallowBoard`).
- The round trip is proved: every address of the decoded board holds the light copy of the main
  board's cell there.
- The older decoder (`LegacyShallowBoards`) is proved to decode the same records into the same slots.

## Particles

Particles are moved in the same way on both sides:

- they are steered by the force under them, with the velocity capped by `truncate`;
- they are corrected by at most one collision rule against the collision board (module `Collisions`);
- they are then moved by their velocity, optionally scaled by two random factors.

The worker's step is proved equal to the main thread's steering, collision and movement over boards
decoded from the main boards' encodings (`WorkerStepAgreesWithManager`). The main thread's steering
lookup throws for a particle a cell-width or more left of the board; `moveByPath` then stops part
way, and that case is modelled as a `Fault`.

The main-thread manager hands its particle configuration to `new Particle` as the `scene` argument,
so its particles start at `(0, 0)` with size 5, not where the scene asks. In the scene that leaves
every particle at rest in a border cell, where it never moves (`SceneParticlesStayAtOrigin`).

## Threads, workers and the scene

- The thread objects post messages.
- The threads manager cuts the particle list into slices; the model proves that no particle is lost
  or repeated.
- The scene builds a 21 by 21 board with a border ring and walls, and re-solves the field when the
  goal moves.

## How the model is written

- Objects whose fields the source updates become classes. Their methods are proved against value
  functions.
- Pure computations are functions with lemmas.
- `Math.sqrt` is a function parameter `sqrt` constrained by `PureVectors.IsSqrt`.
- Random draws are parameters.
- A posted message is a value the method returns, or a `posted` sequence the object appends to.

## Model

| member | source | states |
|---|---|---|
| Points.Point.constructor | src/objects/point.ts:4-7 | the point holds the given coordinates |
| Points.Point.SetX | src/objects/point.ts:13-15 | the `x` setter changes `x` alone |
| Points.Point.SetY | src/objects/point.ts:21-23 | the `y` setter changes `y` alone |
| Points.Point.Equals | src/objects/point.ts:25 | two points are equal exactly when both offsets between them vanish |
| Points.Point.VerticalPosition | src/objects/point.ts:27 | positive exactly when this point lies below the argument, zero exactly on the same row |
| Points.Point.HorizontalPosition | src/objects/point.ts:29 | positive exactly when the argument lies to the right of this point, zero exactly on the same column |
| Points.EqualsIsEquivalence | src/objects/point.ts:25 | `equals` is reflexive, symmetric and transitive |
| Points.OffsetsOrientation | src/objects/point.ts:27-29 | the two offsets are antisymmetric, measured in opposite directions, and both vanish exactly for equal points |
| Colors.DigitChar | src/objects/color.ts:3 | every digit below 16 becomes a lower-case hex character |
| Colors.DigitValue | src/objects/color.ts:3 | the value of a hex character inverts `DigitChar` |
| Colors.DigitRoundTrip | src/objects/color.ts:3 | digit to character to digit is the identity |
| Colors.ToHex | src/objects/color.ts:3 | `toString(16)` yields a non-empty lower-case hex string |
| Colors.ParseToHex | src/objects/color.ts:3 | reading back the numeral gives the number |
| Colors.ToHexLength | src/objects/color.ts:3 | one digit exactly below 16, two digits from 16 to 255 |
| Colors.ParseHexAppend | src/objects/color.ts:6-14 | parsing a concatenation shifts the left part by the right part's length |
| Colors.ComponentToHex | src/objects/color.ts:2-5 | a definition; `ComponentToHexSpec` states its meaning: two hex digits for a channel in 0..255, reading back as the channel |
| Colors.RgbToHex | src/objects/color.ts:6-14 | a definition; `RgbToHexValue` and `RgbToHexRangeAndInjective` state its meaning: `r * 65536 + g * 256 + b`, injective on channels in 0..255 |
| Colors.ComponentToHexSpec | src/objects/color.ts:2-5 | a channel in 0..255 gives two hex digits, padded with "0" exactly below 16, reading back as the channel |
| Colors.RgbToHexValue | src/objects/color.ts:6-14 | the colour is `r * 65536 + g * 256 + b` |
| Colors.RgbToHexRangeAndInjective | src/objects/color.ts:6-14 | the colour lies in 0..0xFFFFFF and distinct channel triples give distinct colours |
| PureVectors.Vec.Add | src/boilerplate/objects/forceVector.ts:28-29 | subtracting the added vector again gives back the receiver |
| PureVectors.Vec.Sub | src/boilerplate/objects/forceVector.ts:25-26 | adding the subtracted vector back restores the receiver |
| PureVectors.Vec.Devide | src/boilerplate/objects/forceVector.ts:41 | multiplying the quotient by the same non-zero factor restores the receiver |
| PureVectors.Vec.MultiplyBy | src/boilerplate/objects/forceVector.ts:31 | a definition; `MultiplyThenDevide` and the contract of `Vec.Devide` state its meaning: `devide` by the same non-zero factor undoes it |
| PureVectors.MultiplyThenDevide | src/boilerplate/objects/forceVector.ts:31-41 | multiplying then dividing by a non-zero factor restores the vector |
| PureVectors.LengthPositive | src/boilerplate/objects/forceVector.ts:33-37 | a vector with a non-zero component has positive length |
| PureVectors.Vec.Normalize | src/boilerplate/objects/forceVector.ts:33-37 | a component is zero exactly when it was, and positive exactly when it was |
| PureVectors.NormalizeScalesBack | src/boilerplate/objects/forceVector.ts:33-37 | scaling the normalised vector back by the length restores the vector, so the direction is kept |
| PureVectors.NormalizeBounded | src/boilerplate/objects/forceVector.ts:33-37 | each normalised component lies in `[-1, 1]` |
| PureVectors.TruncateProperties | src/boilerplate/objects/forceVector.ts:39 | `truncate` keeps the zero vector and zero components, and keeps signs for a positive cap |
| PureVectors.Vec.Truncate | src/boilerplate/objects/forceVector.ts:39 | the zero vector stays zero, and for a cap `m >= 0` each component lies in `[-m, m]` whatever the input |
| ForceVectors.ForceVector.constructor | src/objects/forceVector.ts:4-7 | the vector holds the given components |
| ForceVectors.ForceVector.Sub | src/objects/forceVector.ts:25-29 | the receiver becomes the difference; an argument that is another object is untouched, and subtracting itself gives zero |
| ForceVectors.ForceVector.Add | src/objects/forceVector.ts:31-35 | the receiver becomes the sum, and twice itself when added to itself |
| ForceVectors.ForceVector.Copy | src/objects/forceVector.ts:37-38 | a fresh object with equal components |
| ForceVectors.ForceVector.MultiplyBy | src/objects/forceVector.ts:40-44 | the receiver is scaled in place |
| ForceVectors.ForceVector.Devide | src/objects/forceVector.ts:57-61 | the receiver is divided in place by a non-zero divisor |
| ForceVectors.ForceVector.Normalize | src/objects/forceVector.ts:46-52 | the receiver becomes the value `normalize` of its old components, both read before either is written |
| ForceVectors.ForceVector.Truncate | src/objects/forceVector.ts:54-55 | the receiver becomes the value `truncate(m)` of its old components |
| Geometry.Trunc | src/objects/board.ts:175-181 | `Math.trunc` lies within one of its argument, toward zero |
| Geometry.CellCoordinateIsTrunc | src/objects/board.ts:175-181 | the zero-coordinate special case agrees with truncating division |
| Geometry.CellCoordinateContains | src/objects/board.ts:175-181 | a non-negative coordinate lies inside the span of the cell it maps to |
| Geometry.CenterInCell | src/objects/box.ts:49-52 | the centre of a cell with non-negative address converts back to that address |
| Geometry.Neighbours | src/objects/board.ts:225-245 | eight addresses, which are exactly the addresses adjacent to `p` |
| Geometry.AdjacentSymmetric | src/objects/board.ts:225-245 | adjacency is symmetric |
| Utils.FindIndex | src/boilerplate/objects/utils.ts:16-18 | the first index with the key, or -1 exactly when no element has it |
| Utils.KeepFirsts | src/boilerplate/objects/utils.ts:12-19 | a definition; `KeepFirstsSpec` states its meaning: the first occurrences among the first `n`, in order |
| Utils.KeepFirstsSpec | src/boilerplate/objects/utils.ts:12-19 | the kept elements are the first occurrences, in order, and every key's first occurrence is kept |
| Utils.KeepFirstsFound | src/boilerplate/objects/utils.ts:12-19 | every kept element is the first occurrence of its key |
| Utils.KeepFirstsLast | src/boilerplate/objects/utils.ts:12-19 | one more element is kept exactly when it is the first of its key |
| Utils.KeepFirstsOrdered | src/boilerplate/objects/utils.ts:12-19 | kept elements appear in the order of their first occurrences |
| Utils.KeepFirstsComplete | src/boilerplate/objects/utils.ts:12-19 | the first occurrence of every key is kept |
| Utils.UniqueBy | src/boilerplate/objects/utils.ts:12-28 | a definition; `UniqueBySpec`, `UniqueByElements` and `UniqueByIdempotent` state its meaning: first occurrences in order, distinct keys, idempotent |
| Utils.UniqueBySpec | src/boilerplate/objects/utils.ts:12-28 | the output is the list of first occurrences and has distinct keys |
| Utils.UniqueByDistinct | src/boilerplate/objects/utils.ts:12-28 | no two output elements share a key |
| Utils.UniqueByElements | src/boilerplate/objects/utils.ts:12-28 | the output holds only input elements and some element for every input key |
| Utils.KeepFirstsOfDistinct | src/boilerplate/objects/utils.ts:12-28 | a list with distinct keys is unchanged |
| Utils.UniqueByIdempotent | src/boilerplate/objects/utils.ts:12-28 | deduplicating twice equals deduplicating once |
| Utils.UniquePointArray | src/boilerplate/objects/utils.ts:21-28 | a definition; `UniquePointArraySpec` states its meaning: no repetition, exactly the input's points |
| Utils.UniquePointArraySpec | src/boilerplate/objects/utils.ts:21-28 | the output has no repetition, holds exactly the input's points, and its length is their number |
| Utils.SameElementsSameSet | src/boilerplate/objects/utils.ts:21-28 | lists with the same members have the same set |
| Utils.DistinctCardinality | src/boilerplate/objects/utils.ts:21-28 | a repetition-free list has as many elements as its set |
| Boxes.NewBox | src/objects/box.ts:37-53 | a new cell has distance 0, is unvisited and has zero force |
| Boxes.ResetIsFresh | src/objects/box.ts:91-95 | `reset` returns any cell to the state of a new cell |
| Boxes.CenterIsInsideCell | src/objects/box.ts:49-52 | the stored centre converts back to the cell's address |
| Boxes.Positions | src/boilerplate/objects/utils.ts:12-19 | the addresses of a list of cells, in order |
| Boxes.UniqueBoxArray | src/boilerplate/objects/utils.ts:12-19 | a definition; `UniqueBoxArraySpec` states its meaning: the first cell of every address, in order |
| Boxes.UniqueBoxArraySpec | src/boilerplate/objects/utils.ts:12-19 | `uniqueBoxArray` keeps the first cell of every address, in order, with no address twice, and is idempotent |
| Boxes.UniqueBoxArrayPositions | src/boilerplate/objects/utils.ts:12-28 | deduplicating cells then taking addresses equals deduplicating the addresses |
| Boxes.Box.constructor | src/objects/box.ts:37-53 | defaults of distance 0, unvisited and a fresh zero force unless the config gives them |
| Boxes.Box.BoxCenterPosition | src/objects/box.ts:86-89 | a fresh point at the cell's centre |
| Boxes.Box.SetDistance | src/objects/box.ts:55-60 | only the distance changes |
| Boxes.Box.SetVisited | src/objects/box.ts:65-67 | only the visited flag changes |
| Boxes.Box.SetForceVector | src/objects/box.ts:77-79 | the force object is replaced by the given one |
| Boxes.Box.ResetForce | src/objects/box.ts:97-100 | the same force object is zeroed |
| Boxes.Box.Reset | src/objects/box.ts:91-95 | the state becomes the reset state and the force object is kept |
| TileMaps.TopAndBottom | src/engine/tileMap.ts:25-28 | the first loop writes `2h` cells |
| TileMaps.LeftAndRight | src/engine/tileMap.ts:29-32 | the second loop writes `2(v - 2)` cells |
| TileMaps.NoDuplicatesConcat | src/engine/tileMap.ts:20-34 | two repetition-free lists with no shared cell join without repetition |
| TileMaps.TopAndBottomMembers | src/engine/tileMap.ts:25-28 | the first loop lists exactly the cells of the top and bottom rows |
| TileMaps.LeftAndRightMembers | src/engine/tileMap.ts:29-32 | the second loop lists exactly the inner cells of the outer columns |
| TileMaps.TopAndBottomDistinct | src/engine/tileMap.ts:25-28 | with two distinct rows no cell is listed twice |
| TileMaps.LeftAndRightDistinct | src/engine/tileMap.ts:29-32 | with two distinct columns no cell is listed twice |
| TileMaps.BorderRing | src/engine/tileMap.ts:20-34 | a definition; `BorderRingOnEdge` and `BorderRingExact` state its meaning: exactly the border cells, each once |
| TileMaps.BorderRingOnEdge | src/engine/tileMap.ts:20-34 | every listed cell is on an outer row or column, and on the border of a non-empty grid |
| TileMaps.BorderRingExact | src/engine/tileMap.ts:20-34 | on a grid at least 2 by 2 the ring fills the preallocated slots exactly and lists each border cell once |
| TileMaps.InitMapBorder | src/engine/tileMap.ts:20-34 | the ring, or a `RangeError` exactly when the preallocation size is negative |
| TileMaps.TileMap.Create | src/engine/tileMap.ts:13-18 | the given cells followed by the ring, or the error of `initMapBorder` |
| TileMaps.TileMap.constructor | src/engine/tileMap.ts:13-18 | the dimensions and the cells, walls first |
| Hops.WithinHopsPopulated | src/objects/board.ts:271-289 | every cell the fill can reach, other than the goal, is populated |
| Hops.WithinHopsStep | src/objects/board.ts:271-289 | reaching in `k + 1` steps is reaching in `k` or being adjacent to a cell reached in `k` |
| Hops.WithinHopsMonotone | src/objects/board.ts:271-289 | a larger budget reaches at least as much |
| Hops.HopCountUnique | src/objects/board.ts:271-289 | a cell has at most one hop count |
| Hops.HopCountExists | src/objects/board.ts:271-289 | every reachable cell has a hop count |
| Hops.RingHopCount | src/objects/board.ts:271-289 | a cell first reached at step `k` has hop count `k` |
| Hops.GoalHopCount | src/objects/board.ts:247-261 | the goal has hop count 0 |
| Hops.FirstRing | src/objects/board.ts:275-277 | the first ring is the populated neighbourhood of the goal |
| Hops.NextRing | src/objects/board.ts:278-288 | ring `k + 1` is the unreached populated neighbours of ring `k` |
| Hops.RingsStop | src/objects/board.ts:278 | after an empty ring nothing new is reached |
| Hops.NeighbourHopCounts | src/objects/board.ts:271-289 | adjacent reachable cells' hop counts differ by at most one |
| Hops.DownhillNeighbour | src/objects/board.ts:303-324 | every reachable non-goal cell has a neighbour one step closer |
| Grids.Exist | src/objects/board.ts:193-198 | a definition; `PopulatedIsExist` states its meaning: the address is populated |
| Grids.PopulatedIsExist | src/objects/board.ts:193-198 | an address is populated exactly when `exist` holds |
| Grids.GetBoxByPosition | src/objects/board.ts:190-191 | `undefined` exactly where `exist` fails; on a well-placed grid the cell found sits at the requested address |
| Grids.SameTopologyPopulated | src/objects/board.ts:334-339 | grids with the same topology populate the same addresses |
| Grids.FilterExisting | src/objects/board.ts:225-245 | the kept addresses are exactly the listed populated ones, never more than were listed |
| Grids.GetBoxChildrens | src/objects/board.ts:225-245 | the children are exactly the populated adjacent cells, at most eight |
| Grids.GetNamedChildrens | src/objects/board.ts:290-301 | a definition; `NamedChildrensAreChildrens` states its meaning: the present named neighbours are the children |
| Grids.NamedChildrensAreChildrens | src/objects/board.ts:290-301 | the present named neighbours are exactly `getBoxChildrens` |
| Grids.FlatNeighbourhoodNoForce | src/objects/board.ts:303-324 | equal or missing neighbours give zero force |
| Grids.IsolatedCellNoForce | src/objects/board.ts:303-324 | a cell with no neighbours feels no force |
| Grids.ForcePointsDownhill | src/objects/board.ts:303-324 | with balanced diagonals the force points toward the nearer orthogonal neighbour, in both directions |
| Grids.MirrorForce | src/objects/board.ts:303-324 | mirroring the neighbourhood flips the `x` force and keeps `y` |
| Grids.ColumnStep | src/objects/board.ts:113-120 | one more slot appends that slot's cell |
| Grids.FlatStep | src/objects/board.ts:113-120 | one more column appends its cells |
| Grids.ColumnCount | src/objects/board.ts:113-120 | a column lists as many cells as it populates |
| Grids.PopulatedSplit | src/objects/board.ts:109 | the populated set splits by column |
| Grids.FlatCount | src/objects/board.ts:109 | the listing has as many cells as populated addresses |
| Grids.FlatMembers | src/objects/board.ts:113-120 | the listing holds exactly the grid's cells |
| Grids.FlatAt | src/objects/board.ts:113-120 | every listed cell of a well-placed grid sits at its position |
| Grids.ColumnMembers | src/objects/board.ts:113-120 | a column's listing holds exactly its cells |
| Grids.FindBox | src/objects/board.ts:250-252 | `find`: a listed cell with the position, or nothing exactly when none has it |
| Grids.FindInFlat | src/objects/board.ts:250-252 | on a well-placed grid, `find` returns the cell at the address, and nothing exactly when it is empty |
| Grids.FullGridSpec | src/objects/board.ts:89-97 | the full grid is well placed, has `h * v` cells, and every in-range address exists |
| Grids.FilledGridSpec | src/objects/board.ts:98-107 | exactly the listed addresses are populated, duplicates collapse, and the count is the number of distinct addresses |
| Grids.DistancesUnique | src/objects/board.ts:271-289 | two fills from the same goal over the same cells agree on every distance and flag |
| Boards.OnlyDistancesChangedTrans | src/objects/board.ts:263-289 | changing only distances and flags twice changes only distances and flags |
| Boards.SameTopologyCount | src/objects/board.ts:109 | the same topology gives the same cell count |
| Boards.FullBoxMap | src/objects/board.ts:89-97 | the loops build the full grid of new cells |
| Boards.EmptyBoxMap | src/objects/board.ts:98-104 | `h` columns of `v` empty slots |
| Boards.FilledBoxMap | src/objects/board.ts:98-107 | a new cell at each deduplicated listed address, nothing elsewhere |
| Boards.FilterUnvisited | src/objects/board.ts:275-277 | the kept addresses are exactly the listed unvisited ones |
| Boards.Occurs | src/objects/board.ts:349-354 | `some`: a listed cell has the position |
| Boards.KeptPositionsMembers | src/objects/board.ts:341-365 | a position is kept exactly when it is listed and not removed |
| Boards.OccursInFlat | src/objects/board.ts:349-354 | on well-placed grids `some` over the listing is `exist` |
| Boards.KeptPositionsSpec | src/objects/board.ts:341-365 | the positions passed on are exactly those populated here and not in the other board, each once |
| Boards.InitialFrontier | src/objects/board.ts:275-277 | before the loop the goal is handled and the first ring is the goal's unvisited children |
| Boards.MarkRing | src/objects/board.ts:279 | marking ring `k + 1` extends the handled region by one step |
| Boards.NextFrontier | src/objects/board.ts:280-287 | the unvisited collected children of ring `k` are ring `k + 1` |
| Boards.FinalFrontier | src/objects/board.ts:278 | when a ring is empty every reachable cell has its hop count |
| Boards.UnvisitedShrinks | src/objects/board.ts:278-288 | marking a non-empty ring visits more cells and unvisits none |
| Boards.AdvanceRing | src/objects/board.ts:278-288 | the marking half of one round keeps the fill's invariant |
| Boards.FillRound | src/objects/board.ts:278-288 | one round keeps the loop state and leaves fewer unvisited cells |
| Boards.CollectStep | src/objects/board.ts:281-285 | one merge adds the next cell's children and keeps the list repetition-free |
| Boards.MaxStep | src/objects/board.ts:132-138 | one comparison keeps `max` the largest distance seen |
| Boards.SetDistanceStep | src/objects/board.ts:263-269 | one iteration gives the next listed cell, if unvisited, distance `d` |
| Boards.Board.constructor | src/objects/board.ts:63-82 | no goal yet; a full grid with `initAll`, exactly the listed addresses with `positionsToFill`, otherwise empty |
| Boards.Board.GetBoxPositionByDimensions | src/objects/board.ts:175-181 | the cell under a point, by truncating division |
| Boards.Board.BoxPositionContains | src/objects/board.ts:175-181 | for a point right of and below the origin the returned cell contains it |
| Boards.Board.GetBoxByDimensionsGuarded | src/objects/board.ts:183-188 | the cell under a point, `undefined` when it is outside the grid or empty |
| Boards.Board.GetBoxByDimensions | src/objects/board.ts:183-188 | throws, with the missing-column error, exactly for a negative column; wherever it does not throw it agrees with the guarded lookup |
| Boards.Board.GetBoxByDimensionsThrows | src/objects/board.ts:183-188 | a point one cell left of the board makes the unguarded lookup throw |
| Boards.Board.GetMaxDistance | src/objects/board.ts:132-138 | the largest distance of any cell, or none when there is no cell |
| Boards.Board.Reset | src/objects/board.ts:334-339 | every cell is reset; topology is unchanged |
| Boards.Board.SetGoalDistance | src/objects/board.ts:247-261 | the goal is recorded; the cell there, if any, gets distance 0 and is visited; nothing else changes |
| Boards.Board.SetDistances | src/objects/board.ts:263-269 | every listed unvisited cell gets distance `d` and is visited; nothing else changes |
| Boards.Board.CollectChildren | src/objects/board.ts:281-285 | exactly the populated cells adjacent to some listed cell, each once |
| Boards.Board.CalculateDistance | src/objects/board.ts:271-289 | from the seeded state, visited exactly when reachable, at its hop count; only distances and flags change |
| Boards.Board.CalculateForceVectors | src/objects/board.ts:303-324 | every cell's force is the force of the old distances; only forces change |
| Boards.Board.CalculateBoxesDistance | src/objects/board.ts:326-332 | the goal is recorded, cells are visited exactly when reachable and then carry their hop counts, topology is kept, and every force follows the new distances |
| Boards.Board.RemoveFromBoard | src/objects/board.ts:341-365 | a new board of the same dimensions with new cells exactly where this board has a cell and the other has none |
| Boards.Board.ToArrayBuffer | src/objects/board.ts:367-386 | the header `[h, v, size, count]` then each cell's record, in column-major order |
| Boards.WriteRecords | src/objects/board.ts:376-385 | the `i`-th cell's record lands at `offset + 4i`; entries before `offset` stay |
| Boards.RecordWritten | src/objects/board.ts:377-383 | after one more record the buffer holds the header and one more cell's records |
| Boards.ComputeForce | src/objects/board.ts:305-322 | the force of a neighbourhood, a missing neighbour counting as one further |
| Boards.ForcePassOnlyForces | src/objects/board.ts:303-324 | the partial force pass changes only forces |
| Boards.ForcePassStep | src/objects/board.ts:303-324 | handling one slot, with the force read from the partly updated grid, extends the pass |
| Boards.ForcePassSkip | src/objects/board.ts:113-120 | an empty slot is passed over |
| Boards.ForcePassDone | src/objects/board.ts:303-324 | after the last slot every cell holds the force of the original distances |
| Boards.ForceStable | src/objects/board.ts:303-324 | changing forces does not change any cell's computed force |
| FlatBoards.Positions | src/boilerplate/objects/board.ts:61-85 | the addresses of the listed cells, in list order |
| FlatBoards.ColumnPositions | src/boilerplate/objects/board.ts:72-78 | the `v` addresses of one column, in row order |
| FlatBoards.FullPositionsMembers | src/boilerplate/objects/board.ts:72-78 | the full listing holds exactly the grid's addresses |
| FlatBoards.FullPositionsDistinct | src/boilerplate/objects/board.ts:72-78 | the full listing has `h * v` entries, none twice |
| FlatBoards.Exist | src/boilerplate/objects/board.ts:159-163 | a definition; `ExistIsListed` states its meaning: membership in the listed addresses |
| FlatBoards.ExistIsListed | src/boilerplate/objects/board.ts:159-163 | `exist` is membership in the listed addresses, with no bounds check |
| FlatBoards.ChildrensUpTo | src/boilerplate/objects/board.ts:173-185 | the filter over a prefix keeps exactly the cells one king step away |
| FlatBoards.Childrens | src/boilerplate/objects/board.ts:173-185 | references to exactly the cells one king step away, in list order |
| FlatBoards.FilterUnvisited | src/boilerplate/objects/board.ts:206-224 | exactly the referenced unvisited cells |
| FlatBoards.FindBox | src/boilerplate/objects/board.ts:187-196 | the first cell with the address, or -1 exactly when none has it |
| FlatBoards.UnvisitedShrinks | src/boilerplate/objects/board.ts:206-224 | visiting new cells lowers the unvisited count by at least their number |
| FlatBoards.InitialFrontier | src/boilerplate/objects/board.ts:208-210 | the goal is handled and the first ring is its unvisited children |
| FlatBoards.MarkRing | src/boilerplate/objects/board.ts:212 | marking ring `k + 1` extends the handled cells by one step |
| FlatBoards.DistinctAt | src/boilerplate/objects/board.ts:206-224 | with distinct addresses an address names one cell |
| FlatBoards.NextFrontier | src/boilerplate/objects/board.ts:213-222 | the unvisited collected children of ring `k` are ring `k + 1` |
| FlatBoards.NextFrontierAt | src/boilerplate/objects/board.ts:213-222 | one address of the next ring |
| FlatBoards.PositionKeyAt | src/boilerplate/objects/board.ts:216-220 | the key of a reference is its cell's address |
| FlatBoards.CollectStepFrom | src/boilerplate/objects/board.ts:216-220 | one merge keeps every reference a child of a merged cell |
| FlatBoards.FromOne | src/boilerplate/objects/board.ts:216-220 | children of one cell are children of the merged cells |
| FlatBoards.CollectStepCovers | src/boilerplate/objects/board.ts:216-220 | one merge keeps every child's address represented |
| FlatBoards.UniqueBoxArray | src/boilerplate/objects/board.ts:216-220 | a definition of the undefined `Utils.unique` as deduplication by address; `CoverOne`, `CollectStepFrom` and `CollectStepCovers` state its meaning: a reference with each address is kept, and only merged ones |
| FlatBoards.CoverOne | src/boilerplate/objects/board.ts:216-220 | deduplication keeps a reference with each address |
| FlatBoards.KeptPop | src/boilerplate/objects/board.ts:206-224 | newly visiting cells keeps the addresses |
| FlatBoards.Round | src/boilerplate/objects/board.ts:211-223 | one round keeps addresses and earlier values, visits a new cell, and carries the invariant |
| FlatBoards.FinalFrontier | src/boilerplate/objects/board.ts:211 | when a ring is empty the handled cells are everything reachable |
| FlatBoards.AgreesWithGrid | src/boilerplate/objects/board.ts:206-224 | the list and the grid fills agree on every cell's distance and flag |
| FlatBoards.RemainingSpec | src/boilerplate/objects/board.ts:240-256 | removal is set difference on addresses, and the identity when `b` shares none |
| FlatBoards.InitBoxMap | src/boilerplate/objects/board.ts:61-85 | the full grid column by column, or one new cell per given position, repeats kept, or nothing |
| FlatBoards.FlatBoard.constructor | src/boilerplate/objects/board.ts:47-59 | the dimensions by truncation, no goal, and the cells `initBoxMap` lists |
| FlatBoards.FlatBoard.GetBoxPositionByDimensions | src/boilerplate/objects/board.ts:151-157 | truncating division by the cell size, with the zero guard |
| FlatBoards.FlatBoard.SetGoalDistance | src/boilerplate/objects/board.ts:187-196 | the goal is recorded; the first cell there gets distance 0 and is visited, or it throws when there is none |
| FlatBoards.FlatBoard.SetDistances | src/boilerplate/objects/board.ts:198-204 | every referenced unvisited cell gets distance `d` and is visited |
| FlatBoards.FlatBoard.CollectChildren | src/boilerplate/objects/board.ts:216-220 | references to children of referenced cells, covering every child's address, one per address |
| FlatBoards.FlatBoard.CalculateDistance | src/boilerplate/objects/board.ts:206-224 | from the seeded state with distinct addresses, visited exactly when reachable, at its hop count |
| FlatBoards.FlatBoard.RemoveFromBoard | src/boilerplate/objects/board.ts:240-256 | a new board with a new cell for each address of this one that the other does not list |
| BoardCodec.TagOf | src/objects/particleThread.ts:39-57 | the tag whose code the entry is, and none exactly when no tag has that code |
| BoardCodec.TagRoundTrip | src/objects/particleThread.ts:39-57 | every tag is recognised from its code |
| BoardCodec.TagCodesDistinct | src/objects/particleThread.ts:39-57 | distinct tags have distinct codes |
| BoardCodec.Records | src/objects/board.ts:376-385 | four entries per cell, the `i`-th block the `i`-th cell's record |
| BoardCodec.RecordsAppend | src/objects/board.ts:376-385 | records of one more cell append its record |
| BoardCodec.RecordEntries | src/objects/board.ts:378-382 | record `i` holds the cell's position and force |
| BoardCodec.EncodeBoard | src/objects/board.ts:367-386 | the header `[h, v, size, count]` then the records |
| BoardCodec.Coordinates | src/objects/particleThread.ts:88-100 | two entries per particle, its `x` then its `y` |
| BoardCodec.EncodeParticles | src/workers/particleWorker.ts:49-61 | the tag, the count, then the pairs |
| BoardCodec.DecodeCoords | src/workers/particleWorker.ts:21-29 | the `i`-th pair read as `(data[2i], data[2i + 1])` |
| BoardCodec.CoordinatesRoundTrip | src/workers/particleWorker.ts:21-29 | decoding the encoded pairs gives the positions back |
| BoardCodec.ParticlesRoundTrip | src/workers/particleWorker.ts:49-61 | the tag is recognised, the count is the number of particles, and the pairs decode to the positions |
| BoardCodec.NatIsNat | src/workers/particleWorker.ts:21-29 | a written count reads back as a natural number |
| Collisions.HitsBottom | src/workersObjects/shallowParticle.ts:103 | a definition of the bottom trigger; `Collide` states its meaning: the rule fires exactly when it holds, and not again after the correction |
| Collisions.HitsTop | src/workersObjects/shallowParticle.ts:113 | a definition of the top trigger; `Collide` states its meaning, as for the bottom one |
| Collisions.HitsLeft | src/workersObjects/shallowParticle.ts:123 | a definition of the left trigger; `Collide` states its meaning, as for the bottom one |
| Collisions.HitsRight | src/workersObjects/shallowParticle.ts:133-136 | a definition of the right trigger; `Collide` states its meaning, as for the bottom one |
| Collisions.Collide | src/workersObjects/shallowParticle.ts:103-146 | the first rule whose trigger holds fires and no other, correcting one axis only; otherwise nothing changes |
| Collisions.AtMostOneCorrection | src/workersObjects/shallowParticle.ts:103-146 | the result is unchanged, a vertical bounce keeping `x`, or a horizontal bounce keeping `y` |
| Collisions.NoObstacleNoChange | src/workersObjects/shallowParticle.ts:89-148 | without obstacles nothing changes |
| Collisions.CollisionPriority | src/workersObjects/shallowParticle.ts:103-146 | a bottom hit decides whatever else is near; left and right matter only without a vertical hit |
| Collisions.BounceVertical | src/workersObjects/shallowParticle.ts:109-122 | the horizontal component is kept; the vertical one reverses and loses speed, and zero stays zero |
| Collisions.BounceHorizontal | src/workersObjects/shallowParticle.ts:129-145 | the vertical component is kept; the horizontal one reverses and loses speed, and zero stays zero |
| Collisions.BounceTwice | src/workersObjects/shallowParticle.ts:103-122 | two bounces reverse the component twice and damp it to 64% |
| ShallowParticles.SteeredVelocity | src/workersObjects/shallowParticle.ts:39-49 | whatever the field asks for, the new velocity never exceeds the maximum speed in either component |
| ShallowParticles.RestStaysAtRest | src/workersObjects/shallowParticle.ts:39-49 | a resting particle asked to rest stays at rest |
| ShallowParticles.Steering | src/workersObjects/shallowParticle.ts:39-45 | a definition; `SteeringAtRest` and the contract of `SteeredVelocity` state its meaning: zero at rest, and the velocity it produces is capped |
| ShallowParticles.SteeringAtRest | src/workersObjects/shallowParticle.ts:39-49 | zero velocity and zero force give zero steering |
| ShallowParticles.MoveStep | src/workersObjects/shallowParticle.ts:59-71 | the position moves by the velocity, scaled by the draws when inaccurate; the velocity stays |
| ShallowParticles.FreeNeighbourhoodNoCorrection | src/workersObjects/shallowParticle.ts:89-148 | free orthogonal neighbours mean no correction, whatever the diagonals hold |
| ShallowParticles.ShallowParticle.constructor | src/workersObjects/shallowParticle.ts:26-37 | at the given position, at rest, with the default size and mass |
| ShallowParticles.ShallowParticle.SetVelocity | src/workersObjects/shallowParticle.ts:39-49 | the velocity object becomes the steered velocity and the argument is untouched |
| ShallowParticles.ShallowParticle.MoveByVelocity | src/workersObjects/shallowParticle.ts:59-63 | the position moves by the velocity and nothing else changes |
| ShallowParticles.ShallowParticle.MoveWithInaccuracyByVelocity | src/workersObjects/shallowParticle.ts:65-71 | the position moves by the velocity scaled per component by the draws |
| ShallowParticles.ShallowParticle.AbsoluteMoveTo | src/workersObjects/shallowParticle.ts:73-77 | the position becomes the point given and nothing else changes |
| ShallowParticles.ShallowParticle.ToParticlePositionObject | src/workersObjects/shallowParticle.ts:79-82 | the particle's coordinates |
| ShallowParticles.ShallowParticle.GetCenterPosition | src/workersObjects/shallowParticle.ts:84-87 | the corner moved by half the size on both axes |
| ShallowParticles.ShallowParticle.CheckColisions | src/workersObjects/shallowParticle.ts:89-148 | the new motion is the collision rule over the board's obstacles |
| ShallowBoards.WorkerShallowBoard.Exist | src/workersObjects/workerShallowBoard.ts:89-96 | a definition; `BoardRoundTripExist` states its meaning: it agrees with the main board's `exist` |
| ShallowBoards.WorkerShallowBoard.GetBoxByPosition | src/workersObjects/workerShallowBoard.ts:102-103 | a definition; `ShallowLookup` and `DecodedMapLookup` state its meaning: `undefined` exactly where `exist` fails, and after the round trip the light copy of the main board's cell |
| ShallowBoards.WorkerShallowBoard.GetShallowNamedChildrens | src/workersObjects/workerShallowBoard.ts:105-119 | a definition; `BoardRoundTripNeighbours` states its meaning: the light copy of the main board's neighbourhood |
| ShallowBoards.ShallowLookup | src/workersObjects/workerShallowBoard.ts:89-103 | `undefined` exactly where `exist` fails, otherwise the cell there |
| ShallowBoards.EmptyShallowMap | src/workersObjects/workerShallowBoard.ts:44-51 | `h` columns of `v` empty slots |
| ShallowBoards.LastNaming | src/workersObjects/workerShallowBoard.ts:53-68 | the last record naming an address, or -1 exactly when none does |
| ShallowBoards.PlaceRecordsAt | src/workersObjects/workerShallowBoard.ts:53-68 | each slot holds the cell of the last record naming it, or its old content |
| ShallowBoards.PlaceSlot | src/workersObjects/workerShallowBoard.ts:53-68 | one slot after one more record |
| ShallowBoards.PlaceOneMore | src/workersObjects/workerShallowBoard.ts:53-68 | writing one more record |
| ShallowBoards.RecordsOfFlat | src/objects/board.ts:367-386 | record `i` of a grid's encoding names its `i`-th cell |
| ShallowBoards.RecordOfBox | src/workersObjects/workerShallowBoard.ts:56-66 | a record reads back as the cell's light copy |
| ShallowBoards.DecodeRecords | src/workersObjects/workerShallowBoard.ts:53-68 | decoding a board's records puts each cell's light copy at its address and leaves the rest empty |
| ShallowBoards.EncodingIsBoardBuffer | src/objects/board.ts:367-386 | a valid board's encoding is a decodable buffer with the board's header |
| ShallowBoards.DecodedMapLookup | src/workersObjects/workerShallowBoard.ts:89-103 | a decoded lookup finds the light copy of the grid's cell |
| ShallowBoards.DecodedMapOfBoard | src/workersObjects/workerShallowBoard.ts:28-42 | the map decoded from a board's encoding mirrors the board |
| ShallowBoards.BoardRoundTrip | src/workersObjects/workerShallowBoard.ts:28-42 | the worker board built from `toArrayBuffer` holds the light copy of every cell, with the board's dimensions and size |
| ShallowBoards.BoardRoundTripExist | src/workersObjects/workerShallowBoard.ts:89-96 | `exist` agrees with the main board's after the round trip |
| ShallowBoards.BoardRoundTripNeighbours | src/workersObjects/workerShallowBoard.ts:105-119 | every neighbourhood a worker reads is the light copy of the main board's |
| ShallowBoards.NeighboursAt | src/workersObjects/workerShallowBoard.ts:105-119 | one neighbourhood agrees when each lookup does |
| ShallowBoards.WorkerShallowBoard.constructor | src/workersObjects/workerShallowBoard.ts:28-42 | the header, then the decoded map |
| ShallowBoards.WorkerShallowBoard.InitShallowBoxMap | src/workersObjects/workerShallowBoard.ts:44-51 | the empty map, then the records |
| ShallowBoards.WorkerShallowBoard.SetShallowBoxMap | src/workersObjects/workerShallowBoard.ts:53-68 | `boxCount` records written at their addresses, every other slot kept |
| ShallowBoards.WorkerShallowBoard.GetBoxPositionByDimensions | src/workersObjects/workerShallowBoard.ts:70-78 | truncating division, as on the main board |
| ShallowBoards.WorkerShallowBoard.GetBoxByDimensions | src/workersObjects/workerShallowBoard.ts:80-87 | the cell under a point; `undefined` for any out-of-range column, the negative one included |
| LegacyShallowBoards.EmptyLegacyMap | src/boilerplate/workersObjects/workerShallowBoard.ts:31-38 | `h` columns of `v` empty slots |
| LegacyShallowBoards.LoopCountBound | src/boilerplate/workersObjects/workerShallowBoard.ts:40-53 | round `i` runs exactly when `i < length / 4`, a partial record included |
| LegacyShallowBoards.LegacyFitPrefix | src/boilerplate/workersObjects/workerShallowBoard.ts:40-53 | fitting records fit for every prefix |
| LegacyShallowBoards.LegacyPlaceOneMore | src/boilerplate/workersObjects/workerShallowBoard.ts:40-53 | writing one more record |
| LegacyShallowBoards.StripFits | src/boilerplate/workersObjects/workerShallowBoard.ts:40-53 | records fit the older map exactly when they fit the current one |
| LegacyShallowBoards.LegacyPlaceAt | src/boilerplate/workersObjects/workerShallowBoard.ts:40-53 | each slot holds the cell of the last record naming it, or its old content |
| LegacyShallowBoards.LegacySlot | src/boilerplate/workersObjects/workerShallowBoard.ts:40-53 | one slot after one more record |
| LegacyShallowBoards.LegacyPlaceIsStripped | src/boilerplate/workersObjects/workerShallowBoard.ts:40-53 | the older decoding is the current decoding with centres dropped |
| LegacyShallowBoards.StripSlot | src/boilerplate/workersObjects/workerShallowBoard.ts:40-53 | one slot of the two decodings agrees |
| LegacyShallowBoards.LegacyLookupStripped | src/boilerplate/workersObjects/workerShallowBoard.ts:62-67 | the older lookup is the current lookup with the centre dropped |
| LegacyShallowBoards.LegacyShallowBoard.constructor | src/boilerplate/workersObjects/workerShallowBoard.ts:15-29 | the header, then the decoded map |
| LegacyShallowBoards.LegacyShallowBoard.InitShallowBoxMap | src/boilerplate/workersObjects/workerShallowBoard.ts:31-38 | the empty map, then every record |
| LegacyShallowBoards.LegacyShallowBoard.SetShallowBoxMap | src/boilerplate/workersObjects/workerShallowBoard.ts:40-53 | the records the loop visits, written at their addresses; every other slot kept |
| LegacyShallowBoards.LegacyShallowBoard.GetBoxPositionByDimensions | src/boilerplate/workersObjects/workerShallowBoard.ts:55-60 | truncating division with the zero guard |
| LegacyShallowBoards.LegacyShallowBoard.GetBoxByDimensions | src/boilerplate/workersObjects/workerShallowBoard.ts:62-67 | throws exactly for a negative column, otherwise lookup by address |
| ParticleManagers.SteerStep | src/objects/particleManager.ts:98-110 | a definition; `SteerParticle`, `LostParticleMovesTwice` and `WorkerStepAgreesWithManager` state its meaning |
| ParticleManagers.LostParticleMovesTwice | src/objects/particleManager.ts:96-119 | a particle with no cell under it and no obstacle moves by twice its velocity, unless it is a cell-width or more left of the board, where the lookup throws |
| ParticleManagers.LookupThrowsLeftOfBoard | src/objects/board.ts:183-188 | the steering lookup throws exactly for points at least one cell-width left of the board |
| ParticleManagers.CellOfIsPosition | src/objects/particleManager.ts:100 | the unguarded lookup throws exactly for a negative column, with the missing-column error, and otherwise yields the cell the steering step uses |
| ParticleManagers.FirstThrowing | src/objects/particleManager.ts:97-111 | the first particle whose lookup throws: every lookup before it succeeds |
| ParticleManagers.RestingCornerParticleStaysPut | src/objects/particleManager.ts:96-192 | a particle at rest at `(0, 0)` over a board without that cell stays put through a whole `moveByPath` |
| ParticleManagers.CornerCollisionNone | src/objects/particleManager.ts:121-192 | no collision rule fires for a resting particle in the corner cell while the trigger size is under 0.85 cells |
| ParticleManagers.Particle.constructor | src/objects/particle.ts:24-39 | at the given position, at rest, with the default size and mass |
| ParticleManagers.Particle.SetVelocity | src/objects/particle.ts:47-58 | the velocity becomes the steered velocity |
| ParticleManagers.Particle.MoveByVelocity | src/objects/particle.ts:68-72 | the position moves by the velocity |
| ParticleManagers.Particle.MoveWithInaccuracyByVelocity | src/objects/particle.ts:74-80 | the position moves by the velocity scaled by the draws |
| ParticleManagers.ParticleManager.Create | src/objects/particleManager.ts:63-70 | the manager, or the "bad inaccuracy value" error exactly for a rejected inaccuracy |
| ParticleManagers.ParticleManager.constructor | src/objects/particleManager.ts:41-73 | exactly `amount` new particles, at rest at `(0, 0)` with size 5, whatever the configured position and size |
| ParticleManagers.ParticleManager.InitManager | src/objects/particleManager.ts:75-94 | `amount` new particles appended, at rest at `(0, 0)` with size 5 |
| ParticleManagers.ParticleManager.InitManagerConfigured | src/objects/particleManager.ts:75-94 | `amount` new particles appended at the configured position, of the configured size |
| ParticleManagers.ParticleManager.MoveByPath | src/objects/particleManager.ts:96-119 | each particle ends at its steering, collision and movement step; when a lookup throws, the particles before it are steered, the rest untouched, and nothing else runs |
| ParticleManagers.ParticleManager.SteerPass | src/objects/particleManager.ts:97-111 | each particle steered by its cell, or moved when there is none, up to the first lookup that throws |
| ParticleManagers.ParticleManager.SteerParticle | src/objects/particleManager.ts:98-110 | one particle steered or moved; untouched, with the missing-column error, when its lookup throws |
| ParticleManagers.ParticleManager.MovePass | src/objects/particleManager.ts:114-118 | each particle moved, with draws when an inaccuracy is set |
| ParticleManagers.ParticleManager.CheckColisions | src/objects/particleManager.ts:121-192 | each particle corrected by the collision rule over the collision board, the cell taken under its own centre and the triggers measured with the manager's size |
| ParticleManagers.ParticleManager.CollideParticle | src/objects/particleManager.ts:123-191 | one particle corrected, centre from its own size, triggers from the manager's size |
| ParticleThreads.Locations | src/objects/particleThread.ts:88-100 | the particles' positions, in order |
| ParticleThreads.SerializedPositions | src/objects/particleThread.ts:59-71 | as many positions as the reply's count names |
| ParticleThreads.PairsAreCoordinates | src/objects/particleThread.ts:88-100 | a sequence of the pairs in order is their encoding |
| ParticleThreads.InitRoundTrip | src/objects/particleThread.ts:24-33 | the `init` message is accepted and read back as the positions and both board encodings |
| ParticleThreads.PositionsRoundTrip | src/objects/particleThread.ts:39-71 | a worker's positions reply fits, is dispatched to the update, and carries back the positions |
| ParticleThreads.ParticleThread.constructor | src/objects/particleThread.ts:17-22 | the given particles and boards, nothing posted |
| ParticleThreads.ParticleThread.Init | src/objects/particleThread.ts:24-33 | one `init` message with the positions and both encodings |
| ParticleThreads.ParticleThread.HandleMessage | src/objects/particleThread.ts:39-57 | an `updatedPositions` reply moves the named particles; other tags change nothing |
| ParticleThreads.ParticleThread.UpdateParticleGameObjectsPositons | src/objects/particleThread.ts:59-71 | the first `n` particles move to the reply's pairs; the rest stay |
| ParticleThreads.ParticleThread.UpdateBoardVectors | src/objects/particleThread.ts:73-80 | posts `setVectors` with the valid board's encoding |
| ParticleThreads.ParticleThread.UpdateParticlesPositions | src/objects/particleThread.ts:82-86 | posts a bare `updatePositions` |
| ParticleThreads.ParticleThread.ParticlesToArrayBuffer | src/objects/particleThread.ts:88-100 | the `init` tag, the count and the positions |
| LegacyParticleThreads.HandleMessage | src/boilerplate/objects/ParticleThread.ts:41-52 | the `initDone` branch exactly when the reply's `type` is that tag |
| LegacyParticleThreads.WorkerRepliesTakeDefault | src/boilerplate/objects/ParticleThread.ts:41-52 | every reply the older worker posts takes the default branch |
| LegacyParticleThreads.InitDoneNotRecognised | src/boilerplate/objects/ParticleThread.ts:41-52 | the `initDone` answer is not recognised |
| ParticleThreadsManagers.Round | src/objects/particleThreadsManager.ts:52-66 | `Math.round`: the nearest integer, halves up |
| ParticleThreadsManagers.Slice | src/objects/particleThreadsManager.ts:52-66 | `slice` with both bounds clamped to the length |
| ParticleThreadsManagers.Partition | src/objects/particleThreadsManager.ts:52-66 | one slice per thread, the last running to the end |
| ParticleThreadsManagers.ConcatPrefix | src/objects/particleThreadsManager.ts:52-66 | the first `k` slices joined are a prefix of the list |
| ParticleThreadsManagers.ConcatBounded | src/objects/particleThreadsManager.ts:52-66 | slices at non-decreasing bounds join to the prefix up to the last bound |
| ParticleThreadsManagers.PartitionAt | src/objects/particleThreadsManager.ts:52-66 | slice `i` runs from `i * p` to `(i + 1) * p`, clamped |
| ParticleThreadsManagers.JoinSlices | src/objects/particleThreadsManager.ts:52-66 | a prefix followed by the next slice is the longer prefix |
| ParticleThreadsManagers.PartitionConcat | src/objects/particleThreadsManager.ts:52-66 | for at least one thread the slices joined are the whole list: none lost or repeated |
| ParticleThreadsManagers.DefaultPartition | src/objects/particleThreadsManager.ts:25 | with the default thread count the only slice is the whole list |
| ParticleThreadsManagers.ParticleThreadsManager.Create | src/objects/particleThreadsManager.ts:33-78 | `new ParticleThreadsManager`: the `RangeError` of `new Array` exactly for a negative thread count; otherwise the slices and one fresh thread per slice |
| ParticleThreadsManagers.ParticleThreadsManager.constructor | src/objects/particleThreadsManager.ts:33-51 | for a count that does not throw: the slices, and one started thread per slice |
| ParticleThreadsManagers.ParticleThreadsManager.InitParticlesSubArrays | src/objects/particleThreadsManager.ts:52-66 | one clamped slice appended per thread |
| ParticleThreadsManagers.ParticleThreadsManager.InitWebWorkers | src/objects/particleThreadsManager.ts:67-78 | `RangeError` exactly for a negative count, with the threads untouched; otherwise one fresh thread per slice, in order, each sent `init` |
| ParticleThreadsManagers.ParticleThreadsManager.StartThreads | src/objects/particleThreadsManager.ts:67-78 | threads for the first `n` slices, each started |
| ParticleThreadsManagers.ParticleThreadsManager.StartThread | src/objects/particleThreadsManager.ts:70-76 | a fresh thread over the slice that has posted its `init` |
| ParticleThreadsManagers.ParticleThreadsManager.UpdateBoardVectors | src/objects/particleThreadsManager.ts:80-84 | each thread posts the new encoding once, in order |
| ParticleThreadsManagers.ParticleThreadsManager.UpdateParticlesPositions | src/objects/particleThreadsManager.ts:86-90 | each thread posts `updatePositions` once, in order |
| ParticleWorkers.ParticlePositions | src/workers/particleWorker.ts:49-61 | the particles' positions, in order |
| ParticleWorkers.PositionsStep | src/workers/particleWorker.ts:49-61 | the encoding of one more particle appends its pair |
| ParticleWorkers.CentreOfCopy | src/workersObjects/shallowParticle.ts:89-148 | a light cell's centre is the board cell's centre |
| ParticleWorkers.ObstaclesAgree | src/workersObjects/shallowParticle.ts:89-148 | over a decoded collision board a particle meets the obstacles the main thread finds |
| ParticleWorkers.MirroredObstacles | src/workersObjects/shallowParticle.ts:89-148 | a mirroring map shows the grid's obstacles |
| ParticleWorkers.ShallowObstaclesAround | src/workersObjects/shallowParticle.ts:89-148 | the worker's obstacles come from the four orthogonal neighbours |
| ParticleWorkers.BoardObstaclesAround | src/objects/particleManager.ts:121-192 | the main thread's obstacles come from the same four neighbours |
| ParticleWorkers.NeighbourAgrees | src/workersObjects/shallowParticle.ts:89-148 | one mirrored slot gives the same centre |
| ParticleWorkers.WorkerStep | src/workers/particleWorker.ts:66-82 | a definition; `WorkerStepAgreesWithManager` and `LostParticleMovesOnce` state its meaning |
| ParticleWorkers.WorkerStepAgreesWithManager | src/workers/particleWorker.ts:63-86 | over decoded boards the worker's step is the main thread's steering, collision and movement |
| ParticleWorkers.LostParticleMovesOnce | src/workers/particleWorker.ts:72-78 | a particle with no cell under it moves once, without a collision check |
| ParticleWorkers.CoordinatesAppend | src/workers/particleWorker.ts:49-61 | encoding one more position appends its pair |
| ParticleWorkers.ParticleWorker.constructor | src/workers/particleWorker.ts:17-19 | no particles and no boards |
| ParticleWorkers.ParticleWorker.InitParticles | src/workers/particleWorker.ts:21-29 | `length` new resting particles appended at the decoded pairs |
| ParticleWorkers.ParticleWorker.PushParticle | src/workers/particleWorker.ts:24-27 | one new particle appended |
| ParticleWorkers.ParticleWorker.InitValidBoard | src/workers/particleWorker.ts:30-32 | a new board decoded from the buffer |
| ParticleWorkers.ParticleWorker.InitColisionBoard | src/workers/particleWorker.ts:34-36 | a new collision board decoded from the buffer |
| ParticleWorkers.ParticleWorker.SetVectors | src/workers/particleWorker.ts:38-47 | the records after the header written into the valid board, or a throw before the boards exist |
| ParticleWorkers.ParticleWorker.SerializeParticles | src/workers/particleWorker.ts:49-61 | the `updatedPositions` tag, the count and the positions |
| ParticleWorkers.ParticleWorker.UpdateParticlesPositions | src/workers/particleWorker.ts:63-86 | nothing before the boards exist; otherwise every particle takes its step and the positions are returned |
| ParticleWorkers.ParticleWorker.OnMessage | src/workers/particleWorker.ts:91-125 | `init` answers `initDone`; `setVectors` answers `setVectorsDone` and falls into `updatePositions`; that case answers the positions |
| ParticleWorkers.ParticleWorker.InitCase | src/workers/particleWorker.ts:97-106 | particles, then both boards; answers `initDone` |
| ParticleWorkers.ParticleWorker.InitBoards | src/workers/particleWorker.ts:101-104 | both boards decoded |
| ParticleWorkers.ParticleWorker.SetVectorsCase | src/workers/particleWorker.ts:107-113 | forces refreshed, `setVectorsDone` posted, then the positions case |
| ParticleWorkers.ParticleWorker.UpdatePositionsCase | src/workers/particleWorker.ts:114-121 | the positions posted after the earlier answers once the boards exist |
| ParticleWorkers.ParticleWorker.StepAll | src/workers/particleWorker.ts:65-83 | every particle takes its step, in order |
| ParticleWorkers.ParticleWorker.StepAt | src/workers/particleWorker.ts:66-82 | particle `i` steps and no other changes |
| ParticleWorkers.ParticleWorker.StepParticle | src/workers/particleWorker.ts:66-82 | one particle moved by velocity when lost, otherwise steered, collided and moved with draws |
| LegacyParticleWorkers.LegacyReplies | src/boilerplate/workers/particleWorker.ts:54-80 | the replies posted per tag, depending on whether the boards exist |
| LegacyParticleWorkers.SetVectorsRepliesDiffer | src/boilerplate/workers/particleWorker.ts:70-78 | the older worker answers `setVectors` alone where the current one adds positions |
| LegacyParticleWorkers.LegacyParticleWorker.constructor | src/boilerplate/workers/particleWorker.ts:17-19 | no particles and no boards |
| LegacyParticleWorkers.LegacyParticleWorker.InitParticles | src/boilerplate/workers/particleWorker.ts:21-27 | `length` particles appended at the decoded pairs |
| LegacyParticleWorkers.LegacyParticleWorker.InitValidBoard | src/boilerplate/workers/particleWorker.ts:28-30 | a new older board decoded from the buffer |
| LegacyParticleWorkers.LegacyParticleWorker.InitColisionBoard | src/boilerplate/workers/particleWorker.ts:32-34 | a new older collision board decoded from the buffer |
| LegacyParticleWorkers.LegacyParticleWorker.SetVectors | src/boilerplate/workers/particleWorker.ts:36-45 | the records the older loop visits written into the valid board, or a throw |
| LegacyParticleWorkers.LegacyParticleWorker.OnMessage | src/boilerplate/workers/particleWorker.ts:54-80 | the replies `LegacyReplies` names, with the state changes of each case |
| MainScenes.Walls | src/scenes/mainScene.ts:81-126 | 43 wall cells |
| MainScenes.InitBoardBorders | src/scenes/mainScene.ts:199-216 | the border ring in `initMapBorder`'s order |
| MainScenes.ColisionPositionsInGrid | src/scenes/mainScene.ts:70-128 | every collision cell lies inside the 21 by 21 grid |
| MainScenes.WallsInGrid | src/scenes/mainScene.ts:81-126 | walls lie strictly inside the border except `(13, 20)` |
| MainScenes.DistinctAtMostLength | src/scenes/mainScene.ts:70-128 | a list has at most as many distinct entries as its length |
| MainScenes.Duplicated | src/scenes/mainScene.ts:70-128 | a repeated entry means fewer distinct entries than the length |
| MainScenes.ColisionDuplicatesCollapse | src/scenes/mainScene.ts:81-126 | `(13, 6)` is listed twice, so the collision board has fewer cells than entries |
| MainScenes.CreateColisionBoard | src/scenes/mainScene.ts:70-128 | new cells exactly at the ring and the walls |
| MainScenes.CreateValidBoard | src/scenes/mainScene.ts:130-134 | a full board minus the collision cells |
| MainScenes.CreateParticleManager | src/scenes/mainScene.ts:142-147 | asked for `(100, 100)` with inaccuracy 0.5 to 1, 500 particles at rest at `(0, 0)` with size 5 |
| MainScenes.CreateBoards | src/scenes/mainScene.ts:70-134 | both boards of `create` |
| MainScenes.CreateScene | src/scenes/mainScene.ts:66-169 | the boards and the particle manager, its 500 particles at rest at `(0, 0)` |
| MainScenes.SceneParticlesStayAtOrigin | src/objects/particleManager.ts:75-119 | in the scene as built, a particle at rest at `(0, 0)` is not thrown on and stays there through `moveByPath` |
| MainScenes.CreatedCorner | src/scenes/mainScene.ts:70-134 | the corner cell is a collision cell and not a valid cell |
| MainScenes.OriginIsColisionCell | src/scenes/mainScene.ts:199-216 | `(0, 0)` is on the border ring |
| MainScenes.MainScene.Create | src/scenes/mainScene.ts:48-169 | a 21 by 21 scene of 40-unit cells: collision cells at ring and walls, valid cells elsewhere, no goal, 500 particles at rest at `(0, 0)` |
| MainScenes.MainScene.constructor | src/scenes/mainScene.ts:48-54 | the given fields, tracking on, the particles left where they are |
| MainScenes.MainScene.UpdateGoal | src/scenes/mainScene.ts:175-189 | re-solves for the hovered cell exactly when the guard holds; the guard is false afterwards |
| MainScenes.MainScene.Update | src/scenes/mainScene.ts:171-193 | the goal update, then one `moveByPath` over the valid board, failing exactly when a particle's lookup throws |

## Left out

- Rendering, PIXI graphics, textures, the console, event listeners, the keyboard and mouse events
  (`src/scenes/mainScene.ts:218-260`), and the render helpers of `Box` and `Board` are not modelled.
- Float64 arithmetic is modelled as real arithmetic, with no rounding, `Infinity` or `NaN`.
- `Math.sqrt` is a function parameter satisfying `PureVectors.IsSqrt`; it is never computed.
- `Math.random` draws are parameters of the movement methods; their distribution is not modelled.
- ForceVectors.ForceVector.Devide: requires a non-zero divisor; the source's division by zero
  (`Infinity`/`NaN`) is not modelled.
- PureVectors.Vec.Devide: requires a non-zero divisor, for the same reason.
- `postMessage` and the worker transport are modelled as returned values or a `posted` sequence.
  Concurrency and message ordering between threads are not modelled.
- The numeric values of the `PTMsgType` tags are chosen distinct; the actual enum is not part of this model.
- Buffers a worker decodes are required to be well formed (`IsBoardBuffer`, `InitMessage`): natural
  numbers in the header and records naming slots of the map. What a JavaScript array does with
  other input is not modelled: it grows, or a lookup throws.
- Boards.Board.constructor: requires the `positionsToFill` addresses to be inside the grid. The
  source would grow a column array, or throw for a missing column.
- The cell size is required to be positive, and grid dimensions come as natural numbers. The
  source's `parseInt` of a real quotient is taken as truncation.
- FlatBoards.FlatBoard: the older board's `calculateBoxesDistance` and `reset`
  (`src/boilerplate/objects/board.ts:226-238`) are not modelled as methods. Its distance fill is
  modelled by `CalculateDistance`, and `reset` only clears every cell as `Boxes.ResetIsFresh` states.
- FlatBoards.FlatBoard.CalculateDistance: proved only for lists whose addresses are distinct and
  for the state that `setGoalDistance` leaves. With repeated addresses, the source marks the first
  copy only.
- FlatBoards.FlatBoard.CalculateDistance: the source's `async` is not modelled. The fill is taken to
  run to completion before the caller continues.
- The older board's `render` (`src/boilerplate/objects/board.ts:87-149`) is not modelled.
- The older board's fill calls `Utils.unique` (`src/boilerplate/objects/board.ts:217`), which the
  boilerplate `Utils` (`src/boilerplate/objects/utils.ts`) does not define. It is modelled as
  deduplication by address, keeping the first cell of each, as `uniqueBoxArray` does
  (`FlatBoards.UniqueBoxArray`).
- `mapAllBox` and the renderer-config setter of `Board` are not modelled.
- `src/workersObjects/workerParticle.ts` is not part of this model.
- LegacyShallowBoards.LegacyShallowBoard.SetShallowBoxMap: requires the records to be whole. The
  round the loop gives to a trailing partial record reads `undefined` entries, and that is not modelled.
- `checkParticleToParticleColisions` (`src/objects/particleManager.ts:194-196`) is an empty stub and
  is not modelled.
- The older worker's `updateParticlesPositions` (`src/boilerplate/workers/particleWorker.ts:47-49`)
  is empty. It is modelled as doing nothing and has no contract.
- The threads manager is commented out in the scene (`src/scenes/mainScene.ts:149-154`). It is
  modelled on its own and not wired into `MainScenes`.
- The older boilerplate particle and particle manager are not modelled. The current main-thread
  and worker particles are.
- A particle with no cell under it moves twice per `moveByPath` on the main thread but once per
  step in a worker (`LostParticleMovesTwice`, `LostParticleMovesOnce`). This difference is recorded,
  not corrected.
- ParticleThreadsManagers.ParticleThreadsManager.constructor: the thread count is an integer, and
  the constructor itself is the path that does not throw (a count of at least 0); the negative
  count's `RangeError` is modelled by `ParticleThreadsManager.Create` and `InitWebWorkers`. The
  source takes any number; a fractional count makes the slicing loop run `ceil(n)` times with
  `Math.round(length / n)` particles each and never reach the "last slice takes the rest" case, so
  particles can be lost (15 particles and 10.5 threads give 11 slices of one), and
  `new Array(n)` throws. The fractional case is not modelled.
- ParticleThreadsManagers.ParticleThreadsManager.InitParticlesSubArrays: proved (`PartitionConcat`)
  for an integer thread count only, for the reason above.
- ParticleManagers.ParticleManager.constructor: the particle amount is an integer. A
  fractional amount makes `i < amount` run `ceil(amount)` times (2.5 gives 3 particles); not modelled.
- ParticleManagers.ParticleManager.InitManager: creates exactly `amount` particles (none when it is
  not positive), for an integer amount only.
- Colors.ComponentToHex: a channel is a natural number. The distance colouring of `render`
  (`src/objects/board.ts:161-162`, not modelled) passes `255 * distance / maxDistance`, a fraction
  whose `toString(16)` has a fractional part; that case is not modelled.
- Colors.RgbToHex: channels are natural numbers, for the reason above.
- Object identity of board cells: cells are values inside `Boards.Board`, because every cell object
  is created by its own board and never shared. `Boxes.Box` models a single cell object and its
  aliasing of the force vector.

## Findings

| source | as written | input that shows it | evidently intended | confidence | as-written member | corrected member |
|---|---|---|---|---|---|---|
| src/objects/particleManager.ts:84-90 | `initManager` passes the particle configuration as the first argument of `new Particle(scene, params)`, so it lands in `scene` and every particle takes the defaults of `src/objects/particle.ts:26-30` | the scene's configuration, position `(100, 100)` (`src/scenes/mainScene.ts:142-147`): all 500 particles start at `(0, 0)` in a border cell and never move | particles at the configured position, of the configured size | not executed | ParticleManagers.ParticleManager.InitManager | ParticleManagers.ParticleManager.InitManagerConfigured |
| src/objects/board.ts:183-188 | `getBoxByDimensions` checks the column only against the number of columns, so a negative column reads `length` of a missing column and throws | the point `(-boxSize, 0)` on any board | `undefined` for a point outside the grid, as the worker-side board returns (`src/workersObjects/workerShallowBoard.ts:80-87`) | not executed | Boards.Board.GetBoxByDimensionsThrows | Boards.Board.GetBoxByDimensionsGuarded |
