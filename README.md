# Procedural path connection on a 3-D grid: a Dafny model

This project models the solver core of SST-ProceduralPathConnection-3D. The
generator is a Wave-Function-Collapse tiler for a 3-D grid of cells. It works
in three phases.

- It compiles, once, which tiles may sit next to which in each of the six
  directions.
- It walks one or more paths from a start cell to an end cell, one z layer per
  step. Each path raises per-face counters on the cells it passes.
- It then collapses cells one at a time, the cell with the fewest options
  first, and propagates the constraints after every collapse.

The model keeps the program's own entities:

- `Tiles.Tile3D`, `Tiles.Sides3D` and `Tiles.ValidNeighbours3D` are classes
  whose fields the methods update.
- `Cells.Cell3D` is a class with the collapsed flag, the two option lists, six
  path counters and `sideCount`.
- `Generation.Generator3D` is a class holding the cell list and the analysis
  guard `analyzeCount`.

The loops of the source are `while` loops with invariants. Each is proved
against a specification function:

- `Tiles.Fitting` specifies `Analyze`.
- `Cells.OpeningFilter` specifies `AnalyzeOpeningOptions`.
- `Propagation.Keep` specifies `CheckValid`.
- `Propagation.Sweep` specifies the propagation pass.
- `Paths.GreedyStep` specifies the late-phase step.
- `Paths.RouteRaises` / `Paths.AllRaises` specify the counter seeding.

The six hand-copied direction fields become one `Directions.Direction`
datatype. It has `Opposite` and `Index`, and sequences of length six are
indexed by `Index`.

Random choices are nondeterministic choices (`:|`). The propagation sweep
works in place. The source stores the same cell objects in its "next" array
(`Assets/Scripts/ProceduralGeneration/Generator3D.cs:662`), so a cell visited
later sees the new options of cells visited earlier. `Propagation.SweepTo`
states this, and `Propagation.SweepInPlace` proves it. Every recomputation
starts from the whole tile list (`tileObjects`, line 508), not from the
cell's current options.

The path walk raises the counters exactly as the code is written
(`Paths.HopBumpsAsWritten`). In the second half of a walk, a step that stays
in its column raises only the back face of its cell, not the forward face;
see "Findings".

Neighbours are looked up with an explicit bounds check
(`Grid.NeighbourIndex`). At the border, the model uses the blank fallback
that the source writes but can never reach. The unchecked index of the source
is modelled as well; see "Findings".

Modules:

- `directions.dfy`: directions.
- `grid.dfy`: grid numbering.
- `tiles.dfy`: tile adjacency.
- `cells.dfy`: cells.
- `propagation.dfy`: `CheckValid` and the sweep on values.
- `paths.dfy`: the path walk on values.
- `generator.dfy`: the generator class.
- `wrappers.dfy`: `Option`.

## Model

| member | source | states |
|---|---|---|
| Directions.DirectionFacts | Assets/Scripts/ProceduralGeneration/Tile3D.cs:13 | the six sides are numbered Forward = 0 to Down = 5 without collision, and the opposite of the opposite side is the side itself, with negated unit offset |
| Directions.Direction.Opposite | Assets/Scripts/ProceduralGeneration/Tile3D.cs:173-196 | the face paired with a side in the adjacency test is never the side itself, and its unit offset is the negated offset of the side |
| Grid.IndexRoundTrip | Assets/Scripts/ProceduralGeneration/Generator3D.cs:687-690 | every in-bounds (x, y, z) has an index in [0, X·Y·Z), and decoding that index gives back (x, y, z) |
| Grid.FindGridIndex | Assets/Scripts/ProceduralGeneration/Generator3D.cs:687-690 | the x coordinate is the index modulo X and the rest of the index is the row z·Y + y |
| Grid.IndexInjective | Assets/Scripts/ProceduralGeneration/Generator3D.cs:687-690 | two in-bounds positions have the same index exactly when they are equal |
| Grid.DecodeRoundTrip | Assets/Scripts/ProceduralGeneration/Generator3D.cs:687-690 | every list index of the grid is the index of an in-bounds position, so the numbering is onto the list |
| Grid.ScanOrder | Assets/Scripts/ProceduralGeneration/Generator3D.cs:392-406 | the z, y, x loops meet the indices 0, 1, 2, … in turn: a row follows the previous row and a layer the previous layer, and the last layer ends at X·Y·Z |
| Grid.LayerSpan | Assets/Scripts/ProceduralGeneration/Generator3D.cs:493-497 | the cells of layer z occupy a nonempty block of indices inside the list, ending where layer z + 1 starts |
| Grid.RowSpan | Assets/Scripts/ProceduralGeneration/Generator3D.cs:495-499 | the cells of row y of layer z are X consecutive indices inside the list, ending where the next row starts |
| Grid.NeighbourIndex | Assets/Scripts/ProceduralGeneration/Generator3D.cs:512-532 | a neighbour index exists exactly when the stepped position is inside the grid, and it is that position's index |
| Grid.NeighbourSymmetric | Assets/Scripts/ProceduralGeneration/Generator3D.cs:563-577 | the opposite neighbour of a cell's neighbour is the cell itself |
| Grid.RawNeighbourAgreesInside | Assets/Scripts/ProceduralGeneration/Generator3D.cs:514 | where the stepped position is inside the grid, the unchecked index of the source is the right one |
| Grid.RawNeighbourWrapsAround | Assets/Scripts/ProceduralGeneration/Generator3D.cs:538-547 | past the last column the unchecked right index names the first cell of the next row, although there is no right neighbour |
| Grid.RawNeighbourNegative | Assets/Scripts/ProceduralGeneration/Generator3D.cs:563-569 | behind the first layer the unchecked back index is negative, although the code means to fall back to the blank rule there |
| Tiles.WithFace | Assets/Scripts/ProceduralGeneration/Tile3D.cs:53-84 | the named face takes the new style and opening count and the other five faces are unchanged |
| Tiles.Sides3D.constructor | Assets/Scripts/ProceduralGeneration/Tile3D.cs:25-37 | a new Sides3D has six blank faces with no openings |
| Tiles.Sides3D.SetSideStyle | Assets/Scripts/ProceduralGeneration/Tile3D.cs:53-84 | overwrites exactly the named face; the other five are kept |
| Tiles.Appended | Assets/Scripts/ProceduralGeneration/Tile3D.cs:135-160 | the list for the side grows by the tile at its end and the other five lists are unchanged |
| Tiles.ValidNeighbours3D.constructor | Assets/Scripts/ProceduralGeneration/Tile3D.cs:118-126 | six empty lists |
| Tiles.ValidNeighbours3D.Add | Assets/Scripts/ProceduralGeneration/Tile3D.cs:135-160 | appends the tile to exactly the list the side selects |
| Tiles.Tile3D.constructor | Assets/Scripts/ProceduralGeneration/Tile3D.cs:342-347 | the six SetSideStyle calls leave the tile with the given faces and empty neighbour lists |
| Tiles.Tile3D.Analyze | Assets/Scripts/ProceduralGeneration/Tile3D.cs:169-198 | each direction's list is its old contents followed by the tiles, in array order, whose opposite face has this tile's style on that side |
| Tiles.Tile3D.AnalyzeMembers | Assets/Scripts/ProceduralGeneration/Tile3D.cs:169-198 | afterwards a tile is in the list for d exactly when it was before, or it is one of the tiles and fits in direction d |
| Tiles.Tile3D.AnalyzeAgainst | Assets/Scripts/ProceduralGeneration/Tile3D.cs:173-196 | the six tests for one candidate tile append it to each direction's list where it fits, and to no other |
| Tiles.Tile3D.AddIfFits | Assets/Scripts/ProceduralGeneration/Tile3D.cs:173-176 | one test appends the tile to the list of its direction when the facing styles are equal; the other lists are kept |
| Tiles.Tile3D.GetSideCount | Assets/Scripts/ProceduralGeneration/Tile3D.cs:213-228 | the opening count of a horizontal face; no result (the source throws) exactly for Up and Down |
| Tiles.FittingMember | Assets/Scripts/ProceduralGeneration/Tile3D.cs:171-197 | a tile is among those appended exactly when it is one of the tiles and its opposite face has the style |
| Tiles.FittingCount | Assets/Scripts/ProceduralGeneration/Tile3D.cs:171-197 | one entry per matching tile: a fitting tile is appended as often as it occurs in the array, a non-fitting one never, so a second Analyze duplicates entries |
| Tiles.AnalyzeStep | Assets/Scripts/ProceduralGeneration/Generator3D.cs:382-386 | analysing one more tile completes its lists and leaves the other tiles' lists as they were |
| Tiles.AnalyzeAll | Assets/Scripts/ProceduralGeneration/Generator3D.cs:382-386 | after the analysis pass over empty lists, every tile's list for d holds exactly the tiles of the array that fit in direction d, and no other tile |
| Tiles.AdjacencySymmetric | Assets/Scripts/ProceduralGeneration/Tile3D.cs:173-196 | after the analysis pass, B is in A's list for d exactly when A is in B's list for the opposite of d |
| Tiles.FitsSymmetricStylesOnly | Assets/Scripts/ProceduralGeneration/Tile3D.cs:173-196 | the fit test is symmetric under swapping the tiles and the direction, and depends on styles only, never on opening counts |
| Tiles.CheckSide | Assets/Scripts/ProceduralGeneration/Tile3D.cs:356-385 | Blank exactly for no connector; Center exactly for one standard connector; Wide or Tall exactly for one wide connector; Tall exactly for one wide connector in the turned orientation; Two exactly for two; Unknown exactly for more |
| Tiles.DiscoveredFace | Assets/Scripts/ProceduralGeneration/Tile3D.cs:342-347 | a face discovered from its connectors has as many openings as connectors, positive exactly when its style is not Blank |
| Tiles.GetCoordinates | Assets/Scripts/ProceduralGeneration/Tile3D.cs:544-549 | with C#'s truncating division, row · n + column is the count again; for a nonnegative count and positive row length the column is in [0, n); no result for a zero row length |
| Tiles.GetCoordinatesRoundTrip | Assets/Scripts/ProceduralGeneration/Tile3D.cs:544-549 | GetCoordinates inverts the row-major numbering y · n + x |
| Cells.Bump | Assets/Scripts/ProceduralGeneration/Cell3D.cs:47-71 | the counter of the face grows by one and the other five are unchanged; on nonnegative counters, all stay nonnegative and exactly that face opens in addition to those open before |
| Cells.BumpSideCount | Assets/Scripts/ProceduralGeneration/Cell3D.cs:109-119 | after IncreasePoints(d), SideCount grows by one exactly when d was closed, and d is open |
| Cells.SideCountSumsOpenSides | Assets/Scripts/ProceduralGeneration/Cell3D.cs:109-138 | SideCount is the sum of GetOpenSides over the six faces |
| Cells.OpeningFilterMember | Assets/Scripts/ProceduralGeneration/Cell3D.cs:72-99 | a tile survives the opening filter exactly when it was an option and its openings match the counters on all six faces |
| Cells.OpeningFilterShrinks | Assets/Scripts/ProceduralGeneration/Cell3D.cs:72-99 | the filter never adds options |
| Cells.OpeningFilterIdempotent | Assets/Scripts/ProceduralGeneration/Cell3D.cs:72-99 | filtering a second time with the same counters changes nothing |
| Cells.OpeningAgrees | Assets/Scripts/ProceduralGeneration/Cell3D.cs:78-91 | for nonnegative counts, a face agrees when the tile has an opening there exactly when the cell's counter is positive |
| Cells.MatchesOpenings | Assets/Scripts/ProceduralGeneration/Cell3D.cs:78-91 | with nonnegative counts, a tile passes exactly when it has an opening on the faces a path runs through and on no other |
| Cells.Cell3D.constructor | Assets/Scripts/ProceduralGeneration/Cell3D.cs:11-22 | a fresh cell is open, has no options and has all counters and sideCount at zero |
| Cells.Cell3D.CreateCell | Assets/Scripts/ProceduralGeneration/Cell3D.cs:30-34 | sets the collapsed flag and tileOptions, and nothing else |
| Cells.Cell3D.Start | Assets/Scripts/ProceduralGeneration/Cell3D.cs:25-28 | the working options become the whole option list; nothing else changes |
| Cells.Cell3D.IncreasePoints | Assets/Scripts/ProceduralGeneration/Cell3D.cs:47-71 | raises exactly d's counter and sideCount by one; options and flag unchanged |
| Cells.Cell3D.ResetPoints | Assets/Scripts/ProceduralGeneration/Cell3D.cs:100-108 | all six counters become zero, so SideCount is 0; sideCount, options and flag unchanged |
| Cells.Cell3D.SideCount | Assets/Scripts/ProceduralGeneration/Cell3D.cs:109-119 | the number of faces with a positive counter, in 0..6, and 0 exactly when no counter is positive |
| Cells.Cell3D.GetOpenSides | Assets/Scripts/ProceduralGeneration/Cell3D.cs:120-138 | 1 exactly when the face's counter is positive, otherwise 0 |
| Cells.Cell3D.AnalyzeOpeningOptions | Assets/Scripts/ProceduralGeneration/Cell3D.cs:72-99 | the options become the old options, in order, whose openings match the counters, and every remaining option matches; counters, flag and tileOptions unchanged |
| Propagation.CheckValid | Assets/Scripts/ProceduralGeneration/Generator3D.cs:674-685 | the reverse removal loop returns the options, in order, that occur in the valid list |
| Propagation.KeepMember | Assets/Scripts/ProceduralGeneration/Generator3D.cs:674-685 | an option survives CheckValid exactly when it is in the valid list |
| Propagation.KeepShape | Assets/Scripts/ProceduralGeneration/Generator3D.cs:674-685 | CheckValid never lengthens the options and returns them unchanged when all are valid |
| Propagation.KeepIdempotent | Assets/Scripts/ProceduralGeneration/Generator3D.cs:674-685 | checking twice against the same list equals checking once |
| Propagation.ConcatMember | Assets/Scripts/ProceduralGeneration/Generator3D.cs:519-527 | a tile is in the gathered valid list exactly when some option of the neighbour accepts it on the facing side |
| Propagation.BlankFallbackMember | Assets/Scripts/ProceduralGeneration/Generator3D.cs:528-532 | the border rule keeps exactly the cell's own options whose list for that side holds the first tile of the tile list |
| Propagation.OptionsUpToMember | Assets/Scripts/ProceduralGeneration/Generator3D.cs:508-660 | after the first k directions, a tile is an option exactly when it is in the tile list and in the valid list of each of those directions |
| Propagation.OptionsMember | Assets/Scripts/ProceduralGeneration/Generator3D.cs:508-664 | a recomputed cell's options are exactly the tiles of the tile list accepted on all six sides |
| Propagation.DisagreementEmpties | Assets/Scripts/ProceduralGeneration/Generator3D.cs:517-533 | a neighbour whose facing side disagrees with the cell on being open leaves the cell no option |
| Propagation.OptionsSupported | Assets/Scripts/ProceduralGeneration/Generator3D.cs:517-533 | every new option is backed on each side with a neighbour: the facing sides agree and some option of the neighbour accepts it |
| Propagation.OptionsAtBorder | Assets/Scripts/ProceduralGeneration/Generator3D.cs:528-532 | on a side with no neighbour, a new option was an option before and accepts the first tile on that side |
| Propagation.FarFromLast | Assets/Scripts/ProceduralGeneration/Generator3D.cs:501 | a far cell has a squared norm more than one above the last cell's; measured from the origin, a cell is far exactly when its squared norm exceeds 1 |
| Propagation.FarFromLastIsLengthTest | Assets/Scripts/ProceduralGeneration/Generator3D.cs:501 | the integer test on squared norms decides exactly \|p\| − \|last\| > 1 for the Euclidean lengths |
| Propagation.SweepKeeps | Assets/Scripts/ProceduralGeneration/Generator3D.cs:501-505 | the sweep changes options only: flags, counters and positions are kept; skipped and unvisited cells are untouched; recomputed options come from the tile list |
| Propagation.SweepPrefix | Assets/Scripts/ProceduralGeneration/Generator3D.cs:493-499 | visits after the m-th leave the first m cells as they were after visit m |
| Propagation.SweepInPlace | Assets/Scripts/ProceduralGeneration/Generator3D.cs:662-670 | cell k is recomputed on a grid whose earlier cells already hold their final values and whose later cells hold their old ones |
| Paths.EarlyAxisStep | Assets/Scripts/ProceduralGeneration/Generator3D.cs:257-266 | the retry loop returns the proposal when it is inside the grid and its distance to the end is below the layers left, otherwise the current coordinate |
| Paths.EarlyStep | Assets/Scripts/ProceduralGeneration/Generator3D.cs:254-278 | the first-half step changes only the chosen axis, to the proposal when acceptable and otherwise not at all |
| Paths.EarlyStepStaysNear | Assets/Scripts/ProceduralGeneration/Generator3D.cs:254-278 | a first-half step stays in the grid, moves at most one cell along one axis, and a move keeps the end within reach |
| Paths.LateStep | Assets/Scripts/ProceduralGeneration/Generator3D.cs:161-205 | the double loop over the nine offsets computes the greedy step |
| Paths.ScanInvariant | Assets/Scripts/ProceduralGeneration/Generator3D.cs:175-200 | after each offset, the choice is the current column or an in-grid axis neighbour nearer the end, no nearer than any acceptable neighbour seen |
| Paths.GreedyStepIsNearest | Assets/Scripts/ProceduralGeneration/Generator3D.cs:161-205 | the second-half step stays, or moves to an in-grid axis neighbour (never a diagonal) strictly nearer the end, and none is nearer than it |
| Paths.GreedyStepProgress | Assets/Scripts/ProceduralGeneration/Generator3D.cs:161-205 | with the end inside the grid, the second-half step strictly nears the end until it is reached |
| Paths.MoveOfNeighbour | Assets/Scripts/ProceduralGeneration/Generator3D.cs:282-288 | a step's lateral direction is none exactly when the column is kept, otherwise its unit offset takes the old column to the new one |
| Paths.HopRaises | Assets/Scripts/ProceduralGeneration/Generator3D.cs:207-332 | each raise of a step, in the source's order, lands on the cell its target names, the mid cell being the old column at the new layer |
| Paths.HopRaisesStayEarly | Assets/Scripts/ProceduralGeneration/Generator3D.cs:286-331 | in the first half, a step that keeps its column raises Back and then Forward of its cell |
| Paths.HopRaisesStayLate | Assets/Scripts/ProceduralGeneration/Generator3D.cs:208-211 | in the second half, a step that keeps its column raises Back of its cell and nothing else |
| Paths.HopRaisesMove | Assets/Scripts/ProceduralGeneration/Generator3D.cs:288-331 | a move raises Back and the exit face of the mid cell, then the entry face of the new cell (twice in the second half) and its Forward face, in this order |
| Paths.HopBumpsAsWritten | Assets/Scripts/ProceduralGeneration/Generator3D.cs:208-332 | as written, every step first raises Back (of the new cell on a stay, of the mid cell on a move), and raises Forward of the new cell unless it is a second-half stay |
| Paths.HopBumps | Assets/Scripts/ProceduralGeneration/Generator3D.cs:208-332 | the corrected raises: always Forward of the new cell; the same as written except for a second-half stay, which gets the missing Forward appended |
| Paths.HopBumpsAsWrittenOpens | Assets/Scripts/ProceduralGeneration/Generator3D.cs:208-332 | as written, a step raises exactly the faces it needs to form a connected pipe, except the Forward face of a second-half stay |
| Paths.HopBumpsOpenPipe | Assets/Scripts/ProceduralGeneration/Generator3D.cs:208-247 | with the corrected raises, in both halves a step raises exactly the faces it needs to form a connected pipe |
| Paths.LateStayMissesForward | Assets/Scripts/ProceduralGeneration/Generator3D.cs:208-211 | as written, a second-half step that stays does not raise the Forward face it needs |
| Paths.NextColumn | Assets/Scripts/ProceduralGeneration/Generator3D.cs:145-278 | step j's column is a valid walk step: the greedy step in the second half, or a kept or acceptable axis move in the first |
| Paths.RouteOpensPipes | Assets/Scripts/ProceduralGeneration/Generator3D.cs:145-341 | every face a step of a walk must open is raised by the walk, except the Forward face of a second-half stay |
| Paths.AllOpenPipes | Assets/Scripts/ProceduralGeneration/Generator3D.cs:123-353 | every face any walk must open, except the Forward face of a second-half stay, is raised by the walks together |
| Generation.PipeFacesOpen | Assets/Scripts/ProceduralGeneration/Generator3D.cs:118-359 | after the walks, every pipe face of every step is open (counter above zero) in the cell at its position, except the Forward face of a second-half stay |
| Generation.CollapseKeeps | Assets/Scripts/ProceduralGeneration/Generator3D.cs:458 | collapsing an open cell keeps every earlier decision and strictly shrinks the set of open cells |
| Generation.SelectionPool | Assets/Scripts/ProceduralGeneration/Generator3D.cs:421-426 | the pool holds, in grid order, exactly the cells that are not collapsed and have a positive SideCount |
| Generation.Fewest | Assets/Scripts/ProceduralGeneration/Generator3D.cs:428-443 | the least option count over the pool: no pooled cell has fewer, and some pooled cell has that many |
| Generation.Ties | Assets/Scripts/ProceduralGeneration/Generator3D.cs:445-453 | a pooled cell is kept exactly when it holds the given option count |
| Generation.Candidates | Assets/Scripts/ProceduralGeneration/Generator3D.cs:428-453 | the sorted and cut pool is nonempty, and a pooled cell is in it exactly when no pooled cell has fewer options |
| Generation.Generator3D.PickCell | Assets/Scripts/ProceduralGeneration/Generator3D.cs:455-457 | the random pick is a pooled cell with the fewest options |
| Generation.Generator3D.NewCell | Assets/Scripts/ProceduralGeneration/Generator3D.cs:399-403 | a new cell at the given position is open, holds every tile as options and working options, with zero counters |
| Generation.Generator3D.AppendRow | Assets/Scripts/ProceduralGeneration/Generator3D.cs:396-405 | one row of new blank cells is appended, each at the index of its position |
| Generation.Generator3D.BuildCells | Assets/Scripts/ProceduralGeneration/Generator3D.cs:390-407 | exactly X·Y·Z new blank cells, the cell of position p at index FindGridIndex(p) |
| Generation.Generator3D.GenerateGridNew | Assets/Scripts/ProceduralGeneration/Generator3D.cs:362-409 | the grid is fresh, blank and indexed by FindGridIndex; the tiles are analysed on the first call only and their lists are then complete and symmetric |
| Generation.Generator3D.CollapseTargetCell | Assets/Scripts/ProceduralGeneration/Generator3D.cs:692-699 | the cell becomes collapsed with the single option targetTile and becomes the last collapsed; every other cell and all counters are unchanged |
| Generation.Generator3D.ValidOptions | Assets/Scripts/ProceduralGeneration/Generator3D.cs:511-532 | the gathered valid list for a side equals the specification ValidFor on the current grid |
| Generation.Generator3D.NewOptions | Assets/Scripts/ProceduralGeneration/Generator3D.cs:508-660 | the six CheckValid calls give the specification Options of the cell |
| Generation.Generator3D.RecomputeCell | Assets/Scripts/ProceduralGeneration/Generator3D.cs:499-666 | the visit of a cell changes the grid as the sweep's Recompute does: skipped cells are kept, others get their new options |
| Generation.Generator3D.Visit | Assets/Scripts/ProceduralGeneration/Generator3D.cs:499-666 | visiting cell index extends the sweep by one cell |
| Generation.Generator3D.PropagateRow | Assets/Scripts/ProceduralGeneration/Generator3D.cs:497-667 | the x loop extends the sweep over one row |
| Generation.Generator3D.PropagateLayer | Assets/Scripts/ProceduralGeneration/Generator3D.cs:495-668 | the y loop extends the sweep over one layer |
| Generation.Generator3D.PropagateLayers | Assets/Scripts/ProceduralGeneration/Generator3D.cs:493-669 | the z loop completes the sweep over every cell in index order |
| Generation.Generator3D.Propagate | Assets/Scripts/ProceduralGeneration/Generator3D.cs:492-670 | the cells afterwards are exactly the in-place sweep of the cells before |
| Generation.Generator3D.Settle | Assets/Scripts/ProceduralGeneration/Generator3D.cs:492-670 | propagation keeps every collapsed flag and counter, and every collapsed cell keeps its single tile |
| Generation.Generator3D.PlaceEnds | Assets/Scripts/ProceduralGeneration/Generator3D.cs:430-438 | the start cell is collapsed to the start tile with Forward raised, then the end cell to the end tile with Back raised; the end cell is the last collapsed |
| Generation.Generator3D.CollapseEnds | Assets/Scripts/ProceduralGeneration/Generator3D.cs:430-438 | the forced first collapse keeps every decision and closes at least one open cell |
| Generation.Generator3D.CollapseChosen | Assets/Scripts/ProceduralGeneration/Generator3D.cs:455-490 | the chosen cell is collapsed; with options left it is pinned to one of them and becomes the last collapsed; with none there is no tile |
| Generation.Generator3D.CollapseFewest | Assets/Scripts/ProceduralGeneration/Generator3D.cs:441-490 | the ordinary collapse either closes one open cell, pinned to one tile, or reports the cell it found with no option |
| Generation.Generator3D.Draw | Assets/Scripts/ProceduralGeneration/Generator3D.cs:411-672 | the loop terminates; collapsed cells stay collapsed with their tile; Finished leaves every cell collapsed to one tile or without a path; DeadEnd names an open cell collapsed with no option |
| Generation.Generator3D.Raise | Assets/Scripts/ProceduralGeneration/Generator3D.cs:207-210 | IncreasePoints on the cell at a position raises that face of that cell and of no other; options and flags are unchanged |
| Generation.Generator3D.ApplyHop | Assets/Scripts/ProceduralGeneration/Generator3D.cs:207-332 | one step's raises on the cell objects, in the source's order (a second-half stay raising Back alone), equal the specification HopRaises |
| Generation.Generator3D.RaiseStep | Assets/Scripts/ProceduralGeneration/Generator3D.cs:207-332 | after step j the counters are the base raised by the walk so far plus this step |
| Generation.Generator3D.PathStep | Assets/Scripts/ProceduralGeneration/Generator3D.cs:145-340 | one iteration of the layer loop extends the walk by a valid step and the counters by its raises |
| Generation.Generator3D.WalkPath | Assets/Scripts/ProceduralGeneration/Generator3D.cs:133-352 | one path is a walk from the start column with one column per layer up to the end, and the counters are raised by exactly its raises |
| Generation.Generator3D.FilterCell | Assets/Scripts/ProceduralGeneration/Generator3D.cs:354-357 | AnalyzeOpeningOptions on one cell of the grid, leaving the other cells' options alone |
| Generation.Generator3D.FilterOpenings | Assets/Scripts/ProceduralGeneration/Generator3D.cs:354-357 | every cell's options are filtered by its counters and all remaining options match them |
| Generation.Generator3D.GenerateSplinesNew | Assets/Scripts/ProceduralGeneration/Generator3D.cs:118-359 | between minSplines and maxSplines walks, each a valid walk; the counters are raised by exactly the walks' raises as written; then every option matches its cell's counters; flags and tileOptions unchanged |
| Generation.Generator3D.PathsThenDraw | Assets/Scripts/ProceduralGeneration/Generator3D.cs:104-111 | the walks are valid and Draw's outcome holds on the grid after them |
| Generation.Generator3D.GenerationProcess | Assets/Scripts/ProceduralGeneration/Generator3D.cs:88-116 | one attempt builds the grid, analyses the tiles at most once, walks the paths and draws; Finished or DeadEnd as for Draw |

## Left out

- Rendering and scene objects: `Instantiate`, `Destroy`, object names, colouring by height (`UpdateColor`), `Debug.Log`, and the spline containers, knots, tangent modes and knot dictionaries. Only the integer columns of a path are kept.
- Coroutine pacing: `WaitForSeconds`, `StopCoroutine`, the keyboard trigger, and the `attempts`/`pathAttempts`/`drawAttempts` counters. The phases run synchronously.
- The dead-end log written to a text file and the debug keypress wait are I/O.
- Generation.Generator3D.Draw: the restart on a cell with no option (a recursive call of the whole process, followed by `Instantiate` of a null tile) is not modelled. Draw returns `DeadEnd` with that cell, and the attempt ends there.
- Face discovery (`UpdateSides`, `SetConnectorSides`) works on float connector positions and transform vectors. Tiles are built from already classified faces, and the orientation test of `CheckSide` is a boolean parameter. Connector.cs is not part of this model beyond its `ConnectorSize` enumeration.
- The asset pipeline (`GenerateTiles`, rotated tile creation, prefab saving), the editor scripts and `RecreateCell`. None of them is called by the generator.
- Random choices (`UnityEngine.Random.Range`) are nondeterministic choices over the same ranges. For the spline count with minSplines > maxSplines the range is taken as [maxSplines + 1, minSplines].
- Floating point: Vector2 distances are replaced by squared integer distances, which order columns the same way. The magnitude skip test is decided exactly on squared integer norms (`Propagation.FarFromLastIsLengthTest`).
- Integers are unbounded; 32-bit overflow of indices and counters is not modelled.
- `List.Sort` is unstable. The sort and the cut at `stopIndex` are modelled by the set of cells they leave, the pooled cells with the fewest options, from which the random pick chooses.
- Generation.Generator3D.GenerationProcess: requires positive grid dimensions, start and end locations inside the grid, tiles with distinct neighbour lists, and minSplines >= 0 (so do GenerateSplinesNew and PathsThenDraw). The source would index out of range with the first three violated. It accepts a negative minSplines, and fails only when `Random.Range(minSplines, maxSplines + 1)` (Generator3D.cs line 121) draws a negative array size; that failure is not modelled.
- Generation.Generator3D.PathsThenDraw: requires that no cell is collapsed when the paths are walked, which is how GenerateGridNew leaves the grid.
- Generation.Generator3D.GenerateGridNew: the `sideCount` field of the new cells is not stated. No code of the generator reads it.

## Findings

| source | as written | input that shows it | evidently intended | confidence | as-written member | corrected member |
|---|---|---|---|---|---|---|
| Assets/Scripts/ProceduralGeneration/Generator3D.cs:512-660 | the neighbour guards (`z < zDimension`, `x > -1`, …) are always true, so `FindGridIndex` of the stepped position is used unchecked | in a 2 by 2 by 1 grid the right neighbour of (1, 0, 0) is read as the cell (0, 1, 0); behind layer 0 the index is negative | out-of-grid neighbours take the blank fallback written in the else branches | not executed; high | Grid.RawNeighbourWrapsAround, Grid.RawNeighbourNegative | Grid.NeighbourIndex, Propagation.OptionsAtBorder |
| Assets/Scripts/ProceduralGeneration/Generator3D.cs:208-211 | a second-half step that keeps its column raises only Back of its cell | a walk whose column already equals the end column in the second half: its cell keeps Forward closed while the next layer's cell opens Back | raise Back and Forward, as the first half does at lines 286-287 and 331 | not executed; medium | Paths.LateStayMissesForward, Paths.HopBumpsAsWrittenOpens | Paths.HopBumps, Paths.HopBumpsOpenPipe |

The generator keeps the path raises as written (`Paths.HopRaises` is built
from `Paths.HopBumpsAsWritten`), so that its walks do what the code does.
The corrected raises are `Paths.HopBumps`, proved to open every pipe face.
