# World generation core, modelled in Dafny

This project models the core of a tile-based world generator, written in C# for
Unity. The world is a W x L grid of cells. Each cell has a height, a ground type and
a list of elements: river, forest or settlement. On that grid the generator:

- lets a river run downhill from a random cell, into a lake where it stops
  (`WaterGenerator`);
- grows forests outward from the river banks (`ElementsGeneration.GenerateForests`);
- places settlements next to river cells that have enough fields and some stone
  nearby (`ElementsGeneration.GenerateSettlements`).

Supporting code:

- `HeightMapService` sorts cells by height and lists a cell's 8- and 4-neighbours.
- `Grid` holds the cells. It reads off the height map, looks up a cell with a bounds
  check, and runs an A*-style path search over ground that is not water.

The model follows the source file by file:

| file | modules | form |
|---|---|---|
| `geometry.dfy` | `Geometry` | points, distances, sequence helpers that the source gets from `List` (`Remove`, `RemoveAll`, `Distinct`) |
| `cell_data.dfy` | `CellData` | the ground and element enumerations and the `Cell` class, whose methods update its element list in place |
| `terrain.dfy` | `Terrain` | a read-only snapshot of the grid (height field, ground types, element lists) that the generators work on |
| `height_map_service.dfy` | `HeightMapService` | the exchange sort as functions, in place on an `array` (`SortByHeight`) and on a list (`SortListByHeight`), plus the two neighbour collectors |
| `grid.dfy` | `Grid` | the `Grid` class over an `array2<Cell>`, and the search as imperative code over `array2` cost and parent tables |
| `water_generator.dfy` | `WaterGenerator` | river and lake generation as loops, specified by predicates and lemmas |
| `elements_generation.dfy` | `ElementsGeneration` | nearest-element search, forests and settlements as loops, specified by functions and lemmas |

The modelling decisions:

- **Randomness is a parameter.** Each call to `Random.Range` or `Random.value`
  becomes an oracle argument:
  - `drawX` and `drawY` for the river's start;
  - `roll(i)` for the roll of forest iteration `i`;
  - `draw(k)` for the k-th settlement draw, reduced modulo the remaining list length as
    `Random.Range(0, n)` is.

  The reduction `Reduce` subtracts n until the value is below n; `ReduceIsMod` proves
  it equal to the remainder.

  `Vector2.Distance` becomes a parameter `dist` where its value feeds a threshold. The
  one comparison that decides membership, the radius-4 disk, is stated exactly as
  `x*x + y*y <= 16`.
- **Heights are `int`.** Only their order matters to the code.
- **Crashes become outcomes.** The places where the source would throw are modelled as
  distinct outcomes:
  - `LakeResult.FrontierExhausted`: `neighbour[0]` on an empty lake frontier;
  - `ForestResult.EmptyFrontier`: `neighbours[0]` on an empty forest frontier;
  - `SettleResult.NoRivers`: `Random.Range` into an empty river list;
  - `PathResult.Diverged`: a path reconstruction whose parent links do not come back to
    the start.
- **Path costs.** The only costs the search ever stores are infinity, 1 and sqrt 2.
  With the heuristic on both sides of the comparison, `fDist < fCost[n]` holds exactly
  when the cell was unreached, or when a diagonal step is replaced by an orthogonal one.
  `Grid.Step` and `Grid.Improves` state this, so the search needs no floating point.
- **Squared distance.** The squared Euclidean distance orders cells exactly as
  `hCost` does.

## Model

| member | source | states |
|---|---|---|
| Geometry.RemoveValue | Assets/Scripts/Grid.cs:155 | `List.Remove` takes out the first copy: one shorter when the value is present, unchanged otherwise |
| Geometry.RemoveValueDistinct | Assets/Scripts/Grid.cs:155 | on a list without repeats, removal leaves no repeats and exactly the other entries |
| Geometry.RemoveValueCounts | Assets/Scripts/Grid.cs:155 | removing a value takes exactly one copy of it out of the multiset of entries |
| Geometry.Reduce | Assets/Scripts/ElementsGeneration.cs:94 | a draw brought into [0, n), as `Random.Range(0, n)` yields |
| Geometry.ReduceIsMod | Assets/Scripts/WaterGenerator.cs:14 | that reduction is the remainder of the draw modulo n |
| Geometry.Without | Assets/Scripts/ElementsGeneration.cs:19-30 | the kept entries are exactly those of the list that are not in the excluded list |
| Geometry.Dedup | Assets/Scripts/ElementsGeneration.cs:18 | `Distinct()` keeps the same members, without repeats, and never lengthens the list |
| CellData.IndexOf | Assets/Scripts/CellData.cs:47-50 | the index the removal scan stops at: the first entry equal to the element, or the list length when none is |
| CellData.RemoveFirstCounts | Assets/Scripts/CellData.cs:45-57 | removing the first occurrence takes one copy of the element out of the multiset; the list is one shorter if the element occurs and unchanged if not |
| CellData.Cell.constructor | Assets/Scripts/CellData.cs:13-28 | a new cell has the given height, ground, slope and tile, and empty, aligned element and handle lists |
| CellData.Cell.AddElement | Assets/Scripts/CellData.cs:30-37 | the element and its transform are appended together; element/handle alignment is kept; ground is untouched |
| CellData.Cell.SetGroundType | Assets/Scripts/CellData.cs:39-43 | only the ground type changes |
| CellData.Cell.RemoveElement | Assets/Scripts/CellData.cs:45-57 | the first matching element goes, with the transform at the same index, and that transform is the one handed back for destruction; when none matches, nothing changes and nothing is released; alignment is kept |
| CellData.Cell.RemoveAllElements | Assets/Scripts/CellData.cs:59-67 | the element list ends empty, the transform list is unchanged, and the transform handed to Destroy on every pass is the first one |
| CellData.ReleasedByRemoveAll | Assets/Scripts/CellData.cs:62-66 | one release per element, always of transform 0 |
| CellData.RemoveAllKeepsSecondHandle | Assets/Scripts/CellData.cs:59-67 | with two elements, the first transform is destroyed twice and the second never |
| CellData.Cell.RemoveAllElementsAndHandles | Assets/Scripts/CellData.cs:59-67 | corrected clear: each element's own transform is released and removed with it, so the first n handles are released in order and the rest stay |
| CellData.ReleasedWithHandles | Assets/Scripts/CellData.cs:59-67 | the k-th release is the k-th transform |
| CellData.RemoveAllWithHandlesReleasesEach | Assets/Scripts/CellData.cs:59-67 | on an aligned cell, the corrected clear releases every transform exactly once and leaves none |
| HeightMapService.SwapIfLower | Assets/Scripts/HeightMapService.cs:15-18 | one compare-and-swap is a permutation |
| HeightMapService.ExchangeSortSorts | Assets/Scripts/HeightMapService.cs:8-21 | the all-pairs exchange sort (j from 0, swap when h[i] < h[j]) yields heights in non-decreasing order and a permutation of its input |
| HeightMapService.OuterPassSorts | Assets/Scripts/HeightMapService.cs:11-20 | once the first i rows are done, the first i entries are sorted and entry i-1 is the highest of the whole list; the remaining rows then sort the whole list |
| HeightMapService.OuterPassPermutes | Assets/Scripts/HeightMapService.cs:11-20 | the passes only swap, so the multiset of cells is kept |
| HeightMapService.SortedFirstIsLowest | Assets/Scripts/HeightMapService.cs:59 | the head of a height-sorted list is no higher than any member, which is why callers take `[0]` as the lowest |
| HeightMapService.SortByHeight | Assets/Scripts/HeightMapService.cs:8-21 | in place on the array: the contents become the exchange sort of the old contents |
| HeightMapService.SortRow | Assets/Scripts/HeightMapService.cs:13-19 | the inner loop for a fixed i applies the inner pass to the array |
| HeightMapService.SwapStep | Assets/Scripts/HeightMapService.cs:15-18 | one step of the inner loop, on the array |
| HeightMapService.SortListByHeight | Assets/Scripts/HeightMapService.cs:23-37 | the List overload returns the same exchange sort: sorted by height and a permutation |
| HeightMapService.KeepAround | Assets/Scripts/HeightMapService.cs:48-54 | the kept cells are the scanned cells that are in bounds and not the centre |
| HeightMapService.MooreNeighboursSpec | Assets/Scripts/HeightMapService.cs:44-56 | the collected cells are exactly the in-bounds 8-neighbours, without repeats, at most 8 |
| HeightMapService.CollectMoore | Assets/Scripts/HeightMapService.cs:44-56 | the double loop over i, j in [-1, 1] collects the neighbours in scan order |
| HeightMapService.MooreStep | Assets/Scripts/HeightMapService.cs:48-54 | one (i, j) step of that scan extends the kept prefix by one offset |
| HeightMapService.GetLowestNeighbour | Assets/Scripts/HeightMapService.cs:39-63 | the result holds exactly the in-bounds 8-neighbours, once each, sorted by the grid's heights |
| HeightMapService.PruneSpec | Assets/Scripts/HeightMapService.cs:75-84 | swap-with-last pruning keeps exactly the in-bounds cells and introduces no repeats |
| HeightMapService.StrictNeighboursSpec | Assets/Scripts/HeightMapService.cs:67-84 | the pruned array holds exactly the in-bounds 4-neighbours, without repeats, at most 4 |
| HeightMapService.DistinctSetSize | Assets/Scripts/HeightMapService.cs:67-84 | a list without repeats has as many members as entries |
| HeightMapService.GetLowestStrictNeighbour | Assets/Scripts/HeightMapService.cs:65-91 | the result holds exactly the in-bounds 4-neighbours, once each, sorted by the grid's heights |
| Grid.Grid.constructor | Assets/Scripts/Grid.cs:16-21 | the grid holds the given cell array |
| Grid.Grid.GetCellData | Assets/Scripts/Grid.cs:46-53 | null exactly when (x, y) is out of bounds, otherwise the cell at (x, y) |
| Grid.Grid.GetHeightMap | Assets/Scripts/Grid.cs:23-34 | a fresh W x L array holding every cell's height |
| Grid.Grid.View | Assets/Scripts/Grid.cs:16 | the snapshot has the grid's dimensions and every cell's height, ground and elements |
| Grid.Grid.GetPath | Assets/Scripts/Grid.cs:55-160 | a returned path is a walk of king moves over in-bounds, non-water cells from start to end; "no path" comes back exactly when no such walk exists, so a reconstruction that cycles (`Diverged`) happens only between connected cells |
| Grid.AddOnce | Assets/Scripts/Grid.cs:148-151 | adding to the open set when absent keeps it repeat-free and adds exactly the cell |
| Grid.DryMembers | Assets/Scripts/Grid.cs:105-120 | after the water pass, the neighbour list holds exactly its non-water cells |
| Grid.SelectCurrent | Assets/Scripts/Grid.cs:79-86 | the chosen open cell has the least distance to the end, and it is the first such cell (strict `<`) |
| Grid.DropWater | Assets/Scripts/Grid.cs:105-120 | returns the dry neighbours in order; the closed list grows by the water neighbours only, and keeps its old entries as a prefix |
| Grid.DropOne | Assets/Scripts/Grid.cs:106-119 | one pass of the removal loop, with the `i--` re-visit |
| Grid.DryStep | Assets/Scripts/Grid.cs:108-118 | the dry filter extends by one entry exactly when that entry is not water |
| Grid.Expand | Assets/Scripts/Grid.cs:122-153 | relaxing all dry neighbours of the current cell keeps the search invariant; when end is among them it is a dry 8-neighbour, otherwise every dry neighbour has been reached |
| Grid.Relax | Assets/Scripts/Grid.cs:140-152 | one neighbour's relaxation keeps the invariant and leaves the neighbour reached |
| Grid.Improve | Assets/Scripts/Grid.cs:143-152 | an improving step records the parent, the step cost and open-set membership, keeping the invariant |
| Grid.RelaxPotential | Assets/Scripts/Grid.cs:143-151 | an improvement never raises the search's termination measure |
| Grid.RelaxRoutes | Assets/Scripts/Grid.cs:145 | recording `current` as parent extends a walk to `current` into a walk to the neighbour |
| Grid.SetParent | Assets/Scripts/Grid.cs:145 | the parent table keeps pointing every reached cell at an adjacent reached cell or the start |
| Grid.SetStep | Assets/Scripts/Grid.cs:146-147 | the cost table records the step kind of the newly reached cell |
| Grid.ExtendWalk | Assets/Scripts/Grid.cs:124-137 | a walk extended by a dry king move is a walk |
| Grid.Reconstruct | Assets/Scripts/Grid.cs:124-137 | a found path is a walk from start to end made of start, then the parent links from `current` up to the first one that reaches start, in reverse, then end; `Diverged` means none of the first W*L+2 cells on the parent chain from `current` is start, which is when the source's `while (parent != start)` does not end; it never reports "no path" |
| Grid.Conclude | Assets/Scripts/Grid.cs:124-137 | reaching end proves start and end connected |
| Grid.NoWalkFromSettled | Assets/Scripts/Grid.cs:76-159 | when every expanded cell has all its dry neighbours expanded and none is end, no walk leaves the expanded region towards end |
| Grid.Exhausted | Assets/Scripts/Grid.cs:158-159 | an emptied open set means start and end are not connected |
| Grid.Visit | Assets/Scripts/Grid.cs:78-155 | one iteration of the main loop either finds end next to the current cell or closes it; closing keeps the invariant and strictly lowers the termination measure |
| Grid.CloseCell | Assets/Scripts/Grid.cs:154-155 | moving the current cell from open to closed keeps the invariant and lowers the measure |
| Grid.Search | Assets/Scripts/Grid.cs:55-160 | a found path is a walk from start to end; "no path" comes back exactly when none exists; the other outcome is a reconstruction that cycles |
| WaterGenerator.FirstDrySpec | Assets/Scripts/WaterGenerator.cs:30-47 | the scan returns the first neighbour that is dry and in bounds: it sits at an index before which every entry is water or out of bounds; it is (0, 0) when no entry is dry and in bounds |
| WaterGenerator.FirstDryIndex | Assets/Scripts/WaterGenerator.cs:31-46 | when some entry is dry and in bounds, the scan stops at an index whose entry it returns and before which every entry was skipped by the `continue` |
| WaterGenerator.FirstDryIsLowest | Assets/Scripts/WaterGenerator.cs:27-47 | on a height-sorted list, the first dry cell is the lowest dry cell |
| WaterGenerator.RiverNextSpec | Assets/Scripts/WaterGenerator.cs:25-47 | the river's next candidate is the lowest dry in-bounds 8-neighbour, or (0, 0) when every neighbour is water |
| WaterGenerator.FindDry | Assets/Scripts/WaterGenerator.cs:30-47 | the loop with `continue` and `break` computes that first dry neighbour |
| WaterGenerator.RiverFalls | Assets/Scripts/WaterGenerator.cs:50-60 | heights fall strictly along a river: each later cell is lower than every earlier one |
| WaterGenerator.RiverDistinct | Assets/Scripts/WaterGenerator.cs:50-60 | no river cell repeats |
| WaterGenerator.RiverGrows | Assets/Scripts/WaterGenerator.cs:59-60 | appending a strictly lower next cell extends the course, and the number of lower cells shrinks, so `while (true)` ends |
| WaterGenerator.GenerateRiver | Assets/Scripts/WaterGenerator.cs:18-64 | the river starts at the start point, each cell is the previous one's next candidate and strictly lower, and no cell repeats; the last cell's candidate is not lower, which is the `break`, and the lake is flooded from exactly that candidate with minimum size 4 |
| WaterGenerator.GenerateWater | Assets/Scripts/WaterGenerator.cs:11-16 | from the start cell (drawX mod W, drawY mod L): the river course, the stop at a candidate that is not lower than the last river cell, and the lake whose first cell is that candidate |
| WaterGenerator.CollapseAdjacent | Assets/Scripts/WaterGenerator.cs:86-92 | the index loop with `RemoveAt(i)` computes `CollapseFrom(s, 0)`: the walk that drops entry i when it equals entry i + 1 and then goes on at i + 1, so the entry moved into place i is not compared again |
| WaterGenerator.CollapseSpec | Assets/Scripts/WaterGenerator.cs:84-92 | that walk keeps exactly the same members and the head, takes out only existing copies, never lengthens the list, and keeps a height-sorted list sorted, so the frontier the lake takes `[0]` of stays sorted |
| WaterGenerator.LakeFits | Assets/Scripts/WaterGenerator.cs:76-98 | a repeat-free lake of in-bounds cells is no larger than the grid, which bounds the do-while |
| WaterGenerator.LakeStep | Assets/Scripts/WaterGenerator.cs:78-92 | one flood step appends the frontier's head to the lake; the new frontier holds exactly the old tail and the head's in-bounds 4-neighbours, minus lake cells; it is sorted by height; on a sorted frontier the cell taken is no higher than any frontier cell; the flood invariant is kept |
| WaterGenerator.LakeStepFlood | Assets/Scripts/WaterGenerator.cs:78-85 | the new frontier (old tail plus the head's 4-neighbours, minus lake cells) keeps the lake 4-connected and every lake cell's in-bounds 4-neighbours covered |
| WaterGenerator.FloodPass | Assets/Scripts/WaterGenerator.cs:76-98 | one run of the inner `for`: the lake grows by 1 to 1000 cells as an extension, within the grid, and the frontier stays sorted; the pass ends with an empty frontier, with a frontier head above the start's height (the `break`), or after 1000 steps; every cell it adds after its first is no higher than the start; at most one more cell lies above the start |
| WaterGenerator.ShoreIsHigher | Assets/Scripts/WaterGenerator.cs:94-97 | when the `break` fires on a sorted frontier, every in-bounds 4-neighbour outside the lake is higher than the start |
| WaterGenerator.ExhaustedIsClosed | Assets/Scripts/WaterGenerator.cs:94 | if the frontier runs empty, the lake has no in-bounds 4-neighbour outside it |
| WaterGenerator.GenerateLake | Assets/Scripts/WaterGenerator.cs:66-102 | the lake starts at its start point; it is repeat-free, in bounds and 4-connected in order; a finished lake has at least minSize cells with fewer than minSize above the start's height, and, when under 1000 cells, every in-bounds 4-neighbour outside it is higher than the start; an exhausted frontier gives a lake closed under 4-steps; the do-while ends because the lake is bounded by the grid |
| ElementsGeneration.PrecedesTotal | Assets/Scripts/ElementsGeneration.cs:175-240 | the ring scan's visiting order is a strict total order on cells |
| ElementsGeneration.CheckMirrors | Assets/Scripts/ElementsGeneration.cs:179-231 | the four mirror checks of one (x, y) report a hit exactly when one of the reflected cells holds the element, and then the first in check order |
| ElementsGeneration.MirrorCells | Assets/Scripts/ElementsGeneration.cs:179-231 | the four reflections are exactly the cells at that fold of the offset |
| ElementsGeneration.HitIsFirst | Assets/Scripts/ElementsGeneration.cs:175-240 | a hit in ring r is at Chebyshev distance r, and no earlier cell in scan order holds the element |
| ElementsGeneration.RingReaches | Assets/Scripts/ElementsGeneration.cs:242-247 | while a ring below the element's distance is scanned, some in-bounds cell lies on it, so the scan keeps going |
| ElementsGeneration.FindClosestElement | Assets/Scripts/ElementsGeneration.cs:166-249 | a found cell holds the element, is nearest to the start in Chebyshev distance, and is first in scan order; not found means (0, 0), and, from an in-bounds start, the element is nowhere on the grid |
| ElementsGeneration.FirstHolderUnique | Assets/Scripts/ElementsGeneration.cs:175-240 | at most one cell holds the element with no holder before it in scan order |
| ElementsGeneration.NearestIsClosest | Assets/Scripts/ElementsGeneration.cs:166-249 | that first holder, when there is one, holds the element and is nearest to the start in Chebyshev distance |
| ElementsGeneration.NearestIs | Assets/Scripts/ElementsGeneration.cs:39-41 | what `FindClosestElement` reports, as the loop uses it: the first holder when found, and `None` when no cell holds the element |
| ElementsGeneration.BanksSpec | Assets/Scripts/ElementsGeneration.cs:14-17 | the bank list holds exactly the in-bounds 4-neighbours of river cells |
| ElementsGeneration.CollectBanks | Assets/Scripts/ElementsGeneration.cs:14-17 | the loop builds that list |
| ElementsGeneration.WithoutConcat | Assets/Scripts/ElementsGeneration.cs:19-30 | filtering distributes over concatenation |
| ElementsGeneration.DropRivers | Assets/Scripts/ElementsGeneration.cs:19-30 | the removal loop with `i--` keeps exactly the non-river cells, in order |
| ElementsGeneration.DropStep | Assets/Scripts/ElementsGeneration.cs:21-29 | one pass of that loop |
| ElementsGeneration.IsRiver | Assets/Scripts/ElementsGeneration.cs:22 | the membership scan answers `rivers.Contains` |
| ElementsGeneration.FrontierSpec | Assets/Scripts/ElementsGeneration.cs:14-30 | the initial frontier holds exactly the in-bounds, non-river 4-neighbours of river cells, once each |
| ElementsGeneration.ForestChance | Assets/Scripts/ElementsGeneration.cs:44-53 | the chance is 1 - 0.2 times the distance to the nearest river cell, plus 0.035 per forest 4-neighbour |
| ElementsGeneration.QueueFields | Assets/Scripts/ElementsGeneration.cs:64-73 | the queue gains exactly `NewFields`: the new forest's in-bounds 4-neighbours, in height order, that are plains and not yet forest |
| ElementsGeneration.FieldsAmongSpec | Assets/Scripts/ElementsGeneration.cs:67-72 | the entries the `if` lets through are exactly the in-bounds plains cells not in the forest list, and never more than the list |
| ElementsGeneration.NewFieldsSpread | Assets/Scripts/ElementsGeneration.cs:62-73 | every field queued after a planting touches that forest, so it is a cell the forest may spread to, and it is not yet forest |
| ElementsGeneration.SpreadsGrow | Assets/Scripts/ElementsGeneration.cs:62-73 | a cell the forest may spread to stays one after a forest is added |
| ElementsGeneration.PlantedGrows | Assets/Scripts/ElementsGeneration.cs:57-62 | an accepted cell extends the record of plantings: spread-from origin, nearest river cell, iteration, and a roll that beat its chance |
| ElementsGeneration.ForestStep | Assets/Scripts/ElementsGeneration.cs:34-81 | one iteration pops the queue head; when a river cell exists and the roll beats the chance against the nearest one, it plants the head and queues `NewFields` for it, and otherwise it only pops; the replay `Grow` from the new state is the replay from the old one; the planting record is kept |
| ElementsGeneration.GrowExtends | Assets/Scripts/ElementsGeneration.cs:32-82 | the replay only appends forests, at most one per remaining iteration |
| ElementsGeneration.GenerateForests | Assets/Scripts/ElementsGeneration.cs:7-85 | an empty initial frontier is the crash outcome; otherwise the forests are exactly the replay `Grow` of the loop from the frontier, at most 10000 of them, each spread from the frontier or from an earlier forest and planted at its own increasing iteration with a roll below its chance against the nearest river cell |
| ElementsGeneration.FirstBuildableSpec | Assets/Scripts/ElementsGeneration.cs:98-111 | the scan returns the first plains or highlands neighbour without a river: it sits at an index before which no entry is buildable; it is (0, 0) when there is none |
| ElementsGeneration.FirstBuildableIsLowest | Assets/Scripts/ElementsGeneration.cs:97-111 | on the height-sorted neighbours, that is the lowest buildable one |
| ElementsGeneration.CandidateSpec | Assets/Scripts/ElementsGeneration.cs:97-111 | the candidate next to a river cell is its lowest buildable 4-neighbour, or (0, 0) |
| ElementsGeneration.FindSite | Assets/Scripts/ElementsGeneration.cs:98-111 | the loop computes that first buildable neighbour |
| ElementsGeneration.GetSiteNeighbours | Assets/Scripts/ElementsGeneration.cs:97 | the neighbours tried are the in-bounds 4-neighbours sorted by height |
| ElementsGeneration.FilterStep | Assets/Scripts/ElementsGeneration.cs:119-145 | the field and stone tallies extend cell by cell |
| ElementsGeneration.InDisk | Assets/Scripts/ElementsGeneration.cs:113-147 | the scanned cells are exactly those within Euclidean distance 4 |
| ElementsGeneration.DiskSpec | Assets/Scripts/ElementsGeneration.cs:113-147 | the same for every cell |
| ElementsGeneration.FieldsOfSpec | Assets/Scripts/ElementsGeneration.cs:125-134 | the field list holds exactly the plains or highlands cells without river or forest |
| ElementsGeneration.StonesOfSpec | Assets/Scripts/ElementsGeneration.cs:136-142 | the stone count is zero exactly when no slopes or mountains cell is scanned |
| ElementsGeneration.SurveySpec | Assets/Scripts/ElementsGeneration.cs:113-147 | the fields are the field cells within distance 4, and the stone count is positive exactly when some stone lies within distance 4 |
| ElementsGeneration.SurveyDisk | Assets/Scripts/ElementsGeneration.cs:113-147 | the double loop over [-4, 4] computes those tallies |
| ElementsGeneration.ScanCell | Assets/Scripts/ElementsGeneration.cs:117-145 | one (x, y) step of that loop |
| ElementsGeneration.TrySite | Assets/Scripts/ElementsGeneration.cs:94-155 | the drawn river cell is entry `Reduce(draw(k), n)`, and a site is accepted exactly when the candidate is suitable |
| ElementsGeneration.SettleSpec | Assets/Scripts/ElementsGeneration.cs:91-160 | the settlements already placed stay in front; at most `need` more follow, each picked for a river cell of the list; the loop ends with enough settlements or an exhausted list; the list left only loses entries, and is strictly shorter once a draw happens |
| ElementsGeneration.DrawnSpec | Assets/Scripts/ElementsGeneration.cs:94-160 | the cells drawn and the list left are together exactly the original list, as a multiset; the settlements are the ones placed before followed by the site taken for each drawn cell, in draw order |
| ElementsGeneration.SettlementsSpec | Assets/Scripts/ElementsGeneration.cs:87-164 | every settlement is a suitable site, the candidate of some river cell; at most `amount` of them, and fewer only when the river list ran out |
| ElementsGeneration.SettlingAdvance | Assets/Scripts/ElementsGeneration.cs:94-160 | one draw, with the site taken or the draw retried, keeps the rest of the loop on the course of the whole loop |
| ElementsGeneration.SettleStep | Assets/Scripts/ElementsGeneration.cs:91-160 | one iteration keeps the loop on the course of `Settle` and shrinks the river list |
| ElementsGeneration.GenerateSettlements | Assets/Scripts/ElementsGeneration.cs:87-164 | a non-positive amount places nothing; an empty river list is the crash outcome; otherwise the settlements and the caller's shrunken river list are what the draw sequence determines |

## Left out

- `HeightMapGenerator.cs` and `WorldGenerator.cs` are not part of this model. This covers Perlin-noise heights, ground classification, sprite lookup and the driver that calls the generators in order.
- Unity objects (`MonoBehaviour`, `Transform`, `SpriteRenderer`, `GameObject.Destroy`, the `Grid.instance` singleton) are left out. A transform is an opaque `Handle`. `Destroy` itself is not modelled; the element-removing methods return the handles they would hand to it.
- `Grid.SetMapSize` (Grid.cs:18-21) is not modelled as an operation: the `Grid` constructor takes the allocated array.
- Floating point is left out. Heights are integers. The forest chance is `real`. `Vector2.Distance` in the chance is a parameter `dist`, because only its value feeds a threshold.
- The random draws are parameters: `drawX`, `drawY`, `roll` and `draw`. Their distribution is not modelled, and neither is the fact that they all come from one shared generator.
- `Grid.Reconstruct` follows parent links at most W*L+1 times before it reports `Diverged`, where the source's `while (parent != start)` would run forever. The search re-relaxes closed dry cells, so a parent link can be overwritten after the cell was expanded. By reading the code (the model does not prove this case), on an all-dry 11 x 2 grid from (0, 0) to (10, 1): (1, 1) is reached diagonally and expanded; expanding (2, 1) then replaces its diagonal step by an orthogonal one and makes (2, 1) its parent, while (2, 1)'s own parent is (1, 1); the chain from (9, 1) runs back to (2, 1) and then alternates between (2, 1) and (1, 1) without reaching (0, 0).
- `Grid.Grid.GetWidth` and `Grid.Grid.GetLength` have no contract of their own; `GetCellData` and `GetHeightMap` state their meaning.
- `WaterGenerator.GenerateLake`: the rule that every outside 4-neighbour is higher than the start is stated only for lakes under 1000 cells. A pass that runs all 1000 steps ends without the `break` test, and the model then says nothing about the shore.
- `WaterGenerator.CollapseAdjacent`: the contract does not promise that repeats are gone afterwards, because they need not be. After a removal the loop moves on without comparing the entry that slid into place, so three equal entries in a row keep two; and equal cells that are not next to each other after the sort (a tie in height between other cells) are never compared at all.
- `WaterGenerator.GenerateRiver`: the case where every neighbour is water is kept as written. The next candidate is `(0, 0)`, and the river continues there when it is lower, although `(0, 0)` need not be adjacent.
- `ElementsGeneration.CandidateSpec`: when a river cell has no buildable 4-neighbour, the candidate is `(0, 0)`, as the source's default `settelment` is. That cell is then checked for suitability and may be accepted although it is not next to the river. The model keeps this.
- `ElementsGeneration.FindClosestElement`: from an out-of-bounds start, the contract only states that a found cell is nearest and first. It does not say whether an element exists.
- `ElementsGeneration.GenerateForests`: the forest list is not promised to be repeat-free, because it need not be. A frontier cell still in the queue is queued again as a field of a neighbouring new forest, as the source checks only the forest list; if both copies win their roll, the cell is added twice. The replay `Grow` keeps this behaviour.
- The order in which `CheckMirrors` tries the four reflections is given by `Mirror`. Ties inside one ring are stated through `Precedes`, not as the source's loop indices.

## Findings

| source | as written | input that shows it | evidently intended | confidence | as-written member | corrected member |
|---|---|---|---|---|---|---|
| Assets/Scripts/CellData.cs:59-67 | every pass destroys `elementsTransform[0]` and removes only `Elements[0]`; the transform list never shrinks | a cell with elements [river, forest] and transforms [t0, t1]: t0 is destroyed twice, t1 never, and both stay in the transform list | destroy each element's own transform and remove it with the element, as `RemoveElement` does | not executed | CellData.Cell.RemoveAllElements, CellData.RemoveAllKeepsSecondHandle | CellData.Cell.RemoveAllElementsAndHandles, CellData.RemoveAllWithHandlesReleasesEach |
