# BuildingCounter in Dafny

BuildingCounter draws a random map of width × height cells. Each cell is a building (`#`)
or an empty place (` `). The program then counts the buildings, where a building is a
maximal group of `#` cells joined through their up, left, right and down neighbours. A
column-by-column scan finds the first still-unlabelled `#` of each group and gives it the
next label character, `counter % 176 + 36`. The recursive flood fill `markNeighbors` then
spreads that label over the whole group. A process-wide step counter counts every scan
position and every fill call.

The project has two layers:

- **Imperative** (module `BuildingMap`). `Map` is a class with `width`, `height` and a
  cell buffer `data: array<int>`, plus the bounds-checked `Get` and the unchecked
  `At`/`SetAt`. `StepCounter` is a class holding the step counter. The methods
  `GenerateMap`, `MarkNeighbors` (with `Visit`, one of its four guarded branches) and
  `MarkBuildings` (with its loop bodies `ScanColumn` and `ScanCell`) change the buffer and
  the counter in place, as the program does.
- **Specification.** Each method is proved to leave exactly the grid, the
  component count and the step count that a pure function on grid values computes:
  - `Flood.Fill`/`Flood.Branch` for the flood fill;
  - `Scan.ScanTo`/`Scan.ScanStep`/`Scan.MarkAll` for the scan;
  - `BuildingMap.DrawnCell` for the generator.

  Lemmas about those functions state what the program promises:
  - the flood fill relabels exactly the `#` cells reachable from its start;
  - the scan leaves no `#`, and it labels every group uniformly with the label of its
    discovery rank;
  - while there are at most 176 groups, two cells share a label exactly when they share a
    group;
  - the returned count equals the number of maximal 4-connected groups (`Paths.Components`).

Cells are stored as their character codes (`Cells`). Positions are `(x, y)` pairs. The
buffer is row-major with index `y * width + x` (`Grids.Grid`).

The flood fill keeps the program's snapshot behaviour. All four neighbours are read before
any branch runs, and each branch tests its own stale value. A later branch can therefore
re-enter a cell an earlier branch has already labelled. It writes the same label again,
but its call still counts in the step counter.

## Model

| member | source | states |
|---|---|---|
| Cells.LabelFor | main.cpp:124 | the label of the k-th component found is a label code in 36..211; it is never `#`, ` ` or `\0`; below 176 components it is 36 + k |
| Cells.LabelsAlias | main.cpp:124 | two ranks get the same label exactly when they agree modulo 176, so labels repeat after 176 buildings |
| Grids.Grid.Get | main.cpp:22-28 | outside the map the read gives `\0`; inside a well-formed map it gives the stored cell |
| Grids.IndexBounds | main.cpp:14-20 | the row-major address y · width + x of a cell inside the map lies inside the buffer of width × height cells |
| Grids.IndexUnique | main.cpp:14-20 | two positions whose columns lie inside the map share a row-major address only when they are the same cell, so the accessors never confuse two cells |
| Grids.Grid.Set | main.cpp:14-16 | a write through the unchecked accessor changes the addressed cell and no other cell, and keeps the shape |
| BuildingMap.StepCounter.constructor | main.cpp:7 | the step counter starts at 0 |
| BuildingMap.Map.constructor | main.cpp:61-64 | a new map has the requested size and a buffer of width × height `\0` cells |
| BuildingMap.Map.At | main.cpp:14-20 | reading the buffer at (x, y) gives the cell of the map's grid value at (x, y) |
| BuildingMap.Map.Get | main.cpp:22-28 | outside the map the read gives `\0`; inside it agrees with the unchecked read |
| BuildingMap.Map.SetAt | main.cpp:14-16 | after writing v at (x, y), the map's grid value is the old one with only (x, y) set to v |
| BuildingMap.GenerateMap | main.cpp:60-73 | the map has the requested size, and cell (x, y) is `#` or ` ` as draw number x·height + y says, because draws are consumed x-outer, y-inner |
| BuildingMap.DrawnCell | main.cpp:68 | every generated cell is `#` or ` ` |
| BuildingMap.DrawNumbersDistinct | main.cpp:66-68 | the x-outer, y-inner loops never use one draw for two cells: distinct cells take distinct draw numbers |
| BuildingMap.DrawOwner | main.cpp:66-68 | the loops leave no draw unused: every draw number below width × height decides some cell |
| Flood.Fill | main.cpp:85-114 | the fill only turns `#` cells into the mark and changes nothing else; it counts at least its own call |
| Flood.Branch | main.cpp:98-113 | a branch whose snapshot was not `#` changes nothing and makes no call; otherwise it only turns `#` cells into the mark |
| Flood.FillClosed | main.cpp:85-114 | afterwards no neighbour of the start is `#`, and no neighbour of a newly marked cell is `#` |
| Flood.FillOnlyReached | main.cpp:85-114 | only cells reachable from the start through `#` cells of the entry map change |
| Flood.FillSpec | main.cpp:85-114 | afterwards a cell holds the mark exactly when it is reachable from the start through `#` cells; every other cell keeps its entry value |
| Flood.FillIsolated | main.cpp:85-114 | a call with no `#` neighbour changes nothing and counts one step |
| BuildingMap.MarkNeighbors | main.cpp:85-114 | the buffer ends as Flood.Fill computes, and the step counter grows by Fill's call count |
| BuildingMap.Visit | main.cpp:98-113 | one guarded branch leaves the buffer as Flood.Branch computes, and it adds Branch's call count to the step counter |
| Paths.ComponentIsMaximalGroup | main.cpp:116-132 | a building contains the cell it is grown from, its cells are pairwise connected, and it is closed under `#` neighbours |
| Paths.ComponentsPartition | main.cpp:116-132 | distinct buildings share no cell, and every `#` cell belongs to one |
| Scan.ScanTo | main.cpp:119-129 | at every point of the x-outer, y-inner scan, only `#` cells have changed, and only into label codes |
| Scan.ScanStep | main.cpp:121-127 | one scan position changes only `#` cells, and only into label codes |
| Scan.MarkAll | main.cpp:116-131 | the whole scan changes only `#` cells, and only into label codes |
| Scan.MarkAllLabelsEveryBuilding | main.cpp:116-132 | afterwards no cell is `#`; non-`#` cells are unchanged; every former `#` holds a label; 4-adjacent former `#` cells hold the same label |
| Scan.MarkAllGroupShareLabel | main.cpp:116-132 | two cells of the same building end with the same label |
| Scan.MarkAllCountsComponents | main.cpp:131 | the returned counter equals the number of maximal 4-connected groups of `#` cells |
| Scan.LeaderExists | main.cpp:119-123 | every `#` cell is connected to a first cell of its building in scan order, the cell at which the scan starts that building |
| Scan.MarkAllLabelsByRank | main.cpp:119-126 | every cell of a building gets the label of the number of buildings found before its first cell, and that rank is below the final count |
| Scan.LeaderRanksDistinct | main.cpp:119-124 | a building whose first cell comes earlier in scan order has a strictly smaller discovery rank, so no two buildings share a rank |
| Scan.MarkAllDistinctLabels | main.cpp:116-132 | while there are at most 176 buildings, cells of different buildings end with different labels |
| Scan.MarkAllSameLabelIffConnected | main.cpp:116-132 | while there are at most 176 buildings, two `#` cells end with the same label exactly when they belong to the same building |
| Scan.LeaderRankBelowTotal | main.cpp:119-131 | a building's discovery rank is below the total number of buildings |
| Scan.MarkAllNoBuildings | main.cpp:116-132 | a map with no `#` is left unchanged, with count 0 and no fill calls |
| Scan.MarkAllIdempotent | main.cpp:116-132 | marking an already-marked map changes nothing and finds no building |
| Scan.ScanToCalls | main.cpp:121-126 | the scan makes at least one fill call per building it has found |
| Scan.SingleBuilding | main.cpp:116-132 | a 1×1 map with one `#` becomes label 36, with count 1 and one fill call |
| Scan.RowOfThree | main.cpp:116-132 | a row of three `#` all become label 36, with count 1 and three fill calls |
| Scan.BlockOfFour | main.cpp:85-132 | a 2×2 block of `#` all become label 36, with count 1; the stale snapshots cause five fill calls |
| BuildingMap.ScanCell | main.cpp:121-127 | one scan position leaves the buffer and counter as Scan.ScanStep computes, and it adds one step plus its fill calls |
| BuildingMap.ScanColumn | main.cpp:120-128 | one column leaves the buffer and counter as Scan.ScanTo computes at the next column, and it adds height steps plus the fill calls |
| BuildingMap.MarkBuildings | main.cpp:116-132 | the buffer ends as Scan.MarkAll computes, and the result is MarkAll's count; the step counter grows by width × height plus all fill calls |

## Left out

- displayMap and main: they only print the map, the count, the step counter and the buffer size. The model has no output.
- getRandomChance, rand and the 0.35 threshold: GenerateMap takes the sequence of draws (true means `#`) as a parameter, one per cell, in the order the loops use them.
- GenerateMap: it does not touch the step counter, because the source's generator does not either.
- MarkNeighbors: requires a mark other than `#`. With `#` as the mark the source can recurse forever: as soon as the fill reaches two adjacent `#` cells, each re-enters the other. The scan never passes `#`.
- MarkNeighbors: the depth of the call stack is not modelled. Deep recursion on large buildings could overflow the native stack.
- LabelFor: labels are integers 36..211. The narrowing to a possibly signed `char` is not modelled; it changes the printed character, not which cells share a label. The comment at main.cpp:124 names 212, but 212 itself never occurs.
- Map: width, height, the buffer index y * width + x and the counters are unbounded integers. The 32-bit overflow of int in the source is not modelled, and neither is the cast of a negative product to size_t.
- Map.Get: the `pos < data.size()` guard is modelled. It only matters for a buffer shorter than width × height, which GenerateMap never builds.
