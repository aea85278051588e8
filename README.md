# Minesweeper engine

A model of the game engine of `pyminesweeper.py`: its `Cell` and `Board` classes
without the pygame presentation.

A board is a `width × height` grid of cells. Each cell has two parts:

- a *type*: 0 to 8 bombs nearby, or `CELL_BOMB` = 10;
- a *status*: unopened, question, flag, open or exploded.

Building a board goes through these steps:

1. Mines are placed from a supplied sequence of draws.
2. Every other cell is counted.
3. The zero cells are grouped into side-connected *safe clusters*, largest first, each with its border of numbered cells.
4. The first cluster is force-opened.

The player acts on the board in these ways:

- A left click reveals a cell. From a zero cell it cascades through the eight neighbours.
- A right click cycles a closed cell through flag, question and unopened.
- After every click the game state is derived again.

The board can also be written as text, two letters per cell.

Modules:

- `Cells` (cells.dfy): the cell value, `open`, `set_status`, the predicates and the two-letter codes, with their read-back.
- `Grid` (grid.dfy): positions, the neighbour offsets, bomb counts, and paths through zero cells.
- `Rules` (rules.dfy): the game state, the right-click cycle, flags, and opening everything.
- `Cascade` (cascade.dfy): what a reveal and a left click do, as functions of the cells before.
- `Flood` (flood.dfy): the work-list flood fill of `reveal_cells`, proved to compute that function.
- `Clusters` (clusters.dfy): the cluster value, the partition and border predicates, and the descending sort.
- `Grouping` (grouping.dfy): `compute_safe_clusters` and `compute_positions_bomb_nearby` as loops over the cell map.
- `GroupingAsWritten` (grouping_as_written.dfy): the grouping scan as the source writes it, with a board on which it goes wrong (see Findings).
- `Text` (text.dfy): the text form of the board and its read-back.
- `Board` (board.dfy): class `Board`, whose methods update `cells`, `gameState` and `safeClusters` in place, as the source does.

The `Board` class keeps two kinds of state:

- `cells` is a map from `(col, row)` to a cell value.
- The ghost field `Kinds` records the types, which are fixed once the board is built.

`Valid()` ties them together and holds between actions:

- the cells are consistent with `Kinds`;
- every non-bomb cell is counted;
- the cluster index is a sorted partition of the zero cells, each cluster with its exact border;
- the game state is OVER only when an exploded cell is on the board.

Where the code departs from the usual rules of the game, the model follows the code:

- Construction does not validate the configuration (no check that there are fewer mines than cells).
- Clicks do not look at the game state.
- A left click opens flagged and questioned cells, because they count as unopened. A flagged bomb explodes.
- Clusters are side (4-)connected, not 8-connected.
- `reveal_a_safe_cluster` opens with `set_status`, so a flagged border cell is opened too.
- The constructor never calls `check_game_state`.
- The source's grouping scan reuses its row variable and can miss a zero cell (see Findings). The model's board groups with the corrected scan instead.

## Model

| member | source | states |
|---|---|---|
| Cells.Cell.Open | pyminesweeper.py:120-126 | the type is kept and the cell is open afterwards; an open cell is unchanged; it explodes exactly when it was closed, in play and a bomb |
| Cells.Cell.SetStatus | pyminesweeper.py:132-134 | the type is kept and the status is the one given |
| Cells.Cell.IsBombNearby | pyminesweeper.py:167-168 | defines "a bomb nearby": type 1 to 8, or a bomb |
| Cells.Cell.IsBomb | pyminesweeper.py:170-171 | defines a bomb: type `CELL_BOMB` |
| Cells.Cell.IsOpen | pyminesweeper.py:173-174 | defines an open cell: status open or exploded |
| Cells.Cell.IsUnopened | pyminesweeper.py:176-177 | defines an unopened cell as one that is not open, so flagged and questioned cells count |
| Cells.OpenOutcome | pyminesweeper.py:120-126 | a closed cell (unopened, question or flag) becomes EXPLODED if it is a bomb and the game is in play, OPEN otherwise; an open or exploded cell is unchanged |
| Cells.OpenIdempotent | pyminesweeper.py:120-126 | opening a second time changes nothing |
| Cells.NotNearbyIsZero | pyminesweeper.py:167-168 | for a valid type, "no bomb nearby" holds exactly for type 0 |
| Cells.Cell.TypeCharactor | pyminesweeper.py:139-152 | the letter is 'B' exactly for a bomb, else the digit of the count |
| Cells.Cell.StatusCharactor | pyminesweeper.py:154-162 | the letter is U, Q, F, O or X, each exactly for its status: unopened, question, flag, open, exploded |
| Cells.Cell.Charactor | pyminesweeper.py:164-165 | two letters: the type letter, then the status letter |
| Cells.KindOfCharactor | pyminesweeper.py:139-152 | a letter read back as a type gives a valid type |
| Cells.CharactorRoundTrip | pyminesweeper.py:139-165 | reading a cell's two letters back gives the same cell |
| Grid.NearbyVectors | pyminesweeper.py:234-235 | there are eight offsets |
| Grid.NearbyVectorsExact | pyminesweeper.py:234-235 | the offsets are exactly the eight non-zero unit steps, each listed once |
| Grid.SideVectors | pyminesweeper.py:338 | there are four side offsets |
| Grid.VectorsAreNeighbours | pyminesweeper.py:234-235 | each offset leads to a neighbour, for the eight offsets and for the four side offsets |
| Grid.OffsetIndex | pyminesweeper.py:234-235 | every neighbour is reached by some offset in the list |
| Grid.MakeMap | pyminesweeper.py:402-407 | the map has exactly the in-bounds positions as keys, each holding the given value |
| Grid.BombCount | pyminesweeper.py:243-250 | defines a cell's count: the bombs among its in-bounds neighbours, over the eight offsets |
| Grid.AdjacentSymmetric | pyminesweeper.py:234-235 | adjacency is symmetric |
| Grid.FourIsEight | pyminesweeper.py:338 | a side neighbour is also one of the eight neighbours |
| Grid.BombsAmong | pyminesweeper.py:245-250 | the bombs counted among the first k offsets number at most k |
| Grid.BombsAmongIsCard | pyminesweeper.py:245-250 | the count over the offsets equals the number of in-bounds bombs reached |
| Grid.ReachedAll | pyminesweeper.py:234-235 | the eight offsets reach exactly the eight neighbours |
| Grid.BombCountIsAdjacentBombs | pyminesweeper.py:241-251 | a cell's count is the number of bombs among its in-bounds neighbours, so at most 8 |
| Grid.SameBombsSameCount | pyminesweeper.py:241-251 | the count depends only on where the bombs are |
| Grid.ZeroCountNoAdjacentBomb | pyminesweeper.py:241-251 | no neighbour of a cell counted 0 is a bomb |
| Grid.PathExtend | pyminesweeper.py:320-328 | a path through zero cells extends by a step to an adjacent zero cell |
| Grid.ClosedHoldsReachable | pyminesweeper.py:320-328 | a set closed under steps through zero cells holds everything reachable from a member |
| Rules.NextGameState | pyminesweeper.py:536-542 | defines the state check: OVER on an explosion, else COMPLETED when cleared, else unchanged |
| Rules.RightClickResult | pyminesweeper.py:496-506 | defines a right click: one step of the flag cycle on an in-bounds cell, nothing otherwise |
| Rules.OpenAll | pyminesweeper.py:452-456 | defines the end-of-game reveal: every cell opened as `open(in_play)` opens it |
| Rules.NextGameStateMonotone | pyminesweeper.py:536-542 | a finished game never returns to play; a state that is OVER only with an exploded cell stays so after the check, and is then OVER exactly when a cell exploded |
| Rules.CycleFlag | pyminesweeper.py:500-505 | open and exploded cells are exactly the ones the cycle leaves unchanged |
| Rules.CycleFlagThrice | pyminesweeper.py:500-505 | three right clicks restore the status |
| Rules.RightClickFlagCount | pyminesweeper.py:496-506 | a right click adds a flag on an unopened cell, removes one on a flagged cell, and otherwise leaves the number of flags alone |
| Rules.RightClickFrame | pyminesweeper.py:496-506 | a right click changes only the clicked cell's status, never an open cell's, and never a type |
| Rules.OpenAllOutcome | pyminesweeper.py:452-456 | after opening all cells the board counts as cleared; an exploded cell stays exploded; opened out of play, it has an exploded cell exactly when it had one before |
| Cascade.BorderOpen | pyminesweeper.py:328-331 | defines the treatment of a neighbour the cascade does not push: opened only when plainly unopened and not a bomb |
| Cascade.AfterCascade | pyminesweeper.py:311-331 | defines the cells after a cascade over a region: the region opened, its neighbours given the border treatment, the rest untouched |
| Cascade.RevealResult | pyminesweeper.py:300-334 | defines a reveal: the cascade over the zero region from a zero cell, else opening an unopened cell, else nothing |
| Cascade.LeftClickResult | pyminesweeper.py:488-494 | defines a left click: a reveal only of an in-bounds unopened cell |
| Cascade.RegionIsZero | pyminesweeper.py:320-328 | every cell of the cascade region is a zero cell |
| Cascade.StartInRegion | pyminesweeper.py:307-309 | the start cell of the cascade is in its region |
| Cascade.CascadeEffect | pyminesweeper.py:304-331 | the cascade opens every zero cell reachable through the eight neighbours; it opens their plainly unopened non-bomb neighbours; it keeps flagged and questioned numbered neighbours, bombs and all types; it leaves everything else unchanged |
| Cascade.LeftClickIdempotent | pyminesweeper.py:488-494 | a second left click on the same cell changes nothing |
| Cascade.RevealKeepsConsistent | pyminesweeper.py:300-334 | a reveal keeps the cells consistent with their types, and only a bomb can explode |
| Cascade.CascadeAtPush | pyminesweeper.py:323-327 | opening a newly pushed neighbour moves it into the pushed set |
| Cascade.CascadeAtBorder | pyminesweeper.py:328-331 | the border treatment of an already-seen neighbour |
| Cascade.LeftClickKeepsConsistent | pyminesweeper.py:488-494 | a left click keeps the cells consistent and never changes an exploded cell |
| Flood.NearRegionAdd | pyminesweeper.py:320-331 | adding a cell to the region adds its neighbours to the region's surroundings |
| Flood.CascadeStart | pyminesweeper.py:307-309 | the work-list holding only the start cell, visited, meets the loop invariant |
| Flood.CascadeDone | pyminesweeper.py:311-331 | when the work-list is empty the cells equal the cascade's result |
| Flood.CascadeOpen | pyminesweeper.py:312-314 | opening the popped cell moves it into the done set |
| Flood.CascadeTouch | pyminesweeper.py:320-331 | one neighbour step keeps the invariant; it either leaves the visited set and the work-list as they were or, only for a neighbour not yet visited, adds it to the visited set and appends it to the work-list; a zero neighbour is always visited; the invariant includes that the work-list holds no cell twice and no cell already done |
| Flood.VisitedNext | pyminesweeper.py:320-331 | after the neighbour at one offset is touched, the visited set only grows, every zero neighbour of a done cell is visited, every zero cell reached so far is visited, and the touched cells are those near the done region or reached |
| Flood.CascadeVisit | pyminesweeper.py:320-331 | one offset of the neighbour loop keeps the invariant |
| Flood.CascadePop | pyminesweeper.py:311-314 | the pop takes the last work-list entry (LIFO) and marks it done |
| Flood.CascadeNeighbours | pyminesweeper.py:320-331 | the loop over the eight offsets keeps the invariant |
| Flood.NeighboursDone | pyminesweeper.py:320-331 | after the eight offsets the invariant holds again, and the unvisited cells or the work-list shrink |
| Flood.CascadeStep | pyminesweeper.py:311-331 | one pass of the work-list loop keeps the invariant and decreases the termination measure |
| Flood.Fill | pyminesweeper.py:300-331 | the flood fill from a zero cell produces exactly the cascade's result |
| Grouping.LabellingStart | pyminesweeper.py:350-354 | a group started at an unlabelled zero cell meets the fill invariant |
| Grouping.GroupTouch | pyminesweeper.py:358-365 | one side step keeps the fill invariant; an unlabelled zero neighbour gets labelled |
| Grouping.LabelsGrow | pyminesweeper.py:358-365 | labels, once given, are kept |
| Grouping.GroupVisit | pyminesweeper.py:358-365 | one side offset keeps the fill invariant |
| Grouping.GroupNeighbours | pyminesweeper.py:358-365 | the loop over the four side offsets keeps the fill invariant |
| Grouping.GroupNeighboursDone | pyminesweeper.py:355-365 | after the four side offsets the done cells are closed, and the unlabelled cells or the work-list shrink |
| Grouping.GroupStep | pyminesweeper.py:355-365 | one pass of the fill loop keeps the invariant and decreases the termination measure |
| Grouping.GroupDone | pyminesweeper.py:355-366 | an exhausted work-list leaves one whole side component, and all labels closed |
| Grouping.FillGroup | pyminesweeper.py:350-366 | the fill from an unlabelled zero cell lists one whole side component, starting at that cell; it labels exactly those cells, which were unlabelled before |
| Grouping.ScanCell | pyminesweeper.py:346-366 | reading one cell of the scan keeps the scan invariant |
| Grouping.GroupZeroCells | pyminesweeper.py:338-366 | the groups split the zero cells: each group is a whole side component, and each zero cell lies in exactly one group |
| Grouping.TouchesSafeStep | pyminesweeper.py:414-422 | a cell touches the first i+1 safe cells exactly when it touches the first i or the (i+1)-th |
| Grouping.BorderNeighbours | pyminesweeper.py:416-423 | the neighbours of one safe cell are seen, and those with a bomb nearby are listed once |
| Grouping.ComputePositionsBombNearby | pyminesweeper.py:411-424 | the result lists, once each, exactly the in-bounds cells with a bomb nearby that touch the safe cells |
| Grouping.ComputeSafeClusters | pyminesweeper.py:336-383 | the clusters partition the zero cells into side components, largest first, each with its exact border and none revealed |
| GroupingAsWritten.PushSidesLabels | pyminesweeper.py:358-365 | the side pushes of the as-written fill only shrink the unlabelled cells |
| GroupingAsWritten.FillAsWritten | pyminesweeper.py:355-365 | the as-written fill keeps the label map's keys |
| GroupingAsWritten.ExampleBombsAre | pyminesweeper.py:212-219 | the example board has its bombs at (2,1) and (4,2) |
| GroupingAsWritten.TwoBombsCount | pyminesweeper.py:241-251 | on the example board a cell's count is the number of the two bombs it touches |
| GroupingAsWritten.ExampleIsCounted | pyminesweeper.py:237-251 | the example board is counted as `update` counts it |
| GroupingAsWritten.ExampleHasShape | pyminesweeper.py:237-251 | the example board has zero cells at (0,0), (0,1), (0,2) and (4,0), and numbered cells elsewhere off the bombs |
| GroupingAsWritten.FirstFill | pyminesweeper.py:350-366 | the fill from (0,0) ends popping (0,2) and lists the first column |
| GroupingAsWritten.ShapeMissesZeroCell | pyminesweeper.py:346-366 | on such a board the scan as written gives only the first column, and misses the zero cell (4,0) |
| GroupingAsWritten.AsWrittenMissesZeroCell | pyminesweeper.py:346-366 | the scan as written does not cover the zero cells of the example board |
| Clusters.ListLessAsymmetric | pyminesweeper.py:376 | the order on position lists is asymmetric |
| Clusters.Insert | pyminesweeper.py:376 | insertion keeps the list sorted largest first and adds exactly the element |
| Clusters.SortLargestFirst | pyminesweeper.py:370-376 | the result is sorted largest first and is a permutation of the input |
| Clusters.SortedSizes | pyminesweeper.py:376 | in a sorted list, sizes do not increase |
| Clusters.InsertKeepsDisjoint | pyminesweeper.py:376 | insertion keeps the clusters pairwise disjoint |
| Clusters.SortKeepsDisjoint | pyminesweeper.py:376 | sorting keeps the clusters pairwise disjoint |
| Clusters.SortKeepsPartition | pyminesweeper.py:370-376 | sorting keeps the partition of the zero cells |
| Clusters.BorderIsNumbered | pyminesweeper.py:411-424 | on a counted board every border cell has type 1 to 8, never a bomb, and is not in the cluster |
| Clusters.ClustersValidIgnoresFlags | pyminesweeper.py:449 | marking clusters revealed keeps the index valid |
| Board.UpdatedCounts | pyminesweeper.py:237-251 | recounting every non-bomb cell yields a counted board with valid types and the same bombs |
| Board.FirstUnrevealed | pyminesweeper.py:437-439 | the index of the first cluster not yet revealed, or -1 when all are revealed |
| Board.OpenCluster | pyminesweeper.py:440-447 | defines the forced opening of a cluster: its border and safe cells given the open status, the rest unchanged |
| Board.OpenClusterSafe | pyminesweeper.py:436-450 | opening a cluster of a valid index opens no bomb, explodes nothing, keeps the cells consistent, and marking it revealed keeps the index valid |
| Board.OpenClusterEffect | pyminesweeper.py:440-447 | opening a cluster opens all its safe and border cells and changes nothing else |
| Board.StartState | pyminesweeper.py:222-223 | after construction exactly the largest cluster is revealed, and its cells are exactly the open ones |
| Board.SurroundingsOpenBorder | pyminesweeper.py:508-516 | when every neighbour of a cluster is open, so is its border |
| Board.Board.constructor | pyminesweeper.py:198-223 | a valid board in play whose bombs are exactly the first max(number_of_mines, 0) distinct draws, every other cell counted, and only the largest cluster open |
| Board.Board.Populate | pyminesweeper.py:212-221 | mines placed and counts set: every cell closed, and the bombs are exactly the first max(number_of_mines, 0) distinct draws |
| Board.Board.PlaceMines | pyminesweeper.py:212-219 | the bombs are exactly the distinct positions of some prefix of the draws, as many as asked |
| Board.Board.CountNearbyBombs | pyminesweeper.py:243-250 | the result is the number of bombs among the in-bounds neighbours |
| Board.Board.UpdateCell | pyminesweeper.py:239-251 | only the given cell changes: it takes its count, unless it is a bomb |
| Board.Board.UpdateRow | pyminesweeper.py:238-251 | after a row all cells up to it are counted and the rest are untouched |
| Board.Board.Update | pyminesweeper.py:237-251 | every non-bomb cell takes its count; statuses and bombs stay |
| Board.Board.RevealCells | pyminesweeper.py:300-334 | the cells become the reveal's result: the cascade from a zero cell, else opening a closed cell |
| Board.Board.OpenClusterCells | pyminesweeper.py:440-447 | the cluster's border and safe cells are set open; no other cell changes |
| Board.Board.FindUnrevealed | pyminesweeper.py:437-439 | the result is the first unrevealed cluster's index |
| Board.Board.RevealASafeCluster | pyminesweeper.py:436-450 | opens exactly the first unrevealed cluster and marks it revealed, returning true; returns false, changing nothing, only when every cluster is revealed; the board stays valid |
| Board.Board.IsClusterRevealed | pyminesweeper.py:427-434 | true exactly when no border or safe cell of the cluster is closed |
| Board.Board.IsSafeClusterOpen | pyminesweeper.py:508-516 | true exactly when no in-bounds neighbour of the given positions is closed |
| Board.Board.IsGameOver | pyminesweeper.py:518-524 | true exactly when some cell has exploded |
| Board.Board.IsGameCompleted | pyminesweeper.py:526-534 | true exactly when every cell is open or a flagged bomb |
| Board.Board.CheckGameState | pyminesweeper.py:536-542 | OVER when a cell exploded, else COMPLETED when the board is cleared, else unchanged |
| Board.Board.LeftClick | pyminesweeper.py:488-494 | a reveal of an in-bounds closed cell (flagged and questioned included), then the state check; the board stays valid |
| Board.Board.RightClick | pyminesweeper.py:496-506 | one step of the flag cycle on the clicked cell, then the state check; the board stays valid |
| Board.Board.RevealAllCells | pyminesweeper.py:452-456 | every cell is opened as `open(in_play)` opens it, and the board stays valid |
| Board.Board.OpenEveryCell | pyminesweeper.py:452-456 | the loop over rows and columns leaves every cell opened as `open(in_play)` opens it |
| Board.Board.NumberOfFlags | pyminesweeper.py:466-473 | the result is the number of flagged cells |
| Board.Board.Description | pyminesweeper.py:475-486 | the text of the board, row by row |
| Text.RowCodes | pyminesweeper.py:479-483 | defines the codes of a row's first cells, separated by bars |
| Text.Line | pyminesweeper.py:478-485 | defines one row's line: a bar, the row's codes, a bar and "\r\n" |
| Text.Lines | pyminesweeper.py:476-486 | defines the text of the first rows: their lines one after another |
| Text.LineList | pyminesweeper.py:477-485 | one line per row, in row order |
| Text.DescribeRow | pyminesweeper.py:478-484 | the row's codes joined by '\|' after the opening bar |
| Text.Describe | pyminesweeper.py:476-486 | the lines of all rows, one after another |
| Text.RowCodesLength | pyminesweeper.py:480-483 | a row of n codes has 3n-1 characters |
| Text.RowCodesChars | pyminesweeper.py:480-483 | cell x's two letters sit at 3x, with a bar before each code but the first |
| Text.LineLengthIs | pyminesweeper.py:478-485 | every line has the same length: 3·width+3, or 4 for an empty row |
| Text.LineChars | pyminesweeper.py:478-485 | a line opens with a bar, closes with a bar and "\r\n", and holds cell x's letters at 1+3x |
| Text.JoinLength | pyminesweeper.py:485 | lines of equal length join to their total length |
| Text.JoinChar | pyminesweeper.py:485 | each character of line y lands at its offset in the text |
| Text.LinesLength | pyminesweeper.py:476-486 | the text of k rows is k lines long |
| Text.CodeInJoin | pyminesweeper.py:476-486 | a cell's letters placed in a line read back as that cell from the text |
| Text.CodeReadsBack | pyminesweeper.py:476-486 | the two letters at a cell's place in the text read back as that cell |
| Text.DescriptionReadsBack | pyminesweeper.py:475-486 | the text has height·(3·width+3) characters and every cell reads back from its place: the text loses nothing |

## Left out

- Images, sprites, fonts, icons, drawing and the `Game` event loop are not modelled. They are pygame presentation and window I/O.
- The `print` calls are not modelled. They are console output with no effect on state.
- The pixel mapping of `cell_rect` and `cell_position` is not modelled. Clicks are given as `(col, row)`, and the `rect` assignment in `update` is dropped.
- Randomness is not modelled. `random.randrange` becomes a supplied sequence of draws.
- Board.Board.constructor: requires at least `number_of_mines` distinct drawn positions. This stands in for the random retry loop, which ends only with probability one, and never when there are more mines than cells.
- Board.Board.PlaceMines: the same requirement on the draws applies here.
- Board.Board.constructor: the cluster list and the cluster opened at the start follow the corrected scan (Grouping.GroupZeroCells). They differ from the source whenever the as-written scan misses or re-orders a zero component (see Findings).
- Grouping.ComputeSafeClusters: groups the zero cells with the corrected scan, so its clusters are every side component, largest first. The source's list differs whenever its scan misses or re-orders a zero component (see Findings).
- A cell's `update` and its image are not modelled. A cell is a value, and "updating a cell in place" is replacing its entry in the board's map.
- Cluster objects are values in a sequence, not shared references. Setting `is_revealed` replaces the cluster in the board's list. Nothing else in the source holds a cluster, so no aliasing is lost.
- The unreachable debug listing after `return` in `compute_safe_clusters` is not modelled.
- GroupingAsWritten.FillAsWritten: states only that the label keys are kept. Its termination measure (the unlabelled cells, then the work-list) is what the as-written fill needs; its other properties are proved on Grouping.FillGroup.
- Board.Board.IsSafeClusterOpen: checks all eight neighbours, as the source does. A diagonal zero cell of another side-connected cluster can therefore stay closed after the cluster is revealed. The contract states what the code checks and claims no more.
- The text functions require every type to be 0 to 8 or 10. The source's lookup table raises an error for any other type; a built board never has one.

## Findings

| source | as written | input that shows it | evidently intended | confidence | as-written member | corrected member |
|---|---|---|---|---|---|---|
| pyminesweeper.py:346-366 | `(col, row) = queue.pop()` reuses the scan's own row variable, so after a group is filled the rest of the scan row is read on the row of the last popped cell | 5×3 board with bombs at (2,1) and (4,2): the fill from (0,0) ends on (0,2); columns 1-4 are then read on row 2, and the zero cell (4,0) gets no cluster | every zero cell of the board lies in some safe cluster | not executed | GroupingAsWritten.AsWrittenMissesZeroCell | Grouping.GroupZeroCells |
