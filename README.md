# Match-3 board rules of GamePresenter, in Dafny

This project models the board logic of the match-3 game's `GamePresenter`:

- **Start board.** The plate is generated with random cell types and alternating background flags. It is then repaired: a run of three equal types is broken either by exchanging its third cell with the fourth or by re-rolling the third cell. After a repair, the lines across the touched cells are re-checked.
- **Exclusion draw.** A rejection loop draws a cell type different from a given one.
- **Merge predicates.** The right, left and parallel-line "available to merge" predicates decide whether exchanging two neighbouring cells lines up three equal types.
- **Stalemate check.** It asks whether any row or column admits such an exchange.
- **Move handler.** It works with the selected cell and the input lock. It classifies a swipe into a direction, rejects moves off the board or moves that merge nothing, exchanges the two cell types, and collects the runs next to the exchanged pair into the four destruction buffers and the general buffer.

The model is in three modules:

- `Swipe` (`swipe.dfy`): classifies a swipe from its right and up projections.
- `MergeRules` (`merge_rules.dfy`): pure predicates and run scans over one line of cell types.
- `GamePlate` (`game_plate.dfy`): the class `Plate`.
  - The board is one `array2<int>` of types, `cells[x, y]`.
  - Rows and columns are views onto it (`Line = Row(y) | Column(x)`), never copies. This matches the source, where each row list and each column list holds the same cell objects.
  - The selected cell, the input lock and the buffers are fields the methods update.
  - `Random.Range` is a nondeterministic choice in `[0, typeCount)`.

## Model

| member | source | states |
|---|---|---|
| Swipe.Classify | Assets/_Scripts/UI/Presenters/GamePresenter.cs:430-490 | No move exactly when either projection is zero. Otherwise the axis with the larger absolute projection wins, a tie goes to Up/Down, and the sign picks the side. Each direction is stated as an if-and-only-if. |
| MergeRules.RightAvailable | Assets/_Scripts/UI/Presenters/GamePresenter.cs:296-320 | True exactly when cell i+1 exists, its type differs from cell i's, and exchanging i and i+1 puts a run of three through one of the two cells. This is soundness and completeness against the exchange. |
| MergeRules.LeftAvailable | Assets/_Scripts/UI/Presenters/GamePresenter.cs:322-346 | The mirror case: true exactly when exchanging cells i-1 and i (of different types) puts a run of three through one of them. |
| MergeRules.ParallelAvailable | Assets/_Scripts/UI/Presenters/GamePresenter.cs:348-409 | True exactly when cell i of a line and cell i of the parallel neighbour line have different types and exchanging them puts a run of three through index i of either line. |
| MergeRules.LeftMirrorsRight | Assets/_Scripts/UI/Presenters/GamePresenter.cs:322-346 | The left predicate at i equals the right predicate at i-1. |
| MergeRules.Exchange | Assets/_Scripts/UI/Presenters/GamePresenter.cs:156-163 | Exchanging two entries of a line swaps those two entries, keeps every other entry, and keeps the multiset of types. |
| MergeRules.RunForwardMaximal | Assets/_Scripts/UI/Presenters/GamePresenter.cs:729-735 | An ascending scan collects the consecutive indices after `from` that all hold the sought type. The block is maximal: the next index is the line's end or holds another type. |
| MergeRules.RunBackwardMaximal | Assets/_Scripts/UI/Presenters/GamePresenter.cs:737-743 | The same for a descending scan: the indices before `from`, nearest first, form a maximal block of the sought type. |
| MergeRules.RunForwardStopsAt | Assets/_Scripts/UI/Presenters/GamePresenter.cs:729-735 | A scan that saw only the sought type and stopped at the line's end or at another type has collected exactly the forward run. |
| MergeRules.RunBackwardStopsAt | Assets/_Scripts/UI/Presenters/GamePresenter.cs:737-743 | The mirror of RunForwardStopsAt for descending scans. |
| GamePlate.Plate.CheckerboardWhenWidthEven | Assets/_Scripts/UI/Presenters/GamePresenter.cs:81-104 | With an even plate width, the background flag that generation gives cell (x, y) is the parity of x + y, i.e. a checkerboard. |
| GamePlate.Plate.StripesWhenWidthOdd | Assets/_Scripts/UI/Presenters/GamePresenter.cs:81-104 | With an odd plate width, the generated flag of (x, y) is the parity of x alone, so every row has the same pattern. |
| GamePlate.MarkedCells | Assets/_Scripts/UI/Presenters/GamePresenter.cs:653-714 | Every marked cell comes from a buffer or is one of the pair. The selected cell is marked exactly when the second or third buffer holds two cells or more. The neighbour is marked exactly when the first or fourth buffer does. |
| GamePlate.GatherToDisappear | Assets/_Scripts/UI/Presenters/GamePresenter.cs:653-714 | The flag-and-append sequence yields, in order, each buffer of two or more cells, then the selected cell if its flag is set, then the neighbour if its flag is set. |
| GamePlate.Plate.constructor | Assets/_Scripts/UI/Presenters/GamePresenter.cs:29-51 | The plate starts well formed, with no selection, the lock open and empty buffers. |
| GamePlate.Plate.Initialize | Assets/_Scripts/UI/Presenters/GamePresenter.cs:59-77 | Generation followed by the start check leaves every cell holding a valid type and the background flags laid out. The result equals "the plate has a merge option". |
| GamePlate.Plate.LightAlternates | Assets/_Scripts/UI/Presenters/GamePresenter.cs:99-102 | The background flag flips from each cell to the next one in a row. The first cell of a row has the opposite flag to the position past the end of the previous row. |
| GamePlate.Plate.GenerateGamePlate | Assets/_Scripts/UI/Presenters/GamePresenter.cs:81-104 | Every cell gets a type in `[0, typeCount)`, and cell (x, y) gets the background flag produced by toggling after every cell and once more after every row. |
| GamePlate.Plate.GetRandomCellType | Assets/_Scripts/UI/Presenters/GamePresenter.cs:228-238 | The returned type is in `[0, typeCount)` and differs from the excluded one. |
| GamePlate.Plate.SetNewRandomCellType | Assets/_Scripts/UI/Presenters/GamePresenter.cs:240-246 | The cell gets a type different from its old one, and no other cell changes. |
| GamePlate.Plate.CheckCellAfterSwitch | Assets/_Scripts/UI/Presenters/GamePresenter.cs:208-226 | If the cell starts or ends a run of three in its line, its type changes. Otherwise the board is unchanged. No other cell ever changes. |
| GamePlate.Plate.BreakRun | Assets/_Scripts/UI/Presenters/GamePresenter.cs:152-163 | The third cell's type always changes, and a run of three that ended or started at the third cell is no longer one. If the fourth cell had the same type, the fourth cell keeps its type. Otherwise the line becomes the exchange of the third and fourth entries, with the same multiset of types. Only those two cells can change. |
| GamePlate.Plate.CheckRightCells | Assets/_Scripts/UI/Presenters/GamePresenter.cs:134-170 | The board is unchanged unless i+3 is on the line and i..i+2 is a run of three. Only cells i+2 and i+3 can change. |
| GamePlate.Plate.CheckLeftCells | Assets/_Scripts/UI/Presenters/GamePresenter.cs:172-206 | The board is unchanged unless i-3 is on the line and i-2..i is a run of three. Only cells i-2 and i-3 can change. |
| GamePlate.Plate.CheckStartPlate | Assets/_Scripts/UI/Presenters/GamePresenter.cs:106-132 | All types stay in `[0, typeCount)`. The reported result equals "the repaired plate has a merge option". |
| GamePlate.Plate.CheckForPossibilityOfMerging | Assets/_Scripts/UI/Presenters/GamePresenter.cs:252-294 | It does not touch the board. The result is true exactly when some index of some row or column satisfies the right or the left predicate. |
| GamePlate.Plate.AtEdge | Assets/_Scripts/UI/Presenters/GamePresenter.cs:499-594 | For a cell on the board, the edge test holds exactly when the neighbour in that direction is off the board. |
| GamePlate.Plate.MoveAccepted | Assets/_Scripts/UI/Presenters/GamePresenter.cs:501-508 | The acceptance test of the side-cell checks: not at the edge, and the in-line or the parallel-line predicate holds. An accepted move always has its neighbour on the board and of a different type. The same test in the other three directions is at lines 525-532, 549-557 and 574-581; MoveAcceptedExact characterises it. |
| GamePlate.Plate.MoveAcceptedExact | Assets/_Scripts/UI/Presenters/GamePresenter.cs:499-594 | The move handler accepts a move exactly when it is a merging move: the neighbour is on the board, the two types differ, and exchanging them puts a run of three through one of the two cells. |
| GamePlate.Plate.RightMoveExact | Assets/_Scripts/UI/Presenters/GamePresenter.cs:499-521 | MoveAcceptedExact for a move to the right. |
| GamePlate.Plate.LeftMoveExact | Assets/_Scripts/UI/Presenters/GamePresenter.cs:523-545 | MoveAcceptedExact for a move to the left. |
| GamePlate.Plate.UpMoveExact | Assets/_Scripts/UI/Presenters/GamePresenter.cs:547-570 | MoveAcceptedExact for a move up. |
| GamePlate.Plate.DownMoveExact | Assets/_Scripts/UI/Presenters/GamePresenter.cs:572-594 | MoveAcceptedExact for a move down. |
| GamePlate.Plate.MergeOptionGivesMove | Assets/_Scripts/UI/Presenters/GamePresenter.cs:252-294 | Whenever the stalemate check reports a merge option, the move handler accepts some move from some cell. |
| GamePlate.Plate.RowOptionGivesMove | Assets/_Scripts/UI/Presenters/GamePresenter.cs:255-270 | A merge option in a row is an accepted Right or Left move from a cell of that row. |
| GamePlate.Plate.ColumnOptionGivesMove | Assets/_Scripts/UI/Presenters/GamePresenter.cs:276-291 | A merge option in a column is an accepted Down or Up move from a cell of that column. |
| GamePlate.Plate.ScanForward | Assets/_Scripts/UI/Presenters/GamePresenter.cs:729-735 | The ascending scan loop returns the cells of the maximal forward run of the sought type. |
| GamePlate.Plate.ScanBackward | Assets/_Scripts/UI/Presenters/GamePresenter.cs:737-743 | The descending scan loop returns the cells of the maximal backward run of the sought type. |
| GamePlate.Plate.ScanBothWays | Assets/_Scripts/UI/Presenters/GamePresenter.cs:745-759 | A side line's buffer is the forward run followed by the backward run. |
| GamePlate.Plate.SelectCellsForDestroying | Assets/_Scripts/UI/Presenters/GamePresenter.cs:718-797 | The four buffers are the runs after and before each cell on the two side lines, and on the perpendicular line the run beyond each cell, chosen by which cell comes first. |
| GamePlate.Plate.PlacedForward | Assets/_Scripts/UI/Presenters/GamePresenter.cs:729-735 | Every collected forward cell is on the board, lies on the scanned line past the start index, and holds the sought type. |
| GamePlate.Plate.PlacedBackward | Assets/_Scripts/UI/Presenters/GamePresenter.cs:737-743 | Every collected backward cell is on the board, lies before the start index, and holds the sought type. |
| GamePlate.Plate.CollectedCellsMatch | Assets/_Scripts/UI/Presenters/GamePresenter.cs:629-651 | Every buffered cell is on the board and is neither of the exchanged pair. The first and fourth buffers hold the selected cell's type; the second and third hold the neighbour's. |
| GamePlate.Plate.VerticalPairCollected | Assets/_Scripts/UI/Presenters/GamePresenter.cs:629-639 | CollectedCellsMatch for a pair in one column. |
| GamePlate.Plate.HorizontalPairCollected | Assets/_Scripts/UI/Presenters/GamePresenter.cs:641-651 | CollectedCellsMatch for a pair in one row. |
| GamePlate.Plate.DisappearingCells | Assets/_Scripts/UI/Presenters/GamePresenter.cs:618-716 | Every cell marked to disappear is on the board. The selected cell is marked exactly when the second or third buffer counts; the neighbour exactly when the first or fourth counts. |
| GamePlate.Plate.DestroyCells | Assets/_Scripts/UI/Presenters/GamePresenter.cs:618-716 | The buffers become the runs collected around the pair, and the general buffer becomes the marked cells. Selection and lock are kept. |
| GamePlate.Plate.SwapCellsTypesAndDestroyCells | Assets/_Scripts/UI/Presenters/GamePresenter.cs:596-602 | The two types are exchanged and no other cell changes. Every line reads as it would after the exchange. The buffers are the runs collected on the new board. |
| GamePlate.Plate.CheckSideCells | Assets/_Scripts/UI/Presenters/GamePresenter.cs:499-594 | A move off the edge or one that merges nothing changes nothing. An accepted move exchanges exactly the two types (which differ) and leaves the rest of the board unchanged. Afterwards a run of three passes through one of the two cells, and the buffers are filled. |
| GamePlate.Plate.SelectCell | Assets/_Scripts/UI/Presenters/GamePresenter.cs:413-420 | A touch on a plate cell selects it, whatever the lock. Any other touch keeps the selection. The lock, the four run buffers and the general buffer are kept either way. |
| GamePlate.Plate.ResetPlayerInput | Assets/_Scripts/UI/Presenters/GamePresenter.cs:609-616 | The selection is dropped. The lock, the four run buffers and the general buffer are kept. |
| GamePlate.Plate.OnEndTimerForBlockPlate | Assets/_Scripts/UI/Presenters/GamePresenter.cs:53-57 | The lock opens and the selection is dropped. The four run buffers and the general buffer are kept. |
| GamePlate.Plate.OnSignalPlayerTouchProcessData | Assets/_Scripts/UI/Presenters/GamePresenter.cs:422-497 | The request is ignored without a selection, while locked, or for a zero projection; nothing changes. Otherwise the classified move is tried and the plate locks whether or not the move was accepted. A rejected move leaves the board and all five buffers as they were. An accepted move exchanges exactly the two types, makes a run of three through one of them, and fills the buffers with the runs collected around the pair and the general buffer with the marked cells. The selection is kept. |

## Left out

- Input providers, touch raycasts and `Utils.GetClampedMovingVector` (Assets/_Scripts/Utils/Utils.cs:24-28) are left out: they are device I/O and floating-point clamping. A swipe arrives as two integer projections, so float comparisons are modelled on integers.
- DOTween timers and all animations (selection, disappear, cell views) are left out. The block timer is the external event `OnEndTimerForBlockPlate`.
- The signal bus, subscriptions, Zenject wiring, views, view names and `Debug.Log` lines are left out; they carry no board logic.
- `DropCells` is commented out in the source, so gravity and refill are not modelled.
- The plate is 8 by 8 in the source (Assets/_Scripts/Utils/Utils.cs:7-8). Here width and height are parameters, and the type count is the length of the cell-type enumeration, taken to be at least 2.
- GamePlate.Plate.GetRandomCellType: the draws are assumed fair, so the loop ends after some finite number of draws. The source loops forever with a single type, and the model requires two types or more.
- GamePlate.Plate.CheckRightCells: it does not promise that the run is broken on return. After the repair, re-checking the line across the third cell may re-roll that cell back to the run's type. BreakRun states what the repair step itself guarantees.
- GamePlate.Plate.CheckLeftCells: the same caveat as CheckRightCells.
- GamePlate.Plate.CheckStartPlate: it does not promise a board free of runs, for the same reason. It also does not promise that a merge option exists; the source only reports whether one does.
- GamePlate.Plate.DestroyCells: the source tests "same column" and "same row" with two separate ifs; the model uses if/else. For two adjacent cells at most one test holds, so the behaviour is the same.
- GamePlate.Plate.SelectCellsForDestroying returns the four runs and DestroyCells assigns them to the buffers. The source appends to the cleared buffer lists in place; the contents are the same.
- GamePlate.Plate.CheckForPossibilityOfMerging uses only the in-line predicates, as the source does. So a move that only the parallel-line predicate accepts is not reported as an option.
- The disappear flags are modelled as written: a counted first or fourth buffer marks the neighbour, and a counted second or third buffer marks the selected cell. The cell class's `SetType` semantics are not part of this model.
- SelectCellsForDestroying: the descending scan of the second side line starts from the first cell's index, as written. The pair's indices on the side lines are equal, so this gives the same run.
