# Lucid Leaves: the match-3 engine, modelled in Dafny

Lucid Leaves is a match-3 game. Its core is a `GameState` object
(src/game_state.rs). The object holds:

- an 8x8 grid of tiles;
- the current selection;
- the progression fields: total and spent points, level, phase and the
  farming flag.

Each frame, `update` does three things:

- In the Playing phase, it turns a click into a selection or a swap of two
  neighbouring tiles.
- After a swap, it runs the cascade. `resolve_matches` empties every cell of
  a horizontal or vertical window of three equal tiles and scores 10 points
  per distinct cell. Then `apply_gravity` compacts each column downwards and
  refills the gaps with random tiles. The two alternate until nothing
  matches.
- It moves the phase machine through Playing, LevelTransition and Shop.

`new` deals a random grid and runs the same cascade on it. Tiles
(src/tile.rs) are plain values: a kind and a fall offset, a random
constructor and a colour map.

The model has eight modules:

- `Tiles`: tile.rs as functions. `KindOfDraw`/`NewRandom` take the
  generator's draw as a parameter. `ColorOf` maps tiles to a small colour
  enumeration.
- `Board`: the board as a value (`seq<seq<Tile>>`, column by column). It
  defines windows, the matched set, `Cleared`, the scan order of the pushes,
  sort-and-dedup as a function, and `Swapped`.
- `Gravity`: a column after step 1 (`Compacted`) and after step 2
  (`Settled`). `Compacting` is the column part-way through step 1.
  `GravityBoard` is the whole board after gravity.
- `Cascade`: `OnePass` (resolve, then gravity) and `Run`, a cascade with a
  fuel bound.
- `Controls`: the click and selection rules (`OnClick`).
- `Progression`: the phase machine as functions of the progression fields
  (`PlayingStep`, `TransitionStep`, `ShopStep`). It also defines the
  invariant `Inv` they keep.
- `Frames`: what one frame does to the grid (`GridClick`, `PlayingFrame`)
  and the dealt board (`Dealt`).
- `Game`: the `GameState` class. The grid is kept in place in an
  `array2<Tile>`. A ghost field `board` ties the array to the value model.
  The source's operations are methods with loops (`ResolveMatches`,
  `ApplyGravity`, `Cascade`, `Update`, the constructor). Each method
  is proved against the functions above.

Randomness is a stream `rng: nat -> int` fixed for the object. A counter
`drawn` says how many draws have been made. `new` deals cell (x, y) from
draw x*8+y, and every refill takes the next draw.

## Model

| member | source | states |
|---|---|---|
| Tiles.KindOfDraw | src/tile.rs:23-29 | the kind for a draw is never Empty, and it is Exotic exactly for draws outside 0..3 |
| Tiles.NewRandom | src/tile.rs:22-31 | a fresh tile is never Empty, its offset is at rest (0), and its kind is the one its draw names |
| Tiles.EveryKindDrawable | src/tile.rs:23-29 | every non-Empty kind comes from some draw in the generator's range 0..4 |
| Tiles.DrawsAreDistinct | src/tile.rs:23-29 | different draws in 0..4 give different kinds, so the five draws map one-to-one onto the five kinds |
| Tiles.TruncDiv | src/tile.rs:43 | integer division rounds toward zero, as Rust's i32 `/` does: the remainder takes the dividend's sign and is smaller than the divisor |
| Tiles.SetIndex | src/tile.rs:43 | from level 1 on the set is (level - 1) / 3 and never negative; levels -1..3 give set 0 (flooring division would put 0 and -1 in set -1), and exactly the levels up to -2 give a negative set |
| Tiles.ColorOf | src/tile.rs:33-51 | the colour is Blank exactly for Empty, and it is one of Pink/Purple/Red exactly for Exotic |
| Tiles.ColorIndependentOfLevel | src/tile.rs:34-39 | every kind except Exotic has one colour whatever the level |
| Tiles.ExoticColorBySet | src/tile.rs:42-48 | for level >= 1, Exotic is Pink in levels 1..3, Purple in 4..6 and Red from 7 on |
| Tiles.LevelZeroIsFirstSet | src/tile.rs:43 | with truncating division level 0 falls in set 0 (Pink), where Euclidean division would give set -1 |
| Board.MatchedCells | src/game_state.rs:75-83 | a cell is matched exactly when it is on the board and lies in a horizontal or vertical window of three equal non-Empty kinds |
| Board.MatchedIsWindowUnion | src/game_state.rs:75-83 | the matched set equals the union of the three cells of every matching window, over windows starting at columns 0..W-3 and rows 0..H-3 |
| Board.HRowPushes | src/game_state.rs:75-78 | the pushes of row y's first n horizontal windows, in scan order: at most three cells per window |
| Board.HPushes | src/game_state.rs:75-78 | the horizontal pushes of rows 0..m-1, row after row: at most 18 per row |
| Board.VColPushes | src/game_state.rs:80-83 | the pushes of column x's first n vertical windows, in scan order: at most three cells per window |
| Board.VPushes | src/game_state.rs:80-83 | the vertical pushes of columns 0..m-1, column after column: at most 18 per column |
| Board.ScanPushes | src/game_state.rs:75-83 | the whole list before sort and dedup, horizontal pushes first: at most 288 cells, three per window |
| Board.HRowPushesMembers | src/game_state.rs:75-78 | a cell is pushed by row y's first n horizontal windows exactly when one of them covers it and matches |
| Board.HPushesMembers | src/game_state.rs:75-78 | a cell is pushed by the horizontal scan of rows 0..m-1 exactly when a matching horizontal window in those rows covers it |
| Board.VColPushesMembers | src/game_state.rs:80-83 | the same for column x's first n vertical windows |
| Board.VPushesMembers | src/game_state.rs:80-83 | the same for the vertical scan of columns 0..m-1 |
| Board.ScanPushesMatched | src/game_state.rs:75-83 | the cells the whole scan pushes are exactly the matched cells |
| Board.MarkedInGrid | src/game_state.rs:75-83 | a marked cell is a cell of the board |
| Board.NoMatchIffStable | src/game_state.rs:86 | nothing is matched if and only if the board has no matching window |
| Board.UnstableMatchesThree | src/game_state.rs:77 | a board that is not stable has at least three matched cells |
| Board.Cleared | src/game_state.rs:91 | the board after clearing has the same shape |
| Board.ClearedStable | src/game_state.rs:86 | clearing a stable board changes nothing |
| Board.ClearedEmpties | src/game_state.rs:91 | a cell is Empty after clearing exactly when it was matched or was already Empty, and it keeps its offset |
| Board.Insert | src/game_state.rs:85 | inserting into a sorted list holds exactly the old elements and the new one |
| Board.InsertSorted | src/game_state.rs:85 | inserting keeps a list strictly sorted in (column, row) order |
| Board.SortDedup | src/game_state.rs:85 | sort-and-dedup keeps exactly the same cells |
| Board.SortDedupSorted | src/game_state.rs:85 | the result of sort-and-dedup is strictly sorted, so each cell appears once |
| Board.SortedCardinality | src/game_state.rs:85-88 | a strictly sorted list is as long as the set of its elements, so the score counts distinct cells |
| Board.Swapped | src/game_state.rs:174 | a swap exchanges the whole tiles (kind and offset) of the two cells and leaves every other cell alone |
| Board.SwapTwice | src/game_state.rs:174 | swapping the same two cells again restores the board |
| Board.SwapKeepsFull | src/game_state.rs:174 | a swap keeps a board without Empty cells free of Empty cells |
| Gravity.EmptyCount | src/game_state.rs:97-98 | a column holds at most as many Empty cells as it has cells |
| Gravity.NonEmptyKinds | src/game_state.rs:97-108 | the non-Empty kinds of a column, top to bottom: their count plus the Empty count is the column length, and none is Empty |
| Gravity.Occupied | src/game_state.rs:101 | the rows holding a tile: their number plus the Empty count is the column length |
| Gravity.OccupiedRows | src/game_state.rs:101 | the occupied rows are in range, increasing, hold non-Empty tiles, and the k-th sits between rows k and k plus the Empty count |
| Gravity.OccupiedComplete | src/game_state.rs:101 | every non-Empty row is listed among the occupied rows |
| Gravity.GapIsEmpty | src/game_state.rs:101 | a row between two consecutive occupied rows is Empty |
| Gravity.NonEmptyKindsAtOccupied | src/game_state.rs:101 | the k-th non-Empty kind is the kind at the k-th occupied row |
| Gravity.CompactedAt | src/game_state.rs:97-108 | after step 1, a row of a column is Empty exactly when it lies above the bottom segment, whose length is the non-Empty count |
| Gravity.Compacted | src/game_state.rs:97-108 | the column after step 1 keeps its length, and every cell is as CompactedAt says |
| Gravity.Compacting | src/game_state.rs:97-108 | the column part-way through the bottom-to-top scan of step 1 keeps its length |
| Gravity.CompactingStart | src/game_state.rs:97 | before the scan starts the column is unchanged |
| Gravity.TrailingEmpty | src/game_state.rs:101 | a row below the last occupied row is Empty |
| Gravity.CompactingEnd | src/game_state.rs:97-108 | when the scan is done the column is Compacted |
| Gravity.CompactingStay | src/game_state.rs:98-101 | a row that is not Empty, or has nothing non-Empty above it, leaves the scan's column as it was |
| Gravity.CompactingMove | src/game_state.rs:101-105 | an Empty row takes the nearest tile above it, with a fall offset of the distance moved, and the source cell becomes Empty |
| Gravity.CompactedKinds | src/game_state.rs:97-108 | after step 1 the top rows (as many as were Empty) are Empty, and the bottom segment holds the non-Empty kinds in their top-to-bottom order |
| Gravity.CompactedKeepsKinds | src/game_state.rs:97-108 | step 1 keeps the sequence of non-Empty kinds: the same count, the same order |
| Gravity.CompactedBottom | src/game_state.rs:102-104 | the bottom segment holds the tiles from the occupied rows, in order |
| Gravity.SegmentKinds | src/game_state.rs:97-108 | a column that is Empty above row e and full from row e on lists its non-Empty kinds from row e |
| Gravity.SegmentIs | src/game_state.rs:97-108 | such a column's non-Empty kinds are exactly its bottom segment's kinds |
| Gravity.EmptyPrefixKinds | src/game_state.rs:97-108 | an all-Empty column has no non-Empty kinds |
| Gravity.Settled | src/game_state.rs:95-116 | a column after both steps keeps its length |
| Gravity.SettledCells | src/game_state.rs:111-116 | after both steps no cell is Empty; the top rows are spawned tiles drawn in order from the stream, as many as the column had Empty cells; the rest is the compacted column |
| Gravity.SettledAt | src/game_state.rs:111-116 | a settled cell is never Empty |
| Gravity.Spawn | src/game_state.rs:113-114 | a refill tile has the kind its draw names, so never Empty, and is placed at the spawn offset above the board |
| Gravity.SettledKeepsKinds | src/game_state.rs:97-116 | below the spawned rows a settled column holds the old non-Empty kinds, in order |
| Gravity.SettledFullColumn | src/game_state.rs:97-116 | gravity leaves a column with no Empty cell exactly as it was |
| Gravity.NoEmptyCount | src/game_state.rs:98 | a column with no Empty cell has Empty count 0 |
| Gravity.GravityBoard | src/game_state.rs:94-118 | the board after gravity has the board's shape |
| Gravity.Gravitating | src/game_state.rs:95 | the board after the first x columns keeps its shape |
| Gravity.GravityBoardColumns | src/game_state.rs:94-118 | after gravity no cell is Empty, and each column is settled on its own, drawing from where the columns to its left stopped |
| Gravity.GravitatingStart | src/game_state.rs:95 | before any column is done the board is unchanged |
| Gravity.GravitatingStep | src/game_state.rs:95 | doing column x settles it and leaves the other columns as they were; the draws used so far grow by that column's Empty count |
| Cascade.OnePass | src/game_state.rs:56-58 | one pass leaves a full board, does not go back in the draw stream, and removes at least one cell from a board that is not stable |
| Cascade.Run | src/game_state.rs:55-62 | a cascade scores 10 points per removed cell; it ends on a stable board when it reports stable; it keeps a full board full; on a stable board it does nothing and scores nothing |
| Cascade.ContinuesAfterPass | src/game_state.rs:55-62 | after a pass with fuel left, what remains of the cascade is the cascade of the new board, and the pass's 10 points per cell are added |
| Cascade.EndsAfterPass | src/game_state.rs:55-62 | with no fuel left the cascade ends after the pass it just made, not stable |
| Cascade.EndsWhenStable | src/game_state.rs:59-61 | the cascade ends, stable, when a resolution finds nothing |
| Cascade.RunScoresThree | src/game_state.rs:77-88 | a cascade from an unstable board removes at least three cells and scores at least 30 |
| Cascade.RunIdempotent | src/game_state.rs:55-62 | running the cascade again on the board a stable cascade left changes nothing and scores nothing |
| Controls.Abs | src/game_state.rs:172 | the absolute value is n or -n, and is never negative |
| Controls.Adjacent | src/game_state.rs:172-173 | two cells are neighbours exactly when they are at Manhattan distance 1 |
| Controls.AdjacentIsDistanceOne | src/game_state.rs:172-173 | neighbours are never the same cell and never diagonal (they share a row or a column), and the relation is symmetric |
| Controls.OnClick | src/game_state.rs:167-188 | a swap happens exactly for an in-grid click next to the selection; an out-of-grid click clears the selection; with no selection, or a click that is not next to it, the clicked cell becomes selected |
| Controls.OnClickKeepsSelection | src/game_state.rs:167-188 | the selection stays on the board, and a swap exchanges two different board cells |
| Controls.ClickSameCellKeepsIt | src/game_state.rs:172-185 | clicking the selected cell again keeps it selected and does not swap |
| Frames.Dealt | src/game_state.rs:39-40 | the dealt board has no Empty cell, and cell (x, y) holds the tile of draw x*8+y |
| Frames.GridClick | src/game_state.rs:167-188 | a selecting click changes only the selection; a swap runs the cascade from the swapped board, scores its points and clears the selection; the board stays full and the selection stays on it |
| Frames.Cascaded | src/game_state.rs:176-184 | the frame after a swap is the cascade's board, draw position and points, with no selection |
| Frames.PlayingFrame | src/game_state.rs:150-190 | without a click, or with a descend-button click while farming, the grid and the selection are untouched; every other click is GridClick |
| Frames.SwapWithoutMatchStays | src/game_state.rs:174-184 | a swap that makes no match is not taken back: the board keeps the two tiles exchanged and nothing is scored |
| Frames.SwapWithMatchScores | src/game_state.rs:174-183 | a swap that makes a match scores at least 30 points |
| Progression.Wallet | src/game_state.rs:68-70 | the wallet is non-negative exactly when no more was spent than earned, so it is non-negative under the invariant |
| Progression.Threshold | src/game_state.rs:193 | the threshold is a whole multiple of 2000, and at least 2000 from level 1 on |
| Progression.ThresholdGrows | src/game_state.rs:193 | each later level's threshold is 2000 points higher per level |
| Progression.CheckThreshold | src/game_state.rs:193-198 | the phase becomes LevelTransition exactly when the points reach level*2000 and the player is not farming; nothing else changes |
| Progression.PlayingStep | src/game_state.rs:150-198 | a descend click while farming goes to LevelTransition and skips the grid; otherwise the cascade's points are added and the threshold decides the phase |
| Progression.TransitionStep | src/game_state.rs:201-219 | Enter goes to the Shop, without a level-up, at every third level, and otherwise to the next level; either way farming ends. F, handled after Enter in the same frame, turns farming on and goes back to Playing; a level-up from Enter in that frame stands |
| Progression.EnterAndFFarmsAhead | src/game_state.rs:203-218 | Enter and F in one LevelTransition frame put the player in Playing, farming, on the next level (or on the same level, skipping the Shop, at every third level) |
| Progression.ShopStep | src/game_state.rs:221-227 | Enter goes up one level to Playing; Space spends 500 only when the wallet, read after Enter, holds at least 500 |
| Progression.StartInv | src/game_state.rs:42-51 | a new game's progression satisfies the invariant |
| Progression.Step | src/game_state.rs:144-228 | the per-phase dispatch of `update`, and the phase graph it allows: Playing to LevelTransition, LevelTransition to Playing or Shop, Shop to Playing; points and level never drop, and only the Shop spends |
| Progression.StepKeepsInv | src/game_state.rs:143-229 | every frame keeps the invariant: 0 <= spent <= total, spending in whole purchases, level >= 1, the Shop only after every third level and never while farming, LevelTransition only once the threshold is met or while farming. Points and spending never drop, and the level goes up by at most one |
| Progression.LevelUpOnlyByEnter | src/game_state.rs:204-222 | the level changes exactly when Enter leaves the Shop, or leaves a LevelTransition that does not lead to the Shop |
| Progression.StepsKeepInv | src/game_state.rs:143-229 | over any sequence of frames the invariant holds; the wallet is never negative; the level grows by at most one per frame |
| Progression.FarmingOnlyByF | src/game_state.rs:215-218 | farming starts only through F in LevelTransition |
| Game.GameState.constructor | src/game_state.rs:38-65 | a new game deals the random board, runs the cascade on it (keeping its points) and starts at level 1, Playing, not farming, with nothing selected; its state is valid |
| Game.GameState.InitialCascade | src/game_state.rs:55-62 | the loop of new ends as the cascade of the dealt board and adds its points |
| Game.GameState.LeavesWallet | src/game_state.rs:68-70 | the method returns the Wallet of the current progression, which is non-negative whenever the progression invariant holds |
| Game.GameState.ScanWindows | src/game_state.rs:74-83 | the scan pushes, in order, the cells of every matching window, and the cells pushed are exactly the matched cells |
| Game.GameState.ScanRows | src/game_state.rs:75-78 | the horizontal loop pushes what the row-by-row scan specification says |
| Game.GameState.ScanColumns | src/game_state.rs:80-83 | the vertical loop pushes what the column-by-column scan specification says |
| Game.GameState.MarkedCells | src/game_state.rs:85-86 | the sorted, deduplicated list holds exactly the matched cells, each once; it is empty if and only if the board is stable |
| Game.GameState.ResolveMatches | src/game_state.rs:72-93 | returns true if and only if the board was not stable; empties exactly the matched cells; adds 10 points per distinct matched cell |
| Game.GameState.EmptyCells | src/game_state.rs:91 | every listed cell gets kind Empty and keeps its offset; the other cells are unchanged |
| Game.GameState.NearestAbove | src/game_state.rs:101 | finds the nearest non-Empty row above y, or reports that every row above is Empty |
| Game.GameState.CompactColumn | src/game_state.rs:97-108 | step 1 turns column x into its compacted form and leaves the other columns alone |
| Game.GameState.RefillColumn | src/game_state.rs:111-116 | step 2 turns the compacted column into the settled one, taking exactly as many draws as the column had Empty cells |
| Game.GameState.SettleColumn | src/game_state.rs:96-116 | the two steps settle column x, taking one draw per Empty cell |
| Game.GameState.ApplyGravity | src/game_state.rs:94-118 | apply_gravity leaves GravityBoard of the old board, having taken as many draws as the board had Empty cells |
| Game.GameState.SwapTiles | src/game_state.rs:174 | the grid becomes the swapped board |
| Game.GameState.ResolveAndFall | src/game_state.rs:56-61 | one round of the loop: reports a match exactly when the board was not stable, and then makes one pass and scores it; otherwise nothing changes |
| Game.GameState.Cascade | src/game_state.rs:176-183 | the loop ends exactly as Run says, board, draws and points; when it reports stable (a resolution found nothing) the board has no three equal non-Empty kinds in a row or column |
| Game.GameState.CascadePass | src/game_state.rs:56-61 | one round of the loop moves the remaining cascade on by one pass, or ends it |
| Game.GameState.Update | src/game_state.rs:143-229 | one frame moves the progression by Step, and the grid and selection by PlayingFrame in Playing (unchanged otherwise); the valid state stays valid |
| Game.GameState.PlayingUpdate | src/game_state.rs:145-198 | a Playing frame: the click logic, then the threshold check, as PlayingStep says |
| Game.GameState.TransitionUpdate | src/game_state.rs:201-219 | a LevelTransition frame moves as TransitionStep says |
| Game.GameState.ShopUpdate | src/game_state.rs:221-227 | a Shop frame moves as ShopStep says |
| Game.GameState.PlayingClick | src/game_state.rs:150-190 | the mouse logic: the descend button while farming ends the level and skips the grid; otherwise the grid logic runs |
| Game.GameState.SwapAndCascade | src/game_state.rs:174-184 | the swap, the cascade from the swapped board and the cleared selection |
| Game.GameState.ClickGrid | src/game_state.rs:164-188 | the grid logic of a click changes the state as GridClick says |
| Game.DealGrid | src/game_state.rs:39-40 | the fill loop of new gives cell (x, y) the tile of draw x*8+y |
| Game.MarkedList | src/game_state.rs:85-88 | the sorted, deduplicated scan is the matched set listed once |
| Game.Emptied | src/game_state.rs:91 | emptying a list of cells sets exactly those cells' kinds to Empty |
| Game.EmptiedIsCleared | src/game_state.rs:91 | emptying exactly the marked cells is clearing the board |
| Game.GravitatingNext | src/game_state.rs:95-117 | settling the next column takes the board one column further through gravity, drawing where the previous columns stopped |

## Left out

- `draw` (src/game_state.rs:231-329): rendering and the frame-timed animation arithmetic.
- `animate_tiles` (src/game_state.rs:121-141): float offset decay driven by frame time.
- Fall offsets are not floats. The `Offset` datatype keeps what each one encodes: at rest, fell n rows (minus n tile heights) or spawned (minus four tile heights).
- Pixel-to-grid mapping and the descend-button rectangle are left out. They are float tests, so a click arrives as a grid cell (any integers) plus a flag saying whether it lies on the button.
- Random numbers: `gen_range(0, 5)` is a fixed stream `rng` of integers. The model does not say what the generator draws, only which kind each draw gives.
- Keyboard and mouse polling are left out. The frame's events are an `Input` value.
- The 32-bit width of `total_points`, `spent_points` and `level` is not modelled: Dafny integers are unbounded, and i32 overflow is not modelled.
- Game.GameState.Cascade: the source loops until a resolution finds nothing, and random refills give no termination guarantee. The model runs at most `budget` passes after the first, a constant of the object. When it stops for lack of fuel it reports `stable == false`. The contract therefore states stability only when the loop ends on its own.
- Game.GameState.constructor: same fuel bound for the loop of `new`.
- `beryl_texture`, macroquad `Color` values and asset loading are left out. `ColorOf` returns a small enumeration instead.
- `sort` and `dedup` of the list of pushed cells are a function (insertion into a sorted list). They are not an in-place vector algorithm.

Where the code behaves in ways one might not expect, the model follows the
code:

- The points of the initial cascade in `new` are added to `total_points`
  (src/game_state.rs:55-62 with 88-89), so a game can start with points.
  The constructor's contract says so.
- Enter in LevelTransition at every third level opens the Shop without
  raising the level (src/game_state.rs:204-205); the level goes up only
  when Enter leaves the Shop (line 222).
- Enter and F pressed in the same LevelTransition frame both take effect,
  Enter first: the player ends up farming the next level, whose threshold
  is not yet reached, or, at every third level, farming the same level
  without visiting the Shop (`EnterAndFFarmsAhead`).
- A swap that makes no match is never undone (src/game_state.rs:174-184,
  `SwapWithoutMatchStays`).
- The `target` field is set to 1000 and never read. No operation of the
  model reads it either; the class invariant `Valid()` records that it
  stays 1000.
