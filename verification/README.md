# Minesweeper game engine in Dafny

A model of the game-state engine inside the `Game` component of a Minesweeper web
app. The board is 16 rows by 30 columns, and each cell has a flat index 0..479.
The model covers five parts:

- **Mine placement.** A rejection-sampling loop collects 99 distinct indices. The
  random source is replaced by a finite sequence of draws passed in as a parameter.
- **Proximity map.** Every cell that is not a mine gets the number of mines among
  its up to eight neighbours. Mines get no value, which the source stores as `null`.
- **Moves.** A left click reveals a cell and a right click toggles a flag. Each move
  copies the current snapshot, changes the copy, and commits it. Committing
  truncates the history after the current step and then appends the copy.
- **Time travel.** A jump only moves the step pointer.
- **Outcome check.** The game is lost when a mine shows. Otherwise it is won exactly
  when the flag counter is zero.

Modules:

- `Board` holds the grid constants, the `Cell` type and the geometry. Its
  `Adjacent` predicate is the reference definition of a neighbour: another board
  cell whose row and column each differ by at most one.
- `BoardGenerator` covers mine placement and the proximity map.
- `MoveProcessor` holds the snapshot-level operations: the loss disclosure and the
  flag toggle.
- `GameState` holds the state record, the history commit, the three handlers and
  the constructor.
- `WinChecker` holds `calculateWinner`.
- `Scenarios` holds end-to-end runs on a fresh game.
- `Wrappers` holds `Option`.

How source values map to the model: a `null` square is `Hidden`, the flag emoji is
`Flagged`, the bomb emoji is `Mine`, and the empty string or a number `n` is
`Count(n)`. The mine array becomes a `set<int>`. The proximity array becomes a
`seq<Option<nat>>`, with `None` for `null`.

Two behaviours are kept exactly as the code has them:

- The code has no range guard on indices or steps. A left click off the board
  compares two undefined values, which are equal, so it returns without a change.
  `HandleClick` models it as a no-op.
- The win rule looks only at the flag counter, not at where the flags are. A
  counter of zero wins even when some flags are on cells without a mine.

## Model

| member | source | states |
|---|---|---|
| `Board.AdjacentIffGuardedOffset` | src/index.js:102-125 | The eight cells the constructor inspects are exactly the adjacent cells. Each is inspected under its guard: not past the top row, not past the bottom row, and no wrap across the left or right column. |
| `BoardGenerator.FirstOccurrences` | src/index.js:79-87 | The values the rejection loop keeps contain no duplicates and are exactly the values drawn. |
| `BoardGenerator.FirstOccurrencesPrefix` | src/index.js:79-87 | Stopping the loop early keeps a prefix of what a longer run would keep, so drawing more never changes the mines already chosen. |
| `BoardGenerator.DistinctElementsCount` | src/index.js:89-93 | Placing a list of 99 distinct indices on the mine array marks exactly 99 cells. |
| `BoardGenerator.MineLayout` | src/index.js:76-87 | The mine list is the first 99 distinct draws, in draw order. It contains no duplicates and only drawn values. It exists exactly when the draws hold at least 99 distinct values. |
| `BoardGenerator.PlaceMines` | src/index.js:76-87 | The loop returns the reference mine list: 99 distinct indices, each inside the draw range. It returns None when the draws run out first. |
| `BoardGenerator.AsWrittenLastCellNeverMined` | src/index.js:81 | With the source's draw range of 0..478, index 479 never holds a mine. |
| `BoardGenerator.EveryCellCanBeMined` | src/index.js:81 | With the corrected draw range of 0..479, every cell, including 479, holds a mine for some sequence of draws. |
| `BoardGenerator.ProximityCount` | src/index.js:101-125 | The eight-check count for one cell is at most 8. |
| `BoardGenerator.ProximityCountIsNeighbourCount` | src/index.js:96-129 | The eight-check count equals the number of mines among the cell's adjacent cells. |
| `BoardGenerator.ProximityMap` | src/index.js:96-129 | A cell has no proximity value exactly when it is a mine. Every value present is in 0..8. |
| `BoardGenerator.ProximityMapCountsNeighbours` | src/index.js:96-129 | Every non-mine cell's proximity value is the number of its adjacent mines. |
| `MoveProcessor.DisclosureShowsWholeBoard` | src/index.js:142-161 | After the loss branch, every mine shows a mine and every other cell shows its adjacent-mine count. The cells showing a mine are exactly the mines. |
| `MoveProcessor.DisclosureIgnoresPrior` | src/index.js:142-161 | The loss branch gives the same snapshot whatever the snapshot showed before. |
| `MoveProcessor.ToggleFlag` | src/index.js:184-198 | A flagged cell becomes hidden and the counter goes up by one. A hidden cell becomes flagged and the counter goes down by one, with no floor. A revealed cell and the counter stay unchanged, and every other cell is untouched. The counter plus the number of flagged cells is preserved. |
| `MoveProcessor.ToggleFlagTwice` | src/index.js:187-196 | Toggling a hidden or flagged cell twice restores the snapshot and the counter. |
| `GameState.Commit` | src/index.js:168-175 | The history is cut after the current step and exactly one snapshot is appended. The retained prefix is unchanged and the step points at the new last entry. |
| `GameState.NewGame` | src/index.js:57-74 | A fresh game satisfies the state invariant. Its history is one all-hidden snapshot at step 0, it has 99 flags, and its mines are the placed indices. |
| `GameState.StartGame` | src/index.js:57-130 | The constructor yields a valid fresh game whose mines are the reference mine list. It uses the corrected draw range from Findings. It yields None exactly when the draws run out. |
| `GameState.HandleClick` | src/index.js:132-176 | An off-board index, or a cell already showing its proximity value, changes nothing. A mine commits a snapshot of the whole board laid open. Any other cell, flagged or not, commits a snapshot where only that cell changes, to its adjacent-mine count. The counter never changes. |
| `GameState.HandleRightClick` | src/index.js:178-209 | Commits the toggled copy of the current snapshot, with the toggled counter, by truncate-then-append. This happens even when nothing changed. |
| `GameState.JumpTo` | src/index.js:211-216 | Only the step pointer moves. History, counter, mines and proximity stay as they were, and the board shows the chosen entry. |
| `GameState.JumpBackRestores` | src/index.js:211-216 | Jumping away and back to the current step restores the state exactly. |
| `GameState.MoveAfterJumpDiscardsFuture` | src/index.js:178-216 | A move after a jump to step k leaves the first k+1 entries followed by the new snapshot. |
| `GameState.BranchOnEditExample` | src/index.js:134-175 | A history of length 5 viewed at step 2 has length 4 after a committed move. |
| `GameState.RevealSafeCellIdempotent` | src/index.js:139 | A second reveal of the same non-mine cell changes nothing. |
| `GameState.RevealFlaggedCellKeepsCounter` | src/index.js:162-166 | Revealing a flagged non-mine cell removes the flag but does not return it to the counter. |
| `GameState.RightClickTwiceRestores` | src/index.js:184-208 | Two right clicks on a hidden or flagged cell restore the shown snapshot and the counter. They add two history entries. |
| `GameState.RightClickKeepsFlagBalance` | src/index.js:184-208 | Every right click preserves the counter plus the number of flagged cells on display. |
| `WinChecker.CalculateWinner` | src/index.js:273-281 | The result is Loss exactly when some cell shows a mine, whatever the flags. It is Win exactly when no mine shows and the counter is 0. Otherwise it is In-Progress. |
| `Scenarios.FlagAndUnflagFreshGame` | src/index.js:178-209 | On a fresh game, flagging cell 5 gives 98 flags and the game in progress. Unflagging it gives back 99 flags and the original board. |
| `Scenarios.RevealSafeCellOfFreshGame` | src/index.js:132-176 | On a fresh game, revealing a non-mine shows its adjacent-mine count, and the game stays in progress with 99 flags. |
| `Scenarios.RevealMineOfFreshGame` | src/index.js:142-161 | On a fresh game, revealing a mine lays the board open, shows exactly 99 mines, and loses the game. |

## Findings

| source | as written | input that shows it | evidently intended | confidence | as-written member | corrected member |
|---|---|---|---|---|---|---|
| src/index.js:81 | Each draw is the floor of a random fraction times 479, so it lies in 0..478. | Any sequence of draws: the bottom-right cell, index 479, never receives a mine. | Draws over all 480 cells, 0..479. | medium, not executed | `BoardGenerator.AsWrittenLastCellNeverMined` | `BoardGenerator.EveryCellCanBeMined` |

`PlaceMines` takes the draw range as a parameter, so it models both ranges.
`StartGame` uses the corrected range, `DrawRange`.

## Left out

- Rendering is left out as presentation only. This covers `Square`, `Board.render`,
  the markup of `Game.render`, the move-list button labels and the status strings.
  `Current` stands in for the snapshot that `render` reads.
- `ReactDOM.render` and the `contextmenu` listener are left out as platform wiring.
- `Math.random` is not modelled. It becomes an injected sequence of draws.
- A sampler that never collects 99 mines is modelled as draws running out, which
  gives `None`. The source would loop on.
- React's asynchronous `setState` and batching are left out. Each handler is one
  atomic transition.
- The unused fields `isFirstClick` and `isFirstRender`, and the CSS, are left out.
- GameState.HandleRightClick: requires an index on the board. Its only caller is the
  board grid, which passes 0..479. An off-board index in the source writes an
  undefined entry past the 480 cells, which a fixed-size snapshot cannot represent.
- GameState.JumpTo: requires a step inside the history. Its only caller is the move
  list, which offers exactly the existing steps.
