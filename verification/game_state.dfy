/**
 * The state the `Game` component holds and its three transitions: a reveal (left
 * click), a flag toggle (right click) and a jump in the move list. Each handler
 * is one atomic, pure transition from state to state.
 */
module GameState {
  import opened Wrappers
  import opened Board
  import opened BoardGenerator
  import opened MoveProcessor

  /**
   * The component's state: the snapshot history, the step being shown, the flag
   * counter, and the mine set and proximity map fixed at construction.
   */
  datatype Game = Game(
    history: seq<Snapshot>,
    stepNumber: nat,
    flagsRemaining: int,
    mines: set<int>,
    proximity: seq<Option<nat>>)

  /**
   * The invariant every reachable state keeps: a non-empty history of full-size
   * snapshots, a step inside it, 99 mines on the board and the proximity map that
   * belongs to them.
   */
  predicate Valid(g: Game) {
    && |g.history| > 0
    && g.stepNumber < |g.history|
    && (forall k :: 0 <= k < |g.history| ==> |g.history[k]| == Cells)
    && |g.mines| == MineCount
    && (forall m :: m in g.mines ==> ValidIndex(m))
    && g.proximity == ProximityMap(g.mines)
  }

  /** The snapshot on display: the history entry at the step pointer. */
  function Current(g: Game): Snapshot
    requires g.stepNumber < |g.history|
  {
    g.history[g.stepNumber]
  }

  /**
   * `after` is `g` with one move committed: the history up to and including the
   * current step is kept as it was, anything after it is gone, exactly one
   * snapshot follows, and the pointer is on that new last snapshot.
   */
  predicate CommittedFrom(g: Game, after: Game)
    requires g.stepNumber < |g.history|
  {
    && |after.history| == g.stepNumber + 2
    && after.stepNumber == |after.history| - 1
    && after.history[..g.stepNumber + 1] == g.history[..g.stepNumber + 1]
  }

  /** Truncate the history after the current step, then append `squares`. */
  function Commit(g: Game, squares: Snapshot): (after: Game)
    requires g.stepNumber < |g.history|
    ensures CommittedFrom(g, after)
    ensures Current(after) == squares
    ensures after.flagsRemaining == g.flagsRemaining
    ensures after.mines == g.mines && after.proximity == g.proximity
  {
    var kept := g.history[..g.stepNumber + 1];
    g.(history := kept + [squares], stepNumber := |kept|)
  }

  /** The state right after construction, given the placed mines. */
  function NewGame(placed: seq<int>): (g: Game)
    requires ValidPlacement(placed)
    ensures Valid(g)
    ensures g.history == [AllHidden()] && g.stepNumber == 0
    ensures g.flagsRemaining == MineCount
    ensures g.mines == Elements(placed)
  {
    DistinctElementsCount(placed);
    Game([AllHidden()], 0, MineCount, Elements(placed), ProximityMap(Elements(placed)))
  }

  /**
   * The constructor: place the mines from the injected draws, then derive the
   * proximity map. None when the draws run out before 99 mines are placed.
   */
  method StartGame(draws: seq<int>) returns (r: Option<Game>)
    requires DrawsWithin(draws, DrawRange)
    ensures r.Some? <==> MineLayout(draws).Some?
    ensures r.Some? ==> Valid(r.value) && r.value.mines == Elements(MineLayout(draws).value)
    ensures r.Some? ==> r.value.history == [AllHidden()] && r.value.stepNumber == 0
    ensures r.Some? ==> r.value.flagsRemaining == MineCount
  {
    var placed := PlaceMines(draws, DrawRange);
    match placed
    case None =>
      r := None;
    case Some(mines) =>
      r := Some(NewGame(mines));
  }

  /**
   * Left click on cell `i`. Nothing happens when the cell already shows its
   * proximity value, or when `i` is off the board (the source then compares two
   * undefined values, which are equal). A mine lays the whole board open; any other
   * cell, flagged or not, shows its own proximity value and nothing else changes.
   * The flag counter is never touched.
   */
  function HandleClick(g: Game, i: int): (after: Game)
    requires Valid(g)
    ensures Valid(after)
    ensures after.flagsRemaining == g.flagsRemaining
    ensures after.mines == g.mines && after.proximity == g.proximity
    ensures !ValidIndex(i) ==> after == g
    ensures ValidIndex(i) && i !in g.mines && Current(g)[i] == Count(|MinedNeighbours(g.mines, i)|) ==>
              after == g
    ensures ValidIndex(i) && i in g.mines ==>
              CommittedFrom(g, after) && ShowsWholeBoard(Current(after), g.mines)
    ensures ValidIndex(i) && i !in g.mines && Current(g)[i] != Count(|MinedNeighbours(g.mines, i)|) ==>
              && CommittedFrom(g, after)
              && Current(after)[i] == Count(|MinedNeighbours(g.mines, i)|)
              && forall x :: 0 <= x < Cells && x != i ==> Current(after)[x] == Current(g)[x]
  {
    if !ValidIndex(i) then g
    else
      var squares := Current(g);
      ProximityMapCountsNeighbours(g.mines);
      if ShowsProximity(squares, g.proximity, i) then g
      else if i in g.mines then
        DisclosureShowsWholeBoard(squares, g.mines);
        Commit(g, Disclose(squares, g.mines, g.proximity))
      else
        Commit(g, squares[i := Count(g.proximity[i].value)])
  }

  /**
   * Right click on cell `i`: toggle its flag in a copy of the current snapshot and
   * commit the copy with the new counter, even when the cell was already revealed
   * and nothing changed.
   */
  function HandleRightClick(g: Game, i: int): (after: Game)
    requires Valid(g) && ValidIndex(i)
    ensures Valid(after)
    ensures CommittedFrom(g, after)
    ensures (Current(after), after.flagsRemaining) == ToggleFlag(Current(g), i, g.flagsRemaining)
    ensures after.mines == g.mines && after.proximity == g.proximity
  {
    var (squares, flags) := ToggleFlag(Current(g), i, g.flagsRemaining);
    Commit(g, squares).(flagsRemaining := flags)
  }

  /**
   * Select an entry of the move list: only the step pointer moves, and the board
   * then shows the chosen history entry.
   */
  function JumpTo(g: Game, step: nat): (after: Game)
    requires Valid(g) && step < |g.history|
    ensures Valid(after)
    ensures after.history == g.history
    ensures after.flagsRemaining == g.flagsRemaining
    ensures after.mines == g.mines && after.proximity == g.proximity
    ensures after.stepNumber == step && Current(after) == g.history[step]
  {
    g.(stepNumber := step)
  }

  /** Jumping away and back to where the game was restores the state exactly. */
  lemma JumpBackRestores(g: Game, step: nat)
    requires Valid(g) && step < |g.history|
    ensures JumpTo(JumpTo(g, step), g.stepNumber) == g
  {
  }

  /**
   * A move made after jumping back to `step` discards every later snapshot: the
   * history becomes the first `step + 1` entries followed by the new one.
   */
  lemma MoveAfterJumpDiscardsFuture(g: Game, step: nat, i: int)
    requires Valid(g) && step < |g.history| && ValidIndex(i)
    ensures var after := HandleRightClick(JumpTo(g, step), i);
            && |after.history| == step + 2
            && after.history[..step + 1] == g.history[..step + 1]
            && after.stepNumber == step + 1
  {
  }

  /** A history of five snapshots viewed at step 2 has four after the next move. */
  lemma BranchOnEditExample(g: Game, i: int)
    requires Valid(g) && |g.history| == 5 && g.stepNumber == 2 && ValidIndex(i)
    ensures |HandleRightClick(g, i).history| == 4
    ensures !ShowsProximity(Current(g), g.proximity, i) ==> |HandleClick(g, i).history| == 4
  {
  }

  /** A second click on a cell that is not a mine changes nothing. */
  lemma RevealSafeCellIdempotent(g: Game, i: int)
    requires Valid(g) && ValidIndex(i) && i !in g.mines
    ensures HandleClick(HandleClick(g, i), i) == HandleClick(g, i)
  {
  }

  /**
   * Revealing a flagged cell that is not a mine removes its flag without returning
   * it to the counter, so counter plus flagged cells drops by one.
   */
  lemma RevealFlaggedCellKeepsCounter(g: Game, i: int)
    requires Valid(g) && ValidIndex(i) && i !in g.mines && Current(g)[i] == Flagged
    ensures HandleClick(g, i).flagsRemaining == g.flagsRemaining
    ensures |FlaggedCells(Current(HandleClick(g, i)))| == |FlaggedCells(Current(g))| - 1
  {
    var before, shown := Current(g), Current(HandleClick(g, i));
    assert shown[i] != Flagged;
    assert forall x :: 0 <= x < Cells && x != i ==> shown[x] == before[x];
    assert FlaggedCells(shown) + {i} == FlaggedCells(before);
  }

  /** Right-clicking a hidden or flagged cell twice restores the board and the counter. */
  lemma RightClickTwiceRestores(g: Game, i: int)
    requires Valid(g) && ValidIndex(i)
    requires Current(g)[i] == Hidden || Current(g)[i] == Flagged
    ensures var twice := HandleRightClick(HandleRightClick(g, i), i);
            && Current(twice) == Current(g)
            && twice.flagsRemaining == g.flagsRemaining
            && |twice.history| == g.stepNumber + 3
  {
    ToggleFlagTwice(Current(g), i, g.flagsRemaining);
  }

  /** Every right click keeps the counter plus the number of flagged cells. */
  lemma RightClickKeepsFlagBalance(g: Game, i: int)
    requires Valid(g) && ValidIndex(i)
    ensures var after := HandleRightClick(g, i);
            after.flagsRemaining + |FlaggedCells(Current(after))|
              == g.flagsRemaining + |FlaggedCells(Current(g))|
  {
  }
}
