/**
 * Snapshot-level moves: what a reveal and a flag toggle do to the cells of one
 * snapshot. Committing the result to the history is the business of GameState.
 */
module MoveProcessor {
  import opened Wrappers
  import opened Board
  import opened BoardGenerator

  /** The first snapshot of every game: all 480 cells hidden. */
  function AllHidden(): Snapshot {
    seq(Cells, _ => Hidden)
  }

  /** The cells of a snapshot that carry a flag. */
  function FlaggedCells(squares: Snapshot): set<int> {
    set x | 0 <= x < |squares| && squares[x] == Flagged
  }

  /**
   * The cells of a snapshot that show a mine (the source's `calculateWinner` looks
   * for these).
   */
  function MineCells(squares: Snapshot): set<int> {
    set x | 0 <= x < |squares| && squares[x] == Mine
  }

  /**
   * The whole board laid open: every mine shows a mine, every other cell shows
   * how many mines are adjacent to it.
   */
  ghost predicate ShowsWholeBoard(squares: Snapshot, mines: set<int>) {
    && |squares| == Cells
    && forall x :: 0 <= x < Cells ==>
         squares[x] == (if x in mines then Mine else Count(|MinedNeighbours(mines, x)|))
  }

  /**
   * The guard of a reveal: the cell already shows its proximity value. A mine has
   * no proximity value, so a mine never passes this guard.
   */
  predicate ShowsProximity(squares: Snapshot, prox: seq<Option<nat>>, i: int)
    requires ValidIndex(i) && |squares| == Cells && |prox| == Cells
  {
    prox[i].Some? && squares[i] == Count(prox[i].value)
  }

  /**
   * The loss branch of a reveal: first every mine cell is set to a mine, then every
   * cell with a proximity value is set to that value; a cell with neither keeps
   * what it showed.
   */
  function Disclose(squares: Snapshot, mines: set<int>, prox: seq<Option<nat>>): (r: Snapshot)
    requires |squares| == Cells && |prox| == Cells
    ensures |r| == Cells
  {
    seq(Cells, x requires 0 <= x < Cells =>
          if prox[x].Some? then Count(prox[x].value)
          else if x in mines then Mine
          else squares[x])
  }

  /**
   * With the proximity map of the mines, the loss branch shows the whole board,
   * whatever the snapshot showed before, and the cells showing a mine are exactly
   * the mines.
   */
  lemma DisclosureShowsWholeBoard(squares: Snapshot, mines: set<int>)
    requires |squares| == Cells
    requires forall m :: m in mines ==> ValidIndex(m)
    ensures ShowsWholeBoard(Disclose(squares, mines, ProximityMap(mines)), mines)
    ensures MineCells(Disclose(squares, mines, ProximityMap(mines))) == mines
  {
    ProximityMapCountsNeighbours(mines);
  }

  /** The loss branch does not depend on the snapshot it starts from. */
  lemma DisclosureIgnoresPrior(before: Snapshot, other: Snapshot, mines: set<int>)
    requires |before| == Cells && |other| == Cells
    requires forall m :: m in mines ==> ValidIndex(m)
    ensures Disclose(before, mines, ProximityMap(mines)) == Disclose(other, mines, ProximityMap(mines))
  {
    DisclosureShowsWholeBoard(before, mines);
    DisclosureShowsWholeBoard(other, mines);
  }

  /**
   * The right-click toggle of one cell: a flag comes off and returns one flag to
   * the counter, a hidden cell gets a flag and takes one from the counter (no lower
   * bound), and a revealed cell and the counter stay as they are. The counter plus
   * the number of flagged cells never changes.
   */
  function ToggleFlag(squares: Snapshot, i: int, flagsRemaining: int): (r: (Snapshot, int))
    requires ValidIndex(i) && |squares| == Cells
    ensures |r.0| == Cells
    ensures forall x :: 0 <= x < Cells && x != i ==> r.0[x] == squares[x]
    ensures squares[i] == Flagged ==> r.0[i] == Hidden && r.1 == flagsRemaining + 1
    ensures squares[i] == Hidden ==> r.0[i] == Flagged && r.1 == flagsRemaining - 1
    ensures squares[i].Count? || squares[i].Mine? ==> r == (squares, flagsRemaining)
    ensures r.1 + |FlaggedCells(r.0)| == flagsRemaining + |FlaggedCells(squares)|
  {
    match squares[i]
    case Flagged =>
      assert FlaggedCells(squares[i := Hidden]) + {i} == FlaggedCells(squares);
      (squares[i := Hidden], flagsRemaining + 1)
    case Hidden =>
      assert FlaggedCells(squares[i := Flagged]) == FlaggedCells(squares) + {i};
      (squares[i := Flagged], flagsRemaining - 1)
    case _ =>
      (squares, flagsRemaining)
  }

  /** Toggling a hidden or flagged cell twice restores the snapshot and the counter. */
  lemma ToggleFlagTwice(squares: Snapshot, i: int, flagsRemaining: int)
    requires ValidIndex(i) && |squares| == Cells
    requires squares[i] == Hidden || squares[i] == Flagged
    ensures var once := ToggleFlag(squares, i, flagsRemaining);
            ToggleFlag(once.0, i, once.1) == (squares, flagsRemaining)
  {
    var once := ToggleFlag(squares, i, flagsRemaining);
    var twice := ToggleFlag(once.0, i, once.1);
    assert twice.0 == squares;
  }
}
