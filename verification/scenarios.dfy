/**
 * End-to-end runs of a fresh game: the handlers composed with the outcome check,
 * for any mine placement the constructor can produce.
 */
module Scenarios {
  import opened Board
  import opened BoardGenerator
  import opened MoveProcessor
  import opened GameState
  import opened WinChecker

  /**
   * Flagging cell 5 of a fresh game takes the counter to 98 with the game still in
   * progress; unflagging it brings back the counter of 99 and the hidden cell.
   */
  lemma FlagAndUnflagFreshGame(placed: seq<int>)
    requires ValidPlacement(placed)
    ensures var g0 := NewGame(placed);
            var g1 := HandleRightClick(g0, 5);
            var g2 := HandleRightClick(g1, 5);
            && g1.flagsRemaining == 98 && Current(g1)[5] == Flagged
            && Verdict(Current(g1), g1.flagsRemaining) == InProgress
            && g2.flagsRemaining == 99 && Current(g2)[5] == Hidden
            && Current(g2) == Current(g0)
  {
    var g0 := NewGame(placed);
    var g1 := HandleRightClick(g0, 5);
    assert Current(g1) == AllHidden()[5 := Flagged];
    assert Mine !in Current(g1);
    RightClickTwiceRestores(g0, 5);
  }

  /**
   * Revealing a cell that is not a mine in a fresh game shows its count of
   * adjacent mines and leaves the game in progress with 99 flags.
   */
  lemma RevealSafeCellOfFreshGame(placed: seq<int>, i: int)
    requires ValidPlacement(placed) && ValidIndex(i) && i !in placed
    ensures var g1 := HandleClick(NewGame(placed), i);
            && Current(g1)[i] == Count(|MinedNeighbours(Elements(placed), i)|)
            && g1.flagsRemaining == 99
            && Verdict(Current(g1), g1.flagsRemaining) == InProgress
  {
    var g0 := NewGame(placed);
    var g1 := HandleClick(g0, i);
    assert Current(g1) == AllHidden()[i := Count(|MinedNeighbours(Elements(placed), i)|)];
    assert Mine !in Current(g1);
  }

  /**
   * Revealing a mine in a fresh game lays the whole board open, shows exactly the
   * 99 mines and loses the game.
   */
  lemma RevealMineOfFreshGame(placed: seq<int>, i: int)
    requires ValidPlacement(placed) && i in placed
    ensures var g1 := HandleClick(NewGame(placed), i);
            && ShowsWholeBoard(Current(g1), Elements(placed))
            && |MineCells(Current(g1))| == MineCount
            && Verdict(Current(g1), g1.flagsRemaining) == Loss
  {
    var g0 := NewGame(placed);
    var g1 := HandleClick(g0, i);
    assert ValidIndex(i);
    assert Current(g1)[i] == Mine;
    DisclosureShowsWholeBoard(Current(g0), g0.mines);
  }
}
