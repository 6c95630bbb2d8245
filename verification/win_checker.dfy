/**
 * The outcome of a game, judged from the current snapshot and the flag counter.
 */
module WinChecker {
  import opened Board

  datatype Outcome = InProgress | Win | Loss

  /**
   * Specification of the outcome: lost as soon as a mine shows; otherwise won
   * exactly when the counter is at zero, wherever the flags were put.
   */
  function Verdict(squares: Snapshot, flagsRemaining: int): Outcome {
    if Mine in squares then Loss
    else if flagsRemaining == 0 then Win
    else InProgress
  }

  /** The scan of `calculateWinner`: stop at the first cell that shows a mine. */
  method CalculateWinner(flagsRemaining: int, squares: Snapshot) returns (r: Outcome)
    ensures r == Verdict(squares, flagsRemaining)
    ensures r == Loss <==> exists k :: 0 <= k < |squares| && squares[k] == Mine
    ensures r == Win <==> (forall k :: 0 <= k < |squares| ==> squares[k] != Mine) && flagsRemaining == 0
    ensures r == InProgress <==> (forall k :: 0 <= k < |squares| ==> squares[k] != Mine) && flagsRemaining != 0
  {
    var i := 0;
    while i < |squares|
      invariant 0 <= i <= |squares|
      invariant forall k :: 0 <= k < i ==> squares[k] != Mine
    {
      if squares[i] == Mine {
        return Loss;
      }
      i := i + 1;
    }
    r := if flagsRemaining != 0 then InProgress else Win;
  }
}
