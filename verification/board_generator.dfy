/**
 * Board generation: the mine layout, drawn by rejection sampling from an injected
 * sequence of random draws, and the proximity map derived from it.
 */
module BoardGenerator {
  import opened Wrappers
  import opened Board

  /** `Math.floor(Math.random() * 479)` draws from 0..478: the source's draw range. */
  const SourceDrawRange: nat := 479
  /** The corrected draw range, covering every cell 0..479. */
  const DrawRange: nat := Cells

  predicate NoDuplicates(s: seq<int>) {
    forall p, q :: 0 <= p < q < |s| ==> s[p] != s[q]
  }

  /** Every draw lies in 0..range-1, as the random source promises. */
  predicate DrawsWithin(draws: seq<int>, range: int) {
    forall k :: 0 <= k < |draws| ==> 0 <= draws[k] < range
  }

  /** A mine list as the constructor leaves it: 99 distinct cells of the board. */
  predicate ValidPlacement(placed: seq<int>) {
    && |placed| == MineCount
    && NoDuplicates(placed)
    && forall k :: 0 <= k < |placed| ==> ValidIndex(placed[k])
  }

  function Elements(s: seq<int>): set<int> {
    set x | x in s
  }

  /**
   * The values of `s` in the order they first occur: what the rejection loop
   * keeps when it is fed `s` and never stops early.
   */
  function FirstOccurrences(s: seq<int>): (d: seq<int>)
    ensures NoDuplicates(d)
    ensures forall x :: x in d <==> x in s
    ensures |d| <= |s|
    decreases |s|
  {
    if |s| == 0 then []
    else
      var init := s[..|s| - 1];
      var d := FirstOccurrences(init);
      assert forall x :: x in s <==> x in init || x == s[|s| - 1] by {
        assert s == init + [s[|s| - 1]];
      }
      if s[|s| - 1] in d then d else d + [s[|s| - 1]]
  }

  /** Feeding more draws only extends the list of first occurrences. */
  lemma {:induction false} FirstOccurrencesPrefix(s: seq<int>, k: nat)
    requires k <= |s|
    ensures FirstOccurrences(s[..k]) <= FirstOccurrences(s)
    decreases |s| - k
  {
    if k == |s| {
      assert s[..k] == s;
    } else {
      var init := s[..|s| - 1];
      assert init[..k] == s[..k];
      FirstOccurrencesPrefix(init, k);
    }
  }

  /** A sequence without repeats is its own list of first occurrences. */
  lemma {:induction false} FirstOccurrencesOfDistinct(s: seq<int>)
    requires NoDuplicates(s)
    ensures FirstOccurrences(s) == s
    decreases |s|
  {
    if |s| > 0 {
      var init := s[..|s| - 1];
      FirstOccurrencesOfDistinct(init);
      assert s[|s| - 1] !in init;
      assert init + [s[|s| - 1]] == s;
    }
  }

  /** A list without repeats has as many distinct elements as entries. */
  lemma {:induction false} DistinctElementsCount(s: seq<int>)
    requires NoDuplicates(s)
    ensures |Elements(s)| == |s|
    decreases |s|
  {
    if |s| > 0 {
      var init := s[..|s| - 1];
      DistinctElementsCount(init);
      assert s[|s| - 1] !in Elements(init);
      assert Elements(s) == Elements(init) + {s[|s| - 1]} by {
        assert s == init + [s[|s| - 1]];
      }
    }
  }

  /**
   * Reference definition of the mine list: the first 99 distinct values among the
   * draws, in draw order, or None when the draws run out before 99 are found.
   */
  function MineLayout(draws: seq<int>): (r: Option<seq<int>>)
    ensures r.Some? ==> |r.value| == MineCount && NoDuplicates(r.value)
    ensures r.Some? ==> forall k :: 0 <= k < |r.value| ==> r.value[k] in draws
    ensures r.None? <==> |Elements(draws)| < MineCount
  {
    var d := FirstOccurrences(draws);
    FirstOccurrencesOfDistinct(d);
    DistinctElementsCount(d);
    assert Elements(d) == Elements(draws);
    if |d| >= MineCount then Some(d[..MineCount]) else None
  }

  /**
   * The rejection-sampling loop of the constructor: take the next draw, keep it
   * unless it was already chosen, stop once 99 mines are chosen. Running out of
   * draws stands for a sampler that never finishes and yields None.
   */
  method PlaceMines(draws: seq<int>, range: nat) returns (r: Option<seq<int>>)
    requires MineCount <= range <= Cells
    requires DrawsWithin(draws, range)
    ensures r == MineLayout(draws)
    ensures r.Some? ==> |r.value| == MineCount && NoDuplicates(r.value)
    ensures r.Some? ==> forall k :: 0 <= k < |r.value| ==> 0 <= r.value[k] < range
  {
    var mines: seq<int> := [];
    var k := 0;
    while |mines| != MineCount && k < |draws|
      invariant 0 <= k <= |draws|
      invariant mines == FirstOccurrences(draws[..k])
      invariant |mines| <= MineCount
    {
      var rand := draws[k];
      assert draws[..k + 1] == draws[..k] + [rand];
      if rand !in mines {
        mines := mines + [rand];
      }
      k := k + 1;
    }
    FirstOccurrencesPrefix(draws, k);
    var d := FirstOccurrences(draws);
    if |mines| == MineCount {
      assert d[..MineCount] == mines;
      r := Some(mines);
    } else {
      assert draws[..k] == draws;
      r := None;
    }
    assert r == (if |d| >= MineCount then Some(d[..MineCount]) else None);
  }

  /** With the source's draw range the last cell, index 479, never holds a mine. */
  lemma AsWrittenLastCellNeverMined(draws: seq<int>)
    requires DrawsWithin(draws, SourceDrawRange)
    ensures MineLayout(draws).Some? ==> Cells - 1 !in MineLayout(draws).value
  {
  }

  /** With the corrected draw range every cell of the board can receive a mine. */
  lemma EveryCellCanBeMined(c: int)
    requires ValidIndex(c)
    ensures exists draws :: DrawsWithin(draws, DrawRange) && MineLayout(draws).Some? && c in MineLayout(draws).value
  {
    var rest := seq(MineCount - 1, k => if k < c then k else k + 1);
    var draws := [c] + rest;
    assert NoDuplicates(draws);
    FirstOccurrencesOfDistinct(draws);
    assert FirstOccurrences(draws)[..MineCount] == draws;
    assert draws[0] == c;
    assert DrawsWithin(draws, DrawRange) && MineLayout(draws).Some? && c in MineLayout(draws).value;
  }

  /** The mine cells the reference neighbourhood of `i` contains. */
  ghost function MinedNeighbours(mines: set<int>, i: int): set<int> {
    set j | 0 <= j < Cells && Adjacent(i, j) && j in mines
  }

  /** One of the constructor's eight checks: 1 when the guard holds and `x` is a mine. */
  function Hit(guard: bool, x: int, mines: set<int>): nat {
    if guard && x in mines then 1 else 0
  }

  /**
   * The constructor's count of mines around a non-mine cell: the cells above
   * only when not in the top row, the cells below only when not in the bottom
   * row, and no left (right) neighbours for a cell in the left (right) column.
   */
  function ProximityCount(mines: set<int>, i: int): (n: nat)
    requires ValidIndex(i)
    ensures n <= 8
  {
    var above := i - Cols;
    var below := i + Cols;
    var leftEdge := LeftEdge(i);
    var rightEdge := RightEdge(i);
    Hit(above >= 0 && !leftEdge, above - 1, mines)
    + Hit(above >= 0, above, mines)
    + Hit(above >= 0 && !rightEdge, above + 1, mines)
    + Hit(!leftEdge, i - 1, mines)
    + Hit(!rightEdge, i + 1, mines)
    + Hit(below <= Cells - 1 && !leftEdge, below - 1, mines)
    + Hit(below <= Cells - 1, below, mines)
    + Hit(below <= Cells - 1 && !rightEdge, below + 1, mines)
  }

  /** Adds `x` to `s` when it is a guarded mine cell. */
  function AddIfMined(s: set<int>, guard: bool, x: int, mines: set<int>): (r: set<int>)
    ensures forall y :: y in r <==> y in s || (guard && x in mines && y == x)
  {
    if guard && x in mines then s + {x} else s
  }

  lemma AddIfMinedCount(s: set<int>, guard: bool, x: int, mines: set<int>)
    requires x !in s
    ensures |AddIfMined(s, guard, x, mines)| == |s| + Hit(guard, x, mines)
  {
  }

  /** The mine cells among the eight guarded cells the constructor inspects. */
  function GuardedMines(mines: set<int>, i: int): set<int> {
    GuardedFrom(mines, i, i - Cols >= 0, i + Cols <= Cells - 1, !LeftEdge(i), !RightEdge(i))
  }

  /** The eight checks added one after another, in the constructor's order. */
  function GuardedFrom(mines: set<int>, i: int, up: bool, down: bool, l: bool, r: bool): set<int> {
    var a, b := i - Cols, i + Cols;
    var s1 := AddIfMined({}, up && l, a - 1, mines);
    var s2 := AddIfMined(s1, up, a, mines);
    var s3 := AddIfMined(s2, up && r, a + 1, mines);
    var s4 := AddIfMined(s3, l, i - 1, mines);
    var s5 := AddIfMined(s4, r, i + 1, mines);
    var s6 := AddIfMined(s5, down && l, b - 1, mines);
    var s7 := AddIfMined(s6, down, b, mines);
    AddIfMined(s7, down && r, b + 1, mines)
  }

  /** The eight candidate cells are distinct, so each mine found adds one cell. */
  lemma GuardedFromSize(mines: set<int>, i: int, up: bool, down: bool, l: bool, r: bool)
    ensures |GuardedFrom(mines, i, up, down, l, r)| ==
              Hit(up && l, i - Cols - 1, mines) + Hit(up, i - Cols, mines) + Hit(up && r, i - Cols + 1, mines)
              + Hit(l, i - 1, mines) + Hit(r, i + 1, mines)
              + Hit(down && l, i + Cols - 1, mines) + Hit(down, i + Cols, mines) + Hit(down && r, i + Cols + 1, mines)
  {
    var a, b := i - Cols, i + Cols;
    var s0: set<int> := {};
    AddIfMinedCount(s0, up && l, a - 1, mines);
    var s1 := AddIfMined(s0, up && l, a - 1, mines);
    assert a !in s1;
    AddIfMinedCount(s1, up, a, mines);
    var s2 := AddIfMined(s1, up, a, mines);
    assert a + 1 !in s2;
    AddIfMinedCount(s2, up && r, a + 1, mines);
    var s3 := AddIfMined(s2, up && r, a + 1, mines);
    assert i - 1 !in s3;
    AddIfMinedCount(s3, l, i - 1, mines);
    var s4 := AddIfMined(s3, l, i - 1, mines);
    assert i + 1 !in s4;
    AddIfMinedCount(s4, r, i + 1, mines);
    var s5 := AddIfMined(s4, r, i + 1, mines);
    assert b - 1 !in s5;
    AddIfMinedCount(s5, down && l, b - 1, mines);
    var s6 := AddIfMined(s5, down && l, b - 1, mines);
    assert b !in s6;
    AddIfMinedCount(s6, down, b, mines);
    var s7 := AddIfMined(s6, down, b, mines);
    assert b + 1 !in s7;
    AddIfMinedCount(s7, down && r, b + 1, mines);
    assert GuardedFrom(mines, i, up, down, l, r) == AddIfMined(s7, down && r, b + 1, mines);
  }

  /** The guarded mine cells are as many as the constructor counts. */
  lemma GuardedMinesCount(mines: set<int>, i: int)
    requires ValidIndex(i)
    ensures |GuardedMines(mines, i)| == ProximityCount(mines, i)
  {
    GuardedFromSize(mines, i, i - Cols >= 0, i + Cols <= Cells - 1, !LeftEdge(i), !RightEdge(i));
  }

  /** A cell is among the guarded mines when it is a mine one of the eight guards admits. */
  lemma GuardedMinesMember(mines: set<int>, i: int, j: int)
    requires ValidIndex(i)
    ensures j in GuardedMines(mines, i) <==>
              j in mines &&
              (|| (i - Cols >= 0 && !LeftEdge(i) && j == i - Cols - 1)
               || (i - Cols >= 0 && j == i - Cols)
               || (i - Cols >= 0 && !RightEdge(i) && j == i - Cols + 1)
               || (!LeftEdge(i) && j == i - 1)
               || (!RightEdge(i) && j == i + 1)
               || (i + Cols <= Cells - 1 && !LeftEdge(i) && j == i + Cols - 1)
               || (i + Cols <= Cells - 1 && j == i + Cols)
               || (i + Cols <= Cells - 1 && !RightEdge(i) && j == i + Cols + 1))
  {
    var a, b := i - Cols, i + Cols;
    var up, down := a >= 0, b <= Cells - 1;
    var l, r := !LeftEdge(i), !RightEdge(i);
    var s1 := AddIfMined({}, up && l, a - 1, mines);
    var s2 := AddIfMined(s1, up, a, mines);
    var s3 := AddIfMined(s2, up && r, a + 1, mines);
    var s4 := AddIfMined(s3, l, i - 1, mines);
    var s5 := AddIfMined(s4, r, i + 1, mines);
    var s6 := AddIfMined(s5, down && l, b - 1, mines);
    var s7 := AddIfMined(s6, down, b, mines);
    var s8 := AddIfMined(s7, down && r, b + 1, mines);
    assert j in GuardedMines(mines, i) <==> j in s8;
    assert j in s8 <==> j in s7 || (down && r && b + 1 in mines && j == b + 1);
    assert j in s7 <==> j in s6 || (down && b in mines && j == b);
    assert j in s6 <==> j in s5 || (down && l && b - 1 in mines && j == b - 1);
    assert j in s5 <==> j in s4 || (r && i + 1 in mines && j == i + 1);
    assert j in s4 <==> j in s3 || (l && i - 1 in mines && j == i - 1);
    assert j in s3 <==> j in s2 || (up && r && a + 1 in mines && j == a + 1);
    assert j in s2 <==> j in s1 || (up && a in mines && j == a);
    assert j in s1 <==> up && l && a - 1 in mines && j == a - 1;
  }

  /** The guarded cells that hold mines are exactly the mined neighbours. */
  lemma GuardedMinesAreMinedNeighbours(mines: set<int>, i: int)
    requires ValidIndex(i)
    ensures GuardedMines(mines, i) == MinedNeighbours(mines, i)
  {
    forall j
      ensures j in GuardedMines(mines, i) <==> j in MinedNeighbours(mines, i)
    {
      AdjacentIffGuardedOffset(i, j);
      GuardedMinesMember(mines, i, j);
    }
  }

  /** The source's eight-way count is the number of mines adjacent to the cell. */
  lemma ProximityCountIsNeighbourCount(mines: set<int>, i: int)
    requires ValidIndex(i)
    ensures ProximityCount(mines, i) == |MinedNeighbours(mines, i)|
  {
    GuardedMinesCount(mines, i);
    GuardedMinesAreMinedNeighbours(mines, i);
  }

  /**
   * The proximity map of a mine set: no value (`null` in the source) on a mine,
   * the proximity count on every other cell.
   */
  function ProximityMap(mines: set<int>): (prox: seq<Option<nat>>)
    ensures |prox| == Cells
    ensures forall i :: 0 <= i < Cells ==> (prox[i].None? <==> i in mines)
    ensures forall i :: 0 <= i < Cells && prox[i].Some? ==> prox[i].value <= 8
  {
    seq(Cells, i => if 0 <= i < Cells && i !in mines then Some(ProximityCount(mines, i)) else None)
  }

  /** Every non-mine cell's proximity value is the number of mines adjacent to it. */
  lemma ProximityMapCountsNeighbours(mines: set<int>)
    ensures forall i :: 0 <= i < Cells && i !in mines ==>
                          ProximityMap(mines)[i] == Some(|MinedNeighbours(mines, i)|)
  {
    forall i | 0 <= i < Cells && i !in mines
      ensures ProximityMap(mines)[i] == Some(|MinedNeighbours(mines, i)|)
    {
      ProximityCountIsNeighbourCount(mines, i);
    }
  }
}
