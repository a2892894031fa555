/** A maze walker: a read-only map from cells (x, y) to the four flags
    [left, right, up, down] that say which ways are open, and a current
    position that each move changes by one step when the way is open. */
module Mazes {
  import opened Exceptions
  import opened Text

  type Cell = (int, int)

  datatype Direction = Left | Right | Up | Down

  /** Where a direction's flag sits in a cell's flag array. */
  function FlagIndex(d: Direction): nat {
    match d
    case Left => 0
    case Right => 1
    case Up => 2
    case Down => 3
  }

  /** The way back. */
  function Opposite(d: Direction): Direction {
    match d
    case Left => Right
    case Right => Left
    case Up => Down
    case Down => Up
  }

  /** The cell one step from `pos` in direction `d`: left and right change
      x, up and down change y, with up towards smaller y. */
  function Neighbour(pos: Cell, d: Direction): Cell {
    match d
    case Left => (pos.0 - 1, pos.1)
    case Right => (pos.0 + 1, pos.1)
    case Up => (pos.0, pos.1 - 1)
    case Down => (pos.0, pos.1 + 1)
  }

  /** Cells side by side: one coordinate equal, the other one apart. */
  predicate Adjacent(a: Cell, b: Cell) {
    || (a.0 == b.0 && (a.1 == b.1 - 1 || a.1 == b.1 + 1))
    || (a.1 == b.1 && (a.0 == b.0 - 1 || a.0 == b.0 + 1))
  }

  /** What one attempted move from `pos` gives: the cell reached, or the
      exception the lookup throws (no entry for the cell, a flag array too
      short for the direction, or a wall). */
  function Step(maze: map<Cell, seq<bool>>, pos: Cell, d: Direction): (r: Result<Cell>)
    ensures r.Success? <==> pos in maze && FlagIndex(d) < |maze[pos]| && maze[pos][FlagIndex(d)]
    ensures r.Success? ==> Adjacent(pos, r.value)
    ensures pos !in maze ==> r == Failure(KeyNotFound)
    ensures pos in maze && FlagIndex(d) >= |maze[pos]| ==> r == Failure(IndexOutOfRange)
    ensures pos in maze && FlagIndex(d) < |maze[pos]| && !maze[pos][FlagIndex(d)] ==>
      r == Failure(InvalidOperation("Can't go that way!"))
  {
    if pos !in maze then Failure(KeyNotFound)
    else if FlagIndex(d) >= |maze[pos]| then Failure(IndexOutOfRange)
    else if !maze[pos][FlagIndex(d)] then Failure(InvalidOperation("Can't go that way!"))
    else Success(Neighbour(pos, d))
  }

  /** Moving back the opposite way, when that is open too, returns to the
      cell the first move started from. */
  lemma StepBack(maze: map<Cell, seq<bool>>, pos: Cell, d: Direction)
    requires Step(maze, pos, d).Success?
    requires Step(maze, Step(maze, pos, d).value, Opposite(d)).Success?
    ensures Step(maze, Step(maze, pos, d).value, Opposite(d)) == Success(pos)
  {
    match d
    case Left =>
    case Right =>
    case Up =>
    case Down =>
  }

  /** The status line for position (x, y). */
  function StatusText(x: int, y: int): string {
    "Current location (x=" + IntToString(x) + ", y=" + IntToString(y) + ")"
  }

  /** Text without a comma followed by text starting with one splits in
      only one way at that comma. */
  lemma SplitAtComma(a1: string, r1: string, a2: string, r2: string)
    requires forall k :: 0 <= k < |a1| ==> a1[k] != ','
    requires forall k :: 0 <= k < |a2| ==> a2[k] != ','
    requires r1 != [] && r1[0] == ',' && r2 != [] && r2[0] == ','
    requires a1 + r1 == a2 + r2
    ensures a1 == a2 && r1 == r2
  {
    var s := a1 + r1;
    assert forall k :: 0 <= k < |a1| ==> s[k] == a1[k];
    assert forall k :: 0 <= k < |a2| ==> s[k] == a2[k];
    assert s[|a1|] == ',' && s[|a2|] == ',';
    assert |a1| == |a2|;
    assert a1 == s[..|a1|] == a2;
    assert r1 == s[|a1|..] == r2;
  }

  /** The status line is the fixed prefix followed by the x numeral and the
      rest of the line. */
  lemma StatusTextShape(x: int, y: int)
    ensures StatusText(x, y)[..20] == "Current location (x="
    ensures StatusText(x, y)[20..] == IntToString(x) + (", y=" + IntToString(y) + ")")
  {
    var a, r := IntToString(x), ", y=" + IntToString(y) + ")";
    assert StatusText(x, y) == "Current location (x=" + (a + r);
  }

  /** The same text between ", y=" and ")" is the same numeral. */
  lemma YPartInjective(b1: string, b2: string)
    requires ", y=" + b1 + ")" == ", y=" + b2 + ")"
    ensures b1 == b2
  {
    var r1, r2 := ", y=" + b1 + ")", ", y=" + b2 + ")";
    assert |b1| == |b2|;
    assert forall k :: 0 <= k < |b1| ==> b1[k] == r1[4 + k] == r2[4 + k] == b2[k];
  }

  /** The status line names the position: two positions with the same status
      line are the same position. */
  lemma StatusTextInjective(x1: int, y1: int, x2: int, y2: int)
    requires StatusText(x1, y1) == StatusText(x2, y2)
    ensures x1 == x2 && y1 == y2
  {
    var a1, b1, a2, b2 := IntToString(x1), IntToString(y1), IntToString(x2), IntToString(y2);
    StatusTextShape(x1, y1);
    StatusTextShape(x2, y2);
    IntToStringNoSeparator(x1);
    IntToStringNoSeparator(x2);
    SplitAtComma(a1, ", y=" + b1 + ")", a2, ", y=" + b2 + ")");
    YPartInjective(b1, b2);
    IntToStringInjective(x1, x2);
    IntToStringInjective(y1, y2);
  }

  /** What a move method reports: nothing, or the exception it throws. */
  function OutcomeOf(r: Result<Cell>): Outcome {
    if r.Success? then Pass else Fail(r.error)
  }

  class Maze {
    /** The cells and their open directions; never changed. */
    const mazeMap: map<Cell, seq<bool>>
    var currX: int
    var currY: int

    /** A maze over `mazeMap`, entered at (1, 1). */
    constructor (mazeMap: map<Cell, seq<bool>>)
      ensures this.mazeMap == mazeMap
      ensures currX == 1 && currY == 1
    {
      this.mazeMap := mazeMap;
      currX := 1;
      currY := 1;
    }

    function Position(): Cell
      reads this
    {
      (currX, currY)
    }

    /** Steps left (x - 1) if the left flag of the current cell is set. */
    method MoveLeft() returns (o: Outcome)
      modifies this
      ensures o == OutcomeOf(Step(mazeMap, old(Position()), Left))
      ensures o.Pass? ==> currX == old(currX) - 1 && currY == old(currY)
      ensures o.Fail? ==> currX == old(currX) && currY == old(currY)
    {
      var currentPosition := (currX, currY);
      if currentPosition !in mazeMap {
        return Fail(KeyNotFound);
      }
      var flags := mazeMap[currentPosition];
      if |flags| <= 0 {
        return Fail(IndexOutOfRange);
      }
      if !flags[0] {
        return Fail(InvalidOperation("Can't go that way!"));
      }
      currX := currX - 1;
      return Pass;
    }

    /** Steps right (x + 1) if the right flag of the current cell is set. */
    method MoveRight() returns (o: Outcome)
      modifies this
      ensures o == OutcomeOf(Step(mazeMap, old(Position()), Right))
      ensures o.Pass? ==> currX == old(currX) + 1 && currY == old(currY)
      ensures o.Fail? ==> currX == old(currX) && currY == old(currY)
    {
      var currentPosition := (currX, currY);
      if currentPosition !in mazeMap {
        return Fail(KeyNotFound);
      }
      var flags := mazeMap[currentPosition];
      if |flags| <= 1 {
        return Fail(IndexOutOfRange);
      }
      if !flags[1] {
        return Fail(InvalidOperation("Can't go that way!"));
      }
      currX := currX + 1;
      return Pass;
    }

    /** Steps up (y - 1) if the up flag of the current cell is set. */
    method MoveUp() returns (o: Outcome)
      modifies this
      ensures o == OutcomeOf(Step(mazeMap, old(Position()), Up))
      ensures o.Pass? ==> currX == old(currX) && currY == old(currY) - 1
      ensures o.Fail? ==> currX == old(currX) && currY == old(currY)
    {
      var currentPosition := (currX, currY);
      if currentPosition !in mazeMap {
        return Fail(KeyNotFound);
      }
      var flags := mazeMap[currentPosition];
      if |flags| <= 2 {
        return Fail(IndexOutOfRange);
      }
      if !flags[2] {
        return Fail(InvalidOperation("Can't go that way!"));
      }
      currY := currY - 1;
      return Pass;
    }

    /** Steps down (y + 1) if the down flag of the current cell is set. */
    method MoveDown() returns (o: Outcome)
      modifies this
      ensures o == OutcomeOf(Step(mazeMap, old(Position()), Down))
      ensures o.Pass? ==> currX == old(currX) && currY == old(currY) + 1
      ensures o.Fail? ==> currX == old(currX) && currY == old(currY)
    {
      var currentPosition := (currX, currY);
      if currentPosition !in mazeMap {
        return Fail(KeyNotFound);
      }
      var flags := mazeMap[currentPosition];
      if |flags| <= 3 {
        return Fail(IndexOutOfRange);
      }
      if !flags[3] {
        return Fail(InvalidOperation("Can't go that way!"));
      }
      currY := currY + 1;
      return Pass;
    }

    /** The status line of the current position; it names that position
        and no other. */
    function GetStatus(): (s: string)
      reads this
      ensures s == StatusText(currX, currY)
      ensures forall x, y :: StatusText(x, y) == s ==> x == currX && y == currY
    {
      StatusTextNames(currX, currY);
      StatusText(currX, currY)
    }
  }

  /** No other position has the status line of (x, y). */
  lemma StatusTextNames(x: int, y: int)
    ensures forall x', y' :: StatusText(x', y') == StatusText(x, y) ==> x' == x && y' == y
  {
    forall x', y' | StatusText(x', y') == StatusText(x, y)
      ensures x' == x && y' == y
    {
      StatusTextInjective(x', y', x, y);
    }
  }

  /** A walk along a corridor: right from (1, 1) to (2, 1), a wall above,
      right again onto (3, 1), which has no entry, so the next move throws
      on the lookup. */
  method WalkExample() returns (o1: Outcome, o2: Outcome, o3: Outcome, o4: Outcome)
    ensures o1 == Pass
    ensures o2 == Fail(InvalidOperation("Can't go that way!"))
    ensures o3 == Pass
    ensures o4 == Fail(KeyNotFound)
  {
    var maze := new Maze(map[(1, 1) := [false, true, false, false], (2, 1) := [true, true, false, false]]);
    o1 := maze.MoveRight();
    o2 := maze.MoveUp();
    o3 := maze.MoveRight();
    o4 := maze.MoveLeft();
  }
}
