/**
  The tile of the 4x4 sliding puzzle (the nested class FifteenPuzzle.Tile).

  A tile knows the cell it belongs to when the puzzle is solved (orderedNumber),
  the number it currently shows (currentNumber) and its grid coordinates, which
  the constructor derives from orderedNumber and which never change afterwards.
  The blank cell is the tile whose number is the highest one.
 */
module Tiles {

  /** Side length of the square board; the solvability test needs it even. */
  const GridSize: int := 4

  /** Number of cells on the board, GridSize * GridSize. */
  const BlockCount: int := 16

  /** Absolute value, used to state adjacency as a Manhattan distance. */
  function Abs(n: int): (r: nat)
    ensures r == n || r == -n
  {
    if n < 0 then -n else n
  }

  /** Integer division as C# computes it: the quotient is truncated toward zero. */
  function TruncDiv(a: int, b: int): (r: int)
    requires b > 0
    ensures r * b + TruncRem(a, b) == a
    ensures a >= 0 ==> r >= 0
    ensures a < 0 ==> r <= 0
  {
    if a >= 0 then
      DivRem(a, b);
      a / b
    else
      DivRem(-a, b);
      -((-a) / b)
  }

  lemma {:induction false} DivRem(a: int, b: int)
    requires a >= 0 && b > 0
    ensures (a / b) * b + a % b == a && a / b >= 0
    ensures -(a / b) * b + -(a % b) == -a
  {
  }

  /** The C# remainder operator: it takes the sign of the dividend. */
  function TruncRem(a: int, b: int): (r: int)
    requires b > 0
    ensures a >= 0 ==> 0 <= r < b
    ensures a < 0 ==> -b < r <= 0
  {
    if a >= 0 then a % b else -((-a) % b)
  }

  /** A number shown on a tile marks the blank when it is at least BlockCount - 1. */
  predicate IsEmptyNumber(n: int) {
    n >= BlockCount - 1
  }

  datatype Tile = Tile(orderedNumber: int, currentNumber: int, X: int, Y: int)
  {
    /** Column counted from the right-hand edge. */
    function InvX(): (r: int)
      ensures 0 <= X < GridSize ==> 0 <= r < GridSize
      ensures r == 0 <==> X == GridSize - 1
    {
      (GridSize - 1) - X
    }

    /** Row counted from the bottom edge. */
    function InvY(): (r: int)
      ensures 0 <= Y < GridSize ==> 0 <= r < GridSize
      ensures r == 0 <==> Y == GridSize - 1
    {
      (GridSize - 1) - Y
    }

    /**
      Whether this tile is the blank cell. Among the numbers a board holds,
      0 .. BlockCount - 1, only the last one is blank.
     */
    predicate IsEmpty(): (r: bool)
      ensures 0 <= currentNumber < BlockCount ==> (r <==> currentNumber == BlockCount - 1)
    {
      IsEmptyNumber(currentNumber)
    }

    /**
      Whether this tile shows the number of the cell it occupies in the solved
      puzzle. A tile in its place is the blank exactly when its home is the
      blank's home.
     */
    predicate IsRightPlace(): (r: bool)
      ensures r ==> (IsEmpty() <==> IsEmptyNumber(orderedNumber))
    {
      currentNumber == orderedNumber
    }

    /**
      Whether the two tiles are orthogonal neighbours on the grid. A tile
      compared with itself also counts as near.
     */
    function NearestWith(other: Tile): (r: bool)
      ensures r <==> Abs(X - other.X) + Abs(Y - other.Y) <= 1
    {
      var dx := X - other.X;
      var dy := Y - other.Y;
      if dx == 0 && dy <= 1 && dy >= -1 then true
      else if dy == 0 && dx <= 1 && dx >= -1 then true
      else false
    }
  }

  /** The one-argument constructor: a tile in its home cell. */
  function NewTile(orderedNumber: int): (t: Tile)
    ensures t.orderedNumber == orderedNumber && t.IsRightPlace()
    ensures t.Y * GridSize + t.X == orderedNumber
    ensures orderedNumber >= 0 ==> 0 <= t.X < GridSize
    ensures orderedNumber < 0 ==> -GridSize < t.X <= 0
    ensures 0 <= orderedNumber < BlockCount ==> 0 <= t.Y < GridSize
  {
    Tile(orderedNumber, orderedNumber, TruncRem(orderedNumber, GridSize), TruncDiv(orderedNumber, GridSize))
  }

  /** The two-argument constructor: the coordinates of cell orderedNumber, showing currentNumber. */
  function NewTileWith(orderedNumber: int, currentNumber: int): (t: Tile)
    ensures t.orderedNumber == orderedNumber && t.currentNumber == currentNumber
    ensures t.X == NewTile(orderedNumber).X && t.Y == NewTile(orderedNumber).Y
    ensures t.IsRightPlace() <==> currentNumber == orderedNumber
  {
    NewTile(orderedNumber).(currentNumber := currentNumber)
  }

  /** Adjacency does not depend on which of the two tiles asks. */
  lemma {:induction false} NearestWithSymmetric(t: Tile, u: Tile)
    ensures t.NearestWith(u) == u.NearestWith(t)
  {
  }

  /** A tile is near itself, whatever it shows. */
  lemma {:induction false} NearestWithSelf(t: Tile)
    ensures t.NearestWith(t)
  {
  }

  /**
    Tiles of two distinct cells are near exactly when one coordinate differs
    by one and the other not at all: never diagonally, never farther away.
   */
  lemma {:induction false} NearestWithDistinctCells(p: int, q: int)
    requires 0 <= p < BlockCount && 0 <= q < BlockCount && p != q
    ensures NewTile(p).NearestWith(NewTile(q)) <==>
      (Abs(NewTile(p).X - NewTile(q).X) == 1 && NewTile(p).Y == NewTile(q).Y) ||
      (NewTile(p).X == NewTile(q).X && Abs(NewTile(p).Y - NewTile(q).Y) == 1)
  {
  }

  /**
    The same adjacency in terms of cell indices: the cell itself, the left or
    right neighbour within the same row, or the cell directly above or below.
   */
  lemma {:induction false} NearestWithCells(p: int, q: int)
    requires 0 <= p && 0 <= q
    ensures NewTile(p).NearestWith(NewTile(q)) <==>
      p == q ||
      (q == p + 1 && p % GridSize != GridSize - 1) ||
      (p == q + 1 && q % GridSize != GridSize - 1) ||
      q == p + GridSize || p == q + GridSize
  {
    var tp, tq := NewTile(p), NewTile(q);
    assert tp.X == p % 4 && tp.Y == p / 4;
    assert tq.X == q % 4 && tq.Y == q / 4;
  }
}
