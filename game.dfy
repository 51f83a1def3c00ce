/**
  The game controller (class FifteenPuzzle): a board of BlockCount cells that
  it changes in place, the move counter, and whether the tiles accept clicks.

  The sixteen buttons are enabled and disabled together, so one flag stands
  for their Enabled property: it is false before the first shuffle and after
  a win, true while a game is played.
 */
module Game {
  import opened Tiles
  import opened Board
  import opened Moves

  datatype Option<T> = None | Some(value: T)

  /**
    One shuffle pass's random picks: pick[i] is the partner of cell i, drawn
    from [i, BlockCount). The last cell can only draw itself.
   */
  predicate IsPassPicks(pick: seq<int>): (r: bool)
    ensures r ==> |pick| == BlockCount && pick[BlockCount - 1] == BlockCount - 1
  {
    |pick| == BlockCount && forall i :: 0 <= i < BlockCount ==> i <= pick[i] < BlockCount
  }

  /** The board after the first n swaps of a shuffle pass: cell i is swapped with cell pick[i]. */
  function ShuffleSteps(s: seq<int>, pick: seq<int>, n: int): (r: seq<int>)
    requires |s| == BlockCount && IsPassPicks(pick) && 0 <= n <= BlockCount
    ensures |r| == BlockCount
    ensures IsPermutation(s) ==> IsPermutation(r)
  {
    if n == 0 then s else Swapped(ShuffleSteps(s, pick, n - 1), pick[n - 1], n - 1)
  }

  /** The board after the first n whole shuffle passes. */
  function ShuffleFirst(s: seq<int>, passes: seq<seq<int>>, n: int): (r: seq<int>)
    requires |s| == BlockCount && forall k :: 0 <= k < |passes| ==> IsPassPicks(passes[k])
    requires 0 <= n <= |passes|
    ensures |r| == BlockCount
    ensures IsPermutation(s) ==> IsPermutation(r)
  {
    if n == 0 then s else ShuffleSteps(ShuffleFirst(s, passes, n - 1), passes[n - 1], BlockCount)
  }

  /** A pass whose picks are all i - every cell swapped with itself - leaves the board as it was. */
  lemma {:induction false} IdentityPickKeepsBoard(s: seq<int>, pick: seq<int>, n: int)
    requires |s| == BlockCount && IsPassPicks(pick) && 0 <= n <= BlockCount
    requires forall i :: 0 <= i < BlockCount ==> pick[i] == i
    ensures ShuffleSteps(s, pick, n) == s
  {
    if n > 0 {
      IdentityPickKeepsBoard(s, pick, n - 1);
      SwapSameCell(s, n - 1);
    }
  }

  class FifteenPuzzle {
    /** board[p] is the number shown by the tile whose home cell is p. */
    const board: array<int>
    var moveCount: int
    var enabled: bool

    ghost predicate Valid()
      reads this, board
    {
      board.Length == BlockCount && IsPermutation(board[..])
    }

    /** The tile at cell p. */
    function TileAt(p: int): (t: Tile)
      reads this, board
      requires 0 <= p < board.Length
      ensures t == TileOf(board[..], p)
    {
      NewTileWith(p, board[p])
    }

    /** The board as the window builds it: every tile in its home cell, no move made, input locked. */
    constructor ()
      ensures Valid() && fresh(board)
      ensures board[..] == Ordered() && Solved(board[..])
      ensures moveCount == 0 && !enabled
    {
      board := new int[BlockCount];
      moveCount := 0;
      enabled := false;
      new;
      for i := 0 to BlockCount
        invariant moveCount == 0 && !enabled
        invariant forall k :: 0 <= k < i ==> board[k] == k
      {
        board[i] := i;
      }
      assert board[..] == Ordered();
      OrderedIsSolvedPermutation();
    }

    /** Exchanges the numbers shown at cells p and q; nothing happens when p == q. */
    method SwapTiles(p: int, q: int)
      requires Valid() && 0 <= p < BlockCount && 0 <= q < BlockCount
      modifies board
      ensures Valid()
      ensures board[..] == Swapped(old(board[..]), p, q)
    {
      if p == q {
        SwapSameCell(board[..], p);
        return;
      }
      var g := board[p];
      board[p] := board[q];
      board[q] := g;
      assert board[..] == Swapped(old(board[..]), p, q);
    }

    /** The search for the blank: the first cell whose tile is empty. */
    method FindEmpty() returns (k: int)
      requires Valid()
      ensures 0 <= k < BlockCount && TileAt(k).IsEmpty()
      ensures forall i :: 0 <= i < BlockCount ==> (TileAt(i).IsEmpty() <==> i == k)
      ensures k == FirstEmpty(board[..])
    {
      ghost var s := board[..];
      k := 0;
      while !TileAt(k).IsEmpty()
        invariant 0 <= k <= FirstEmpty(s)
        invariant forall i :: 0 <= i < k ==> !IsEmptyNumber(board[i])
        decreases BlockCount - k
      {
        k := k + 1;
      }
      forall i | 0 <= i < BlockCount ensures TileAt(i).IsEmpty() <==> i == k {
        EmptyIsUnique(s, i);
      }
    }

    /** The search for a tile out of its place: the first such cell, or none on a won board. */
    method FindMisplaced() returns (r: Option<int>)
      requires Valid()
      ensures r.None? <==> Solved(board[..])
      ensures r.Some? ==> 0 <= r.value < BlockCount && !TileAt(r.value).IsRightPlace()
      ensures r.Some? ==> forall i :: 0 <= i < r.value ==> TileAt(i).IsRightPlace()
    {
      var i := 0;
      while i < BlockCount
        invariant 0 <= i <= BlockCount
        invariant forall j :: 0 <= j < i ==> TileOf(board[..], j).IsRightPlace()
      {
        if !TileAt(i).IsRightPlace() {
          return Some(i);
        }
        i := i + 1;
      }
      return None;
    }

    /**
      The win check: the result says whether every tile is in its place, and a
      won game locks the tiles. The elapsed time and the message shown on a
      win are not modelled; the result stands for that notice.
     */
    method CheckWin() returns (hasWon: bool)
      requires Valid()
      modifies this
      ensures Valid() && board[..] == old(board[..])
      ensures hasWon == Solved(board[..]) && hasWon == (board[..] == Ordered())
      ensures enabled == (old(enabled) && !hasWon)
      ensures moveCount == old(moveCount)
      ensures old(enabled ==> Solvable(board[..])) ==> (enabled ==> Solvable(board[..]))
    {
      var wrongTile := FindMisplaced();
      hasWon := wrongTile.None?;
      SolvedIffOrdered(board[..]);
      if hasWon {
        enabled := false;
      }
    }

    /**
      A click on cell p: the tile there trades places with the blank when the
      two are near, and the move is counted. The win check follows every
      click, accepted or not.
     */
    method MovePuzzle(p: int)
      requires Valid() && 0 <= p < BlockCount
      modifies this, board
      ensures Valid()
      ensures board[..] == MoveResult(old(board[..]), p)
      ensures moveCount == old(moveCount) + (if MoveAccepted(old(board[..]), p) then 1 else 0)
      ensures enabled == (old(enabled) && !Solved(board[..]))
      ensures Solvable(board[..]) == old(Solvable(board[..]))
      ensures old(enabled ==> Solvable(board[..])) ==> (enabled ==> Solvable(board[..]))
    {
      var blank := FindEmpty();
      if TileAt(p).NearestWith(TileAt(blank)) {
        SwapTiles(p, blank);
        moveCount := moveCount + 1;
      }
      var _ := CheckWin();
    }

    /**
      The solvability test: counts the pairs of non-blank cells i < j whose
      numbers are out of order, then reads the blank's row from the bottom.
     */
    method IsPuzzleSolvable() returns (r: bool)
      requires Valid()
      ensures r == Solvable(board[..])
    {
      ghost var s := board[..];
      var invCount := 0;
      var i := 0;
      while i < BlockCount - 1
        invariant 0 <= i <= BlockCount - 1
        invariant invCount + InvCount(s[i..]) == InvCount(s)
      {
        ghost var before := invCount;
        ghost var x := s[i];
        var j := i + 1;
        while j < BlockCount
          invariant i + 1 <= j <= BlockCount
          invariant invCount == before + if IsEmptyNumber(x) then 0 else CountLess(NonBlank(s[i + 1..j]), x)
        {
          RowStep(s, i, j);
          var tile1 := TileAt(i);
          if !tile1.IsEmpty() {
            var tile2 := TileAt(j);
            if !tile2.IsEmpty() {
              if tile1.currentNumber > tile2.currentNumber {
                invCount := invCount + 1;
              }
            }
          }
          j := j + 1;
        }
        assert s[i + 1..BlockCount] == s[i + 1..];
        InvCountFrom(s, i);
        i := i + 1;
      }
      InvCountFrom(s, i);
      assert s[i + 1..] == [];
      var emptyIndex := FindEmpty();
      var emptyTile := TileAt(emptyIndex);
      assert board[..] == s && invCount == InvCount(s);
      assert Solvable(s) == Verdict(emptyTile.InvY(), invCount);
      if (emptyTile.InvY() + 1) % 2 == 0 {
        if invCount % 2 != 0 {
          return true;
        }
      } else {
        if invCount % 2 == 0 {
          return true;
        }
      }
      return false;
    }

    /**
      One shuffle pass: for every cell i in order, swap it with cell pick[i],
      the draw from [i, BlockCount) that the random source makes.
     */
    method ShufflePass(pick: seq<int>)
      requires Valid() && IsPassPicks(pick)
      modifies board
      ensures Valid()
      ensures board[..] == ShuffleSteps(old(board[..]), pick, BlockCount)
    {
      for i := 0 to BlockCount
        invariant Valid()
        invariant board[..] == ShuffleSteps(old(board[..]), pick, i)
      {
        SwapTiles(pick[i], i);
      }
    }

    /**
      A new game: shuffle passes until the test passes, then unlock the tiles
      and reset the counter. The random draws come from the given passes; if
      they run out before one passes the test, started is false, the game has
      not begun (the program would still be shuffling) and the tiles are
      locked, so that unlocked tiles always stand on a board that passes.
     */
    method NewGame(passes: seq<seq<int>>) returns (started: bool, used: int)
      requires Valid()
      requires forall k :: 0 <= k < |passes| ==> IsPassPicks(passes[k])
      modifies this, board
      ensures Valid()
      ensures 0 <= used <= |passes|
      ensures board[..] == ShuffleFirst(old(board[..]), passes, used)
      ensures NoneSolvableBefore(old(board[..]), passes, used)
      ensures started <==> used > 0 && Solvable(board[..])
      ensures !started ==> used == |passes|
      ensures started ==> enabled && moveCount == 0
      ensures !started ==> !enabled && moveCount == old(moveCount)
      ensures enabled ==> Solvable(board[..])
    {
      ghost var s0 := board[..];
      used := 0;
      started := false;
      while used < |passes| && !started
        invariant Valid()
        invariant 0 <= used <= |passes|
        invariant board[..] == ShuffleFirst(s0, passes, used)
        invariant NoneSolvableBefore(s0, passes, used)
        invariant started <==> used > 0 && Solvable(board[..])
        modifies board
      {
        NoneSolvableBeforeNext(s0, passes, used);
        ShufflePass(passes[used]);
        used := used + 1;
        started := IsPuzzleSolvable();
      }
      if started {
        enabled := true;
        moveCount := 0;
      } else {
        enabled := false;
      }
    }
  }

  /** Extending the row of pairs that start at cell i by cell j adds one exactly for an inversion (i, j). */
  lemma {:induction false} RowStep(s: seq<int>, i: int, j: int)
    requires 0 <= i < j < |s|
    ensures CountLess(NonBlank(s[i + 1..j + 1]), s[i]) ==
      CountLess(NonBlank(s[i + 1..j]), s[i]) + (if !IsEmptyNumber(s[j]) && s[i] > s[j] then 1 else 0)
  {
    assert s[i + 1..j + 1] == s[i + 1..j] + [s[j]];
    NonBlankAppend(s[i + 1..j], [s[j]]);
    CountLessAppend(NonBlank(s[i + 1..j]), NonBlank([s[j]]), s[i]);
    assert NonBlank([s[j]]) == if IsEmptyNumber(s[j]) then [] else [s[j]];
  }

  /** No pass before the n-th left a board that passes the solvability test. */
  predicate NoneSolvableBefore(s: seq<int>, passes: seq<seq<int>>, n: int)
    requires IsPermutation(s) && forall k :: 0 <= k < |passes| ==> IsPassPicks(passes[k])
    requires 0 <= n <= |passes|
  {
    forall k :: 0 < k < n ==> !Solvable(ShuffleFirst(s, passes, k))
  }

  lemma {:induction false} NoneSolvableBeforeNext(s: seq<int>, passes: seq<seq<int>>, n: int)
    requires IsPermutation(s) && forall k :: 0 <= k < |passes| ==> IsPassPicks(passes[k])
    requires 0 <= n < |passes| && NoneSolvableBefore(s, passes, n)
    requires n > 0 ==> !Solvable(ShuffleFirst(s, passes, n))
    ensures NoneSolvableBefore(s, passes, n + 1)
  {
  }

  /** The inversion count of the cells from i on, split into the pairs that start at cell i and the rest. */
  lemma {:induction false} InvCountFrom(s: seq<int>, i: int)
    requires 0 <= i < |s|
    ensures InvCount(s[i..]) ==
      (if IsEmptyNumber(s[i]) then 0 else CountLess(NonBlank(s[i + 1..]), s[i])) + InvCount(s[i + 1..])
  {
    var t, w := s[i..], NonBlank(s[i + 1..]);
    assert t[0] == s[i] && t[1..] == s[i + 1..];
    assert NonBlank(t) == (if IsEmptyNumber(s[i]) then [] else [s[i]]) + w;
    if IsEmptyNumber(s[i]) {
      assert NonBlank(t) == w;
    } else {
      var u := [s[i]] + w;
      assert u[0] == s[i] && u[1..] == w;
      assert Inversions(u) == CountLess(w, s[i]) + Inversions(w);
    }
  }
}
