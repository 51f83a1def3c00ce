/**
  A player's move on a board value, and the fact the solvability test rests
  on: a legal move never changes its verdict.

  A click on cell p is accepted when the tile at p is near the blank (the
  blank itself included); the board then swaps the two cells. A horizontal
  move leaves the order of the non-blank numbers as it was and keeps the
  blank in its row. A vertical move carries one number past the three numbers
  between its old and new cell, which flips the parity of the inversion count,
  and moves the blank one row, which flips the parity of its row: the verdict
  depends only on the parity of the sum of the two.
 */
module Moves {
  import opened Tiles
  import opened Board

  /**
    Whether a click on cell p is accepted: its tile is near the blank's. By
    cell index those are the blank itself, its neighbours left and right in
    the same row, and the cells directly above and below.
   */
  predicate MoveAccepted(s: seq<int>, p: int): (r: bool)
    requires FirstEmpty(s) < |s| && 0 <= p < |s|
    ensures var b := FirstEmpty(s);
      r <==>
        p == b ||
        (p == b + 1 && b % GridSize != GridSize - 1) ||
        (b == p + 1 && p % GridSize != GridSize - 1) ||
        p == b + GridSize || b == p + GridSize
  {
    NearestWithCells(p, FirstEmpty(s));
    TileOf(s, p).NearestWith(TileOf(s, FirstEmpty(s)))
  }

  /** The board after a click on cell p: swapped with the blank when accepted, unchanged otherwise. */
  function MoveResult(s: seq<int>, p: int): (r: seq<int>)
    requires IsPermutation(s) && 0 <= p < |s|
    ensures IsPermutation(r)
    ensures Solvable(r) == Solvable(s)
  {
    if MoveAccepted(s, p) then
      MoveKeepsVerdict(s, p);
      Swapped(s, p, FirstEmpty(s))
    else s
  }

  /**
    An accepted click on a tile other than the blank moves the blank to the
    clicked cell and the clicked number to the blank's old cell; every other
    cell keeps its number.
   */
  lemma {:induction false} MoveEffect(s: seq<int>, p: int)
    requires IsPermutation(s) && 0 <= p < |s|
    requires MoveAccepted(s, p) && p != FirstEmpty(s)
    ensures var b, r := FirstEmpty(s), MoveResult(s, p);
      FirstEmpty(r) == p && r[p] == BlockCount - 1 && r[b] == s[p] &&
      forall k :: 0 <= k < |s| && k != p && k != b ==> r[k] == s[k]
  {
    var r := MoveResult(s, p);
    EmptyIsUnique(r, p);
  }

  /** A click on the blank itself is accepted but leaves the board as it was. */
  lemma {:induction false} MoveOnBlank(s: seq<int>)
    requires IsPermutation(s)
    ensures MoveAccepted(s, FirstEmpty(s)) && MoveResult(s, FirstEmpty(s)) == s
  {
    NearestWithSelf(TileOf(s, FirstEmpty(s)));
    SwapSameCell(s, FirstEmpty(s));
  }

  lemma {:induction false} CountLessSwapAdjacent(u: seq<int>, k: int, x: int)
    requires 0 <= k && k + 1 < |u|
    ensures CountLess(Swapped(u, k, k + 1), x) == CountLess(u, x)
  {
    var v := Swapped(u, k, k + 1);
    if k == 0 {
      assert v[1..][1..] == u[1..][1..];
    } else {
      assert v[1..] == Swapped(u[1..], k - 1, k);
      CountLessSwapAdjacent(u[1..], k - 1, x);
    }
  }

  /** Exchanging two distinct neighbouring numbers changes the inversion count by exactly one. */
  lemma {:induction false} InversionsSwapAdjacent(u: seq<int>, k: int)
    requires 0 <= k && k + 1 < |u| && u[k] != u[k + 1]
    ensures var n, m := Inversions(u), Inversions(Swapped(u, k, k + 1)); m == n + 1 || n == m + 1
  {
    var v := Swapped(u, k, k + 1);
    if k == 0 {
      var w := u[2..];
      assert u[1..] == [u[1]] + w && u[1..][1..] == w;
      assert v[1..] == [u[0]] + w && v[1..][1..] == w;
    } else {
      assert v[1..] == Swapped(u[1..], k - 1, k);
      CountLessSwapAdjacent(u[1..], k - 1, u[0]);
      InversionsSwapAdjacent(u[1..], k - 1);
    }
  }

  /**
    Moving one number t in front of three numbers different from it flips the
    parity of the inversion count: it takes three neighbour exchanges.
   */
  lemma {:induction false} RotateFlipsParity(P: seq<int>, a1: int, a2: int, a3: int, t: int, Q: seq<int>)
    requires t != a1 && t != a2 && t != a3
    ensures (Inversions(P + [a1, a2, a3, t] + Q) + Inversions(P + [t, a1, a2, a3] + Q)) % 2 == 1
  {
    var m := |P|;
    var w0 := P + [a1, a2, a3, t] + Q;
    var w1 := P + [a1, a2, t, a3] + Q;
    var w2 := P + [a1, t, a2, a3] + Q;
    var w3 := P + [t, a1, a2, a3] + Q;
    RotateAsSwaps(P, a1, a2, a3, t, Q);
    ThreeSwapsFlip(w0, w1, w2, w3, m);
  }

  /** Three exchanges of distinct neighbours, at m + 2, m + 1 and m, flip the parity of the count. */
  lemma {:induction false} ThreeSwapsFlip(w0: seq<int>, w1: seq<int>, w2: seq<int>, w3: seq<int>, m: int)
    requires 0 <= m && m + 3 < |w0|
    requires w0[m + 2] != w0[m + 3] && Swapped(w0, m + 2, m + 3) == w1
    requires w1[m + 1] != w1[m + 2] && Swapped(w1, m + 1, m + 2) == w2
    requires w2[m] != w2[m + 1] && Swapped(w2, m, m + 1) == w3
    ensures (Inversions(w0) + Inversions(w3)) % 2 == 1
  {
    SwapStep(w0, m + 2, w1);
    SwapStep(w1, m + 1, w2);
    SwapStep(w2, m, w3);
    ThreeStepsFlip(Inversions(w0), Inversions(w1), Inversions(w2), Inversions(w3));
  }

  lemma {:induction false} SwapStep(u: seq<int>, k: int, v: seq<int>)
    requires 0 <= k && k + 1 < |u| && u[k] != u[k + 1] && Swapped(u, k, k + 1) == v
    ensures Inversions(v) == Inversions(u) + 1 || Inversions(u) == Inversions(v) + 1
  {
    InversionsSwapAdjacent(u, k);
  }

  /** The rotation as three neighbour exchanges, each of two distinct numbers. */
  lemma {:induction false} RotateAsSwaps(P: seq<int>, a1: int, a2: int, a3: int, t: int, Q: seq<int>)
    ensures var m := |P|;
      var w0, w1, w2 := P + [a1, a2, a3, t] + Q, P + [a1, a2, t, a3] + Q, P + [a1, t, a2, a3] + Q;
      && Swapped(w0, m + 2, m + 3) == w1 && w0[m + 2] == a3 && w0[m + 3] == t
      && Swapped(w1, m + 1, m + 2) == w2 && w1[m + 1] == a2 && w1[m + 2] == t
      && Swapped(w2, m, m + 1) == P + [t, a1, a2, a3] + Q && w2[m] == a1 && w2[m + 1] == t
  {
    var m := |P|;
    var w0, w1, w2 := P + [a1, a2, a3, t] + Q, P + [a1, a2, t, a3] + Q, P + [a1, t, a2, a3] + Q;
    assert Swapped(w0, m + 2, m + 3) == w1;
    assert Swapped(w1, m + 1, m + 2) == w2;
    assert Swapped(w2, m, m + 1) == P + [t, a1, a2, a3] + Q;
  }

  /** Three steps of plus or minus one flip the parity. */
  lemma {:induction false} ThreeStepsFlip(n0: int, n1: int, n2: int, n3: int)
    requires n1 == n0 + 1 || n0 == n1 + 1
    requires n2 == n1 + 1 || n1 == n2 + 1
    requires n3 == n2 + 1 || n2 == n3 + 1
    ensures (n0 + n3) % 2 == 1
  {
  }

  /** Cutting out the blank before or after swapping it with its right-hand neighbour gives the same sequence. */
  lemma {:induction false} CutAfterSwapRight(s: seq<int>, b: int)
    requires 0 <= b && b + 1 < |s|
    ensures var r := Swapped(s, b + 1, b); r[..b + 1] + r[b + 2..] == s[..b] + s[b + 1..]
  {
  }

  /** Cutting out the blank after swapping it with the cell four places on rotates that cell's number forward. */
  lemma {:induction false} CutAfterSwapDown(s: seq<int>, b: int)
    requires 0 <= b && b + 4 < |s|
    ensures s[..b] + s[b + 1..] == s[..b] + [s[b + 1], s[b + 2], s[b + 3], s[b + 4]] + s[b + 5..]
    ensures var r := Swapped(s, b + 4, b);
      r[..b + 4] + r[b + 5..] == s[..b] + [s[b + 4], s[b + 1], s[b + 2], s[b + 3]] + s[b + 5..]
  {
  }

  lemma {:induction false} SameRowRight(b: int)
    requires 0 <= b && b % GridSize != GridSize - 1
    ensures (b + 1) / GridSize == b / GridSize
  {
  }

  /** The blank moving one cell to the right keeps the order of the non-blank numbers. */
  lemma {:induction false} SwapRightFacts(s: seq<int>)
    requires IsPermutation(s) && FirstEmpty(s) + 1 < |s|
    ensures var b := FirstEmpty(s); var r := Swapped(s, b + 1, b);
      FirstEmpty(r) == b + 1 && InvCount(r) == InvCount(s)
  {
    var b := FirstEmpty(s);
    var r := Swapped(s, b + 1, b);
    EmptyIsUnique(r, b + 1);
    NonBlankOfPermutation(s);
    NonBlankOfPermutation(r);
    CutAfterSwapRight(s, b);
  }

  /** The blank moving one row down carries one number past three others. */
  lemma {:induction false} SwapDownFacts(s: seq<int>)
    requires IsPermutation(s) && FirstEmpty(s) + GridSize < |s|
    ensures var b := FirstEmpty(s); var r := Swapped(s, b + GridSize, b);
      FirstEmpty(r) == b + GridSize && (InvCount(s) + InvCount(r)) % 2 == 1
  {
    var b := FirstEmpty(s);
    var r := Swapped(s, b + 4, b);
    EmptyIsUnique(r, b + 4);
    NonBlankOfPermutation(s);
    NonBlankOfPermutation(r);
    CutAfterSwapDown(s, b);
    assert s[b + 4] != s[b + 1] && s[b + 4] != s[b + 2] && s[b + 4] != s[b + 3];
    RotateFlipsParity(s[..b], s[b + 1], s[b + 2], s[b + 3], s[b + 4], s[b + 5..]);
  }

  /** Two boards with the blank in the same row and the same inversion count get the same verdict. */
  lemma {:induction false} SameRowSameVerdict(s: seq<int>, r: seq<int>)
    requires FirstEmpty(s) < |s| <= BlockCount && FirstEmpty(r) < |r| <= BlockCount
    requires FirstEmpty(s) / GridSize == FirstEmpty(r) / GridSize && InvCount(s) == InvCount(r)
    ensures Solvable(s) == Solvable(r)
  {
  }

  /** Moving the blank one row down while flipping the parity of the count keeps the verdict. */
  lemma {:induction false} NextRowSameVerdict(s: seq<int>, r: seq<int>)
    requires FirstEmpty(s) < |s| <= BlockCount && FirstEmpty(r) < |r| <= BlockCount
    requires FirstEmpty(r) / GridSize == FirstEmpty(s) / GridSize + 1
    requires (InvCount(s) + InvCount(r)) % 2 == 1
    ensures Solvable(s) == Solvable(r)
  {
    FlipBoth(FirstEmpty(s) / GridSize, InvCount(s), InvCount(r));
  }

  /** The blank moving one cell to the right within its row keeps the verdict. */
  lemma {:induction false} BlankRightKeepsVerdict(s: seq<int>)
    requires IsPermutation(s)
    requires FirstEmpty(s) + 1 < |s| && FirstEmpty(s) % GridSize != GridSize - 1
    ensures var b := FirstEmpty(s);
      Solvable(Swapped(s, b + 1, b)) == Solvable(s)
  {
    var b := FirstEmpty(s);
    SwapRightFacts(s);
    SameRowRight(b);
    SameRowSameVerdict(s, Swapped(s, b + 1, b));
  }

  /** The blank moving one row down keeps the verdict. */
  lemma {:induction false} BlankDownKeepsVerdict(s: seq<int>)
    requires IsPermutation(s)
    requires FirstEmpty(s) + GridSize < |s|
    ensures var b := FirstEmpty(s);
      Solvable(Swapped(s, b + GridSize, b)) == Solvable(s)
  {
    var b := FirstEmpty(s);
    SwapDownFacts(s);
    NextRowDown(b);
    NextRowSameVerdict(s, Swapped(s, b + GridSize, b));
  }

  lemma {:induction false} NextRowDown(b: int)
    requires 0 <= b
    ensures (b + GridSize) / GridSize == b / GridSize + 1
  {
  }

  /** Flipping the parity of both the row and the count keeps the parity of their sum. */
  lemma {:induction false} FlipBoth(y: int, n: int, m: int)
    requires (n + m) % 2 == 1
    ensures ((y + 1 + m) % 2 == 1) == ((y + n) % 2 == 1)
  {
  }

  /** An accepted click never changes the solvability verdict. */
  lemma {:induction false} MoveKeepsVerdict(s: seq<int>, p: int)
    requires IsPermutation(s) && 0 <= p < |s| && MoveAccepted(s, p)
    ensures Solvable(Swapped(s, p, FirstEmpty(s))) == Solvable(s)
  {
    var b := FirstEmpty(s);
    var r := Swapped(s, p, b);
    if p == b {
      SwapSameCell(s, b);
    } else if p == b + 1 {
      BlankRightKeepsVerdict(s);
    } else if p == b + GridSize {
      BlankDownKeepsVerdict(s);
    } else {
      // The blank moves left or up: seen from r, it moves right or down back to s.
      EmptyIsUnique(r, p);
      SwapTwice(s, p, b);
      SwapSymmetric(r, p, b);
      if b == p + 1 {
        BlankRightKeepsVerdict(r);
      } else {
        BlankDownKeepsVerdict(r);
      }
    }
  }

  /** The board after a sequence of clicks, each applied as MovePuzzle applies it. */
  function Play(s: seq<int>, clicks: seq<int>): (r: seq<int>)
    requires IsPermutation(s)
    requires forall i :: 0 <= i < |clicks| ==> 0 <= clicks[i] < BlockCount
    ensures IsPermutation(r)
  {
    if |clicks| == 0 then s else MoveResult(Play(s, clicks[..|clicks| - 1]), clicks[|clicks| - 1])
  }

  /** No sequence of clicks changes the verdict. */
  lemma {:induction false} PlayKeepsVerdict(s: seq<int>, clicks: seq<int>)
    requires IsPermutation(s)
    requires forall i :: 0 <= i < |clicks| ==> 0 <= clicks[i] < BlockCount
    ensures Solvable(Play(s, clicks)) == Solvable(s)
  {
    if |clicks| > 0 {
      PlayKeepsVerdict(s, clicks[..|clicks| - 1]);
    }
  }

  /** Every board the player can reach from the start-up board passes the solvability test. */
  lemma {:induction false} ReachableIsSolvable(clicks: seq<int>)
    requires forall i :: 0 <= i < |clicks| ==> 0 <= clicks[i] < BlockCount
    ensures IsPermutation(Ordered()) && Solvable(Play(Ordered(), clicks))
  {
    OrderedIsSolvedPermutation();
    OrderedIsSolvable();
    PlayKeepsVerdict(Ordered(), clicks);
  }

  /**
    Sliding the tile at cell 14, which shows number 14 (label 15), right into
    the blank of the start-up board: the two cells are near, and the board is
    no longer won but still passes.
   */
  lemma {:induction false} FirstMoveExample()
    ensures IsPermutation(Ordered()) && MoveAccepted(Ordered(), BlockCount - 2)
    ensures var r := MoveResult(Ordered(), BlockCount - 2);
      r[BlockCount - 2] == BlockCount - 1 && r[BlockCount - 1] == BlockCount - 2 &&
      !Solved(r) && Solvable(r)
  {
    OrderedIsSolvedPermutation();
    OrderedIsSolvable();
    SlideIntoLastCell(Ordered());
  }

  /** The tile just left of a blank in the last cell slides into it and leaves a board that is not won. */
  lemma {:induction false} SlideIntoLastCell(s: seq<int>)
    requires IsPermutation(s) && FirstEmpty(s) == BlockCount - 1 && s[BlockCount - 2] == BlockCount - 2
    ensures MoveAccepted(s, BlockCount - 2)
    ensures var r := MoveResult(s, BlockCount - 2);
      r[BlockCount - 2] == BlockCount - 1 && r[BlockCount - 1] == BlockCount - 2 &&
      !Solved(r) && Solvable(r) == Solvable(s)
  {
    MoveEffect(s, BlockCount - 2);
    var r := MoveResult(s, BlockCount - 2);
    assert r[BlockCount - 1] != BlockCount - 1;
  }
}
