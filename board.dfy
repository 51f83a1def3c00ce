/**
  The board as a value: cell p holds the number currently shown by the tile
  whose home is p. The tile list of the game is never reordered; only the
  shown numbers travel between cells, so a board is a sequence of BlockCount
  numbers, and the tile at cell p is NewTileWith(p, s[p]).
 */
module Board {
  import opened Tiles

  /** The tile standing at cell p of board s. */
  function TileOf(s: seq<int>, p: int): (t: Tile)
    requires 0 <= p < |s|
    ensures t.orderedNumber == p && t.currentNumber == s[p]
    ensures t.X == p % GridSize && t.Y == p / GridSize
  {
    NewTileWith(p, s[p])
  }

  /** The board as built at start-up: every tile shows its own cell. */
  function Ordered(): (s: seq<int>)
    ensures |s| == BlockCount
    ensures forall p :: 0 <= p < BlockCount ==> s[p] == p
  {
    seq(BlockCount, p => p)
  }

  /**
    Index of the first cell holding the blank, as the list search for an empty
    tile returns it; |s| when no cell does (the search then finds nothing).
   */
  function FirstEmpty(s: seq<int>): (b: nat)
    ensures b <= |s|
    ensures b < |s| ==> IsEmptyNumber(s[b])
    ensures forall p :: 0 <= p < b ==> !IsEmptyNumber(s[p])
  {
    if |s| == 0 then 0
    else if IsEmptyNumber(s[0]) then 0
    else 1 + FirstEmpty(s[1..])
  }

  /**
    s holds each of the numbers 0 .. BlockCount - 1 exactly once. Such a
    board always has a blank, and it shows the number BlockCount - 1.
   */
  predicate IsPermutation(s: seq<int>): (r: bool)
    ensures r ==> BlockCount - 1 in s && FirstEmpty(s) < |s| && s[FirstEmpty(s)] == BlockCount - 1
  {
    && |s| == BlockCount
    && (forall p :: 0 <= p < |s| ==> 0 <= s[p] < BlockCount)
    && (forall p, q :: 0 <= p < q < |s| ==> s[p] != s[q])
    && (forall n :: 0 <= n < BlockCount ==> n in s)
  }

  /** On a permutation board the blank found first is the only one. */
  lemma {:induction false} EmptyIsUnique(s: seq<int>, p: int)
    requires IsPermutation(s) && 0 <= p < |s|
    ensures TileOf(s, p).IsEmpty() <==> p == FirstEmpty(s)
  {
  }

  /** The board after exchanging the numbers of cells p and q. */
  function Swapped(s: seq<int>, p: int, q: int): (r: seq<int>)
    requires 0 <= p < |s| && 0 <= q < |s|
    ensures |r| == |s|
    ensures r[p] == s[q] && r[q] == s[p]
    ensures forall k :: 0 <= k < |s| && k != p && k != q ==> r[k] == s[k]
    ensures IsPermutation(s) ==> IsPermutation(r)
  {
    var r := s[p := s[q]][q := s[p]];
    assert IsPermutation(s) ==> forall n :: 0 <= n < BlockCount ==> n in r by {
      if IsPermutation(s) {
        forall n | 0 <= n < BlockCount ensures n in r {
          assert n in s;
          var k :| 0 <= k < |s| && s[k] == n;
          if k == p { assert r[q] == n; } else if k == q { assert r[p] == n; } else { assert r[k] == n; }
        }
      }
    }
    r
  }

  /** Swapping a cell with itself changes nothing. */
  lemma {:induction false} SwapSameCell(s: seq<int>, p: int)
    requires 0 <= p < |s|
    ensures Swapped(s, p, p) == s
  {
  }

  /** The order of the two cells does not matter. */
  lemma {:induction false} SwapSymmetric(s: seq<int>, p: int, q: int)
    requires 0 <= p < |s| && 0 <= q < |s|
    ensures Swapped(s, p, q) == Swapped(s, q, p)
  {
  }

  /** Swapping the same pair twice restores the board. */
  lemma {:induction false} SwapTwice(s: seq<int>, p: int, q: int)
    requires 0 <= p < |s| && 0 <= q < |s|
    ensures Swapped(Swapped(s, p, q), p, q) == s
  {
  }

  /** The win test: no tile is out of its place. */
  predicate Solved(s: seq<int>): (r: bool)
    ensures r <==> forall p :: 0 <= p < |s| ==> s[p] == p
  {
    assert forall p :: 0 <= p < |s| ==> (TileOf(s, p).IsRightPlace() <==> s[p] == p);
    forall p :: 0 <= p < |s| ==> TileOf(s, p).IsRightPlace()
  }

  /** The start-up board is a permutation and it is won. */
  lemma OrderedIsSolvedPermutation()
    ensures IsPermutation(Ordered()) && Solved(Ordered())
  {
    var s := Ordered();
    forall n | 0 <= n < BlockCount ensures n in s {
      assert s[n] == n;
    }
  }

  /** A board of BlockCount cells is won exactly when it is the start-up board. */
  lemma {:induction false} SolvedIffOrdered(s: seq<int>)
    requires |s| == BlockCount
    ensures Solved(s) <==> s == Ordered()
  {
    if Solved(s) {
      forall p | 0 <= p < |s| ensures s[p] == Ordered()[p] {
        assert TileOf(s, p).IsRightPlace();
      }
    }
  }

  /** The numbers of s other than the blank ones, in board order. */
  function NonBlank(s: seq<int>): (r: seq<int>)
    ensures |r| <= |s|
  {
    if |s| == 0 then []
    else (if IsEmptyNumber(s[0]) then [] else [s[0]]) + NonBlank(s[1..])
  }

  /** NonBlank keeps exactly the numbers of s that are not blank. */
  lemma {:induction false} NonBlankContent(s: seq<int>)
    ensures forall x :: x in NonBlank(s) <==> x in s && !IsEmptyNumber(x)
  {
    if |s| > 0 {
      NonBlankContent(s[1..]);
      assert s == [s[0]] + s[1..];
    }
  }

  /** How many elements of u are smaller than x. */
  function CountLess(u: seq<int>, x: int): (n: nat)
    ensures n <= |u|
  {
    if |u| == 0 then 0
    else (if u[0] < x then 1 else 0) + CountLess(u[1..], x)
  }

  /** The number of pairs i < j of u with u[i] > u[j]. */
  function Inversions(u: seq<int>): (n: nat)
    ensures n <= Pairs(|u|)
  {
    if |u| == 0 then 0 else CountLess(u[1..], u[0]) + Inversions(u[1..])
  }

  /**
    The inversion count of the solvability test: pairs of cells i < j, neither
    of them blank, whose numbers are out of order.
   */
  function InvCount(s: seq<int>): (n: nat)
    ensures n <= Pairs(|s|)
  {
    var u := NonBlank(s);
    PairsGrow(|u|, |s|);
    Inversions(u)
  }

  /** The number of pairs i < j among k positions. */
  function Pairs(k: nat): nat {
    if k == 0 then 0 else k - 1 + Pairs(k - 1)
  }

  /** Pairs(k) is k (k - 1) / 2. */
  lemma {:induction false} PairsCount(k: nat)
    ensures 2 * Pairs(k) == k * (k - 1)
  {
    if k > 0 {
      PairsCount(k - 1);
    }
  }

  lemma {:induction false} PairsGrow(k: nat, m: nat)
    requires k <= m
    ensures Pairs(k) <= Pairs(m)
  {
    if k < m {
      PairsGrow(k, m - 1);
    }
  }

  /**
    The solvability rule for an even board side, given the blank's row counted
    from the bottom (invY) and the inversion count: the board passes when
    invY + 1 is even and the count is odd, or invY + 1 is odd and the count is
    even, which is when the two add up to an even number. Both remainders are
    only compared with zero, where the C# operator and Dafny's agree.
   */
  function Verdict(invY: int, invCount: int): (r: bool)
    ensures r <==> (invY + invCount) % 2 == 0
  {
    if (invY + 1) % 2 == 0 then invCount % 2 != 0 else invCount % 2 == 0
  }

  /**
    The verdict of the solvability test on board s. It passes exactly when the
    blank's row, counted from the top, plus the inversion count is odd.
   */
  function Solvable(s: seq<int>): (r: bool)
    requires FirstEmpty(s) < |s|
    ensures r <==> (TileOf(s, FirstEmpty(s)).Y + InvCount(s)) % 2 == 1
  {
    var t := TileOf(s, FirstEmpty(s));
    RowParity(t, InvCount(s));
    Verdict(t.InvY(), InvCount(s))
  }

  /** With the blank on row Y from the top, the rule asks that Y plus the count be odd. */
  lemma {:induction false} RowParity(t: Tile, n: int)
    ensures Verdict(t.InvY(), n) <==> (t.Y + n) % 2 == 1
  {
  }

  lemma {:induction false} NonBlankAppend(a: seq<int>, b: seq<int>)
    ensures NonBlank(a + b) == NonBlank(a) + NonBlank(b)
  {
    if |a| == 0 {
      assert a + b == b;
    } else {
      assert (a + b)[1..] == a[1..] + b;
      NonBlankAppend(a[1..], b);
    }
  }

  lemma {:induction false} NonBlankOfNoBlank(a: seq<int>)
    requires forall i :: 0 <= i < |a| ==> !IsEmptyNumber(a[i])
    ensures NonBlank(a) == a
  {
    if |a| > 0 {
      NonBlankOfNoBlank(a[1..]);
      assert a == [a[0]] + a[1..];
    }
  }

  lemma {:induction false} CountLessAppend(a: seq<int>, b: seq<int>, x: int)
    ensures CountLess(a + b, x) == CountLess(a, x) + CountLess(b, x)
  {
    if |a| == 0 {
      assert a + b == b;
    } else {
      assert (a + b)[1..] == a[1..] + b;
      CountLessAppend(a[1..], b, x);
    }
  }

  /** On a permutation board the non-blank numbers are the board without its blank cell. */
  lemma {:induction false} NonBlankOfPermutation(s: seq<int>)
    requires IsPermutation(s)
    ensures NonBlank(s) == s[..FirstEmpty(s)] + s[FirstEmpty(s) + 1..]
  {
    var b := FirstEmpty(s);
    forall i | 0 <= i < |s| && i != b ensures !IsEmptyNumber(s[i]) {
      EmptyIsUnique(s, i);
    }
    assert s == s[..b] + [s[b]] + s[b + 1..];
    NonBlankAppend(s[..b] + [s[b]], s[b + 1..]);
    NonBlankAppend(s[..b], [s[b]]);
    assert NonBlank([s[b]]) == [];
    NonBlankOfNoBlank(s[..b]);
    NonBlankOfNoBlank(s[b + 1..]);
  }

  /** A sequence in strictly increasing order has no inversions. */
  lemma {:induction false} IncreasingHasNoInversions(u: seq<int>)
    requires forall i, j :: 0 <= i < j < |u| ==> u[i] < u[j]
    ensures Inversions(u) == 0
  {
    if |u| > 0 {
      NoneLess(u[1..], u[0]);
      IncreasingHasNoInversions(u[1..]);
    }
  }

  lemma {:induction false} NoneLess(u: seq<int>, x: int)
    requires forall i :: 0 <= i < |u| ==> x < u[i]
    ensures CountLess(u, x) == 0
  {
    if |u| > 0 {
      NoneLess(u[1..], x);
    }
  }

  /** The start-up board has no inversions, its blank in the bottom row, and it passes the test. */
  lemma OrderedIsSolvable()
    ensures FirstEmpty(Ordered()) == BlockCount - 1 && InvCount(Ordered()) == 0
    ensures Solvable(Ordered())
  {
    OrderedIsSolvedPermutation();
    IdentityIsSolvable(Ordered());
  }

  lemma {:induction false} IdentityIsSolvable(s: seq<int>)
    requires IsPermutation(s) && forall p :: 0 <= p < |s| ==> s[p] == p
    ensures FirstEmpty(s) == BlockCount - 1 && InvCount(s) == 0
    ensures Solvable(s)
  {
    EmptyIsUnique(s, BlockCount - 1);
    var b := FirstEmpty(s);
    assert b == BlockCount - 1;
    NonBlankOfPermutation(s);
    assert s[b + 1..] == [];
    assert NonBlank(s) == s[..b];
    IncreasingHasNoInversions(s[..b]);
    assert TileOf(s, b).Y == GridSize - 1;
  }
}
