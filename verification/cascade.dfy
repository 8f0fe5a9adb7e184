/** Explosion cascades (`balanceBoard` and `getNeighborIndex` of MutableBoard.java).

    A square is unstable when it holds more spots than it has neighbours.
    An unstable square is reset to ONE spot of its own side, and each of its
    neighbours gains one spot and takes that side. Passes over the squares
    in index order repeat until a pass finds nothing unstable or one side
    owns the whole board. Because of the reset to one spot, a cascade does
    not in general conserve the total number of spots. */
module Cascade {
  import opened Sides
  import opened BoardGeometry
  import opened BoardQueries

  /** No element of `xs` occurs twice. */
  predicate Distinct(xs: seq<int>)
  {
    forall a, b :: 0 <= a < b < |xs| ==> xs[a] != xs[b]
  }

  /** The square numbers `getNeighborIndex` writes for square `i`, in its
      order: above, below, left, right. */
  function NeighborList(N: nat, i: int): seq<int>
    requires N > 0
  {
    var row, col := Row(N, i), Col(N, i);
    (if row - 1 < N && row - 1 > 0 then [SqNum(N, row - 1, col)] else [])
    + (if row + 1 <= N then [SqNum(N, row + 1, col)] else [])
    + (if col - 1 < N && col - 1 > 0 then [SqNum(N, row, col - 1)] else [])
    + (if col + 1 <= N then [SqNum(N, row, col + 1)] else [])
  }

  /** `getNeighborIndex(i, k)`: an array of `k` slots filled from the front with
      the neighbours of `i`; unfilled slots keep Java's default 0. Writing more
      neighbours than there are slots raises an index error, modelled as `None`. */
  function GetNeighborIndex(N: nat, i: int, k: nat): (r: Results.Option<seq<int>>)
    requires N > 0
    ensures r.Some? <==> |NeighborList(N, i)| <= k
    ensures r.Some? ==> |r.value| == k && r.value[..|NeighborList(N, i)|] == NeighborList(N, i)
    ensures r.Some? ==> forall j :: |NeighborList(N, i)| <= j < k ==> r.value[j] == 0
  {
    var found := NeighborList(N, i);
    if |found| > k then Results.None else Results.Some(found + seq(k - |found|, _ => 0))
  }

  /** A list holding `x` when `cond` holds, and nothing otherwise. */
  function Opt(cond: bool, x: int): seq<int>
  {
    if cond then [x] else []
  }

  /** The neighbour list of a square on the board, in linear terms: the
      squares one row up, one row down, one column left, one column right. */
  lemma NeighborListShape(N: nat, i: int)
    requires ExistsSq(N, i)
    ensures N > 0 && ExistsRC(N, Row(N, i), Col(N, i))
    ensures SqNum(N, Row(N, i), Col(N, i)) == i
    ensures NeighborList(N, i)
      == Opt(Row(N, i) > 1, i - N) + Opt(Row(N, i) < N, i + N)
       + Opt(Col(N, i) > 1, i - 1) + Opt(Col(N, i) < N, i + 1)
  {
    SquareRoundTrip(N, i);
    var r, c := Row(N, i), Col(N, i);
    assert SqNum(N, r - 1, c) == i - N;
    assert SqNum(N, r + 1, c) == i + N;
    assert SqNum(N, r, c - 1) == i - 1;
    assert SqNum(N, r, c + 1) == i + 1;
  }

  /** Moving by `dr` rows and `dc` columns moves the square number by `dr * N + dc`. */
  lemma SqNumStep(N: nat, r: int, c: int, dr: int, dc: int)
    ensures SqNum(N, r + dr, c + dc) == SqNum(N, r, c) + dr * N + dc
  {
    assert (r + dr - 1) * N == (r - 1) * N + dr * N;
  }

  /** A square sharing an edge with square `i` is one row or one column away. */
  lemma AdjacentIsStep(N: nat, i: int, j: int)
    requires Adjacent(N, i, j)
    ensures || (j == i - N && Row(N, i) > 1)
            || (j == i + N && Row(N, i) < N)
            || (j == i - 1 && Col(N, i) > 1)
            || (j == i + 1 && Col(N, i) < N)
  {
    var r, c, rj, cj := Row(N, i), Col(N, i), Row(N, j), Col(N, j);
    assert SqNum(N, r, c) == i && ExistsRC(N, r, c) by {
      SquareRoundTrip(N, i);
    }
    assert SqNum(N, rj, cj) == j && ExistsRC(N, rj, cj) by {
      SquareRoundTrip(N, j);
    }
    assert Dist(r, rj) + Dist(c, cj) == 1;
    SqNumStep(N, r, c, rj - r, cj - c);
  }

  /** A step of one row or one column that stays on the board reaches an adjacent square. */
  lemma StepIsAdjacent(N: nat, i: int, dr: int, dc: int)
    requires ExistsSq(N, i)
    requires Dist(dr, 0) + Dist(dc, 0) == 1
    requires N > 0 && ExistsRC(N, Row(N, i) + dr, Col(N, i) + dc)
    ensures Adjacent(N, i, i + dr * N + dc)
  {
    var r, c := Row(N, i), Col(N, i);
    assert SqNum(N, r, c) == i by {
      SquareRoundTrip(N, i);
    }
    SqNumStep(N, r, c, dr, dc);
    var j := i + dr * N + dc;
    assert ExistsSq(N, j) && Row(N, j) == r + dr && Col(N, j) == c + dc by {
      RowColRoundTrip(N, r + dr, c + dc);
    }
  }

  /** The squares sharing an edge with square `i`, in linear terms. */
  lemma AdjacentCases(N: nat, i: int, j: int)
    requires ExistsSq(N, i)
    ensures N > 0
    ensures Adjacent(N, i, j) <==>
      || (j == i - N && Row(N, i) > 1)
      || (j == i + N && Row(N, i) < N)
      || (j == i - 1 && Col(N, i) > 1)
      || (j == i + 1 && Col(N, i) < N)
  {
    SquareRoundTrip(N, i);
    if Adjacent(N, i, j) {
      AdjacentIsStep(N, i, j);
    }
    var r, c := Row(N, i), Col(N, i);
    if j == i - N && r > 1 {
      StepIsAdjacent(N, i, -1, 0);
    }
    if j == i + N && r < N {
      StepIsAdjacent(N, i, 1, 0);
    }
    if j == i - 1 && c > 1 {
      StepIsAdjacent(N, i, 0, -1);
    }
    if j == i + 1 && c < N {
      StepIsAdjacent(N, i, 0, 1);
    }
  }

  /** Joining two duplicate-free lists with no common element gives a duplicate-free list. */
  lemma DistinctConcat(xs: seq<int>, ys: seq<int>)
    requires Distinct(xs) && Distinct(ys)
    requires forall v :: v in xs ==> v !in ys
    ensures Distinct(xs + ys)
  {
    var zs := xs + ys;
    forall a, b | 0 <= a < b < |zs|
      ensures zs[a] != zs[b]
    {
      if b >= |xs| && a < |xs| {
        assert zs[a] in xs && zs[b] == ys[b - |xs|];
      } else if a >= |xs| {
        assert zs[a] == ys[a - |xs|] && zs[b] == ys[b - |xs|];
      }
    }
  }

  /** Four optional entries whose present values differ pairwise form a duplicate-free list. */
  lemma DistinctOpt4(c1: bool, x1: int, c2: bool, x2: int, c3: bool, x3: int, c4: bool, x4: int)
    requires c1 && c2 ==> x1 != x2
    requires c1 && c3 ==> x1 != x3
    requires c1 && c4 ==> x1 != x4
    requires c2 && c3 ==> x2 != x3
    requires c2 && c4 ==> x2 != x4
    requires c3 && c4 ==> x3 != x4
    ensures Distinct(Opt(c1, x1) + Opt(c2, x2) + Opt(c3, x3) + Opt(c4, x4))
  {
    DistinctConcat(Opt(c1, x1), Opt(c2, x2));
    DistinctConcat(Opt(c1, x1) + Opt(c2, x2), Opt(c3, x3));
    DistinctConcat(Opt(c1, x1) + Opt(c2, x2) + Opt(c3, x3), Opt(c4, x4));
  }

  /** The four optional neighbours of a square at row `r`, column `c`
      (numbered `i`) are pairwise different, exclude `i`, and number as many
      as the square has neighbours. */
  lemma OptNeighbors(N: nat, i: int, r: int, c: int)
    requires N > 0 && ExistsRC(N, r, c)
    ensures var l := Opt(r > 1, i - N) + Opt(r < N, i + N) + Opt(c > 1, i - 1) + Opt(c < N, i + 1);
      Distinct(l) && i !in l && |l| == NeighborsRC(N, r, c)
  {
    var l1, l2, l3, l4 := Opt(r > 1, i - N), Opt(r < N, i + N), Opt(c > 1, i - 1), Opt(c < N, i + 1);
    assert Distinct(l1 + l2 + l3 + l4) by {
      DistinctOpt4(r > 1, i - N, r < N, i + N, c > 1, i - 1, c < N, i + 1);
    }
    assert i !in l1 + l2 + l3 + l4 by {
      assert i !in l1 && i !in l2 && i !in l3 && i !in l4;
    }
    assert |l1 + l2 + l3 + l4| == |l1| + |l2| + |l3| + |l4|;
  }

  /** The list holds exactly the squares sharing an edge with square `i`. */
  lemma NeighborListMembers(N: nat, i: int)
    requires ExistsSq(N, i)
    ensures forall j :: j in NeighborList(N, i) <==> Adjacent(N, i, j)
  {
    var r, c := Row(N, i), Col(N, i);
    var l := NeighborList(N, i);
    assert N > 0 && l == Opt(r > 1, i - N) + Opt(r < N, i + N) + Opt(c > 1, i - 1) + Opt(c < N, i + 1)
    by {
      NeighborListShape(N, i);
    }
    forall j
      ensures j in l <==> Adjacent(N, i, j)
    {
      AdjacentCases(N, i, j);
    }
  }

  /** The list has no repeats, leaves out `i` itself and has as many entries
      as the square has neighbours. */
  lemma NeighborListCount(N: nat, i: int)
    requires ExistsSq(N, i)
    ensures N > 0
    ensures |NeighborList(N, i)| == Neighbors(N, i)
    ensures Distinct(NeighborList(N, i))
    ensures i !in NeighborList(N, i)
  {
    var r, c := Row(N, i), Col(N, i);
    var l := NeighborList(N, i);
    assert N > 0 && ExistsRC(N, r, c)
      && l == Opt(r > 1, i - N) + Opt(r < N, i + N) + Opt(c > 1, i - 1) + Opt(c < N, i + 1)
    by {
      NeighborListShape(N, i);
    }
    OptNeighbors(N, i, r, c);
  }

  /** For a square on the board the list holds exactly its edge-sharing
      squares, each once, and there are `neighbors(i)` of them. */
  lemma NeighborListSpec(N: nat, i: int)
    requires ExistsSq(N, i)
    ensures N > 0
    ensures |NeighborList(N, i)| == Neighbors(N, i)
    ensures forall j :: j in NeighborList(N, i) <==> Adjacent(N, i, j)
    ensures forall k :: 0 <= k < |NeighborList(N, i)| ==> 0 <= NeighborList(N, i)[k] < N * N
    ensures Distinct(NeighborList(N, i))
    ensures i !in NeighborList(N, i)
  {
    NeighborListCount(N, i);
    var l := NeighborList(N, i);
    assert forall j :: j in l <==> Adjacent(N, i, j) by {
      NeighborListMembers(N, i);
    }
    forall k | 0 <= k < |l|
      ensures 0 <= l[k] < N * N
    {
      assert l[k] in l;
    }
  }

  /** `getNeighborIndex(i, neighbors(i))` fills every slot with a neighbour of `i`. */
  lemma GetNeighborIndexFull(N: nat, i: int)
    requires ExistsSq(N, i)
    ensures N > 0
    ensures GetNeighborIndex(N, i, Neighbors(N, i)).Some?
    ensures var slots := GetNeighborIndex(N, i, Neighbors(N, i)).value;
      |slots| == Neighbors(N, i)
      && (forall k :: 0 <= k < |slots| ==> Adjacent(N, i, slots[k]))
      && Distinct(slots)
  {
    NeighborListSpec(N, i);
    var slots := GetNeighborIndex(N, i, Neighbors(N, i)).value;
    assert slots == NeighborList(N, i);
  }

  /** Each square named in `targets` gains one spot and takes side `s`, in order. */
  function GiveAll(g: seq<Square>, targets: seq<int>, s: Side): (r: seq<Square>)
    requires forall k :: 0 <= k < |targets| ==> 0 <= targets[k] < |g|
    ensures |r| == |g|
    decreases |targets|
  {
    if |targets| == 0 then g
    else
      var t := targets[0];
      GiveAll(g[t := Square(s, g[t].spots + 1)], targets[1..], s)
  }

  /** With no target named twice, exactly the targets gain a spot and change side. */
  lemma {:induction false} GiveAllSpec(g: seq<Square>, targets: seq<int>, s: Side)
    requires forall k :: 0 <= k < |targets| ==> 0 <= targets[k] < |g|
    requires Distinct(targets)
    ensures forall k :: 0 <= k < |g| ==>
      GiveAll(g, targets, s)[k] == (if k in targets then Square(s, g[k].spots + 1) else g[k])
    decreases |targets|
  {
    if |targets| > 0 {
      var t := targets[0];
      var g' := g[t := Square(s, g[t].spots + 1)];
      var rest := targets[1..];
      assert Distinct(rest) && t !in rest by {
        assert forall a :: 0 <= a < |rest| ==> rest[a] == targets[a + 1];
      }
      assert forall k :: 0 <= k < |rest| ==> 0 <= rest[k] < |g'| by {
        assert forall a :: 0 <= a < |rest| ==> rest[a] == targets[a + 1];
      }
      GiveAllSpec(g', rest, s);
      assert forall k :: k in targets <==> k == t || k in rest;
    }
  }

  /** Every target adds one spot to the board. */
  lemma {:induction false} GiveAllPieces(g: seq<Square>, targets: seq<int>, s: Side)
    requires forall k :: 0 <= k < |targets| ==> 0 <= targets[k] < |g|
    ensures NumPieces(GiveAll(g, targets, s)) == NumPieces(g) + |targets|
    decreases |targets|
  {
    if |targets| > 0 {
      var t := targets[0];
      var g' := g[t := Square(s, g[t].spots + 1)];
      NumPiecesUpdate(g, t, g'[t]);
      assert forall k :: 0 <= k < |targets| - 1 ==> 0 <= targets[1..][k] < |g'| by {
        assert forall a :: 0 <= a < |targets| - 1 ==> targets[1..][a] == targets[a + 1];
      }
      GiveAllPieces(g', targets[1..], s);
    }
  }

  /** The explosion of square `i` in one pass of `balanceBoard`. */
  function ExplodeAt(N: nat, g: seq<Square>, i: int): (r: seq<Square>)
    requires |g| == N * N && 0 <= i < |g|
    ensures N > 0
    ensures |r| == |g|
  {
    assert N > 0 && forall k :: 0 <= k < |NeighborList(N, i)| ==> 0 <= NeighborList(N, i)[k] < |g| by {
      NeighborListSpec(N, i);
    }
    GiveAll(g[i := Square(g[i].side, 1)], NeighborList(N, i), g[i].side)
  }

  /** An explosion resets the square to one spot of its side; every
      edge-sharing square gains one spot and takes that side; nothing else
      changes. */
  lemma ExplodeAtSpec(N: nat, g: seq<Square>, i: int)
    requires |g| == N * N && 0 <= i < |g|
    ensures forall k :: 0 <= k < |g| ==>
      ExplodeAt(N, g, i)[k]
        == (if k == i then Square(g[i].side, 1)
            else if Adjacent(N, i, k) then Square(g[i].side, g[k].spots + 1)
            else g[k])
  {
    var l := NeighborList(N, i);
    var s := g[i].side;
    var reset := g[i := Square(s, 1)];
    assert N > 0 && Distinct(l) && i !in l && (forall j :: j in l <==> Adjacent(N, i, j))
      && (forall k :: 0 <= k < |l| ==> 0 <= l[k] < |g|)
    by {
      NeighborListSpec(N, i);
    }
    var r := GiveAll(reset, l, s);
    assert r == ExplodeAt(N, g, i);
    GiveAllSpec(reset, l, s);
    forall k | 0 <= k < |g|
      ensures r[k] == (if k == i then Square(s, 1) else if Adjacent(N, i, k) then Square(s, g[k].spots + 1) else g[k])
    {
      assert k in l <==> Adjacent(N, i, k);
    }
  }

  /** An explosion takes the square's spots away, gives one back to it and
      one to each of its neighbours. */
  lemma ExplodeAtPieces(N: nat, g: seq<Square>, i: int)
    requires |g| == N * N && 0 <= i < |g|
    ensures N > 0
    ensures NumPieces(ExplodeAt(N, g, i)) == NumPieces(g) - g[i].spots + 1 + Neighbors(N, i)
  {
    var l := NeighborList(N, i);
    var s := g[i].side;
    var reset := g[i := Square(s, 1)];
    assert N > 0 && |l| == Neighbors(N, i) && (forall k :: 0 <= k < |l| ==> 0 <= l[k] < |g|) by {
      NeighborListSpec(N, i);
    }
    NumPiecesUpdate(g, i, reset[i]);
    GiveAllPieces(reset, l, s);
  }

  /** Square `k` holds no more spots than it has neighbours. */
  predicate StableAt(N: nat, g: seq<Square>, k: int)
    requires |g| == N * N && 0 <= k < |g|
  {
    assert N > 0;
    g[k].spots <= Neighbors(N, k)
  }

  /** Every square from `i` on is stable. */
  predicate StableFrom(N: nat, g: seq<Square>, i: nat)
    requires |g| == N * N
  {
    forall k :: i <= k < |g| ==> StableAt(N, g, k)
  }

  /** No square holds more spots than it has neighbours. */
  predicate Stable(N: nat, g: seq<Square>)
    requires |g| == N * N
  {
    StableFrom(N, g, 0)
  }

  /** One pass of `balanceBoard` over squares `i`..N*N-1: returns the grid after
      the pass and whether any square exploded. Later squares see the effects
      of earlier explosions in the same pass. */
  function PassFrom(N: nat, g: seq<Square>, i: nat): (r: (seq<Square>, bool))
    requires |g| == N * N && i <= |g|
    ensures |r.0| == |g|
    ensures !r.1 <==> StableFrom(N, g, i)
    ensures !r.1 ==> r.0 == g
    decreases |g| - i
  {
    if i == |g| then (g, false)
    else if !StableAt(N, g, i) then
      var after := PassFrom(N, ExplodeAt(N, g, i), i + 1);
      (after.0, true)
    else
      PassFrom(N, g, i + 1)
  }

  /** The end of a cascade: the settled grid with the final value of the
      `_balanced` flag, or `OutOfFuel` when the pass bound ran out. */
  datatype Outcome = Settled(grid: seq<Square>, balanced: bool) | OutOfFuel

  /** `balanceBoard`, allowed at most `fuel` passes. */
  function Balance(N: nat, g: seq<Square>, balanced: bool, fuel: nat): (r: Outcome)
    requires |g| == N * N
    ensures r.Settled? ==> |r.grid| == |g|
    decreases fuel
  {
    if balanced || GetWinner(N, g).Some? then Settled(g, balanced)
    else if fuel == 0 then OutOfFuel
    else
      var pass := PassFrom(N, g, 0);
      Balance(N, pass.0, !pass.1, fuel - 1)
  }

  /** A cascade that had work to do and settles without a winner leaves
      every square stable, and sets the flag. */
  lemma {:induction false} BalanceEndsStable(N: nat, g: seq<Square>, balanced: bool, fuel: nat)
    requires |g| == N * N
    requires Balance(N, g, balanced, fuel).Settled? && !balanced
    requires GetWinner(N, Balance(N, g, balanced, fuel).grid).None?
    ensures Balance(N, g, balanced, fuel).balanced
    ensures Stable(N, Balance(N, g, balanced, fuel).grid)
    decreases fuel
  {
    var out := Balance(N, g, balanced, fuel);
    var pass := PassFrom(N, g, 0);
    assert GetWinner(N, g).None? && fuel > 0 && out == Balance(N, pass.0, !pass.1, fuel - 1);
    if pass.1 {
      BalanceEndsStable(N, pass.0, false, fuel - 1);
      assert out.balanced && Stable(N, out.grid);
    } else {
      assert StableFrom(N, g, 0) && pass.0 == g;
      assert out == Settled(g, true);
    }
  }

  /** A cascade does nothing when the flag says the board is balanced or
      when one side already owns every square. */
  lemma BalanceNoWork(N: nat, g: seq<Square>, balanced: bool, fuel: nat)
    requires |g| == N * N
    requires balanced || GetWinner(N, g).Some?
    ensures Balance(N, g, balanced, fuel) == Settled(g, balanced)
  {
  }

  /** The pass bound only decides whether a cascade finishes, never how. */
  lemma {:induction false} BalanceFuelMonotone(N: nat, g: seq<Square>, balanced: bool, fuel: nat, more: nat)
    requires |g| == N * N && fuel <= more
    requires Balance(N, g, balanced, fuel).Settled?
    ensures Balance(N, g, balanced, more) == Balance(N, g, balanced, fuel)
    decreases fuel
  {
    if !balanced && GetWinner(N, g).None? {
      var pass := PassFrom(N, g, 0);
      var next, done := pass.0, !pass.1;
      assert fuel > 0 && Balance(N, g, balanced, fuel) == Balance(N, next, done, fuel - 1);
      assert Balance(N, g, balanced, more) == Balance(N, next, done, more - 1);
      BalanceFuelMonotone(N, next, done, fuel - 1, more - 1);
    } else {
      assert Balance(N, g, balanced, more) == Settled(g, balanced);
      assert Balance(N, g, balanced, fuel) == Settled(g, balanced);
    }
  }

  /** On a stable board with no winner, a cascade makes one pass, changes
      nothing and sets the flag. */
  lemma BalanceStable(N: nat, g: seq<Square>, balanced: bool, fuel: nat)
    requires |g| == N * N && Stable(N, g) && fuel >= 1
    ensures Balance(N, g, balanced, fuel) == Settled(g, balanced || GetWinner(N, g).None?)
  {
  }

  /** On a board of side at least 2 every square has two or more neighbours. */
  lemma NeighborsAtLeastTwo(N: nat, k: int)
    requires N >= 2 && ExistsSq(N, k)
    ensures Neighbors(N, k) >= 2
  {
    SquareRoundTrip(N, k);
  }

  /** A pass walks past stable squares without changing anything. */
  lemma {:induction false} PassSkipsStable(N: nat, g: seq<Square>, i: nat, n: nat)
    requires |g| == N * N && i <= n <= |g|
    requires forall k :: i <= k < n ==> StableAt(N, g, k)
    ensures PassFrom(N, g, i) == PassFrom(N, g, n)
    decreases n - i
  {
    if i < n {
      assert StableAt(N, g, i);
      PassSkipsStable(N, g, i + 1, n);
    }
  }

  /** When the first unstable square is `n` and its explosion leaves every
      square stable with no winner, a cascade with two passes to spare ends
      with exactly that one explosion. */
  lemma SingleExplosion(N: nat, g: seq<Square>, n: nat, fuel: nat)
    requires |g| == N * N && n < |g| && fuel >= 2
    requires GetWinner(N, g).None?
    requires forall k :: 0 <= k < n ==> StableAt(N, g, k)
    requires !StableAt(N, g, n)
    requires Stable(N, ExplodeAt(N, g, n)) && GetWinner(N, ExplodeAt(N, g, n)).None?
    ensures Balance(N, g, false, fuel) == Settled(ExplodeAt(N, g, n), true)
  {
    var e := ExplodeAt(N, g, n);
    PassSkipsStable(N, g, 0, n);
    assert StableFrom(N, e, n + 1);
    assert PassFrom(N, g, 0) == (e, true);
    BalanceStable(N, e, false, fuel - 1);
  }
}
