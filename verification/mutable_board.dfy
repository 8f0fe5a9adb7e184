/** The modifiable board (MutableBoard.java): its contents, its undo history
    and the flag recording whether the last cascade left it balanced.

    Java's board object is mutated in place; here every operation returns the
    new board. The undo stack holds snapshots of the grid (the pushed copies
    are only ever read back through `internalCopy`, which copies the grid), the
    top of the stack being the last element. */
module MutableBoard {
  import opened Results
  import opened Sides
  import opened JavaInts
  import opened BoardGeometry
  import opened BoardQueries
  import opened Cascade

  /** `_size`, `_boardArray`, `_boardStack` and `_balanced`. */
  datatype Board = Board(size: nat, grid: seq<Square>, history: seq<seq<Square>>, balanced: bool)

  /** The grid and every snapshot hold `size * size` squares. */
  predicate Valid(b: Board)
  {
    && |b.grid| == b.size * b.size
    && forall k :: 0 <= k < |b.history| ==> |b.history[k]| == b.size * b.size
  }

  /** `clear(N)` (and the constructor `MutableBoard(N)`). */
  function Clear(N: nat): (r: Board)
    ensures Valid(r) && r.size == N && r.history == [] && r.balanced
    ensures forall k :: 0 <= k < |r.grid| ==> r.grid[k] == Square(White, 1)
  {
    Board(N, seq(N * N, _ => Initial), [], true)
  }

  /** A cleared board holds one spot per square, is White's alone, and gives
      the first move to Red; a non-empty one has no winner. */
  lemma ClearFacts(N: nat)
    ensures NumPieces(Clear(N).grid) == N * N
    ensures NumOfSide(Clear(N).grid, White) == N * N
    ensures WhoseMove(N, Clear(N).grid) == Red
    ensures N > 0 ==> GetWinner(N, Clear(N).grid).None?
  {
    var g := Clear(N).grid;
    NumPiecesUniform(N * N, Initial);
    assert g == seq(N * N, _ => Initial);
    NumOfSideExtremes(g, White);
    NumOfSideExtremes(g, Blue);
    NumOfSideExtremes(g, Red);
    assert (N * N + N) % 2 == 0 by {
      assert N * N + N == N * (N + 1);
      ProductOfConsecutiveIsEven(N);
    }
    if N > 0 {
      assert g[0].side == White;
    }
  }

  /** A cleared board of side at least 2 is stable. */
  lemma ClearStable(N: nat)
    requires N >= 2
    ensures Stable(N, Clear(N).grid)
  {
    var g := Clear(N).grid;
    forall k | 0 <= k < |g|
      ensures StableAt(N, g, k)
    {
      NeighborsAtLeastTwo(N, k);
    }
  }

  /** `n * (n + 1)` is even. */
  lemma {:induction false} ProductOfConsecutiveIsEven(n: nat)
    ensures (n * (n + 1)) % 2 == 0
  {
    if n > 0 {
      ProductOfConsecutiveIsEven(n - 1);
      assert n * (n + 1) == (n - 1) * n + 2 * n;
    }
  }

  /** `copy(board)`: take the size and contents of `src` and start an empty undo
      history. The balance flag of the receiving board is not touched. */
  function Copy(b: Board, src: Board): (r: Board)
    requires Valid(src)
    ensures Valid(r) && r.size == src.size && r.history == [] && r.balanced == b.balanced
    ensures forall k :: 0 <= k < |src.grid| ==> r.grid[k] == src.grid[k]
  {
    Board(src.size, src.grid, [], b.balanced)
  }

  /** The constructor `MutableBoard(board0)`: a copy of `board0` whose balance
      flag keeps Java's default `false`. */
  function FromBoard(src: Board): (r: Board)
    requires Valid(src)
    ensures Valid(r) && r.size == src.size && r.grid == src.grid && r.history == [] && !r.balanced
  {
    Copy(Board(0, [], [], false), src)
  }

  /** A copy has the same size and squares as its source, so the corrected
      `equals` accepts it, and its undo history is empty. */
  lemma CopyEquals(b: Board, src: Board, hash: Square -> int)
    requires Valid(src)
    ensures EqualsAllSquares(Copy(b, src), src, hash)
    ensures Undo(Copy(b, src)) == Copy(b, src)
  {
    var c := Copy(b, src);
    assert c.grid == src.grid;
    EqualsAllSquaresSpec(c, src, hash);
  }

  /** `set(n, num, player)`: when `player` may play on square `n`, the square
      becomes `num` spots of `player` and the flag drops; otherwise nothing
      happens. No cascade follows and the undo history is kept. */
  function Set(b: Board, n: int, num: nat, player: Side): (r: Board)
    requires Valid(b)
    ensures Valid(r) && r.size == b.size && r.history == b.history
    ensures forall k :: 0 <= k < |b.grid| && k != n ==> r.grid[k] == b.grid[k]
    ensures IsLegal(b.size, b.grid, player, n) ==> r.grid[n] == Square(player, num) && !r.balanced
    ensures !IsLegal(b.size, b.grid, player, n) ==> r == b
  {
    if IsLegal(b.size, b.grid, player, n) then
      b.(grid := b.grid[n := Square(player, num)], balanced := false)
    else b
  }

  /** `set(r, c, num, player)`. */
  function SetRC(b: Board, r: int, c: int, num: nat, player: Side): (res: Board)
    requires Valid(b)
    ensures Valid(res) && res.history == b.history
    ensures ExistsRC(b.size, r, c) && PlayableSquare(player, b.grid[SqNum(b.size, r, c)].side) ==>
      res.grid == b.grid[SqNum(b.size, r, c) := Square(player, num)]
    ensures ExistsRC(b.size, r, c) && !PlayableSquare(player, b.grid[SqNum(b.size, r, c)].side) ==>
      res == b
  {
    assert ExistsRC(b.size, r, c) ==> ExistsSq(b.size, SqNum(b.size, r, c)) by {
      if ExistsRC(b.size, r, c) {
        RowColRoundTrip(b.size, r, c);
      }
    }
    Set(b, SqNum(b.size, r, c), num, player)
  }

  /** `markUndo`: push a snapshot of the current grid. */
  function MarkUndo(b: Board): (r: Board)
    requires Valid(b)
    ensures Valid(r) && r.size == b.size && r.grid == b.grid && r.balanced == b.balanced
    ensures |r.history| == |b.history| + 1 && r.history[..|b.history|] == b.history
    ensures r.history[|b.history|] == b.grid
  {
    b.(history := b.history + [b.grid])
  }

  /** `undo`: restore the grid on top of the history and pop it; with an empty
      history nothing changes. The balance flag is not restored. */
  function Undo(b: Board): (r: Board)
    requires Valid(b)
    ensures Valid(r) && r.size == b.size && r.balanced == b.balanced
    ensures |b.history| == 0 ==> r == b
    ensures |b.history| > 0 ==> |r.history| == |b.history| - 1
    ensures |b.history| > 0 ==> r.grid == b.history[|b.history| - 1]
    ensures |b.history| > 0 ==> r.history == b.history[..|b.history| - 1]
  {
    if |b.history| == 0 then b
    else b.(grid := b.history[|b.history| - 1], history := b.history[..|b.history| - 1])
  }

  /** Undoing right after marking gives back the board exactly. */
  lemma UndoAfterMarkUndo(b: Board)
    requires Valid(b)
    ensures Undo(MarkUndo(b)) == b
  {
    var m := MarkUndo(b);
    assert m.history[..|m.history| - 1] == b.history;
  }

  /** Why `addSpot` does not produce a board: Java's array access fails on an
      index outside the board, and the model's pass bound can run out. */
  datatype MoveError = IndexOutOfBounds | CascadeUnresolved

  /** `addSpot(player, n)`: read square `n` (failing off the board), push a
      snapshot, set the square to one more spot for `player` when that is
      legal, then run the cascade with at most `fuel` passes. */
  function AddSpot(b: Board, player: Side, n: int, fuel: nat): (r: Result<Board, MoveError>)
    requires Valid(b)
    ensures r == Failure(IndexOutOfBounds) <==> !(0 <= n < |b.grid|)
    ensures r.Success? ==> Valid(r.value) && r.value.size == b.size
    ensures r.Success? ==> r.value.history == b.history + [b.grid]
  {
    if !(0 <= n < |b.grid|) then Failure(IndexOutOfBounds)
    else
      var marked := MarkUndo(b);
      var placed := Set(marked, n, b.grid[n].spots + 1, player);
      match Balance(b.size, placed.grid, placed.balanced, fuel)
      case OutOfFuel => Failure(CascadeUnresolved)
      case Settled(g, balanced) => Success(placed.(grid := g, balanced := balanced))
  }

  /** `addSpot(player, r, c)`. */
  function AddSpotRC(b: Board, player: Side, r: int, c: int, fuel: nat): (res: Result<Board, MoveError>)
    requires Valid(b)
    ensures ExistsRC(b.size, r, c) ==> res != Failure(IndexOutOfBounds)
    ensures res.Success? ==> Valid(res.value) && res.value.history == b.history + [b.grid]
  {
    assert ExistsRC(b.size, r, c) ==> 0 <= SqNum(b.size, r, c) < |b.grid| by {
      if ExistsRC(b.size, r, c) {
        RowColRoundTrip(b.size, r, c);
      }
    }
    AddSpot(b, player, SqNum(b.size, r, c), fuel)
  }

  /** An illegal move on a balanced board only pushes a snapshot: no square
      changes. */
  lemma AddSpotRejected(b: Board, player: Side, n: int, fuel: nat)
    requires Valid(b) && b.balanced && 0 <= n < |b.grid|
    requires !IsLegal(b.size, b.grid, player, n)
    ensures AddSpot(b, player, n, fuel) == Success(b.(history := b.history + [b.grid]))
  {
    var placed := Set(MarkUndo(b), n, b.grid[n].spots + 1, player);
    assert placed == MarkUndo(b);
    BalanceNoWork(b.size, placed.grid, true, fuel);
  }

  /** After a legal move, or any move on an unbalanced board, a cascade that
      settles without a winner leaves every square stable and the flag set. */
  lemma AddSpotSettles(b: Board, player: Side, n: int, fuel: nat)
    requires Valid(b)
    requires IsLegal(b.size, b.grid, player, n) || !b.balanced
    requires AddSpot(b, player, n, fuel).Success?
    requires GetWinner(b.size, AddSpot(b, player, n, fuel).value.grid).None?
    ensures AddSpot(b, player, n, fuel).value.balanced
    ensures Stable(b.size, AddSpot(b, player, n, fuel).value.grid)
  {
    var placed := Set(MarkUndo(b), n, b.grid[n].spots + 1, player);
    assert !placed.balanced;
    BalanceEndsStable(b.size, placed.grid, placed.balanced, fuel);
  }

  /** Undoing a move restores the grid and the undo history from before it. */
  lemma UndoAfterAddSpot(b: Board, player: Side, n: int, fuel: nat)
    requires Valid(b)
    requires AddSpot(b, player, n, fuel).Success?
    ensures Undo(AddSpot(b, player, n, fuel).value).grid == b.grid
    ensures Undo(AddSpot(b, player, n, fuel).value).history == b.history
  {
    var after := AddSpot(b, player, n, fuel).value;
    assert after.history == b.history + [b.grid];
    assert after.history[..|after.history| - 1] == b.history;
  }

  /** A legal move onto a square that can take one more spot, on a stable
      board, just adds that spot: the spot total grows by one and the move
      passes to the other player; the flag ends set unless the move won. */
  lemma QuietMove(b: Board, player: Side, n: int, fuel: nat)
    requires Valid(b) && Stable(b.size, b.grid) && fuel >= 1
    requires IsLegal(b.size, b.grid, player, n)
    requires b.size > 0 && b.grid[n].spots + 1 <= Neighbors(b.size, n)
    ensures AddSpot(b, player, n, fuel).Success?
    ensures AddSpot(b, player, n, fuel).value.grid == b.grid[n := Square(player, b.grid[n].spots + 1)]
    ensures NumPieces(AddSpot(b, player, n, fuel).value.grid) == NumPieces(b.grid) + 1
    ensures WhoseMove(b.size, AddSpot(b, player, n, fuel).value.grid) == Opposite(WhoseMove(b.size, b.grid))
    ensures Stable(b.size, AddSpot(b, player, n, fuel).value.grid)
    ensures AddSpot(b, player, n, fuel).value.balanced
      == GetWinner(b.size, AddSpot(b, player, n, fuel).value.grid).None?
  {
    var N := b.size;
    var g := b.grid[n := Square(player, b.grid[n].spots + 1)];
    assert Stable(N, g) by {
      forall k | 0 <= k < |g|
        ensures StableAt(N, g, k)
      {
        assert StableAt(N, b.grid, k);
      }
    }
    BalanceStable(N, g, false, fuel);
    NumPiecesUpdate(b.grid, n, g[n]);
    WhoseMoveFlips(N, b.grid, g);
  }

  /** The sum of the square hashes of a grid, as mathematical integers. */
  function SumHashes(g: seq<Square>, hash: Square -> int): int
  {
    if |g| == 0 then 0 else SumHashes(g[..|g| - 1], hash) + hash(g[|g| - 1])
  }

  /** `hashCode`: 11 * 31 plus the size and every square's hash, in Java `int`
      arithmetic. `Square.hashCode` is not part of this model; it is the
      parameter `hash`. */
  function HashCode(b: Board, hash: Square -> int): (r: int)
    ensures IntMin <= r <= IntMax
    ensures IntMin <= 341 + b.size + SumHashes(b.grid, hash) <= IntMax ==>
      r == 341 + b.size + SumHashes(b.grid, hash)
  {
    Wrap(11 * 31 + b.size + SumHashes(b.grid, hash))
  }

  /** The loop of `hashCode`, wrapping to a Java `int` after every addition,
      computes `HashCode`. */
  method ComputeHashCode(b: Board, hash: Square -> int) returns (result: int)
    ensures result == HashCode(b, hash)
  {
    var code := Wrap(b.size);
    var i := 0;
    while i < |b.grid|
      invariant 0 <= i <= |b.grid|
      invariant code == Wrap(b.size + SumHashes(b.grid[..i], hash))
    {
      var x := hash(b.grid[i]);
      assert SumHashes(b.grid[..i + 1], hash) == SumHashes(b.grid[..i], hash) + x by {
        assert b.grid[..i + 1][..i] == b.grid[..i];
      }
      assert Wrap(code + x) == Wrap(b.size + SumHashes(b.grid[..i + 1], hash)) by {
        WrapAdd(b.size + SumHashes(b.grid[..i], hash), x);
      }
      code := Wrap(code + x);
      i := i + 1;
    }
    assert code == Wrap(b.size + SumHashes(b.grid, hash)) by {
      assert b.grid[..i] == b.grid;
    }
    assert Wrap(11 * 31 + code) == HashCode(b, hash) by {
      WrapAdd(b.size + SumHashes(b.grid, hash), 11 * 31);
      assert 11 * 31 + code == code + 11 * 31;
    }
    result := Wrap(11 * 31 + code);
  }

  /** Exchanging two squares of a grid leaves the sum of square hashes alone. */
  lemma {:induction false} SumHashesSwap(g: seq<Square>, i: int, j: int, hash: Square -> int)
    requires 0 <= i < |g| && 0 <= j < |g|
    ensures SumHashes(g[i := g[j]][j := g[i]], hash) == SumHashes(g, hash)
  {
    SumHashesUpdate(g, i, g[j], hash);
    SumHashesUpdate(g[i := g[j]], j, g[i], hash);
  }

  /** Replacing one square changes the sum by the difference of the two hashes. */
  lemma {:induction false} SumHashesUpdate(g: seq<Square>, k: int, x: Square, hash: Square -> int)
    requires 0 <= k < |g|
    ensures SumHashes(g[k := x], hash) == SumHashes(g, hash) - hash(g[k]) + hash(x)
    decreases |g|
  {
    var last := |g| - 1;
    assert g[k := x][..last] == if k == last then g[..last] else g[..last][k := x];
    if k < last {
      SumHashesUpdate(g[..last], k, x, hash);
    }
  }

  /** Boards with the same size and squares hash alike, whatever their undo
      history or flag, and exchanging two squares never changes the hash. */
  lemma HashCodeContents(a: Board, b: Board, i: int, j: int, hash: Square -> int)
    requires a.size == b.size && 0 <= i < |a.grid| && 0 <= j < |a.grid|
    requires b.grid == a.grid[i := a.grid[j]][j := a.grid[i]]
    ensures HashCode(a, hash) == HashCode(b, hash)
  {
    SumHashesSwap(a.grid, i, j, hash);
  }

  /** A board's side is no longer than its grid. */
  lemma SizeFitsGrid(N: nat)
    ensures N <= N * N
  {
    if N > 0 {
      MulMono(1, N, N);
    }
  }

  /** `equals` between two boards as written: same size, same hash, and equal
      squares at the indices below `size()` only. */
  predicate EqualsAsWritten(a: Board, b: Board, hash: Square -> int)
    requires Valid(a) && Valid(b)
  {
    SizeFitsGrid(a.size);
    && a.size == b.size
    && HashCode(a, hash) == HashCode(b, hash)
    && forall i :: 0 <= i < a.size ==> a.grid[i] == b.grid[i]
  }

  /** `equals` as written accepts two boards whose grids differ by an
      exchange of two squares outside the first row, for any square hash. */
  lemma EqualsAsWrittenMissesSwaps(a: Board, i: int, j: int, hash: Square -> int)
    requires Valid(a) && a.size <= i < |a.grid| && a.size <= j < |a.grid|
    ensures EqualsAsWritten(a, a.(grid := a.grid[i := a.grid[j]][j := a.grid[i]]), hash)
  {
    var b := a.(grid := a.grid[i := a.grid[j]][j := a.grid[i]]);
    HashCodeContents(a, b, i, j, hash);
  }

  /** On a 2 x 2 board, exchanging a Red square with two spots and a Blue
      square with three spots in the second row gives a different board that
      `equals` as written still accepts. */
  lemma EqualsAsWrittenCounterexample(hash: Square -> int)
    ensures var a := Board(2, [Initial, Initial, Square(Red, 2), Square(Blue, 3)], [], true);
            var b := Board(2, [Initial, Initial, Square(Blue, 3), Square(Red, 2)], [], true);
            Valid(a) && Valid(b) && a.grid != b.grid && EqualsAsWritten(a, b, hash)
  {
    var a := Board(2, [Initial, Initial, Square(Red, 2), Square(Blue, 3)], [], true);
    var b := Board(2, [Initial, Initial, Square(Blue, 3), Square(Red, 2)], [], true);
    assert b.grid == a.grid[2 := a.grid[3]][3 := a.grid[2]];
    assert a.grid[2] != b.grid[2];
    EqualsAsWrittenMissesSwaps(a, 2, 3, hash);
  }

  /** `equals` comparing every square of the board. */
  predicate EqualsAllSquares(a: Board, b: Board, hash: Square -> int)
    requires Valid(a) && Valid(b)
  {
    && a.size == b.size
    && HashCode(a, hash) == HashCode(b, hash)
    && forall i :: 0 <= i < |a.grid| ==> a.grid[i] == b.grid[i]
  }

  /** The corrected comparison accepts exactly the boards with the same size
      and the same squares. */
  lemma EqualsAllSquaresSpec(a: Board, b: Board, hash: Square -> int)
    requires Valid(a) && Valid(b)
    ensures EqualsAllSquares(a, b, hash) <==> a.size == b.size && a.grid == b.grid
  {
    if a.size == b.size && a.grid == b.grid {
      assert HashCode(a, hash) == HashCode(b, hash) by {
        assert SumHashes(a.grid, hash) == SumHashes(b.grid, hash);
      }
    }
  }
}
