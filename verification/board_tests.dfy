/** The scenarios of the repository's unit tests (BoardTest.java), stated as
    lemmas about the model. */
module BoardTests {
  import opened Results
  import opened Sides
  import opened JavaInts
  import opened BoardGeometry
  import opened BoardQueries
  import opened Cascade
  import opened MutableBoard
  import opened BoardText

  /** The grids of `testMove` on an N x N board: cleared, then after each of
      its three moves. Square 0 is (1,1), square 1 is (1,2) and square N is
      (2,1). */
  function G0(N: nat): seq<Square> { Clear(N).grid }
  function G1(N: nat): seq<Square> requires N >= 3 { G0(N)[0 := Square(Red, 2)] }
  function G2(N: nat): seq<Square> requires N >= 3 { G1(N)[N := Square(Blue, 2)] }
  function G3(N: nat): seq<Square> requires N >= 3 { G0(N)[0 := Square(Red, 1)][1 := Square(Red, 2)][N := Square(Red, 3)] }

  /** Where the three squares of the scenario sit. */
  lemma Corner(N: nat)
    requires N >= 3
    ensures SqNum(N, 1, 1) == 0 && SqNum(N, 1, 2) == 1 && SqNum(N, 2, 1) == N
    ensures Neighbors(N, 0) == 2 && Neighbors(N, 1) == 3 && Neighbors(N, N) == 3
    ensures N * N >= 9
  {
    RowColRoundTrip(N, 1, 1);
    RowColRoundTrip(N, 1, 2);
    RowColRoundTrip(N, 2, 1);
    MulMono(3, N, N);
    MulMono(3, N, 3);
  }

  /** A grid with a White square at index 2 has no winner. */
  lemma NoWinner(N: nat, g: seq<Square>)
    requires |g| == N * N && |g| > 2 && g[2].side == White
    ensures GetWinner(N, g).None?
  {
    GetWinnerSpec(N, g);
  }

  /** A grid whose squares hold at most two spots, except squares 1 and N
      which hold at most three, is stable. */
  lemma StableScenario(N: nat, g: seq<Square>)
    requires N >= 3 && |g| == N * N
    requires forall k :: 0 <= k < |g| && k != 1 && k != N ==> g[k].spots <= 2
    requires g[1].spots <= 3 && g[N].spots <= 3
    ensures Stable(N, g)
  {
    Corner(N);
    forall k | 0 <= k < |g|
      ensures StableAt(N, g, k)
    {
      NeighborsAtLeastTwo(N, k);
    }
  }

  /** First move of `testMove`: Red on (1,1), square 0, which takes a second
      spot without exploding. */
  lemma TestMoveFirst(N: nat, fuel: nat)
    requires N >= 3 && fuel >= 1
    ensures AddSpotRC(Clear(N), Red, 1, 1, fuel) == Success(Board(N, G1(N), [G0(N)], true))
  {
    var b := Clear(N);
    Corner(N);
    ClearStable(N);
    QuietMove(b, Red, 0, fuel);
    var r := AddSpot(b, Red, 0, fuel).value;
    assert r.grid == G1(N);
    NoWinner(N, G1(N));
    assert r == Board(N, G1(N), [G0(N)], true);
  }

  /** Second move: Blue on (2,1), square N, which takes a second spot. */
  lemma TestMoveSecond(N: nat, fuel: nat)
    requires N >= 3 && fuel >= 1
    ensures AddSpotRC(Board(N, G1(N), [G0(N)], true), Blue, 2, 1, fuel)
      == Success(Board(N, G2(N), [G0(N), G1(N)], true))
  {
    var b := Board(N, G1(N), [G0(N)], true);
    Corner(N);
    StableScenario(N, G1(N));
    QuietMove(b, Blue, N, fuel);
    var r := AddSpot(b, Blue, N, fuel).value;
    assert r.grid == G2(N);
    NoWinner(N, G2(N));
    assert r == Board(N, G2(N), [G0(N), G1(N)], true);
  }

  /** Exploding the corner after Red's third spot there gives G3: the corner
      keeps one spot and its neighbours 1 and N gain one each, all Red. */
  lemma ThirdExplosion(N: nat)
    requires N >= 3
    ensures |G2(N)| == N * N
    ensures ExplodeAt(N, G2(N)[0 := Square(Red, 3)], 0) == G3(N)
  {
    Corner(N);
    var p := G2(N)[0 := Square(Red, 3)];
    ExplodeAtSpec(N, p, 0);
    forall k | 0 <= k < N * N
      ensures ExplodeAt(N, p, 0)[k] == G3(N)[k]
    {
      AdjacentCases(N, 0, k);
      RowColRoundTrip(N, 1, 1);
    }
  }

  /** Third move: Red on (1,1) again; the corner overflows and one explosion
      settles the board, so two cascade passes are needed. */
  lemma TestMoveThird(N: nat, fuel: nat)
    requires N >= 3 && fuel >= 2
    ensures AddSpotRC(Board(N, G2(N), [G0(N), G1(N)], true), Red, 1, 1, fuel)
      == Success(Board(N, G3(N), [G0(N), G1(N), G2(N)], true))
  {
    var b := Board(N, G2(N), [G0(N), G1(N)], true);
    Corner(N);
    var p := G2(N)[0 := Square(Red, 3)];
    assert Set(MarkUndo(b), 0, 3, Red).grid == p;
    ThirdExplosion(N);
    StableScenario(N, G3(N));
    NoWinner(N, p);
    NoWinner(N, G3(N));
    SingleExplosion(N, p, 0, fuel);
    var r := AddSpot(b, Red, 0, fuel).value;
    assert r.grid == G3(N) && r.balanced;
    assert r == Board(N, G3(N), [G0(N), G1(N), G2(N)], true);
  }

  /** `testMove`, on any board of side 3 or more (the test uses 6): the three
      moves, then three undos back to the cleared board, whose flag stays
      set. */
  lemma TestMove(N: nat, fuel: nat)
    requires N >= 3 && fuel >= 2
    ensures var b1 := AddSpotRC(Clear(N), Red, 1, 1, fuel);
      && b1.Success? && b1.value.grid == G1(N)
      && var b2 := AddSpotRC(b1.value, Blue, 2, 1, fuel);
      && b2.Success? && b2.value.grid == G2(N)
      && var b3 := AddSpotRC(b2.value, Red, 1, 1, fuel);
      && b3.Success? && b3.value.grid == G3(N)
      && Undo(b3.value).grid == G2(N)
      && Undo(Undo(b3.value)).grid == G1(N)
      && Undo(Undo(Undo(b3.value))) == Clear(N)
  {
    TestMoveFirst(N, fuel);
    TestMoveSecond(N, fuel);
    TestMoveThird(N, fuel);
    var b3 := Board(N, G3(N), [G0(N), G1(N), G2(N)], true);
    assert Undo(b3) == Board(N, G2(N), [G0(N), G1(N)], true);
    assert Undo(Undo(b3)) == Board(N, G1(N), [G0(N)], true);
  }

  /** `testSet`, on any board of side 2 or more (the test uses 5): setting
      (2,2) to one Red spot makes it Red's only square and leaves every other
      square White. */
  lemma TestSet(N: nat)
    requires N >= 2
    ensures var b := SetRC(Clear(N), 2, 2, 1, Red);
      && b.grid[SqNum(N, 2, 2)] == Square(Red, 1)
      && NumOfSide(b.grid, Red) == 1
      && NumOfSide(b.grid, Blue) == 0
      && NumOfSide(b.grid, White) == N * N - 1
  {
    var g := Clear(N).grid;
    var n := SqNum(N, 2, 2);
    RowColRoundTrip(N, 2, 2);
    var b := SetRC(Clear(N), 2, 2, 1, Red);
    assert b.grid == g[n := Square(Red, 1)];
    ClearFacts(N);
    NumOfSideExtremes(g, Red);
    NumOfSideExtremes(g, Blue);
    NumOfSideUpdate(g, n, Square(Red, 1), Red);
    NumOfSideUpdate(g, n, Square(Red, 1), Blue);
    NumOfSideUpdate(g, n, Square(Red, 1), White);
  }

  /** `testNumPieces`, on any board of side 2 or more (the test uses 6): a
      cleared board holds one spot per square; `set(1, 3, RED)` adds two and
      `set(1, 5, RED)` two more. */
  lemma TestNumPieces(N: nat)
    requires N >= 2
    ensures NumPieces(Clear(N).grid) == N * N
    ensures NumPieces(Set(Clear(N), 1, 3, Red).grid) == N * N + 2
    ensures NumPieces(Set(Set(Clear(N), 1, 3, Red), 1, 5, Red).grid) == N * N + 4
  {
    var g := Clear(N).grid;
    MulMono(2, N, N);
    ClearFacts(N);
    NumPiecesUpdate(g, 1, Square(Red, 3));
    NumPiecesUpdate(g[1 := Square(Red, 3)], 1, Square(Red, 5));
  }

  /** `testEquals`, on any board of side 2 or more and for any square hash,
      for `equals` as written and as corrected: two cleared boards are equal,
      setting square 1 of one makes them unequal, and setting it on the other
      too makes them equal again. */
  lemma TestEquals(N: nat, hash: Square -> int)
    requires N >= 2
    ensures var a := Clear(N);
      && EqualsAsWritten(a, a, hash)
      && !EqualsAsWritten(Set(a, 1, 3, Red), a, hash)
      && EqualsAsWritten(Set(a, 1, 3, Red), Set(a, 1, 3, Red), hash)
      && EqualsAllSquares(a, a, hash)
      && !EqualsAllSquares(Set(a, 1, 3, Red), a, hash)
      && EqualsAllSquares(Set(a, 1, 3, Red), Set(a, 1, 3, Red), hash)
  {
    var a := Clear(N);
    MulMono(2, N, N);
    assert Set(a, 1, 3, Red).grid[1] != a.grid[1];
  }

  /** `testHashCode`: setting square 1 of a cleared board changes its hash
      code, provided the square hash, a Java `int`, tells a Red square with
      three spots from a White one with one spot. */
  lemma TestHashCode(N: nat, hash: Square -> int)
    requires N >= 2
    requires IntMin <= hash(Square(Red, 3)) <= IntMax && IntMin <= hash(Initial) <= IntMax
    requires hash(Square(Red, 3)) != hash(Initial)
    ensures HashCode(Set(Clear(N), 1, 3, Red), hash) != HashCode(Clear(N), hash)
  {
    var a := Clear(N);
    MulMono(2, N, N);
    var b := Set(a, 1, 3, Red);
    assert b.grid == a.grid[1 := Square(Red, 3)];
    SumHashesUpdate(a.grid, 1, Square(Red, 3), hash);
    var x := 341 + N + SumHashes(a.grid, hash);
    var d := hash(Square(Red, 3)) - hash(Initial);
    var y := x + d;
    assert HashCode(a, hash) == Wrap(x) && HashCode(b, hash) == Wrap(y);
    WrapCongruent(x);
    WrapCongruent(y);
  }

  /** The texts of `n` copies of `t`, one after the other. */
  function Repeat(t: string, n: nat): string
  {
    if n == 0 then "" else t + Repeat(t, n - 1)
  }

  /** When every square of a grid is the same, the dump's rows from `r` on
      are copies of one line. */
  lemma {:induction false} UniformLines(N: nat, g: seq<Square>, show: Square -> string, x: Square, r: nat)
    requires |g| == N * N && r <= N
    requires forall k :: 0 <= k < |g| ==> g[k] == x
    ensures Lines(N, g, show, r) == Repeat("    " + Joined(seq(N, _ => x), show) + "\n", N - r)
    decreases N - r
  {
    if r < N {
      RowBounds(N, r);
      assert g[r * N..(r + 1) * N] == seq(N, _ => x);
      UniformLines(N, g, show, x, r + 1);
    }
  }

  /** Six copies of a text. */
  lemma RepeatSix(t: string)
    ensures Repeat(t, 6) == t + t + t + t + t + t
  {
    assert Repeat(t, 1) == t;
    assert Repeat(t, 2) == t + t;
    assert Repeat(t, 3) == t + (t + t);
    assert Repeat(t, 4) == t + (t + t + t);
    assert Repeat(t, 5) == t + (t + t + t + t);
  }

  /** A row of six equal squares reads as six copies of one square's text,
      separated by spaces. */
  lemma JoinedSix(x: Square, show: Square -> string)
    ensures var c := show(x);
      Joined(seq(6, _ => x), show) == c + " " + c + " " + c + " " + c + " " + c + " " + c
  {
    var row := seq(6, _ => x);
    var c := show(x);
    assert Joined(row[4..], show) == c + " " + c by {
      assert row[4..][1..] == row[5..] == [x];
    }
    assert Joined(row[3..], show) == c + " " + (c + " " + c) by {
      assert row[3..][1..] == row[4..];
    }
    assert Joined(row[2..], show) == c + " " + (c + " " + (c + " " + c)) by {
      assert row[2..][1..] == row[3..];
    }
    assert Joined(row[1..], show) == c + " " + (c + " " + (c + " " + (c + " " + c))) by {
      assert row[1..][1..] == row[2..];
    }
    assert Joined(row, show) == c + " " + (c + " " + (c + " " + (c + " " + (c + " " + c))));
  }

  /** `testToString`: the dump of a cleared 6 x 6 board is a line of `===`,
      six lines of four spaces and six copies of the text of an initial
      square separated by spaces ("1-" in the test, from `Square.toString`),
      and a closing `===`. */
  lemma TestToString(show: Square -> string)
    ensures var c := show(Initial);
      var line := "    " + (c + " " + c + " " + c + " " + c + " " + c + " " + c) + "\n";
      Dump(6, Clear(6).grid, show) == "===\n" + (line + line + line + line + line + line) + "==="
  {
    var g := Clear(6).grid;
    DumpLayout(6, g, show);
    UniformLines(6, g, show, Initial, 0);
    JoinedSix(Initial, show);
    var c := show(Initial);
    var line := "    " + (c + " " + c + " " + c + " " + c + " " + c + " " + c) + "\n";
    RepeatSix(line);
  }
}
