/** Read-only queries on a grid of squares (Board.java, and the counting
    loops of MutableBoard.java). A grid of an N x N board is a sequence of
    N*N squares in row-major order. */
module BoardQueries {
  import opened Sides
  import opened BoardGeometry
  import opened Results

  /** `numPieces`: the total number of spots on the grid. */
  function NumPieces(g: seq<Square>): nat
  {
    if |g| == 0 then 0 else g[0].spots + NumPieces(g[1..])
  }

  /** `numOfSide(s)`: how many squares `s` owns. */
  function NumOfSide(g: seq<Square>, s: Side): (r: nat)
    ensures r <= |g|
  {
    if |g| == 0 then 0
    else (if g[0].side == s then 1 else 0) + NumOfSide(g[1..], s)
  }

  /** A side's count reaches the number of squares exactly when it owns them
      all, and is zero exactly when it owns none. */
  lemma {:induction false} NumOfSideExtremes(g: seq<Square>, s: Side)
    ensures NumOfSide(g, s) == |g| <==> forall k :: 0 <= k < |g| ==> g[k].side == s
    ensures NumOfSide(g, s) == 0 <==> forall k :: 0 <= k < |g| ==> g[k].side != s
  {
    if |g| > 0 {
      NumOfSideExtremes(g[1..], s);
      assert forall k :: 1 <= k < |g| ==> g[1..][k - 1] == g[k];
    }
  }

  /** Replacing one square changes the spot total by the difference in spots. */
  lemma {:induction false} NumPiecesUpdate(g: seq<Square>, k: int, x: Square)
    requires 0 <= k < |g|
    ensures NumPieces(g[k := x]) == NumPieces(g) - g[k].spots + x.spots
  {
    if k > 0 {
      assert g[k := x][1..] == g[1..][k - 1 := x];
      NumPiecesUpdate(g[1..], k - 1, x);
    }
  }

  /** Replacing one square changes each side's count by at most the two owners involved. */
  lemma {:induction false} NumOfSideUpdate(g: seq<Square>, k: int, x: Square, s: Side)
    requires 0 <= k < |g|
    ensures NumOfSide(g[k := x], s)
         == NumOfSide(g, s) - (if g[k].side == s then 1 else 0) + (if x.side == s then 1 else 0)
  {
    if k > 0 {
      assert g[k := x][1..] == g[1..][k - 1 := x];
      NumOfSideUpdate(g[1..], k - 1, x, s);
    }
  }

  /** Every square is owned by exactly one of the three sides. */
  lemma {:induction false} SideCountsPartition(g: seq<Square>)
    ensures NumOfSide(g, Red) + NumOfSide(g, Blue) + NumOfSide(g, White) == |g|
  {
    if |g| > 0 {
      SideCountsPartition(g[1..]);
    }
  }

  /** A grid of `n` squares with the same content `x` holds `n * x.spots` spots. */
  lemma {:induction false} NumPiecesUniform(n: nat, x: Square)
    ensures NumPieces(seq(n, _ => x)) == n * x.spots
  {
    if n > 0 {
      assert seq(n, _ => x)[1..] == seq(n - 1, _ => x);
      NumPiecesUniform(n - 1, x);
    }
  }

  /** `whoseMove`: Red when spots plus board size is even, Blue otherwise. */
  function WhoseMove(N: nat, g: seq<Square>): Side
  {
    if (NumPieces(g) + N) % 2 == 0 then Red else Blue
  }

  /** Adding exactly one spot to the board hands the move to the other player. */
  lemma WhoseMoveFlips(N: nat, g1: seq<Square>, g2: seq<Square>)
    requires NumPieces(g2) == NumPieces(g1) + 1
    ensures WhoseMove(N, g2) == Opposite(WhoseMove(N, g1))
    ensures WhoseMove(N, g1) != White
  {
  }

  /** `isLegal(player, n)`: `n` is on the board and `player` may play on its owner. */
  predicate IsLegal(N: nat, g: seq<Square>, player: Side, n: int)
    requires |g| == N * N
    ensures IsLegal(N, g, player, n) ==> 0 <= n < |g|
    ensures 0 <= n < |g| ==>
      (IsLegal(N, g, player, n) <==> g[n].side == White || g[n].side == player)
  {
    ExistsSq(N, n) && PlayableSquare(player, g[n].side)
  }

  /** `isLegal(player)`: whether the side to move may play on a square of
      `player`'s opponent. For Red or Blue this holds exactly when it is NOT
      `player`'s turn. */
  predicate IsLegalToMove(N: nat, g: seq<Square>, player: Side)
    ensures player != White ==> (IsLegalToMove(N, g, player) <==> WhoseMove(N, g) != player)
    ensures player == White ==> IsLegalToMove(N, g, player)
  {
    PlayableSquare(WhoseMove(N, g), Opposite(player))
  }

  /** `getWinner`: Blue if Blue owns every square, else Red if Red does, else no winner. */
  function GetWinner(N: nat, g: seq<Square>): (w: Option<Side>)
    requires |g| == N * N
    ensures w != Some(White)
  {
    if NumOfSide(g, Blue) == N * N then Some(Blue)
    else if NumOfSide(g, Red) == N * N then Some(Red)
    else None
  }

  /** Blue wins exactly when it owns every square; Red wins exactly when it
      owns every square of a non-empty board; otherwise nobody has won. */
  lemma GetWinnerSpec(N: nat, g: seq<Square>)
    requires |g| == N * N
    ensures GetWinner(N, g) == Some(Blue) <==> forall k :: 0 <= k < |g| ==> g[k].side == Blue
    ensures GetWinner(N, g) == Some(Red) <==> |g| > 0 && forall k :: 0 <= k < |g| ==> g[k].side == Red
    ensures GetWinner(N, g).None? <==>
      (exists k :: 0 <= k < |g| && g[k].side != Blue) && (exists k :: 0 <= k < |g| && g[k].side != Red)
  {
    NumOfSideExtremes(g, Blue);
    NumOfSideExtremes(g, Red);
  }
}
