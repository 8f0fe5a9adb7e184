/** The move-selection helpers of the automated player (AI.java):
    the static evaluation of a board, the list of candidate moves, and the
    one-ply best-move guess. The search itself (`minmax`) is a stub in the
    repository and is not modelled. */
module AI {
  import opened Results
  import opened Sides
  import opened JavaInts
  import opened BoardQueries
  import opened MutableBoard

  /** `staticEval(player, b)`: the largest `int` if `player` has won, the
      smallest if the opponent has, and otherwise how many more squares
      `player` owns than the opponent. */
  function StaticEval(player: Side, N: nat, g: seq<Square>): (r: int)
    requires |g| == N * N
    ensures GetWinner(N, g) == Some(player) ==> r == IntMax
    ensures GetWinner(N, g) == Some(Opposite(player)) && player != Opposite(player) ==> r == IntMin
    ensures GetWinner(N, g).None? ==> -|g| <= r <= |g|
  {
    var mine := NumOfSide(g, player);
    var theirs := NumOfSide(g, Opposite(player));
    if GetWinner(N, g) == Some(player) then IntMax
    else if GetWinner(N, g) == Some(Opposite(player)) then IntMin
    else mine - theirs
  }

  /** With no winner, the evaluation is the ownership difference and lies
      strictly between minus and plus the number of squares; on a board of
      fewer than 2^31 squares it is therefore strictly between the two
      sentinels. */
  lemma StaticEvalNoWinner(player: Side, N: nat, g: seq<Square>)
    requires |g| == N * N && GetWinner(N, g).None? && player != White
    ensures StaticEval(player, N, g) == NumOfSide(g, player) - NumOfSide(g, Opposite(player))
    ensures -|g| < StaticEval(player, N, g) < |g|
    ensures |g| <= IntMax ==> IntMin < StaticEval(player, N, g) < IntMax
  {
    GetWinnerSpec(N, g);
    NumOfSideExtremes(g, player);
    NumOfSideExtremes(g, Opposite(player));
    SideCountsPartition(g);
  }

  /** The ascending indices `i` with `lo <= i < hi` whose square `p` owns. */
  function OwnedFrom(g: seq<Square>, p: Side, lo: nat, hi: nat): (r: seq<int>)
    requires hi <= |g|
    ensures forall i :: i in r <==> lo <= i < hi && g[i].side == p
    ensures forall a, b :: 0 <= a < b < |r| ==> r[a] < r[b]
    decreases hi - lo
  {
    if lo >= hi then []
    else
      var rest := OwnedFrom(g, p, lo + 1, hi);
      assert forall a :: 0 <= a < |rest| ==> lo < rest[a] by {
        forall a | 0 <= a < |rest|
          ensures lo < rest[a]
        {
          assert rest[a] in rest;
        }
      }
      if g[lo].side == p then [lo] + rest else rest
  }

  /** `validMoves(p, b)` as written: no list (`null`) once the game is won;
      otherwise the ascending indices below `size()` whose square `p` owns. */
  function ValidMoves(p: Side, N: nat, g: seq<Square>): (r: Option<seq<int>>)
    requires |g| == N * N
    ensures r.None? <==> GetWinner(N, g).Some?
    ensures r.Some? ==> forall i :: i in r.value <==> 0 <= i < N && g[i].side == p
    ensures r.Some? ==> forall a, b :: 0 <= a < b < |r.value| ==> r.value[a] < r.value[b]
  {
    SizeFitsGrid(N);
    if GetWinner(N, g).Some? then None else Some(OwnedFrom(g, p, 0, N))
  }

  /** `validMoves` scanning every square of the board; `GuessBestMoveAllSquares`
      below uses this version. */
  function ValidMovesAllSquares(p: Side, N: nat, g: seq<Square>): (r: Option<seq<int>>)
    requires |g| == N * N
    ensures r.None? <==> GetWinner(N, g).Some?
    ensures r.Some? ==> forall i :: i in r.value <==> 0 <= i < |g| && g[i].side == p
    ensures r.Some? ==> forall a, b :: 0 <= a < b < |r.value| ==> r.value[a] < r.value[b]
  {
    if GetWinner(N, g).Some? then None else Some(OwnedFrom(g, p, 0, |g|))
  }

  /** The two versions agree on the first row; the one as written misses
      every square beyond it. */
  lemma ValidMovesFirstRowOnly(p: Side, N: nat, g: seq<Square>)
    requires |g| == N * N && GetWinner(N, g).None?
    ensures forall i :: i in ValidMoves(p, N, g).value <==>
      i in ValidMovesAllSquares(p, N, g).value && i < N
  {
  }

  /** On a 2 x 2 board whose only Red square is in the second row, Red gets
      no candidate moves as written, although it owns a square. */
  lemma ValidMovesCounterexample()
    ensures var g := [Initial, Initial, Square(Red, 2), Initial];
            ValidMoves(Red, 2, g) == Some([])
            && ValidMovesAllSquares(Red, 2, g) == Some([2])
  {
    var g := [Initial, Initial, Square(Red, 2), Initial];
    assert GetWinner(2, g).None? by {
      GetWinnerSpec(2, g);
      assert g[0].side != Blue && g[0].side != Red;
    }
    assert OwnedFrom(g, Red, 1, 2) == [];
    assert OwnedFrom(g, Red, 0, 2) == [];
    assert OwnedFrom(g, Red, 3, 4) == [];
    assert OwnedFrom(g, Red, 2, 4) == [2];
    assert OwnedFrom(g, Red, 1, 4) == [2];
    assert OwnedFrom(g, Red, 0, 4) == [2];
  }

  /** Why `guessBestMove` yields no move: `validMoves` returned `null` (Java
      then fails iterating it), or a trial move's cascade did not settle
      within the pass bound. */
  datatype SearchError = NoMoveList | MoveFailed

  /** The board reached by playing all of `moves` in turn on `b`, each move
      on top of the previous ones, or `None` once a move fails. */
  function PlayAll(player: Side, b: Board, moves: seq<int>, fuel: nat): (r: Option<Board>)
    requires Valid(b)
    ensures r.Some? ==> Valid(r.value) && r.value.size == b.size
    decreases |moves|
  {
    if |moves| == 0 then Some(b)
    else
      match AddSpot(b, player, moves[0], fuel)
      case Failure(_) => None
      case Success(next) => PlayAll(player, next, moves[1..], fuel)
  }

  /** The evaluations the best-move loop sees when it plays all of `moves`
      in turn on the same board, each move on top of the previous ones. */
  function Scores(player: Side, b: Board, moves: seq<int>, fuel: nat): (r: Option<seq<int>>)
    requires Valid(b)
    ensures r.Some? ==> |r.value| == |moves|
    decreases |moves|
  {
    if |moves| == 0 then Some([])
    else
      match AddSpot(b, player, moves[0], fuel)
      case Failure(_) => None
      case Success(next) =>
        match Scores(player, next, moves[1..], fuel)
        case None => None
        case Some(rest) => Some([StaticEval(player, next.size, next.grid)] + rest)
  }

  /** The scores exist exactly when every move succeeds. */
  lemma {:induction false} ScoresExist(player: Side, b: Board, moves: seq<int>, fuel: nat)
    requires Valid(b)
    ensures Scores(player, b, moves, fuel).Some? <==> PlayAll(player, b, moves, fuel).Some?
    decreases |moves|
  {
    if |moves| > 0 && AddSpot(b, player, moves[0], fuel).Success? {
      ScoresExist(player, AddSpot(b, player, moves[0], fuel).value, moves[1..], fuel);
    }
  }

  /** Score `k` is the static evaluation of the board after the first `k + 1`
      moves. */
  lemma {:induction false} ScoreAt(player: Side, b: Board, moves: seq<int>, fuel: nat, k: nat)
    requires Valid(b) && Scores(player, b, moves, fuel).Some? && k < |moves|
    ensures PlayAll(player, b, moves[..k + 1], fuel).Some?
    ensures Scores(player, b, moves, fuel).value[k]
         == StaticEval(player, b.size, PlayAll(player, b, moves[..k + 1], fuel).value.grid)
    decreases k
  {
    var next := AddSpot(b, player, moves[0], fuel).value;
    var pre := moves[..k + 1];
    assert pre[0] == moves[0];
    if k == 0 {
      assert pre[1..] == [];
    } else {
      ScoreAt(player, next, moves[1..], fuel, k - 1);
      assert pre[1..] == moves[1..][..(k - 1) + 1];
    }
  }

  /** The loop of `guessBestMove` from candidate `moves[0]` on, holding the best
      move so far and its value: play the move on the shared board, evaluate
      it, take it only if it scores strictly higher, and stop once the best
      value reaches `cutoff`. */
  function Scan(player: Side, b: Board, moves: seq<int>, best: int, bestValue: int, cutoff: int, fuel: nat)
    : (r: Result<int, SearchError>)
    requires Valid(b)
    ensures r.Success? ==> r.value == best || r.value in moves
    ensures r.Failure? ==> r.error == MoveFailed
    decreases |moves|
  {
    if |moves| == 0 then Success(best)
    else
      match AddSpot(b, player, moves[0], fuel)
      case Failure(_) => Failure(MoveFailed)
      case Success(next) =>
        var value := StaticEval(player, next.size, next.grid);
        if value > bestValue then
          if value >= cutoff then Success(moves[0])
          else
            var r := Scan(player, next, moves[1..], moves[0], value, cutoff, fuel);
            assert r.Success? ==> r.value == moves[0] || r.value in moves[1..];
            r
        else
          var r := Scan(player, next, moves[1..], best, bestValue, cutoff, fuel);
          assert r.Success? ==> r.value == best || r.value in moves[1..];
          r
  }

  /** `guessBestMove(player, b, cutoff)` as written: scan the candidate moves
      that `validMoves` gives `player` on `b` on a fresh copy of `b`, starting
      from move 0 valued at the smallest `int`. The board `b` itself is never
      changed. */
  function GuessBestMove(player: Side, b: Board, cutoff: int, fuel: nat): (r: Result<int, SearchError>)
    requires Valid(b)
    ensures r == Failure(NoMoveList) <==> GetWinner(b.size, b.grid).Some?
    ensures r.Success? ==> r.value == 0 || r.value in ValidMoves(player, b.size, b.grid).value
  {
    match ValidMoves(player, b.size, b.grid)
    case None => Failure(NoMoveList)
    case Some(moves) => Scan(player, FromBoard(b), moves, 0, IntMin, cutoff, fuel)
  }

  /** `guessBestMove` over the candidate list that scans every square. */
  function GuessBestMoveAllSquares(player: Side, b: Board, cutoff: int, fuel: nat): (r: Result<int, SearchError>)
    requires Valid(b)
    ensures r == Failure(NoMoveList) <==> GetWinner(b.size, b.grid).Some?
    ensures r.Success? ==> r.value == 0 || r.value in ValidMovesAllSquares(player, b.size, b.grid).value
  {
    match ValidMovesAllSquares(player, b.size, b.grid)
    case None => Failure(NoMoveList)
    case Some(moves) => Scan(player, FromBoard(b), moves, 0, IntMin, cutoff, fuel)
  }

  /** As written, the guess is always a square of the first row. */
  lemma GuessBestMoveFirstRow(player: Side, b: Board, cutoff: int, fuel: nat)
    requires Valid(b)
    ensures GuessBestMove(player, b, cutoff, fuel).Success? ==>
      0 <= GuessBestMove(player, b, cutoff, fuel).value < b.size
  {
    if GuessBestMove(player, b, cutoff, fuel).Success? {
      GetWinnerSpec(b.size, b.grid);
      if b.size == 0 {
        assert false;
      }
    }
  }

  /** A sequence with no members is empty. */
  lemma NoMembersEmpty(r: seq<int>)
    ensures (forall x :: x !in r) ==> r == []
  {
    if r != [] {
      var x := r[0];
      assert x in r;
      assert !(forall y :: y !in r);
    }
  }

  /** The squares `lo <= i < hi` that `p` owns are the ones below `hi2` when
      `p` owns nothing in between. */
  lemma {:induction false} OwnedFromUpTo(g: seq<Square>, p: Side, lo: nat, hi: nat, hi2: nat)
    requires hi <= hi2 <= |g|
    requires forall i :: hi <= i < hi2 ==> g[i].side != p
    ensures OwnedFrom(g, p, lo, hi) == OwnedFrom(g, p, lo, hi2)
    decreases hi - lo
  {
    if lo < hi {
      OwnedFromUpTo(g, p, lo + 1, hi, hi2);
      assert lo < hi2;
    } else {
      NoMembersEmpty(OwnedFrom(g, p, lo, hi2));
    }
  }

  /** When `player` owns no square beyond the first row, the guess as written
      and the one scanning every square agree. */
  lemma GuessBestMoveVersionsAgree(player: Side, b: Board, cutoff: int, fuel: nat)
    requires Valid(b)
    requires forall i :: b.size <= i < |b.grid| ==> b.grid[i].side != player
    ensures GuessBestMove(player, b, cutoff, fuel) == GuessBestMoveAllSquares(player, b, cutoff, fuel)
  {
    SizeFitsGrid(b.size);
    OwnedFromUpTo(b.grid, player, 0, b.size, |b.grid|);
  }

  /** The choice the best-move loop makes from the scores of `moves` in
      order, holding `best` valued at `bestValue`: a strictly higher score
      takes over, and a takeover that reaches `cutoff` ends the loop. */
  function Select(s: seq<int>, moves: seq<int>, best: int, bestValue: int, cutoff: int): (r: int)
    requires |s| == |moves|
    ensures r == best || r in moves
    decreases |s|
  {
    if |s| == 0 then best
    else if s[0] > bestValue then
      if s[0] >= cutoff then moves[0]
      else
        var r := Select(s[1..], moves[1..], moves[0], s[0], cutoff);
        assert r == moves[0] || r in moves[1..];
        r
    else
      var r := Select(s[1..], moves[1..], best, bestValue, cutoff);
      assert r == best || r in moves[1..];
      r
  }

  /** When all of its trial moves succeed, the loop picks what `Select`
      picks from their scores. */
  lemma {:induction false} ScanSelects(player: Side, b: Board, moves: seq<int>, best: int, bestValue: int,
                                       cutoff: int, fuel: nat)
    requires Valid(b) && Scores(player, b, moves, fuel).Some?
    ensures Scan(player, b, moves, best, bestValue, cutoff, fuel)
         == Success(Select(Scores(player, b, moves, fuel).value, moves, best, bestValue, cutoff))
    decreases |moves|
  {
    if |moves| > 0 {
      var next := AddSpot(b, player, moves[0], fuel).value;
      var v := StaticEval(player, next.size, next.grid);
      var s := Scores(player, b, moves, fuel).value;
      var rest := Scores(player, next, moves[1..], fuel).value;
      assert s[0] == v && s[1..] == rest;
      if v > bestValue && v < cutoff {
        ScanSelects(player, next, moves[1..], moves[0], v, cutoff, fuel);
      } else if v <= bestValue {
        ScanSelects(player, next, moves[1..], best, bestValue, cutoff, fuel);
      }
    }
  }

  /** The first index of a largest score: no score exceeds it and every
      earlier score is strictly smaller. */
  predicate FirstMax(s: seq<int>, k: int)
  {
    && 0 <= k < |s|
    && (forall j :: 0 <= j < |s| ==> s[j] <= s[k])
    && (forall j :: 0 <= j < k ==> s[j] < s[k])
  }

  /** When no score beats the value held, the held move is kept. */
  lemma {:induction false} SelectKeepsBest(s: seq<int>, moves: seq<int>, best: int, bestValue: int, cutoff: int)
    requires |s| == |moves|
    requires forall j :: 0 <= j < |s| ==> s[j] <= bestValue
    ensures Select(s, moves, best, bestValue, cutoff) == best
    decreases |s|
  {
    if |s| > 0 {
      SelectKeepsBest(s[1..], moves[1..], best, bestValue, cutoff);
    }
  }

  /** When every score stays below the cutoff, the choice is the move at the
      first largest score, provided that score beats the value held. */
  lemma {:induction false} SelectFirstMax(s: seq<int>, moves: seq<int>, best: int, bestValue: int, cutoff: int, k: int)
    requires |s| == |moves|
    requires forall j :: 0 <= j < |s| ==> s[j] < cutoff
    requires FirstMax(s, k) && s[k] > bestValue
    ensures Select(s, moves, best, bestValue, cutoff) == moves[k]
    decreases |s|
  {
    if k == 0 {
      SelectKeepsBest(s[1..], moves[1..], moves[0], s[0], cutoff);
    } else {
      assert FirstMax(s[1..], k - 1);
      if s[0] > bestValue {
        SelectFirstMax(s[1..], moves[1..], moves[0], s[0], cutoff, k - 1);
      } else {
        SelectFirstMax(s[1..], moves[1..], best, bestValue, cutoff, k - 1);
      }
    }
  }

  /** The choice is the first score that reaches the cutoff, if it beats the
      value held and every earlier score. */
  lemma {:induction false} SelectStopsAtCutoff(s: seq<int>, moves: seq<int>, best: int, bestValue: int, cutoff: int, k: int)
    requires |s| == |moves|
    requires 0 <= k < |s| && s[k] >= cutoff && s[k] > bestValue
    requires forall j :: 0 <= j < k ==> s[j] < cutoff && s[j] < s[k]
    ensures Select(s, moves, best, bestValue, cutoff) == moves[k]
    decreases |s|
  {
    if k > 0 {
      if s[0] > bestValue {
        SelectStopsAtCutoff(s[1..], moves[1..], moves[0], s[0], cutoff, k - 1);
      } else {
        SelectStopsAtCutoff(s[1..], moves[1..], best, bestValue, cutoff, k - 1);
      }
    }
  }

  /** With no candidate moves, the guess is square 0. */
  lemma GuessBestMoveNoCandidates(player: Side, b: Board, cutoff: int, fuel: nat)
    requires Valid(b) && ValidMoves(player, b.size, b.grid) == Some([])
    ensures GuessBestMove(player, b, cutoff, fuel) == Success(0)
  {
  }

  /** On the 2 x 2 board whose only Red square is square 2, the guess as
      written is square 0, although Red owns no square of the first row. */
  lemma GuessBestMoveCounterexample(cutoff: int, fuel: nat)
    ensures var b := Board(2, [Initial, Initial, Square(Red, 2), Initial], [], true);
            && Valid(b)
            && GuessBestMove(Red, b, cutoff, fuel) == Success(0)
            && b.grid[0].side != Red
            && ValidMovesAllSquares(Red, b.size, b.grid) == Some([2])
  {
    ValidMovesCounterexample();
    var b := Board(2, [Initial, Initial, Square(Red, 2), Initial], [], true);
    GuessBestMoveNoCandidates(Red, b, cutoff, fuel);
  }

  /** When every candidate scores below the cutoff, the guess is the first
      candidate with the largest score, or 0 if no score beats the smallest
      `int`. */
  lemma GuessBestMoveFirstMax(player: Side, b: Board, cutoff: int, fuel: nat, s: seq<int>, k: int)
    requires Valid(b) && GetWinner(b.size, b.grid).None?
    requires Scores(player, FromBoard(b), ValidMoves(player, b.size, b.grid).value, fuel) == Some(s)
    requires forall j :: 0 <= j < |s| ==> s[j] < cutoff
    requires FirstMax(s, k)
    ensures s[k] > IntMin ==>
      GuessBestMove(player, b, cutoff, fuel) == Success(ValidMoves(player, b.size, b.grid).value[k])
    ensures s[k] == IntMin ==> GuessBestMove(player, b, cutoff, fuel) == Success(0)
  {
    var moves := ValidMoves(player, b.size, b.grid).value;
    ScanSelects(player, FromBoard(b), moves, 0, IntMin, cutoff, fuel);
    if s[k] > IntMin {
      SelectFirstMax(s, moves, 0, IntMin, cutoff, k);
    } else {
      SelectKeepsBest(s, moves, 0, IntMin, cutoff);
    }
  }

  /** The guess is the first candidate whose score reaches the cutoff, if that
      score beats the smallest `int` and every earlier score. */
  lemma GuessBestMoveCutoff(player: Side, b: Board, cutoff: int, fuel: nat, s: seq<int>, k: int)
    requires Valid(b) && GetWinner(b.size, b.grid).None?
    requires Scores(player, FromBoard(b), ValidMoves(player, b.size, b.grid).value, fuel) == Some(s)
    requires 0 <= k < |s| && s[k] >= cutoff && s[k] > IntMin
    requires forall j :: 0 <= j < k ==> s[j] < cutoff && s[j] < s[k]
    ensures GuessBestMove(player, b, cutoff, fuel) == Success(ValidMoves(player, b.size, b.grid).value[k])
  {
    var moves := ValidMoves(player, b.size, b.grid).value;
    ScanSelects(player, FromBoard(b), moves, 0, IntMin, cutoff, fuel);
    SelectStopsAtCutoff(s, moves, 0, IntMin, cutoff, k);
  }
}
