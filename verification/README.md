# jump61 board and move-selection core, in Dafny

This project models the core of jump61, a Java implementation of the "jumping
cubes" game. Two players, Red and Blue, add spots to the squares of an N x N
board. A player may play on a White (unowned) square or on one of their own
squares. A square holding more spots than it has neighbours explodes:
- it keeps one spot of its side;
- each neighbour gains a spot and changes to that side.

Explosions cascade until the board is stable or one side owns every square.

What is modelled:
- `Board.java`: square numbering, neighbour counts, the winner, whose move it
  is, legality, and the dumped text.
- `MutableBoard.java`: clear, copy, set, addSpot with its cascade
  (`balanceBoard`), undo, `equals` and `hashCode`.
- `AI.java`: the static evaluation, the candidate-move list and the one-ply
  best-move guess.
- The scenarios of `BoardTest.java`, stated as lemmas.

Modules, one file each:
- `Results` (`results.dfy`): `Option` and `Result`.
- `Sides` (`sides.dfy`): sides and squares.
- `JavaInts` (`java_ints.dfy`): Java's truncating `/` and `%`, and 32-bit
  wrap-around.
- `BoardGeometry` (`board_geometry.dfy`): numbering and neighbours.
- `BoardQueries` (`board_queries.dfy`): counts, winner, turn, legality.
- `BoardText` (`board_text.dfy`): `toString`.
- `Cascade` (`cascade.dfy`): explosions, passes, `balanceBoard`.
- `MutableBoard` (`mutable_board.dfy`): the mutable board.
- `AI` (`ai.dfy`): move selection.
- `BoardTests` (`board_tests.dfy`): the unit-test scenarios.

The Java board is mutated in place. Here a board is an immutable value
`Board(size, grid, history, balanced)`, and every operation returns the new
board:
- `grid` is the row-major sequence of N*N squares;
- `history` is the undo stack of grid snapshots, with the top last;
- `balanced` is the `_balanced` flag that lets `balanceBoard` return at once.

Java exceptions and unbounded recursion become `Result` errors:
- reading `_boardArray[n]` off the board in `addSpot` gives `IndexOutOfBounds`;
- a `null` move list in `guessBestMove` gives `NoMoveList`;
- a cascade that does not settle within the `fuel` bound on passes gives
  `CascadeUnresolved`.

Code outside the modelled classes becomes a parameter or a stated assumption:
- `Square.toString` is the parameter `show`.
- `Square.hashCode` is the parameter `hash`.
- `Side.opposite` is assumed to swap Red and Blue and to leave White alone.
- `Side.playableSquare(owner)` is assumed to hold when the owner is White or
  the player.

## Behaviour worth noting

- An explosion resets the square to ONE spot of its side
  (`MutableBoard.java:146`), whatever its spot count was, so a cascade does
  not conserve spots. `Cascade.ExplodeAtPieces` states the exact change.
- `validMoves` keeps only the squares the player itself owns
  (`AI.java:106`); White squares are never candidates.
- `set` changes the square only when `isLegal(player, n)` holds
  (`MutableBoard.java:196`). It never whitens a square given zero spots and
  never clears the undo history, although the doc comment at
  `Board.java:128-137` says it does both.
- `addSpot` on a square the player may not play still pushes an undo
  snapshot (`MutableBoard.java:128`) and, on an unbalanced board, still
  cascades.
- `isLegal(player)` (`Board.java:96-100`) asks whether the side to move may
  play on the opponent's squares. For Red or Blue it holds exactly when it is
  NOT `player`'s turn (`BoardQueries.IsLegalToMove`).

## Model

| member | source | states |
|---|---|---|
| JavaInts.DivRemTruncate | jump61/Board.java:64-71 | Java's `/` and `%` (as in `row`/`col`) satisfy `a == q*b + r`, agree with Euclidean division on non-negative operands, and give a remainder with the sign of the dividend |
| JavaInts.WrapAdd | jump61/MutableBoard.java:268-280 | wrapping to a Java `int` after each addition gives the same result as wrapping once at the end |
| BoardGeometry.SquareRoundTrip | jump61/Board.java:53-76 | every existing square number maps to an existing (row, column), and `sqNum` of that pair gives the number back |
| BoardGeometry.RowColRoundTrip | jump61/Board.java:53-76 | every existing (row, column) maps to an existing square number whose `row` and `col` give the pair back |
| BoardGeometry.SqNumInjective | jump61/Board.java:73-76 | distinct existing coordinates name distinct squares |
| BoardGeometry.NeighborsRC | jump61/Board.java:189-207 | a corner has 2 neighbours, an interior square 4, any other edge square 3; a 1 x 1 board has 0 |
| Cascade.NeighborsAtLeastTwo | jump61/Board.java:209-212 | on a board of side at least 2, every square has at least two neighbours |
| BoardQueries.NumOfSideExtremes | jump61/MutableBoard.java:93-105 | a side's count equals the number of squares exactly when it owns all of them, and is 0 exactly when it owns none |
| BoardQueries.SideCountsPartition | jump61/MutableBoard.java:93-105 | the Red, Blue and White counts add up to the number of squares |
| BoardQueries.NumOfSideUpdate | jump61/MutableBoard.java:93-105 | replacing one square changes a side's count by losing the old owner and gaining the new one |
| BoardQueries.NumPiecesUpdate | jump61/MutableBoard.java:107-115 | replacing one square changes the spot total by the difference of the two spot counts |
| BoardQueries.WhoseMoveFlips | jump61/Board.java:46-50 | adding exactly one spot hands the move to the other player; the side to move is never White |
| BoardQueries.IsLegal | jump61/Board.java:85-93 | playing on `n` is legal exactly when `n` is on the board and its owner is White or the player |
| BoardQueries.IsLegalToMove | jump61/Board.java:95-100 | for Red or Blue, `isLegal(player)` holds exactly when the side to move is not `player`; for White it always holds |
| BoardQueries.GetWinnerSpec | jump61/Board.java:102-112 | Blue wins exactly when it owns every square; Red wins exactly when it owns every square of a non-empty board; otherwise there is no winner |
| BoardText.DumpLayout | jump61/Board.java:148-164 | the dump loop produces `===` and a newline, one line per row, and a closing `===`; each row line is four spaces, the row's square texts separated by single spaces, and a newline |
| Cascade.GetNeighborIndex | jump61/MutableBoard.java:159-186 | the array is filled from the front with the neighbour list, the remaining slots keep 0, and the call fails exactly when there are more neighbours than slots |
| Cascade.NeighborListSpec | jump61/MutableBoard.java:164-186 | the neighbours written for a square are exactly the squares sharing an edge with it, each once, not the square itself, and there are `neighbors(i)` of them |
| Cascade.GetNeighborIndexFull | jump61/MutableBoard.java:147-149 | asked for `neighbors(i)` slots, as `balanceBoard` does, the array is full of distinct edge-sharing squares |
| Cascade.GiveAllSpec | jump61/MutableBoard.java:148-153 | with no target named twice, exactly the targets gain one spot and take the exploding side |
| Cascade.GiveAllPieces | jump61/MutableBoard.java:148-153 | every target adds one spot to the board |
| Cascade.ExplodeAtSpec | jump61/MutableBoard.java:140-154 | an explosion leaves the square one spot of its side; every edge-sharing square gains a spot and takes that side; every other square is unchanged |
| Cascade.ExplodeAtPieces | jump61/MutableBoard.java:140-154 | an explosion changes the spot total by one minus the square's spots plus its neighbour count |
| Cascade.PassFrom | jump61/MutableBoard.java:139-155 | a pass reports no explosion exactly when every remaining square is stable, and then leaves the grid unchanged |
| Cascade.PassSkipsStable | jump61/MutableBoard.java:140-143 | a pass walks past stable squares without changing anything |
| Cascade.BalanceEndsStable | jump61/MutableBoard.java:134-157 | a cascade that had work to do and ends with no winner sets the flag and leaves every square stable |
| Cascade.BalanceNoWork | jump61/MutableBoard.java:136-138 | with the flag set, or with a winner, the cascade changes nothing |
| Cascade.BalanceFuelMonotone | jump61/MutableBoard.java:134-157 | once a cascade settles within a pass bound, any larger bound gives the same outcome |
| Cascade.BalanceStable | jump61/MutableBoard.java:134-157 | on a stable board a cascade changes nothing and sets the flag unless there is a winner |
| Cascade.SingleExplosion | jump61/MutableBoard.java:134-157 | when the first unstable square's explosion leaves a stable board with no winner, the cascade ends with exactly that explosion and the flag set |
| MutableBoard.Clear | jump61/MutableBoard.java:41-54 | a cleared board of side N has N*N squares, each White with one spot, an empty history and the flag set |
| MutableBoard.ClearFacts | jump61/MutableBoard.java:41-54 | a cleared board holds N*N spots and N*N White squares, gives the move to Red, and has no winner when N > 0 |
| MutableBoard.ClearStable | jump61/MutableBoard.java:41-54 | a cleared board of side at least 2 is stable |
| MutableBoard.Copy | jump61/MutableBoard.java:56-68 | a copy takes the source's size and squares, has an empty history, and keeps the receiver's flag |
| MutableBoard.CopyEquals | jump61/MutableBoard.java:56-68 | a copy equals its source under the corrected `equals`, and undo on it changes nothing |
| MutableBoard.FromBoard | jump61/MutableBoard.java:34-39 | the copy constructor gives the source's size and squares, an empty history and the flag false |
| MutableBoard.Set | jump61/MutableBoard.java:194-200 | a legal `set` makes square `n` hold `num` spots of the player and drops the flag; an illegal one changes nothing; no other square and not the history changes |
| MutableBoard.SetRC | jump61/MutableBoard.java:188-192 | `set(r, c, ...)` acts on square `sqNum(r, c)`, changing it exactly when the player may play there |
| MutableBoard.MarkUndo | jump61/MutableBoard.java:211-219 | marking pushes the current grid on top of the unchanged history and changes nothing else |
| MutableBoard.Undo | jump61/MutableBoard.java:202-209 | with a non-empty history, the grid becomes the top snapshot and the rest of the history stays in order; the size and the flag are kept; an empty history changes nothing |
| MutableBoard.UndoAfterMarkUndo | jump61/MutableBoard.java:202-219 | undo right after marking gives back the board exactly |
| MutableBoard.AddSpot | jump61/MutableBoard.java:124-132 | `addSpot` fails with an index error exactly when `n` is off the board; otherwise any result keeps the size and has the old grid pushed on the history |
| MutableBoard.AddSpotRC | jump61/MutableBoard.java:117-122 | `addSpot(r, c)` on existing coordinates never fails with an index error, and pushes the old grid on the history |
| MutableBoard.AddSpotRejected | jump61/MutableBoard.java:124-132 | an illegal move on a balanced board changes no square, and only pushes a snapshot |
| MutableBoard.AddSpotSettles | jump61/MutableBoard.java:124-157 | after a legal move, a cascade that settles with no winner leaves every square stable and the flag set |
| MutableBoard.UndoAfterAddSpot | jump61/MutableBoard.java:124-132 | undo after any successful `addSpot` restores the grid and the history from before the move |
| MutableBoard.QuietMove | jump61/MutableBoard.java:124-157 | a legal move on a stable board onto a square with room for one more spot only adds that spot: the total grows by one, the turn passes, and the board stays stable |
| MutableBoard.HashCode | jump61/MutableBoard.java:262-281 | the hash is a Java `int`, and equals 341 plus the size plus the square hashes whenever that sum does not overflow |
| MutableBoard.ComputeHashCode | jump61/MutableBoard.java:268-280 | the accumulating loop, wrapping after each addition, computes `HashCode` |
| MutableBoard.SumHashesUpdate | jump61/MutableBoard.java:271-273 | replacing one square changes the hash sum by the difference of the two square hashes |
| MutableBoard.HashCodeContents | jump61/MutableBoard.java:262-281 | exchanging two squares does not change the hash |
| MutableBoard.EqualsAsWrittenMissesSwaps | jump61/MutableBoard.java:236-260 | `equals` as written accepts a board and its copy with two squares beyond the first row exchanged |
| MutableBoard.EqualsAsWrittenCounterexample | jump61/MutableBoard.java:244-254 | two 2 x 2 boards with different squares that `equals` as written calls equal, for any square hash |
| MutableBoard.EqualsAllSquaresSpec | jump61/MutableBoard.java:236-260 | the corrected `equals` holds exactly for boards with the same size and the same squares |
| AI.StaticEval | jump61/AI.java:82-95 | the evaluation is the largest `int` when the player has won, the smallest when the opponent has, and otherwise lies within plus or minus the number of squares |
| AI.StaticEvalNoWinner | jump61/AI.java:84-95 | with no winner, the evaluation is the player's square count minus the opponent's, strictly inside both bounds |
| AI.OwnedFrom | jump61/AI.java:102-110 | the collected list holds exactly the owned indices in the scanned range, in increasing order |
| AI.ValidMoves | jump61/AI.java:97-111 | as written: no list exactly when there is a winner; otherwise exactly the indices below `size()` whose square the player owns, ascending |
| AI.ValidMovesAllSquares | jump61/AI.java:97-111 | corrected: no list exactly when there is a winner; otherwise exactly the indices of every square the player owns, ascending |
| AI.ValidMovesFirstRowOnly | jump61/AI.java:103-104 | the list as written is the corrected list cut to the first row |
| AI.ValidMovesCounterexample | jump61/AI.java:103-104 | a 2 x 2 board whose only Red square is in the second row gives Red no moves as written, and one move when corrected |
| AI.ScoresExist | jump61/AI.java:68-70 | the loop's scores exist exactly when every trial move, played on top of the previous ones, succeeds |
| AI.ScoreAt | jump61/AI.java:68-70 | the score of candidate `k` is the static evaluation of the board after the first `k + 1` candidates were played on it in turn |
| AI.Scan | jump61/AI.java:68-78 | the loop returns the starting move or one of the candidates, and fails only when a trial move fails |
| AI.GuessBestMove | jump61/AI.java:63-80 | as written: the guess fails for want of a move list exactly when the board has a winner; otherwise it is 0 or one of the candidates `validMoves` gives |
| AI.GuessBestMoveFirstRow | jump61/AI.java:63-80 | as written, a successful guess is always a square of the first row |
| AI.GuessBestMoveAllSquares | jump61/AI.java:63-80 | corrected: the same loop over every square the player owns; the guess is 0 or one of those squares |
| AI.GuessBestMoveVersionsAgree | jump61/AI.java:63-80 | when the player owns no square beyond the first row, the guess as written and the corrected guess are the same |
| AI.Select | jump61/AI.java:68-78 | the reference choice from a list of scores is the held move or one of the candidates |
| AI.ScanSelects | jump61/AI.java:63-80 | when every trial move succeeds, the loop picks what the reference choice picks from the scores |
| AI.SelectKeepsBest | jump61/AI.java:71-77 | when no score beats the held value, the held move is kept |
| AI.SelectFirstMax | jump61/AI.java:71-77 | with every score below the cutoff, the choice is the first move with the largest score, if that score beats the held value |
| AI.SelectStopsAtCutoff | jump61/AI.java:74-76 | the choice is the first move whose score reaches the cutoff, provided it beats every earlier score and the held value |
| AI.GuessBestMoveNoCandidates | jump61/AI.java:63-80 | with no candidate moves from `validMoves` the guess is square 0 |
| AI.GuessBestMoveCounterexample | jump61/AI.java:63-80 | on a 2 x 2 board whose only Red square is square 2, Red's guess as written is square 0, a square Red does not own |
| AI.GuessBestMoveFirstMax | jump61/AI.java:63-80 | with every score below the cutoff, the guess is the first `validMoves` candidate with the largest score, or 0 when that score is the smallest `int` |
| AI.GuessBestMoveCutoff | jump61/AI.java:63-80 | the guess is the first `validMoves` candidate whose score reaches the cutoff, when it beats every earlier score and the smallest `int` |
| BoardTests.TestMove | jump61/BoardTest.java:110-126 | on any board of side at least 3, Red (1,1), Blue (2,1), Red (1,1) give the grids of the test, the last one after one explosion; three undos return the cleared board |
| BoardTests.TestSet | jump61/BoardTest.java:99-108 | setting (2,2) to one Red spot on a cleared board gives that square, one Red square, no Blue square and N*N - 1 White squares |
| BoardTests.TestNumPieces | jump61/BoardTest.java:57-65 | a cleared board holds N*N spots; `set(1, 3, RED)` and then `set(1, 5, RED)` raise that to N*N + 2 and N*N + 4 |
| BoardTests.TestEquals | jump61/BoardTest.java:78-87 | cleared boards are equal, one set square makes them unequal, the same set on both makes them equal again, for `equals` as written and as corrected |
| BoardTests.TestHashCode | jump61/BoardTest.java:67-76 | one set square changes the board hash whenever the square hash, a Java `int`, tells the two square contents apart |
| BoardTests.TestToString | jump61/BoardTest.java:15-27 | the dump of a cleared 6 x 6 board is `===`, six rows of four spaces and six square texts, and `===` |

## Left out

- The user interface: `BoardWidget.java`, `Display.java`, `HumanPlayer.java`, `AI.makeMove`, and the `Game` and `Player` classes.
- `AI.minmax`: it is a stub that returns 0. `TIME_LIMIT`, `TIME_CHECK_INTERVAL` and `MILLIS` go with it, since nothing reads them.
- `announce`, the observers and `Observable`: they notify the display and do not change the board.
- `Board.toDisplayString`: the human-readable rendering for the display.
- `Side`, `Square`, `ConstantBoard`, `Game` and `Player` are not part of this model. Of them, only the behaviour stated in the introduction is assumed.
- `numOfSide` compares side names ignoring case. The model compares sides directly, assuming the three names differ ignoring case.
- Java `int` overflow of spot totals, side counts, `N * N` and square numbers is not modelled; these are unbounded integers. `hashCode`'s wrap-around is modelled.
- `equals` given an object that is not a `MutableBoard` calls that object's `equals`. That code is not part of this model.
- `equals` also has a `ClassCastException` branch, which the preceding `instanceof` test makes unreachable.
- The recursion of `balanceBoard` is bounded by `fuel` passes. A cascade that needs more passes is reported as `CascadeUnresolved`, where Java would keep recursing. `Cascade.BalanceFuelMonotone` shows the bound never changes a settled result.
- Square identity: `copy` and `internalCopy` build fresh `Square` objects with the same side and spots. The model treats squares as values, so a copy simply holds the same squares.
- `guessBestMove` never changes its argument `b`. The model holds by construction, since boards are values.
- `BoardTests.TestToString` states the dump with the square text left as a parameter. The test's "1-" comes from `Square.toString`, which is not part of this model.
- The tests `testClear`, `testCopy` and `testSize` compare dumps and sizes of boards that the model already shows equal: `MutableBoard.Clear`, `MutableBoard.CopyEquals`, `MutableBoard.FromBoard`.

## Findings

| source | as written | input that shows it | evidently intended | confidence | as-written member | corrected member |
|---|---|---|---|---|---|---|
| jump61/MutableBoard.java:248 | `equals` compares squares only for `i < _size`, the first row | two 2 x 2 boards, squares `[W1, W1, R2, B3]` and `[W1, W1, B3, R2]`: same size, same hash for any square hash, first rows equal, but different boards | compare all `_size * _size` squares | high; not executed | MutableBoard.EqualsAsWrittenCounterexample | MutableBoard.EqualsAllSquaresSpec |
| jump61/AI.java:103-104 | `validMoves` scans `i < b.size()`, the first row | a 2 x 2 board `[W1, W1, R2, W1]` with no winner: Red owns square 2 but gets no moves | scan all `size * size` squares | high; not executed | AI.ValidMovesCounterexample | AI.ValidMovesAllSquares |

`AI.GuessBestMove` and the lemmas about it follow the code as written;
`AI.GuessBestMoveAllSquares` is the same loop over the corrected move list. `BoardTests.TestEquals` states the test for both
versions of `equals`.
