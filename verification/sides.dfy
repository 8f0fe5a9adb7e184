/** Players and square contents.

    The repository's `Side` and `Square` classes are not part of this model.
    The definitions below capture exactly what the board and player code
    rely on, under two stated assumptions:
    - `opposite()` swaps Red and Blue and leaves White alone;
    - `playableSquare(owner)` holds when the owner is White or the player itself. */
module Sides {

  datatype Side = Red | Blue | White

  /** The opposing player of `s`. */
  function Opposite(s: Side): Side
  {
    match s
    case Red => Blue
    case Blue => Red
    case White => White
  }

  /** May `player` add a spot to a square currently owned by `owner`? */
  predicate PlayableSquare(player: Side, owner: Side)
  {
    owner == White || owner == player
  }

  /** One square of the grid: its owner and its number of spots. */
  datatype Square = Square(side: Side, spots: nat)

  /** The content of every square of a freshly cleared board. */
  const Initial: Square := Square(White, 1)
}
