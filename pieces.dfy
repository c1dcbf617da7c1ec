/** Colours and pieces as the board engine sees them. */
module Pieces {

  /** A square's one-slot container: empty, or holding one piece. */
  datatype Option<T> = None | Some(value: T)

  datatype Color = WHITE | BLACK

  /** A checker: its colour, fixed at creation, and the number of moves it has made. */
  datatype Piece = Piece(color: Color, movesMade: nat)

  /** The piece after `incrementMoves`: same colour, one more move. */
  function IncrementMoves(p: Piece): (q: Piece)
    ensures q.color == p.color && q.movesMade == p.movesMade + 1
  {
    p.(movesMade := p.movesMade + 1)
  }
}
