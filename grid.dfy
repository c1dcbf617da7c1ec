/**
  The board's squares as a value: a map from coordinate to the optional piece on that square,
  with the read-only queries the board answers from it (occupancy, colours, the path-clear
  test) and the layered move validation.
*/
module Grid {
  import opened Pieces
  import opened Coordinates

  /** Each key owns one square; each square holds at most one piece. */
  type Squares = map<Coord, Option<Piece>>

  /** Every on-board coordinate, and nothing else, has a square. */
  ghost predicate Complete(sq: Squares) {
    forall c :: c in sq <==> IsOnBoard(c)
  }

  /** getPiece: the occupant of the square at `c`; the square must exist. */
  function GetPiece(sq: Squares, c: Coord): (p: Option<Piece>)
    requires c in sq
    ensures p.Some? <==> HasPieceOf(sq, c, WHITE) || HasPieceOf(sq, c, BLACK)
    ensures p.Some? ==> HasPieceOf(sq, c, p.value.color)
  {
    sq[c]
  }

  /** isOccupied: the square holds a piece of one colour or the other. */
  predicate IsOccupied(sq: Squares, c: Coord)
    requires c in sq
    ensures IsOccupied(sq, c) <==> HasPieceOf(sq, c, WHITE) || HasPieceOf(sq, c, BLACK)
  {
    GetPiece(sq, c).Some?
  }

  /** The square at `c` holds a piece of colour `color`. */
  predicate HasPieceOf(sq: Squares, c: Coord, color: Color) {
    c in sq && sq[c].Some? && sq[c].value.color == color
  }

  /** isOccupiedSameColor: false as soon as either square is empty, else whether the colours agree. */
  function IsOccupiedSameColor(sq: Squares, from: Coord, to: Coord): (r: bool)
    requires from in sq && to in sq
    ensures r <==> IsOccupied(sq, from) && IsOccupied(sq, to) && HasPieceOf(sq, to, GetPiece(sq, from).value.color)
  {
    match GetPiece(sq, from)
    case None => false
    case Some(fromPiece) =>
      match GetPiece(sq, to)
      case None => false
      case Some(toPiece) => fromPiece.color == toPiece.color
  }

  /** isOccupiedDifferentColor: false as soon as either square is empty, else whether the colours differ. */
  function IsOccupiedDifferentColor(sq: Squares, from: Coord, to: Coord): (r: bool)
    requires from in sq && to in sq
    ensures r <==> IsOccupied(sq, from) && IsOccupied(sq, to) && !HasPieceOf(sq, to, GetPiece(sq, from).value.color)
  {
    match GetPiece(sq, from)
    case None => false
    case Some(fromPiece) =>
      match GetPiece(sq, to)
      case None => false
      case Some(toPiece) => fromPiece.color != toPiece.color
  }

  /** The two colour tests never hold together, and on two occupied squares exactly one holds. */
  lemma ColorTestsExclusive(sq: Squares, from: Coord, to: Coord)
    requires from in sq && to in sq
    ensures !(IsOccupiedSameColor(sq, from, to) && IsOccupiedDifferentColor(sq, from, to))
    ensures IsOccupied(sq, from) && IsOccupied(sq, to) ==>
      IsOccupiedSameColor(sq, from, to) != IsOccupiedDifferentColor(sq, from, to)
    ensures !IsOccupied(sq, from) || !IsOccupied(sq, to) ==>
      !IsOccupiedSameColor(sq, from, to) && !IsOccupiedDifferentColor(sq, from, to)
  {
  }

  // ---------------------------------------------------------------------------
  // Path-clear test: its meaning
  // ---------------------------------------------------------------------------

  /** One coordinate moved k units from a toward b (not at all when a == b). */
  function Toward(a: int, b: int, k: int): int {
    if a < b then a + k else if b < a then a - k else a
  }

  /** The square k diagonal steps from `from` in the direction of `to`. */
  function Step(from: Coord, to: Coord, k: int): Coord {
    Coord(Toward(from.row, to.row, k), Toward(from.col, to.col, k))
  }

  /**
    What isPathClear decides: the move is diagonal and no square strictly between its ends is
    occupied. The ends themselves are not inspected.
  */
  predicate PathClear(sq: Squares, from: Coord, to: Coord)
    requires Complete(sq) && IsOnBoard(from) && IsOnBoard(to)
  {
    IsDiagonalMove(from, to) &&
    forall k :: 0 < k < GetMoveLength(from, to) ==> !IsOccupied(sq, Step(from, to, k))
  }

  /** Walking k steps from one end reaches the square n - k steps from the other end. */
  lemma StepFromOtherEnd(from: Coord, to: Coord, k: int)
    requires IsDiagonalMove(from, to) && 0 <= k <= GetMoveLength(from, to)
    ensures Step(to, from, k) == Step(from, to, GetMoveLength(from, to) - k)
  {
  }

  /** The path test does not depend on which end the walk starts from. */
  lemma {:induction false} PathClearSymmetric(sq: Squares, from: Coord, to: Coord)
    requires Complete(sq) && IsOnBoard(from) && IsOnBoard(to)
    ensures PathClear(sq, from, to) == PathClear(sq, to, from)
  {
    if IsDiagonalMove(from, to) {
      var n := GetMoveLength(from, to);
      assert GetMoveLength(to, from) == n;
      if PathClear(sq, from, to) {
        forall k | 0 < k < n ensures !IsOccupied(sq, Step(to, from, k)) {
          StepFromOtherEnd(from, to, k);
        }
      }
      if PathClear(sq, to, from) {
        forall k | 0 < k < n ensures !IsOccupied(sq, Step(from, to, k)) {
          StepFromOtherEnd(to, from, k);
        }
      }
    }
  }

  /** The walk may start from either end of a diagonal: the test and the move length are the same. */
  lemma WalkEnds(sq: Squares, from: Coord, to: Coord, start: Coord, end: Coord)
    requires Complete(sq) && IsOnBoard(from) && IsOnBoard(to) && IsDiagonalMove(from, to)
    requires (start, end) == (from, to) || (start, end) == (to, from)
    ensures IsOnBoard(start) && IsOnBoard(end) && IsDiagonalMove(start, end)
    ensures GetMoveLength(start, end) == GetMoveLength(from, to)
    ensures PathClear(sq, start, end) == PathClear(sq, from, to)
  {
    PathClearSymmetric(sq, from, to);
  }

  /** An occupied square strictly inside the move blocks the path. */
  lemma PathBlocked(sq: Squares, from: Coord, to: Coord, k: int)
    requires Complete(sq) && IsOnBoard(from) && IsOnBoard(to) && IsDiagonalMove(from, to)
    requires 0 < k < GetMoveLength(from, to)
    ensures Step(from, to, k) in sq
    ensures IsOccupied(sq, Step(from, to, k)) ==> !PathClear(sq, from, to)
  {
  }

  /** Moves of length 0 or 1 have a clear path, and moves that are not diagonal never do. */
  lemma PathClearShortAndNonDiagonal(sq: Squares, from: Coord, to: Coord)
    requires Complete(sq) && IsOnBoard(from) && IsOnBoard(to)
    ensures 0 <= GetMoveLength(from, to) <= 1 ==> PathClear(sq, from, to)
    ensures !IsDiagonalMove(from, to) ==> !PathClear(sq, from, to)
  {
  }

  /** What stands on the destination square does not matter to the path test. */
  lemma PathClearIgnoresDestination(sq: Squares, from: Coord, to: Coord, p: Option<Piece>)
    requires Complete(sq) && IsOnBoard(from) && IsOnBoard(to)
    ensures Complete(sq[to := p])
    ensures PathClear(sq[to := p], from, to) == PathClear(sq, from, to)
  {
    var sq' := sq[to := p];
    if IsDiagonalMove(from, to) {
      forall k | 0 < k < GetMoveLength(from, to)
        ensures IsOccupied(sq', Step(from, to, k)) == IsOccupied(sq, Step(from, to, k))
      {
        assert Step(from, to, k) != to;
      }
    }
  }

  // ---------------------------------------------------------------------------
  // Move validation
  // ---------------------------------------------------------------------------

  /**
    The piece's own movement rule (`piece->isValidMove(board, from, to)`), whose body belongs to
    the piece classes and is not part of this model: any rule over the squares, the moving piece
    and the two ends.
  */
  type PieceRule = (Squares, Piece, Coord, Coord) -> bool

  /** The preconditions of executing a move that validation checks before it consults the piece's rule. */
  predicate MoveReady(sq: Squares, from: Coord, to: Coord)
    requires Complete(sq)
  {
    IsOnBoard(from) && IsOnBoard(to) && !IsOccupiedSameColor(sq, from, to) && IsOccupied(sq, from)
  }

  /** isValidMove: both ends on the board, no friendly piece on the destination, a piece on the origin, and that piece's rule. */
  function IsValidMove(sq: Squares, rule: PieceRule, from: Coord, to: Coord): (r: bool)
    requires Complete(sq)
    ensures r ==> IsOnBoard(from) && IsOnBoard(to) && from != to
    ensures r ==> from in sq && to in sq && IsOccupied(sq, from)
    ensures r ==> !IsOccupied(sq, to) || IsOccupiedDifferentColor(sq, from, to)
  {
    if !IsOnBoard(from) || !IsOnBoard(to) then false
    else if IsOccupiedSameColor(sq, from, to) then false
    else if GetPiece(sq, from).None? then false
    else rule(sq, GetPiece(sq, from).value, from, to)
  }

  /**
    A move passes validation exactly when the board-level checks pass and the piece's rule accepts it;
    a passing move leaves its square and lands on an empty or enemy-held one.
  */
  lemma ValidMoveMeaning(sq: Squares, rule: PieceRule, from: Coord, to: Coord)
    requires Complete(sq)
    ensures IsValidMove(sq, rule, from, to) <==>
      MoveReady(sq, from, to) && rule(sq, GetPiece(sq, from).value, from, to)
    ensures MoveReady(sq, from, to) ==> from != to
    ensures MoveReady(sq, from, to) ==> !IsOccupied(sq, to) || IsOccupiedDifferentColor(sq, from, to)
  {
  }

  /** Whatever the piece's rule, a move from a square to itself is rejected. */
  lemma SelfMoveRejected(sq: Squares, rule: PieceRule, c: Coord)
    requires Complete(sq)
    ensures !IsValidMove(sq, rule, c, c)
  {
  }
}
