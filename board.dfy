/**
  The board: 64 squares, the append-only history of executed moves and the archive of
  captured pieces keyed by the index of the move that captured them. `BoardState` and
  `ExecuteMove` state what a move does to the whole state; the class `Board` does it in place.
*/
module Boards {
  import opened Pieces
  import opened Coordinates
  import opened Grid

  /** An executed move: origin, then destination. */
  type Move = (Coord, Coord)

  datatype BoardState = BoardState(squares: Squares, moves: seq<Move>, captured: map<nat, Piece>)

  /** Every square exists, and every capture is keyed by the index of an executed move. */
  ghost predicate Inv(s: BoardState) {
    Complete(s.squares) && forall k :: k in s.captured ==> k < |s.moves|
  }

  /**
    A successful movePiece: the destination's occupant, if any, is archived under the current
    history length; the piece leaves its origin, lands on the destination with one more move
    counted, and the move is appended to the history.
  */
  function ExecuteMove(s: BoardState, from: Coord, to: Coord): (r: BoardState)
    requires Inv(s) && MoveReady(s.squares, from, to)
    ensures Inv(r)
  {
    var mover := GetPiece(s.squares, from).value;
    var captured :=
      if IsOccupied(s.squares, to) then s.captured[|s.moves| := GetPiece(s.squares, to).value]
      else s.captured;
    BoardState(s.squares[from := None][to := Some(IncrementMoves(mover))], s.moves + [(from, to)], captured)
  }

  /** The squares and history after a move: origin emptied, mover on the destination, nothing else touched. */
  lemma MoveEffect(s: BoardState, from: Coord, to: Coord)
    requires Inv(s) && MoveReady(s.squares, from, to)
    ensures var r := ExecuteMove(s, from, to);
      && !IsOccupied(r.squares, from)
      && GetPiece(r.squares, to) == Some(IncrementMoves(GetPiece(s.squares, from).value))
      && (forall c :: c in s.squares && c != from && c != to ==> c in r.squares && r.squares[c] == s.squares[c])
      && r.moves == s.moves + [(from, to)]
  {
    ValidMoveMeaning(s.squares, (sq, p, a, b) => true, from, to);
  }

  /**
    A capture archives the destination's enemy piece under a fresh key, the pre-move history
    length; a move onto an empty square archives nothing.
  */
  lemma MoveArchivesCapture(s: BoardState, from: Coord, to: Coord)
    requires Inv(s) && MoveReady(s.squares, from, to)
    ensures var r := ExecuteMove(s, from, to);
      if IsOccupied(s.squares, to) then
        && |s.moves| !in s.captured
        && r.captured.Keys == s.captured.Keys + {|s.moves|}
        && r.captured[|s.moves|] == GetPiece(s.squares, to).value
        && GetPiece(s.squares, to).value.color != GetPiece(s.squares, from).value.color
        && (forall k :: k in s.captured ==> r.captured[k] == s.captured[k])
      else
        r.captured == s.captured
  {
  }

  // ---------------------------------------------------------------------------
  // Conservation of pieces
  // ---------------------------------------------------------------------------

  /** The squares holding a piece of `color`. */
  function Occupants(sq: Squares, color: Color): (occupied: set<Coord>) {
    set c | c in sq && HasPieceOf(sq, c, color)
  }

  /** The archive keys of captured pieces of `color`. */
  function CapturedOf(captured: map<nat, Piece>, color: Color): (keys: set<nat>) {
    set k | k in captured && captured[k].color == color
  }

  /** Pieces of `color` on the board plus those in the archive. */
  function PieceCount(s: BoardState, color: Color): (n: nat) {
    |Occupants(s.squares, color)| + |CapturedOf(s.captured, color)|
  }

  /** Storing `v` in the square at `c` adds or removes `c` from the squares holding `color`. */
  lemma OccupantsUpdate(sq: Squares, c: Coord, v: Option<Piece>, color: Color)
    ensures Occupants(sq[c := v], color) ==
      if v.Some? && v.value.color == color then Occupants(sq, color) + {c} else Occupants(sq, color) - {c}
  {
  }

  /** The moving side keeps its count: one square is vacated and one, not its own, is taken. */
  lemma MoverCountKept(s: BoardState, from: Coord, to: Coord, color: Color)
    requires Inv(s) && MoveReady(s.squares, from, to) && GetPiece(s.squares, from).value.color == color
    ensures PieceCount(ExecuteMove(s, from, to), color) == PieceCount(s, color)
  {
    var r := ExecuteMove(s, from, to);
    var before, after := Occupants(s.squares, color), Occupants(r.squares, color);
    ValidMoveMeaning(s.squares, (sq, p, a, b) => true, from, to);
    OccupantsUpdate(s.squares, from, None, color);
    OccupantsUpdate(s.squares[from := None], to, Some(IncrementMoves(GetPiece(s.squares, from).value)), color);
    assert from in before && to !in before;
    assert after == (before - {from}) + {to};
    assert CapturedOf(r.captured, color) == CapturedOf(s.captured, color);
  }

  /** Archiving a piece of `color` under a fresh key adds exactly that key to the colour's archive keys. */
  lemma CapturedOfInsert(captured: map<nat, Piece>, k: nat, p: Piece, color: Color)
    requires k !in captured && p.color == color
    ensures CapturedOf(captured[k := p], color) == CapturedOf(captured, color) + {k}
    ensures |CapturedOf(captured[k := p], color)| == |CapturedOf(captured, color)| + 1
  {
    assert CapturedOf(captured[k := p], color) == CapturedOf(captured, color) + {k};
  }

  /** The other side loses the captured square and gains an archive entry under a fresh key. */
  lemma CapturedCountKept(s: BoardState, from: Coord, to: Coord, color: Color)
    requires Inv(s) && MoveReady(s.squares, from, to) && GetPiece(s.squares, from).value.color != color
    requires IsOccupied(s.squares, to)
    ensures PieceCount(ExecuteMove(s, from, to), color) == PieceCount(s, color)
  {
    var r := ExecuteMove(s, from, to);
    var victim := GetPiece(s.squares, to).value;
    assert victim.color == color by {
      ValidMoveMeaning(s.squares, (sq, p, a, b) => true, from, to);
    }
    assert |Occupants(r.squares, color)| + 1 == |Occupants(s.squares, color)| by {
      var before := Occupants(s.squares, color);
      OccupantsUpdate(s.squares, from, None, color);
      OccupantsUpdate(s.squares[from := None], to, Some(IncrementMoves(GetPiece(s.squares, from).value)), color);
      assert to in before && from !in before;
      assert Occupants(r.squares, color) == before - {to};
    }
    assert |s.moves| !in s.captured;
    CapturedOfInsert(s.captured, |s.moves|, victim, color);
  }

  /** A quiet move leaves the other side untouched. */
  lemma QuietCountKept(s: BoardState, from: Coord, to: Coord, color: Color)
    requires Inv(s) && MoveReady(s.squares, from, to) && GetPiece(s.squares, from).value.color != color
    requires !IsOccupied(s.squares, to)
    ensures PieceCount(ExecuteMove(s, from, to), color) == PieceCount(s, color)
  {
    var r := ExecuteMove(s, from, to);
    OccupantsUpdate(s.squares, from, None, color);
    OccupantsUpdate(s.squares[from := None], to, Some(IncrementMoves(GetPiece(s.squares, from).value)), color);
    assert Occupants(r.squares, color) == Occupants(s.squares, color);
  }

  /** No move creates or destroys a piece: for each colour, board plus archive stays the same size. */
  lemma MoveConservesPieces(s: BoardState, from: Coord, to: Coord, color: Color)
    requires Inv(s) && MoveReady(s.squares, from, to)
    ensures PieceCount(ExecuteMove(s, from, to), color) == PieceCount(s, color)
  {
    if GetPiece(s.squares, from).value.color == color {
      MoverCountKept(s, from, to, color);
    } else if IsOccupied(s.squares, to) {
      CapturedCountKept(s, from, to, color);
    } else {
      QuietCountKept(s, from, to, color);
    }
  }

  /** The number of pieces on the board plus the number archived stays the same. */
  lemma MoveConservesTotal(s: BoardState, from: Coord, to: Coord)
    requires Inv(s) && MoveReady(s.squares, from, to)
    ensures var r := ExecuteMove(s, from, to);
      |Occupants(r.squares, WHITE)| + |Occupants(r.squares, BLACK)| + |r.captured|
      == |Occupants(s.squares, WHITE)| + |Occupants(s.squares, BLACK)| + |s.captured|
  {
    var r := ExecuteMove(s, from, to);
    MoveConservesPieces(s, from, to, WHITE);
    MoveConservesPieces(s, from, to, BLACK);
    ArchiveSplitsByColor(s.captured);
    ArchiveSplitsByColor(r.captured);
  }

  /** Every archived piece is white or black. */
  lemma ArchiveSplitsByColor(captured: map<nat, Piece>)
    ensures |captured| == |CapturedOf(captured, WHITE)| + |CapturedOf(captured, BLACK)|
  {
    assert captured.Keys == CapturedOf(captured, WHITE) + CapturedOf(captured, BLACK);
    assert CapturedOf(captured, WHITE) * CapturedOf(captured, BLACK) == {};
  }

  // ---------------------------------------------------------------------------
  // Piece listing (getPieces) and the starting layout
  // ---------------------------------------------------------------------------

  /** The pieces of `color` on the squares listed in `locs`, in that order. */
  function PiecesOf(sq: Squares, locs: seq<Coord>, color: Color): (pieces: seq<Piece>)
    ensures |pieces| <= |locs|
    ensures forall p :: p in pieces ==> p.color == color
  {
    if locs == [] then []
    else
      var c := locs[|locs| - 1];
      PiecesOf(sq, locs[..|locs| - 1], color) + (if HasPieceOf(sq, c, color) then [sq[c].value] else [])
  }

  /** Extending the listed squares by one appends that square's piece, if it has the colour. */
  lemma PiecesOfPrefix(sq: Squares, locs: seq<Coord>, k: nat, color: Color)
    requires k < |locs|
    ensures PiecesOf(sq, locs[..k + 1], color) ==
      PiecesOf(sq, locs[..k], color) + (if HasPieceOf(sq, locs[k], color) then [sq[locs[k]].value] else [])
  {
    assert locs[..k + 1][..k] == locs[..k];
  }

  /** Listing pieces over distinct squares yields one piece per square that holds one of that colour. */
  lemma {:induction false} PiecesOfCount(sq: Squares, locs: seq<Coord>, color: Color)
    requires forall i, j :: 0 <= i < j < |locs| ==> locs[i] != locs[j]
    ensures |PiecesOf(sq, locs, color)| == |set c | c in locs && HasPieceOf(sq, c, color)|
  {
    if locs != [] {
      var init, last := locs[..|locs| - 1], locs[|locs| - 1];
      PiecesOfCount(sq, init, color);
      MatchingSquaresSnoc(sq, locs, color);
    }
  }

  /** The squares of a list holding `color`: those of all but the last entry, plus the last if it qualifies. */
  lemma MatchingSquaresSnoc(sq: Squares, locs: seq<Coord>, color: Color)
    requires locs != []
    requires forall i, j :: 0 <= i < j < |locs| ==> locs[i] != locs[j]
    ensures var init, last := locs[..|locs| - 1], locs[|locs| - 1];
      |set c | c in locs && HasPieceOf(sq, c, color)| ==
      |set c | c in init && HasPieceOf(sq, c, color)| + (if HasPieceOf(sq, last, color) then 1 else 0)
  {
    var init, last := locs[..|locs| - 1], locs[|locs| - 1];
    var before := set c | c in init && HasPieceOf(sq, c, color);
    var after := set c | c in locs && HasPieceOf(sq, c, color);
    assert last !in init by {
      forall i | 0 <= i < |init| ensures init[i] != last {
        assert init[i] == locs[i];
      }
    }
    assert locs == init + [last];
    if HasPieceOf(sq, last, color) {
      assert after == before + {last};
    } else {
      assert after == before;
    }
  }

  /** On a complete board, the listing over all locations has one entry per occupied square of that colour. */
  lemma PiecesMatchOccupants(sq: Squares, color: Color)
    requires Complete(sq)
    ensures |PiecesOf(sq, Locations(), color)| == |Occupants(sq, color)|
  {
    LocationsAreBoard();
    LocationsDistinct();
    PiecesOfCount(sq, Locations(), color);
    assert (set c | c in Locations() && HasPieceOf(sq, c, color)) == Occupants(sq, color);
  }

  /** The squares the constructor fills with white checkers, in the order it fills them. */
  const WhiteStart: seq<Coord> := [
    Coord(7, 0), Coord(7, 2), Coord(7, 4), Coord(7, 6),
    Coord(6, 1), Coord(6, 3), Coord(6, 5), Coord(6, 7),
    Coord(5, 0), Coord(5, 2), Coord(5, 4), Coord(5, 6)]

  /** The squares the constructor fills with black checkers, in the order it fills them. */
  const BlackStart: seq<Coord> := [
    Coord(0, 1), Coord(0, 3), Coord(0, 5), Coord(0, 7),
    Coord(1, 0), Coord(1, 2), Coord(1, 4), Coord(1, 6),
    Coord(2, 1), Coord(2, 3), Coord(2, 5), Coord(2, 7)]

  /** What the constructor leaves on a square: a new checker of the right colour, or nothing. */
  function StartingPiece(c: Coord): (p: Option<Piece>) {
    if c in WhiteStart then Some(Piece(WHITE, 0))
    else if c in BlackStart then Some(Piece(BLACK, 0))
    else None
  }

  ghost predicate IsStartingLayout(sq: Squares) {
    Complete(sq) && forall c :: c in sq ==> sq[c] == StartingPiece(c)
  }

  /**
    The starting layout in words: white on rows 5-7 and black on rows 0-2, exactly on the
    squares whose row + column is odd; every other square is empty; no piece has moved yet.
  */
  lemma StartingLayoutShape(c: Coord)
    requires IsOnBoard(c)
    ensures StartingPiece(c).Some? <==> (c.row + c.col) % 2 == 1 && (c.row <= 2 || 5 <= c.row)
    ensures StartingPiece(c).Some? ==> StartingPiece(c).value.movesMade == 0
    ensures StartingPiece(c).Some? ==> (StartingPiece(c).value.color == WHITE <==> 5 <= c.row)
  {
    StartListsByRow(c);
    var k := c.col;
    assert k % 2 == 1 <==> k in {1, 3, 5, 7};
    assert k % 2 == 0 <==> k in {0, 2, 4, 6};
    match c.row
    case 0 => assert (0 + k) % 2 == k % 2;
    case 1 => assert (1 + k) % 2 == 1 - k % 2;
    case 2 => assert (2 + k) % 2 == k % 2;
    case 3 =>
    case 4 =>
    case 5 => assert (5 + k) % 2 == 1 - k % 2;
    case 6 => assert (6 + k) % 2 == k % 2;
    case 7 => assert (7 + k) % 2 == 1 - k % 2;
  }

  /** The two starting lists, row by row. */
  lemma StartListsByRow(c: Coord)
    ensures c in WhiteStart <==>
      ((c.row == 5 || c.row == 7) && c.col in {0, 2, 4, 6}) || (c.row == 6 && c.col in {1, 3, 5, 7})
    ensures c in BlackStart <==>
      ((c.row == 0 || c.row == 2) && c.col in {1, 3, 5, 7}) || (c.row == 1 && c.col in {0, 2, 4, 6})
  {
  }

  /** A list without repeats has as many distinct members as entries. */
  lemma {:induction false} DistinctSize(locs: seq<Coord>)
    requires forall i, j :: 0 <= i < j < |locs| ==> locs[i] != locs[j]
    ensures |set c | c in locs| == |locs|
  {
    if locs != [] {
      var init := locs[..|locs| - 1];
      DistinctSize(init);
      assert (set c | c in locs) == (set c | c in init) + {locs[|locs| - 1]};
    }
  }

  /** The two starting lists lie on the board and share no square. */
  lemma StartListsOnBoard()
    ensures forall c :: c in WhiteStart ==> IsOnBoard(c) && c !in BlackStart
    ensures forall c :: c in BlackStart ==> IsOnBoard(c)
  {
    forall i | 0 <= i < |WhiteStart| ensures IsOnBoard(WhiteStart[i]) && WhiteStart[i] !in BlackStart {
      assert 5 <= WhiteStart[i].row;
    }
    forall i | 0 <= i < |BlackStart| ensures IsOnBoard(BlackStart[i]) {
    }
  }

  /** In the starting layout the white squares are those of WhiteStart, and the black ones those of BlackStart. */
  lemma StartingOccupants(sq: Squares)
    requires IsStartingLayout(sq)
    ensures Occupants(sq, WHITE) == (set c | c in WhiteStart)
    ensures Occupants(sq, BLACK) == (set c | c in BlackStart)
  {
    StartListsOnBoard();
    forall c | c in WhiteStart ensures c in sq { }
    forall c | c in BlackStart ensures c in sq { }
  }

  /** A complete board has exactly 64 squares. */
  lemma SquareCount(sq: Squares)
    requires Complete(sq)
    ensures |sq| == 64
  {
    LocationsAreBoard();
    LocationsDistinct();
    DistinctSize(Locations());
    assert sq.Keys == set c | c in Locations();
  }

  /** The starting layout has twelve pieces of each colour, and listing them yields twelve of each. */
  lemma StartingCounts(sq: Squares)
    requires IsStartingLayout(sq)
    ensures |Occupants(sq, WHITE)| == 12 && |Occupants(sq, BLACK)| == 12
    ensures |PiecesOf(sq, Locations(), WHITE)| == 12 && |PiecesOf(sq, Locations(), BLACK)| == 12
  {
    StartingOccupants(sq);
    DistinctSize(WhiteStart);
    DistinctSize(BlackStart);
    PiecesMatchOccupants(sq, WHITE);
    PiecesMatchOccupants(sq, BLACK);
  }

  // ---------------------------------------------------------------------------
  // The board object
  // ---------------------------------------------------------------------------

  class Board {
    var squares: Squares
    var moves: seq<Move>
    var capturedPieces: map<nat, Piece>

    function State(): BoardState
      reads this
    {
      BoardState(squares, moves, capturedPieces)
    }

    ghost predicate Valid()
      reads this
    {
      Inv(State())
    }

    /** A fresh board in the starting layout, with no history and no captures. */
    constructor ()
      ensures Valid() && IsStartingLayout(squares)
      ensures moves == [] && capturedPieces == map[]
    {
      squares := map[];
      moves := [];
      capturedPieces := map[];
      new;
      PrepSquares();
      CreateChecker();
    }

    /** Inserts an empty square for each of the 64 coordinates, row by row. */
    method PrepSquares()
      requires squares == map[]
      modifies this`squares
      ensures Complete(squares) && forall c :: c in squares ==> squares[c] == None
    {
      for i := 0 to 8
        invariant forall c :: c in squares <==> 0 <= c.row < i && 0 <= c.col < 8
        invariant forall c :: c in squares ==> squares[c] == None
      {
        for j := 0 to 8
          invariant forall c :: c in squares <==> (0 <= c.row < i && 0 <= c.col < 8) || (c.row == i && 0 <= c.col < j)
          invariant forall c :: c in squares ==> squares[c] == None
        {
          // (i, j) is not yet a key, so the map insertion adds it
          squares := squares[Coord(i, j) := None];
        }
      }
    }

    /** Places the twelve white and twelve black checkers of the starting layout. */
    method CreateChecker()
      requires Complete(squares) && forall c :: c in squares ==> squares[c] == None
      modifies this`squares
      ensures IsStartingLayout(squares)
    {
      var white, black := Some(Piece(WHITE, 0)), Some(Piece(BLACK, 0));
      squares := squares[Coord(7, 0) := white];
      squares := squares[Coord(7, 2) := white];
      squares := squares[Coord(7, 4) := white];
      squares := squares[Coord(7, 6) := white];
      squares := squares[Coord(6, 1) := white];
      squares := squares[Coord(6, 3) := white];
      squares := squares[Coord(6, 5) := white];
      squares := squares[Coord(6, 7) := white];
      squares := squares[Coord(5, 0) := white];
      squares := squares[Coord(5, 2) := white];
      squares := squares[Coord(5, 4) := white];
      squares := squares[Coord(5, 6) := white];
      forall c | c in squares ensures squares[c] == if c in WhiteStart then white else None {
        StartListsByRow(c);
      }
      squares := squares[Coord(0, 1) := black];
      squares := squares[Coord(0, 3) := black];
      squares := squares[Coord(0, 5) := black];
      squares := squares[Coord(0, 7) := black];
      squares := squares[Coord(1, 0) := black];
      squares := squares[Coord(1, 2) := black];
      squares := squares[Coord(1, 4) := black];
      squares := squares[Coord(1, 6) := black];
      squares := squares[Coord(2, 1) := black];
      squares := squares[Coord(2, 3) := black];
      squares := squares[Coord(2, 5) := black];
      squares := squares[Coord(2, 7) := black];
      forall c | c in squares ensures squares[c] == StartingPiece(c) {
        StartListsByRow(c);
      }
    }

    /** setPiece: stores `piece` in the square at `c` and returns its previous occupant. */
    method SetPiece(c: Coord, piece: Option<Piece>) returns (previous: Option<Piece>)
      requires c in squares
      modifies this`squares
      ensures squares == old(squares)[c := piece]
      ensures previous == old(squares)[c]
    {
      previous := squares[c];
      squares := squares[c := piece];
    }

    /**
      movePiece: validates the move and, if it passes, archives a captured destination occupant,
      transfers the piece, counts its move and records the move. A rejected move changes nothing.
    */
    method MovePiece(rule: PieceRule, from: Coord, to: Coord) returns (moved: bool)
      requires Valid()
      modifies this
      ensures Valid()
      ensures moved == IsValidMove(old(squares), rule, from, to)
      ensures moved ==> MoveReady(old(squares), from, to) && State() == ExecuteMove(old(State()), from, to)
      ensures !moved ==> State() == old(State())
      ensures forall color :: PieceCount(State(), color) == old(PieceCount(State(), color))
    {
      ValidMoveMeaning(squares, rule, from, to);
      if IsValidMove(squares, rule, from, to) {
        ghost var s := State();
        if GetPiece(squares, to).Some? {
          var index := |moves|;
          var captured := SetPiece(to, None);
          // the history length is never yet a key, so the insertion always stores the piece
          assert index !in capturedPieces;
          capturedPieces := capturedPieces[index := captured.value];
        }
        var piece := SetPiece(from, None);
        var _ := SetPiece(to, piece);
        var _ := SetPiece(to, Some(IncrementMoves(GetPiece(squares, to).value)));
        moves := moves + [(from, to)];
        assert squares == s.squares[from := None][to := Some(IncrementMoves(GetPiece(s.squares, from).value))];
        forall color ensures PieceCount(State(), color) == PieceCount(s, color) {
          MoveConservesPieces(s, from, to, color);
        }
        return true;
      }
      return false;
    }

    /** isPathClear: walks the squares strictly between the two ends of a diagonal move. */
    method IsPathClear(from: Coord, to: Coord) returns (clear: bool)
      requires Valid() && IsOnBoard(from) && IsOnBoard(to)
      ensures clear == PathClear(squares, from, to)
    {
      var moveLength := GetMoveLength(from, to);
      var isDiagonal := IsDiagonalMove(from, to);
      var movingSouth := from.row < to.row;
      var movingEast := from.col < to.col;

      if moveLength == 0 || moveLength == 1 {
        return true;
      }

      var fromTemp, toTemp := from, to;
      if isDiagonal {
        if movingSouth == movingEast {
          // southeast or northwest: walk southeast from the north-west end
          if !movingSouth && !movingEast {
            fromTemp, toTemp := to, from;
          }
          WalkEnds(squares, from, to, fromTemp, toTemp);
          clear := ScanSoutheast(fromTemp, toTemp);
          return;
        } else {
          // northeast or southwest: walk northeast from the south-west end
          if movingSouth && !movingEast {
            fromTemp, toTemp := to, from;
          }
          WalkEnds(squares, from, to, fromTemp, toTemp);
          clear := ScanNortheast(fromTemp, toTemp);
          return;
        }
      }

      // neither adjacent nor diagonal
      return false;
    }

    /** The southeast walk of isPathClear: every square strictly between `start` and `end` must be empty. */
    method ScanSoutheast(start: Coord, end: Coord) returns (clear: bool)
      requires Valid() && IsOnBoard(start) && IsOnBoard(end) && IsDiagonalMove(start, end)
      requires start.row < end.row && start.col < end.col
      ensures clear == PathClear(squares, start, end)
    {
      var col := start.col + 1;
      var row := start.row + 1;
      while row < end.row
        invariant start.row < row <= end.row
        invariant col == start.col + (row - start.row)
        invariant forall k :: 0 < k < row - start.row ==> !IsOccupied(squares, Step(start, end, k))
      {
        assert Coord(row, col) == Step(start, end, row - start.row);
        if IsOccupied(squares, Coord(row, col)) {
          PathBlocked(squares, start, end, row - start.row);
          return false;
        }
        col := col + 1;
        row := row + 1;
      }
      return true;
    }

    /** The northeast walk of isPathClear: every square strictly between `start` and `end` must be empty. */
    method ScanNortheast(start: Coord, end: Coord) returns (clear: bool)
      requires Valid() && IsOnBoard(start) && IsOnBoard(end) && IsDiagonalMove(start, end)
      requires start.row > end.row && start.col < end.col
      ensures clear == PathClear(squares, start, end)
    {
      var col := start.col + 1;
      var row := start.row - 1;
      while row > end.row
        invariant end.row <= row < start.row
        invariant col == start.col + (start.row - row)
        invariant forall k :: 0 < k < start.row - row ==> !IsOccupied(squares, Step(start, end, k))
      {
        assert Coord(row, col) == Step(start, end, start.row - row);
        if IsOccupied(squares, Coord(row, col)) {
          PathBlocked(squares, start, end, start.row - row);
          return false;
        }
        col := col + 1;
        row := row - 1;
      }
      return true;
    }

    /** getPieces: the pieces of `color`, visiting the squares in the map's row-major key order. */
    method GetPieces(color: Color) returns (pieces: seq<Piece>)
      requires Valid()
      ensures pieces == PiecesOf(squares, Locations(), color)
      ensures |pieces| == |Occupants(squares, color)|
    {
      pieces := [];
      var keys := Locations();
      LocationsAreBoard();
      for i := 0 to |keys|
        invariant pieces == PiecesOf(squares, keys[..i], color)
      {
        PiecesOfPrefix(squares, keys, i, color);
        var piece := GetPiece(squares, keys[i]);
        if piece.Some? && piece.value.color == color {
          pieces := pieces + [piece.value];
        }
      }
      assert keys[..|keys|] == keys;
      PiecesMatchOccupants(squares, color);
    }

    /** getLocations: every key of the square map, in row-major order. */
    method GetLocations() returns (locations: seq<Coord>)
      requires Valid()
      ensures locations == Locations()
      ensures |locations| == 64 && forall c :: c in locations <==> c in squares
    {
      locations := [];
      ghost var locs := Locations();
      for row := 0 to 8
        invariant locations == locs[..8 * row]
      {
        for col := 0 to 8
          invariant locations == locs[..8 * row + col]
        {
          LocationAt(row, col);
          assert locs[..8 * row + col + 1] == locs[..8 * row + col] + [Coord(row, col)];
          locations := locations + [Coord(row, col)];
        }
      }
      assert locs[..64] == locs;
      LocationsAreBoard();
    }
  }
}
