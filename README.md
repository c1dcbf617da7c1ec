# Checkers board engine, modelled in Dafny

This project models the `Board` class of a small C++ checkers program (`board.cpp`).
The board is a map from `(row, col)` pairs to squares. Row 0 is rank 8 and column 0 is file a, so `(0, 0)` is "a8".
Each square holds at most one piece. The board also keeps two other things:
- the append-only history of executed moves;
- an archive of captured pieces, keyed by the index of the move that made the capture.

The model has four modules:

- `Pieces` (`pieces.dfy`) holds the colours, the piece record (its colour and its move counter), and `Option`. `Option` stands for the one-slot square, which the source represents as a nullable owning pointer.
- `Coordinates` (`coordinates.dfy`) covers:
  - `Coord` values;
  - the conversions to and from algebraic notation;
  - the on-board test;
  - the diagonal and move-length arithmetic;
  - the row-major order in which the board's map lists its keys.
- `Grid` (`grid.dfy`) treats the squares as a value, a `map<Coord, Option<Piece>>`. On that value it defines:
  - the occupancy and colour queries;
  - `PathClear`, what the path scan decides, stated as a predicate;
  - the layered move validation. Its last layer is the piece's own movement rule, which the model takes as a parameter.
- `Boards` (`board.dfy`) holds:
  - `BoardState` and `ExecuteMove`, which say what a successful move does to the whole state;
  - the conservation of pieces (board plus archive, per colour);
  - the starting layout;
  - the class `Board`. Its methods update the squares, the history and the archive in place, as the source does. Each method is proved against the functions above.

The main results are these:
- **Coordinates.** On the board, coordinates and algebraic notation convert into each other and back.
- **Colour tests.** The two colour tests exclude each other.
- **Diagonals.** A move is diagonal exactly when its destination lies on one of the four diagonal rays of its origin.
- **Path scan.** Both diagonal walks of the scan decide `PathClear`, whichever end they start from.
- **Validation.** It never accepts a move from a square to itself.
- **Moves.**
  - A rejected move changes nothing.
  - A successful move empties the origin and puts the mover, with one more move counted, on the destination.
  - It archives the destination's enemy piece under the pre-move history length, and it leaves every other square alone.
  - No move changes the number of pieces of a colour on the board plus in the archive.
- **Starting layout.** The constructor builds exactly 64 squares, with twelve checkers per side on the squares whose row + column is odd. Listing the pieces of either colour yields twelve.

## Model

| member | source | states |
|---|---|---|
| Pieces.IncrementMoves | board.cpp:168-169 | the piece keeps its colour and its move counter grows by exactly one |
| Coordinates.AlgebraicToInt | board.cpp:179-184 | the result is on the board exactly when the text starts with a file letter a-h and a rank digit 1-8 (its inverse property is `CoordRoundTrip`) |
| Coordinates.IntToAlgebraic | board.cpp:187-193 | the result is two characters, and it is a square name whenever the coordinate is on the board |
| Coordinates.CoordRoundTrip | board.cpp:178-193 | converting an on-board coordinate to notation and back gives the same coordinate |
| Coordinates.NotationRoundTrip | board.cpp:178-193 | converting a square name to a coordinate and back gives its first two characters |
| Coordinates.CornerIsA8 | board.cpp:178-193 | "a8" is (0, 0) and (0, 0) is "a8" |
| Coordinates.IsOnBoard | board.cpp:195-210 | true exactly when both the row and the column lie in 0..7 |
| Coordinates.IsDiagonalMove | board.cpp:274-282 | true exactly when the row change equals the column change or its negation, i.e. the move runs along one of the two diagonals |
| Coordinates.DiagonalIffOnRay | board.cpp:274-282 | equal absolute row and column differences hold exactly when the destination is k steps along one of the four diagonal directions |
| Coordinates.GetMoveLength | board.cpp:284-299 | -1 exactly for non-diagonal moves; otherwise the absolute row and column distance; 0 exactly when origin and destination coincide |
| Coordinates.LocationsAreBoard | board.cpp:21-31 | the key order has 64 entries, holds exactly the on-board coordinates, and is strictly increasing by row and then by column |
| Grid.GetPiece | board.cpp:71-76 | the square's occupant: present exactly when the square holds a white or a black piece, and then a piece of its own colour |
| Grid.IsOccupied | board.cpp:212-216 | true exactly when the square holds a white or a black piece |
| Grid.IsOccupiedSameColor | board.cpp:218-244 | true exactly when both squares are occupied and the destination's piece has the origin piece's colour |
| Grid.IsOccupiedDifferentColor | board.cpp:246-272 | true exactly when both squares are occupied and the destination's piece has the other colour |
| Grid.ColorTestsExclusive | board.cpp:218-272 | the two colour tests never both hold; with both squares occupied exactly one holds; with either square empty neither holds |
| Grid.PathClearSymmetric | board.cpp:301-372 | the path test gives the same answer from either end of the move |
| Grid.WalkEnds | board.cpp:321-331 | after the swap, the walk's endpoints are on the board and diagonal, with the same length and the same path answer as the requested move |
| Grid.PathBlocked | board.cpp:334-340 | an occupied square strictly inside a diagonal move makes its path not clear |
| Grid.PathClearShortAndNonDiagonal | board.cpp:314-318 | moves of length 0 or 1 always have a clear path, and non-diagonal moves never do |
| Grid.PathClearIgnoresDestination | board.cpp:301-305 | whatever stands on the destination does not change the path answer |
| Grid.IsValidMove | board.cpp:374-408 | an accepted move has both ends on the board, is not a move to the same square, starts from an occupied square, and lands on an empty or enemy-held square |
| Grid.ValidMoveMeaning | board.cpp:374-408 | validation passes exactly when both ends are on the board, no friendly piece is on the destination, a piece is on the origin, and that piece's rule accepts; such a move leaves its square and lands on an empty or enemy-held one |
| Grid.SelfMoveRejected | board.cpp:374-408 | a move from a square to itself is rejected whatever the piece's rule |
| Boards.ExecuteMove | board.cpp:150-176 | a successful move keeps the board invariant: all 64 squares exist and every archive key is the index of an executed move |
| Boards.MoveEffect | board.cpp:163-170 | after a move the origin is empty, the destination holds the mover with one more move counted, every other square is unchanged, and (from, to) is appended to the history |
| Boards.MoveArchivesCapture | board.cpp:156-161 | a capture stores the destination's enemy piece under the pre-move history length, a key not used before, and keeps older entries; a quiet move leaves the archive unchanged |
| Boards.MoverCountKept | board.cpp:163-166 | the moving side's board-plus-archive count is unchanged |
| Boards.CapturedCountKept | board.cpp:156-161 | a captured side loses one square and gains one archive entry, so its count is unchanged |
| Boards.QuietCountKept | board.cpp:163-166 | on a quiet move the other side's count is unchanged |
| Boards.MoveConservesPieces | board.cpp:150-176 | for each colour, pieces on the board plus pieces in the archive stay the same in number |
| Boards.MoveConservesTotal | board.cpp:150-176 | the total number of pieces on the board plus the archive stays the same |
| Boards.PiecesOf | board.cpp:413-427 | the listing has at most one entry per visited square, and every listed piece has the requested colour |
| Boards.PiecesOfCount | board.cpp:413-427 | over distinct squares, the listing has one entry per square holding a piece of that colour |
| Boards.PiecesMatchOccupants | board.cpp:413-427 | on a complete board, the listing over all squares has as many entries as there are squares holding that colour |
| Boards.StartingLayoutShape | board.cpp:34-62 | in the starting layout a square is occupied exactly when row + column is odd and the row is 0-2 or 5-7; white is on rows 5-7, black is on rows 0-2, and no piece has moved |
| Boards.StartListsOnBoard | board.cpp:34-62 | every placed checker is on the board, and no square gets both a white and a black checker |
| Boards.StartingOccupants | board.cpp:34-62 | the white squares of the starting layout are exactly the white placements, and likewise for black |
| Boards.StartingCounts | board.cpp:34-62 | the starting layout has twelve squares of each colour, and listing the pieces of each colour yields twelve |
| Boards.SquareCount | board.cpp:21-31 | a complete board has exactly 64 squares |
| Boards.Board.constructor | board.cpp:10-16 | a new board holds the starting layout, an empty history and an empty archive |
| Boards.Board.PrepSquares | board.cpp:21-31 | the nested loops create one empty square for every on-board coordinate and nothing else |
| Boards.Board.CreateChecker | board.cpp:34-62 | the 24 placements leave exactly the starting layout on an empty board |
| Boards.Board.SetPiece | board.cpp:65-69 | the square takes the new occupant, the previous occupant is returned, and no other square changes |
| Boards.Board.MovePiece | board.cpp:150-176 | the result is the validation verdict; a valid move turns the state into `ExecuteMove` of the old state; an invalid move changes nothing; every colour's board-plus-archive count is kept |
| Boards.Board.IsPathClear | board.cpp:306-372 | the scan answers exactly `PathClear` in all four diagonal directions, with the shortcut for lengths 0 and 1 and false for non-diagonal moves |
| Boards.Board.ScanSoutheast | board.cpp:332-344 | the southeast walk returns true exactly when every square strictly between its ends is empty |
| Boards.Board.ScanNortheast | board.cpp:354-366 | the northeast walk returns true exactly when every square strictly between its ends is empty |
| Boards.Board.GetPieces | board.cpp:413-427 | the pieces of the colour, in the map's row-major key order, one per square holding that colour |
| Boards.Board.GetLocations | board.cpp:446-458 | all 64 keys in row-major order, exactly the coordinates of the squares |

## Left out

- The four print functions (board.cpp:80-143, 429-444) write to the console. They are not modelled.
- The piece's own movement rule (`piece->isValidMove`, board.cpp:401) belongs to the piece classes, whose files are not part of this model.
  - It is the parameter `rule` of type `PieceRule`: any total function of the squares, the moving piece and the two ends.
  - The source passes it the whole board object. The model passes only the squares, so a rule cannot consult the history or the archive.
  - No regular or crowned movement rule is assumed.
- The piece classes are not part of this model, so the model assumes a new checker's move counter starts at 0, and the counter is an unbounded `nat`.
- `Movement.cpp`, `Game.h` and `Checkers/main.cpp` are not part of this model. They are an unconnected prototype, bodiless declarations, and a Qt bootstrap.
- Promotion, turn order, win or tie detection and multi-jump continuation are not implemented by the board, and they are not modelled.
- Ownership through `unique_ptr`: a piece moves between squares as an `Option<Piece>` value. Raising the counter of the piece on the destination (board.cpp:169) replaces that value with `IncrementMoves` of it.
- Boards.Board.CreateChecker: writes its 24 `setPiece` calls as direct map updates. Each has the effect that `SetPiece` is proved to have, but the previous occupants (all empty) are not returned.
- Boards.Board.GetPieces: iterates the map through `Locations()`, the row-major key order that `GetLocations` computes square by square. The iteration order of `std::map` itself is not modelled.
- Coordinates.IntToAlgebraic: casts each character as a value modulo 256. Where plain `char` is signed, characters from 128 to 255 would come out negative; that does not matter on the board.
- Coordinates.AlgebraicToInt: requires at least one character. Reading index 0 of an empty string gives the terminating '\0' and index 1 is then out of range, so the model does not give that case a value. For a one-character string the second character reads as '\0' (`CharAt`), as `std::string` does. The model also reads each character as its Unicode code point, where the source subtracts from one byte of the string: that byte is negative where plain `char` is signed, and a non-ASCII character spans several bytes. So for text that is not a square name the off-board coordinate can differ from the source's ("é8" gives column 136 here). The on-board case, and which texts land on the board, are the same.
- The capture rule follows the code: the piece on the destination square is archived. There is no jumped-over piece. The destination must hold an enemy piece, because validation rejects a friendly one.
- There is no error for malformed notation. The code does not validate its input; `AlgebraicToInt` returns an off-board coordinate instead, and its contract says exactly when.
- `capturedPieces.insert` would keep an existing entry under the same key. The invariant `Inv` shows that the key is always fresh, so `MovePiece` stores the entry unconditionally.
