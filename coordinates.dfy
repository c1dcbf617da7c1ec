/**
  Board coordinates: zero-based (row, column) pairs, their algebraic notation,
  the on-board test, diagonal arithmetic and the row-major order of the 64 squares.
  Row 0 is rank 8 and column 0 is file a, so (0, 0) is "a8".
*/
module Coordinates {

  /** A (row, column) pair. Values off the board are representable, as with the source's int pairs. */
  datatype Coord = Coord(row: int, col: int)

  /** isOnBoard: both axes lie in [0, 7]. */
  predicate IsOnBoard(c: Coord)
    ensures IsOnBoard(c) <==> 0 <= c.row < 8 && 0 <= c.col < 8
  {
    if c.row < 0 || c.row > 7 then false
    else if c.col < 0 || c.col > 7 then false
    else true
  }

  function Abs(x: int): nat {
    if x < 0 then -x else x
  }

  // ---------------------------------------------------------------------------
  // Algebraic notation
  // ---------------------------------------------------------------------------

  /** A well-formed square name: a file letter 'a'..'h' followed by a rank digit '1'..'8'. */
  predicate IsNotation(s: string) {
    |s| >= 2 && 'a' <= s[0] <= 'h' && '1' <= s[1] <= '8'
  }

  /** Character i of a C++ string: index |s| reads the terminating '\0'. */
  function CharAt(s: string, i: nat): char
    requires i <= |s|
  {
    if i < |s| then s[i] else '\0'
  }

  /**
    algebraicToInt: the file letter gives the column, the rank digit d gives row 8 - d.
    Nothing is validated; the result is on the board exactly when the text is a square name.
  */
  function AlgebraicToInt(s: string): (c: Coord)
    requires |s| >= 1
    ensures IsOnBoard(c) <==> IsNotation(s)
  {
    var col := CharAt(s, 0) as int - 'a' as int;
    var row := 8 - (CharAt(s, 1) as int - '0' as int);
    Coord(row, col)
  }

  /** intToAlgebraic: two characters, file then rank; each is cast to an 8-bit char. */
  function IntToAlgebraic(c: Coord): (s: string)
    ensures |s| == 2
    ensures IsOnBoard(c) ==> IsNotation(s)
  {
    var row := (8 - c.row + '0' as int) % 256;
    var col := (c.col + 'a' as int) % 256;
    [col as char, row as char]
  }

  /** Converting an on-board coordinate to notation and back gives it back. */
  lemma CoordRoundTrip(c: Coord)
    requires IsOnBoard(c)
    ensures AlgebraicToInt(IntToAlgebraic(c)) == c
  {
  }

  /** Reading a square name and writing it back gives its first two characters. */
  lemma NotationRoundTrip(s: string)
    requires IsNotation(s)
    ensures IntToAlgebraic(AlgebraicToInt(s)) == s[..2]
  {
    var t := IntToAlgebraic(AlgebraicToInt(s));
    assert t[0] == s[0] && t[1] == s[1];
  }

  /** The corner example of the source's comments. */
  lemma CornerIsA8()
    ensures AlgebraicToInt("a8") == Coord(0, 0)
    ensures IntToAlgebraic(Coord(0, 0)) == "a8"
  {
  }

  // ---------------------------------------------------------------------------
  // Diagonal arithmetic
  // ---------------------------------------------------------------------------

  /** isDiagonalMove: the vertical and horizontal distances agree, so the move runs along one of the two diagonals. */
  predicate IsDiagonalMove(from: Coord, to: Coord)
    ensures IsDiagonalMove(from, to) <==> to.row - from.row == to.col - from.col || to.row - from.row == from.col - to.col
  {
    Abs(to.row - from.row) == Abs(to.col - from.col)
  }

  /** The square k steps from `from` along the ray with row direction dr and column direction dc. */
  function Ray(from: Coord, dr: int, dc: int, k: int): Coord {
    Coord(from.row + k * dr, from.col + k * dc)
  }

  /** A move is diagonal exactly when its destination lies on one of the four diagonal rays of its origin. */
  lemma DiagonalIffOnRay(from: Coord, to: Coord)
    ensures IsDiagonalMove(from, to) <==>
      exists k: nat, dr: int, dc: int | (dr == 1 || dr == -1) && (dc == 1 || dc == -1) :: Ray(from, dr, dc, k) == to
  {
    if IsDiagonalMove(from, to) {
      var k := Abs(to.row - from.row);
      var dr := if to.row < from.row then -1 else 1;
      var dc := if to.col < from.col then -1 else 1;
      assert Ray(from, dr, dc, k) == to;
    } else {
      forall k: nat, dr: int, dc: int | (dr == 1 || dr == -1) && (dc == 1 || dc == -1)
        ensures Ray(from, dr, dc, k) != to
      {
        if dr == 1 && dc == 1 {
        } else if dr == 1 {
        } else if dc == 1 {
        } else {
        }
      }
    }
  }

  /** getMoveLength: the number of diagonal steps of the move, or -1 when it is not diagonal. */
  function GetMoveLength(from: Coord, to: Coord): (n: int)
    ensures n == -1 <==> !IsDiagonalMove(from, to)
    ensures n >= 0 ==> n == Abs(to.row - from.row) && n == Abs(to.col - from.col)
    ensures n == 0 <==> from == to
  {
    if IsDiagonalMove(from, to) then Abs(to.row - from.row) else -1
  }

  // ---------------------------------------------------------------------------
  // Row-major order of the squares
  // ---------------------------------------------------------------------------

  /** `a` comes before `b` in the order of the board's square map: by row, then by column. */
  predicate RowMajorBefore(a: Coord, b: Coord) {
    a.row < b.row || (a.row == b.row && a.col < b.col)
  }

  /** All 64 coordinates, in the board map's key order. */
  function Locations(): seq<Coord> {
    seq(64, i requires 0 <= i < 64 => Coord(i / 8, i % 8))
  }

  /** The locations are exactly the on-board coordinates, each once, in strictly increasing row-major order. */
  lemma LocationsAreBoard()
    ensures |Locations()| == 64
    ensures forall c :: c in Locations() <==> IsOnBoard(c)
    ensures forall i, j :: 0 <= i < j < 64 ==> RowMajorBefore(Locations()[i], Locations()[j])
  {
    var locs := Locations();
    forall c | IsOnBoard(c) ensures c in locs {
      assert locs[8 * c.row + c.col] == c;
    }
  }

  /** Square (row, col) is entry 8 * row + col of the row-major order. */
  lemma LocationAt(row: int, col: int)
    requires 0 <= row < 8 && 0 <= col < 8
    ensures 8 * row + col < |Locations()| && Locations()[8 * row + col] == Coord(row, col)
  {
  }

  /** Row-major order has no repeats. */
  lemma LocationsDistinct()
    ensures forall i, j :: 0 <= i < j < |Locations()| ==> Locations()[i] != Locations()[j]
  {
    LocationsAreBoard();
  }
}
