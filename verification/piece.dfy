/**
 * The geometry of the falling piece in Tetrimino.js: its absolute cells, the
 * collision test, the rotation of its offsets and the landing search of the
 * Espectro (the projection of the piece onto the stack below it).
 */
module Pieces {
  import opened Grid

  /** mapaTablero: the absolute cells of a piece, each offset moved by the anchor. */
  function Cells(offsets: seq<Pos>, anchor: Pos): (cells: seq<Pos>)
    ensures |cells| == |offsets|
  {
    seq(|offsets|, i requires 0 <= i < |offsets| => Pos(offsets[i].x + anchor.x, offsets[i].y + anchor.y))
  }

  /**
   * Moving the anchor moves every absolute cell by the same step, and the
   * anchor itself is recovered from any cell and its offset.
   */
  lemma CellsFollowAnchor(offsets: seq<Pos>, anchor: Pos, dx: int, dy: int)
    ensures var before := Cells(offsets, anchor);
            var after := Cells(offsets, Pos(anchor.x + dx, anchor.y + dy));
            forall i :: 0 <= i < |offsets| ==>
              && after[i] == Pos(before[i].x + dx, before[i].y + dy)
              && before[i].x - offsets[i].x == anchor.x
              && before[i].y - offsets[i].y == anchor.y
  {
  }

  /** Off the sides or below the floor: the hard limits of the board. */
  predicate OutOfBounds(p: Pos) {
    p.x < 0 || p.x >= Columns || p.y >= Rows
  }

  /** The test colision applies to one cell; stored cells only count for rows >= 0. */
  predicate Blocked(b: Board, p: Pos)
    requires WellFormed(b)
  {
    OutOfBounds(p) || (0 <= p.y && b[p.y][p.x] != Empty)
  }

  /**
   * colision (of both the Tetrimino and the Espectro): the cells are examined
   * in order, the bounds first, and the board is only read for a cell that
   * lies on it.
   */
  function Collides(b: Board, cells: seq<Pos>): (hit: bool)
    requires WellFormed(b)
    ensures hit <==> exists i :: 0 <= i < |cells| && Blocked(b, cells[i])
  {
    if |cells| == 0 then false
    else
      var p := cells[0];
      if p.x < 0 || p.x >= Columns || p.y >= Rows then true
      else if p.y >= 0 && b[p.y][p.x] != Empty then true
      else
        assert forall i :: 1 <= i < |cells| ==> cells[i] == cells[1..][i - 1];
        Collides(b, cells[1..])
  }

  /** The piece with these offsets can stand at `anchor`. */
  predicate Fits(b: Board, offsets: seq<Pos>, anchor: Pos)
    requires WellFormed(b)
  {
    !Collides(b, Cells(offsets, anchor))
  }

  /** A cell off the sides or below the floor collides, whatever the board holds. */
  lemma BoundsAlwaysCollide(b: Board, cells: seq<Pos>, i: int)
    requires WellFormed(b) && 0 <= i < |cells|
    requires cells[i].x < 0 || cells[i].x >= Columns || cells[i].y >= Rows
    ensures Collides(b, cells)
  {
  }

  /**
   * Above the board nothing is stored: cells with row < 0 inside the column
   * bounds never collide, whatever the board holds.
   */
  lemma AboveBoardNeverCollides(b: Board, cells: seq<Pos>)
    requires WellFormed(b)
    requires forall i :: 0 <= i < |cells| ==> cells[i].y < 0 && 0 <= cells[i].x < Columns
    ensures !Collides(b, cells)
  {
  }

  /** A cell on the board collides exactly when the stored cell is not empty. */
  lemma OnBoardCollidesIffOccupied(b: Board, p: Pos)
    requires WellFormed(b) && OnBoard(p)
    ensures Collides(b, [p]) <==> b[p.y][p.x] != Empty
  {
  }

  /** The rotation girar applies to one offset: (x, y) becomes (-y, x). */
  function Rotate(p: Pos): Pos {
    Pos(-p.y, p.x)
  }

  /** girar's new map: every offset rotated a quarter turn. */
  function RotateAll(offsets: seq<Pos>): (r: seq<Pos>)
    ensures |r| == |offsets|
  {
    seq(|offsets|, i requires 0 <= i < |offsets| => Rotate(offsets[i]))
  }

  /** Two quarter turns reflect every offset through the anchor. */
  lemma RotateTwice(offsets: seq<Pos>)
    ensures forall i :: 0 <= i < |offsets| ==>
              RotateAll(RotateAll(offsets))[i] == Pos(-offsets[i].x, -offsets[i].y)
  {
  }

  /** Rotation has order 4: four quarter turns restore the original offsets. */
  lemma RotateFourTimes(offsets: seq<Pos>)
    ensures RotateAll(RotateAll(RotateAll(RotateAll(offsets)))) == offsets
  {
  }

  /**
   * The loop of Espectro.actualizar, started at row `y` in column `x`: the row
   * is increased while the piece fits and the result is the last row before
   * the first collision (y - 1 when the piece does not fit at `y` itself).
   * The search ends because the floor always collides.
   */
  function DropRow(b: Board, offsets: seq<Pos>, x: int, y: int): (r: int)
    requires WellFormed(b) && |offsets| > 0
    ensures r >= y - 1
    ensures !Fits(b, offsets, Pos(x, r + 1))
    ensures forall y' :: y <= y' <= r ==> Fits(b, offsets, Pos(x, y'))
    decreases Rows - (offsets[0].y + y)
  {
    var cells := Cells(offsets, Pos(x, y));
    if Collides(b, cells) then y - 1
    else
      assert !Blocked(b, cells[0]);
      DropRow(b, offsets, x, y + 1)
  }

  /**
   * The Espectro's position: same column as the anchor; when the piece fits at
   * its anchor, the lowest row reachable by falling straight down: it fits
   * there and on every row on the way, and one row lower it collides.
   */
  function Projection(b: Board, offsets: seq<Pos>, anchor: Pos): (p: Pos)
    requires WellFormed(b) && |offsets| > 0
    ensures p.x == anchor.x
    ensures !Fits(b, offsets, Pos(p.x, p.y + 1))
    ensures Fits(b, offsets, anchor) ==>
              && p.y >= anchor.y
              && Fits(b, offsets, p)
              && forall y' :: anchor.y <= y' <= p.y ==> Fits(b, offsets, Pos(anchor.x, y'))
    ensures !Fits(b, offsets, anchor) ==> p.y == anchor.y - 1
  {
    Pos(anchor.x, DropRow(b, offsets, anchor.x, anchor.y))
  }

  /**
   * Starting the search lower down, at any row the piece can fall to, finds
   * the same landing row.
   */
  lemma DropRowFromBelow(b: Board, offsets: seq<Pos>, x: int, y: int, y2: int)
    requires WellFormed(b) && |offsets| > 0
    requires y <= y2 <= DropRow(b, offsets, x, y) + 1
    ensures DropRow(b, offsets, x, y2) == DropRow(b, offsets, x, y)
  {
  }

  /**
   * On an empty board a piece whose lowest offset row is `low`, inside the
   * column bounds, lands with its anchor on row Rows - 1 - low: its lowest
   * cells rest on the floor, neither one row higher nor one row lower.
   */
  lemma {:induction false} DropOnEmptyBoard(offsets: seq<Pos>, x: int, y: int, low: int, j: int)
    requires 0 <= j < |offsets| && offsets[j].y == low
    requires forall i :: 0 <= i < |offsets| ==> offsets[i].y <= low && 0 <= offsets[i].x + x < Columns
    requires y + low <= Rows - 1
    ensures DropRow(NewBoard(), offsets, x, y) == Rows - 1 - low
  {
    var b := NewBoard();
    var r := DropRow(b, offsets, x, y);
    var cells := Cells(offsets, Pos(x, r + 1));
    var i :| 0 <= i < |cells| && Blocked(b, cells[i]);
    assert cells[i].y >= Rows;
    var land := Cells(offsets, Pos(x, Rows - low));
    assert Blocked(b, land[j]);
  }
}
