/**
 * The game state of Tetris_ADN as one explicit session: the board
 * (`tablero`), the active piece (`tetrimino`) and the line counter
 * (`lineas_hechas`), together with the operations of Tetrimino.js that move,
 * rotate, drop and lock the piece. The shape of the next piece, chosen at
 * random by the program, is a parameter of every operation that spawns one.
 * The Espectro is recomputed by the program after every change to the piece
 * and is built after the board for every new piece, so it always equals the
 * projection of the current piece; here it is that projection, `Espectro(s)`.
 */
module Game {
  import opened Grid
  import opened Pieces

  /** An entry of the shape catalog: its name and its default offsets. */
  datatype Shape = Shape(name: string, offsets: seq<Pos>)

  /** The active piece: its shape name, anchor and current (possibly turned) offsets. */
  datatype Piece = Piece(name: string, anchor: Pos, offsets: seq<Pos>)

  datatype Session = Session(board: Board, piece: Piece, lines: nat)

  /** Every catalog shape has at least one cell. */
  predicate ValidShape(shape: Shape) {
    |shape.offsets| > 0
  }

  /** The invariant every operation keeps: the board has its fixed size and the piece has cells. */
  predicate Valid(s: Session) {
    WellFormed(s.board) && |s.piece.offsets| > 0
  }

  /** The position of the piece's Espectro: the projection of its current offsets. */
  function Espectro(s: Session): Pos
    requires Valid(s)
  {
    Projection(s.board, s.piece.offsets, s.piece.anchor)
  }

  /** Where a new piece appears: the middle column, one row above the board. */
  const SpawnAnchor: Pos := Pos(Columns / 2, -1)

  /** The Tetrimino constructor, with the randomly chosen shape as a parameter. */
  function Spawn(shape: Shape, b: Board): (p: Piece)
    requires ValidShape(shape) && WellFormed(b)
    ensures p.name == shape.name && p.offsets == shape.offsets
    ensures p.anchor == Pos(5, -1)
    ensures Valid(Session(b, p, 0))
  {
    Piece(shape.name, SpawnAnchor, shape.offsets)
  }

  /** The reset after a game over: a fresh board, a new piece, no lines. */
  function Restart(next: Shape): (r: Session)
    requires ValidShape(next)
    ensures Valid(r)
    ensures r.lines == 0
    ensures forall row, c :: 0 <= row < Rows && 0 <= c < Columns ==> r.board[row][c] == Empty
  {
    var b := NewBoard();
    Session(b, Spawn(next, b), 0)
  }

  /**
   * almacenarMinos on the piece as it stands, then the spawn of the next piece.
   * A piece with a cell above the board ends the game: the session restarts
   * and the counter returns to 0. Otherwise the counter grows by the number
   * of rows the lock completed, and no complete row remains.
   */
  function Lock(s: Session, next: Shape): (r: Session)
    requires WellFormed(s.board) && ValidShape(next)
    ensures Valid(r)
    ensures r.piece == Spawn(next, r.board)
    ensures var cells := Cells(s.piece.offsets, s.piece.anchor);
            AboveBoard(cells) ==> r.board == NewBoard() && r.lines == 0
    ensures var cells := Cells(s.piece.offsets, s.piece.anchor);
            !AboveBoard(cells) ==>
              && r.board == ClearCompleted(WriteCells(s.board, s.piece.name, cells)).board
              && r.lines == s.lines + |LinesToRemove(WriteCells(s.board, s.piece.name, cells))|
              && forall row :: 0 <= row < Rows ==> !RowComplete(r.board[row])
  {
    var cells := Cells(s.piece.offsets, s.piece.anchor);
    match Store(s.board, s.piece.name, cells)
    case GameOver => Restart(next)
    case Stored(b, n) => Session(b, Spawn(next, b), s.lines + n)
  }

  /** A tentative one-step shift of the anchor, undone when the moved piece collides. */
  function Shift(s: Session, dx: int, dy: int): (r: Session)
    requires Valid(s)
    ensures Valid(r)
  {
    var a := s.piece.anchor;
    var moved := Pos(a.x + dx, a.y + dy);
    if Fits(s.board, s.piece.offsets, moved) then s.(piece := s.piece.(anchor := moved)) else s
  }

  /** moverDerecha: one column right when the piece fits there; otherwise nothing changes. */
  function MoveRight(s: Session): (r: Session)
    requires Valid(s)
    ensures Valid(r)
    ensures r.board == s.board && r.lines == s.lines
    ensures r.piece.name == s.piece.name && r.piece.offsets == s.piece.offsets
    ensures var right := Pos(s.piece.anchor.x + 1, s.piece.anchor.y);
            if Fits(s.board, s.piece.offsets, right) then r.piece.anchor == right else r == s
  {
    Shift(s, 1, 0)
  }

  /** moverIzquierda: one column left when the piece fits there; otherwise nothing changes. */
  function MoveLeft(s: Session): (r: Session)
    requires Valid(s)
    ensures Valid(r)
    ensures r.board == s.board && r.lines == s.lines
    ensures r.piece.name == s.piece.name && r.piece.offsets == s.piece.offsets
    ensures var left := Pos(s.piece.anchor.x - 1, s.piece.anchor.y);
            if Fits(s.board, s.piece.offsets, left) then r.piece.anchor == left else r == s
  {
    Shift(s, -1, 0)
  }

  /** moverArriba: one row up when the piece fits there; otherwise nothing changes. */
  function MoveUp(s: Session): (r: Session)
    requires Valid(s)
    ensures Valid(r)
    ensures r.board == s.board && r.lines == s.lines
    ensures r.piece.name == s.piece.name && r.piece.offsets == s.piece.offsets
    ensures var up := Pos(s.piece.anchor.x, s.piece.anchor.y - 1);
            if Fits(s.board, s.piece.offsets, up) then r.piece.anchor == up else r == s
  {
    Shift(s, 0, -1)
  }

  /** The result of moverAbajo: the new session and whether the piece was locked. */
  datatype Descent = Descent(session: Session, locked: bool)

  /**
   * moverAbajo: one row down when the piece fits there, returning false;
   * otherwise the piece is locked where it stands and true is returned.
   */
  function MoveDown(s: Session, next: Shape): (r: Descent)
    requires Valid(s) && ValidShape(next)
    ensures Valid(r.session)
    ensures var below := Pos(s.piece.anchor.x, s.piece.anchor.y + 1);
            && (r.locked <==> !Fits(s.board, s.piece.offsets, below))
            && (r.locked ==> r.session == Lock(s, next))
            && (!r.locked ==> r.session == s.(piece := s.piece.(anchor := below)))
  {
    var a := s.piece.anchor;
    var below := Pos(a.x, a.y + 1);
    if Fits(s.board, s.piece.offsets, below) then
      Descent(s.(piece := s.piece.(anchor := below)), false)
    else
      Descent(Lock(s, next), true)
  }

  /** While a piece that fits falls towards it, its Espectro stays where it is. */
  lemma EspectroStaysWhileFalling(s: Session, next: Shape)
    requires Valid(s) && ValidShape(next)
    requires Fits(s.board, s.piece.offsets, s.piece.anchor)
    ensures !MoveDown(s, next).locked ==> Espectro(MoveDown(s, next).session) == Espectro(s)
  {
  }

  /**
   * girar: every offset turned a quarter ((x, y) to (-y, x)) around the fixed
   * anchor; kept when the turned piece fits, with the Espectro following the
   * new offsets, and otherwise nothing changes (no wall kick).
   */
  function Turn(s: Session): (r: Session)
    requires Valid(s)
    ensures Valid(r)
    ensures r.board == s.board && r.lines == s.lines
    ensures r.piece.name == s.piece.name && r.piece.anchor == s.piece.anchor
    ensures var turned := RotateAll(s.piece.offsets);
            if Fits(s.board, turned, s.piece.anchor)
            then r.piece.offsets == turned && Espectro(r) == Projection(s.board, turned, s.piece.anchor)
            else r == s
  {
    var turned := RotateAll(s.piece.offsets);
    if Fits(s.board, turned, s.piece.anchor) then s.(piece := s.piece.(offsets := turned)) else s
  }

  /** ponerEnElFondo: the anchor moves to the Espectro's position and the piece is locked there. */
  function HardDrop(s: Session, next: Shape): (r: Session)
    requires Valid(s) && ValidShape(next)
    ensures Valid(r)
    ensures r == Lock(s.(piece := s.piece.(anchor := Espectro(s))), next)
    ensures r.piece == Spawn(next, r.board)
    ensures var cells := Cells(s.piece.offsets, Espectro(s));
            AboveBoard(cells) ==> r.board == NewBoard() && r.lines == 0
    ensures var cells := Cells(s.piece.offsets, Espectro(s));
            !AboveBoard(cells) ==>
              && r.board == ClearCompleted(WriteCells(s.board, s.piece.name, cells)).board
              && r.lines == s.lines + |LinesToRemove(WriteCells(s.board, s.piece.name, cells))|
  {
    Lock(s.(piece := s.piece.(anchor := Espectro(s))), next)
  }

  /** `k` successive calls of moverAbajo (the gravity ticks of the driver). */
  function Fall(s: Session, k: nat, next: Shape): (r: Session)
    requires Valid(s) && ValidShape(next)
    ensures Valid(r)
    decreases k
  {
    if k == 0 then s else Fall(MoveDown(s, next).session, k - 1, next)
  }

  /** One tick of gravity on a piece that fits above a free row: only the anchor moves. */
  lemma StepDown(s: Session, next: Shape)
    requires Valid(s) && ValidShape(next)
    requires Fits(s.board, s.piece.offsets, Pos(s.piece.anchor.x, s.piece.anchor.y + 1))
    ensures MoveDown(s, next).session == s.(piece := s.piece.(anchor := Pos(s.piece.anchor.x, s.piece.anchor.y + 1)))
  {
  }

  /**
   * A piece whose column is free from its anchor down to `j` rows lower falls
   * one row per tick, without locking: only its anchor moves.
   */
  lemma {:induction false} FallThroughFreeRows(s: Session, j: nat, next: Shape)
    requires Valid(s) && ValidShape(next)
    requires forall y :: s.piece.anchor.y <= y <= s.piece.anchor.y + j ==>
               Fits(s.board, s.piece.offsets, Pos(s.piece.anchor.x, y))
    ensures Fall(s, j, next) == s.(piece := s.piece.(anchor := Pos(s.piece.anchor.x, s.piece.anchor.y + j)))
    decreases j
  {
    if j > 0 {
      var a := s.piece.anchor;
      var below := Pos(a.x, a.y + 1);
      assert Fits(s.board, s.piece.offsets, below);
      StepDown(s, next);
      var s1 := s.(piece := s.piece.(anchor := below));
      FallThroughFreeRows(s1, j - 1, next);
    }
  }

  /**
   * Hard drop agrees with gravity: a piece that fits falls, tick by tick, the
   * k rows down to its Espectro (Projection places the Espectro at or below
   * the anchor, so such a k exists), and the next tick locks it exactly as
   * ponerEnElFondo does.
   */
  lemma HardDropIsRepeatedFall(s: Session, k: nat, next: Shape)
    requires Valid(s) && ValidShape(next)
    requires Fits(s.board, s.piece.offsets, s.piece.anchor)
    requires s.piece.anchor.y + k == Espectro(s).y
    ensures var landed := s.(piece := s.piece.(anchor := Espectro(s)));
            && Fall(s, k, next) == landed
            && MoveDown(landed, next) == Descent(HardDrop(s, next), true)
  {
    FallToEspectro(s, k, next);
    LocksAtEspectro(s, next);
  }

  /** A piece that fits reaches its Espectro after as many ticks as rows lie between them. */
  lemma FallToEspectro(s: Session, k: nat, next: Shape)
    requires Valid(s) && ValidShape(next)
    requires Fits(s.board, s.piece.offsets, s.piece.anchor)
    requires s.piece.anchor.y + k == Espectro(s).y
    ensures Fall(s, k, next) == s.(piece := s.piece.(anchor := Espectro(s)))
  {
    FallThroughFreeRows(s, k, next);
  }

  /** A piece standing on its Espectro is locked by the next tick, as ponerEnElFondo locks it. */
  lemma LocksAtEspectro(s: Session, next: Shape)
    requires Valid(s) && ValidShape(next)
    ensures MoveDown(s.(piece := s.piece.(anchor := Espectro(s))), next) == Descent(HardDrop(s, next), true)
  {
    var e := Espectro(s);
    var dropped := s.(piece := s.piece.(anchor := e));
    assert !Fits(dropped.board, dropped.piece.offsets, Pos(e.x, e.y + 1));
    var d := MoveDown(dropped, next);
    assert d.locked && d.session == Lock(dropped, next);
    assert HardDrop(s, next) == Lock(dropped, next);
  }

  /** A successful step right is undone by a step left. */
  lemma LeftUndoesRight(s: Session)
    requires Valid(s)
    requires Fits(s.board, s.piece.offsets, s.piece.anchor)
    requires Fits(s.board, s.piece.offsets, Pos(s.piece.anchor.x + 1, s.piece.anchor.y))
    ensures MoveLeft(MoveRight(s)) == s
  {
  }

  /** A successful step left is undone by a step right. */
  lemma RightUndoesLeft(s: Session)
    requires Valid(s)
    requires Fits(s.board, s.piece.offsets, s.piece.anchor)
    requires Fits(s.board, s.piece.offsets, Pos(s.piece.anchor.x - 1, s.piece.anchor.y))
    ensures MoveRight(MoveLeft(s)) == s
  {
  }

  /** A fall that does not lock is undone by a step up. */
  lemma UpUndoesDown(s: Session, next: Shape)
    requires Valid(s) && ValidShape(next)
    requires Fits(s.board, s.piece.offsets, s.piece.anchor)
    requires Fits(s.board, s.piece.offsets, Pos(s.piece.anchor.x, s.piece.anchor.y + 1))
    ensures MoveUp(MoveDown(s, next).session) == s
  {
  }

  /**
   * Four accepted quarter turns bring the session back to where it was: when
   * the piece fits in all four orientations, turning four times is the
   * identity.
   */
  lemma {:induction false} FourTurnsRestore(s: Session)
    requires Valid(s) && Fits(s.board, s.piece.offsets, s.piece.anchor)
    ensures var o := s.piece.offsets;
            (&& Fits(s.board, RotateAll(o), s.piece.anchor)
             && Fits(s.board, RotateAll(RotateAll(o)), s.piece.anchor)
             && Fits(s.board, RotateAll(RotateAll(RotateAll(o))), s.piece.anchor))
            ==> Turn(Turn(Turn(Turn(s)))) == s
  {
    var o := s.piece.offsets;
    if && Fits(s.board, RotateAll(o), s.piece.anchor)
       && Fits(s.board, RotateAll(RotateAll(o)), s.piece.anchor)
       && Fits(s.board, RotateAll(RotateAll(RotateAll(o))), s.piece.anchor)
    {
      RotateFourTimes(o);
      var t1 := Turn(s);
      assert t1.piece.offsets == RotateAll(o);
      var t2 := Turn(t1);
      assert t2.piece.offsets == RotateAll(RotateAll(o));
      var t3 := Turn(t2);
      assert t3.piece.offsets == RotateAll(RotateAll(RotateAll(o)));
      var t4 := Turn(t3);
      assert t4.piece.offsets == o;
    }
  }

  /**
   * The Espectro is only guaranteed to fit when the piece fits at its anchor.
   * A piece that already collides where it stands (a spawn onto occupied
   * cells) gets its Espectro one row above the anchor, and that position can
   * collide too: here a one-cell piece at offset (0, 2) spawns over column 5,
   * whose rows 0 and 1 are occupied.
   */
  lemma EspectroOfCollidingPiece()
    ensures var row := NewBoard()[0][5 := "O"];
            var b := NewBoard()[0 := row][1 := row];
            var s := Session(b, Piece("I", SpawnAnchor, [Pos(0, 2)]), 0);
            && Valid(s)
            && !Fits(b, s.piece.offsets, s.piece.anchor)
            && Espectro(s) == Pos(5, -2)
            && !Fits(b, s.piece.offsets, Espectro(s))
  {
  }
}
