/**
 * The board of Tablero.js: a fixed grid of Rows x Columns cells, each cell
 * holding the name of the shape locked there or the empty string.
 * Coordinates are (x, y) = (column, row); rows grow downward, so row 0 is the
 * top of the board and row Rows - 1 the floor.
 */
module Grid {

  /** Dimensions fixed by the Tablero constructor. */
  const Rows: nat := 20
  const Columns: nat := 10

  /** The contents of an unoccupied cell. */
  const Empty: string := ""

  /** A cell position: x is the column, y is the row. */
  datatype Pos = Pos(x: int, y: int)

  type Row = seq<string>
  type Board = seq<Row>

  /** Every board keeps Rows rows of Columns cells. */
  predicate WellFormed(b: Board) {
    |b| == Rows && forall r :: 0 <= r < |b| ==> |b[r]| == Columns
  }

  /** True when the position names a cell of the board. */
  predicate OnBoard(p: Pos) {
    0 <= p.y < Rows && 0 <= p.x < Columns
  }

  function EmptyRow(): (row: Row)
    ensures |row| == Columns
    ensures forall c :: 0 <= c < |row| ==> row[c] == Empty
  {
    seq(Columns, _ => Empty)
  }

  /** A freshly constructed board: every cell is empty. */
  function NewBoard(): (b: Board)
    ensures WellFormed(b)
    ensures forall r, c :: 0 <= r < Rows && 0 <= c < Columns ==> b[r][c] == Empty
  {
    seq(Rows, _ => EmptyRow())
  }

  /** A row is complete when none of its cells is empty. */
  predicate RowComplete(row: Row) {
    forall c :: 0 <= c < |row| ==> row[c] != Empty
  }

  /** Some cell of the piece is still above the board (row < 0): locking it ends the game. */
  predicate AboveBoard(cells: seq<Pos>) {
    exists i :: 0 <= i < |cells| && cells[i].y < 0
  }

  /**
   * The write loop of almacenarMinos: in order, every cell that lies on the
   * board receives `name`; cells off the board are skipped.
   */
  function WriteCells(b: Board, name: string, cells: seq<Pos>): (b': Board)
    requires WellFormed(b)
    ensures WellFormed(b')
    ensures forall r, c :: 0 <= r < Rows && 0 <= c < Columns ==>
              b'[r][c] == (if Pos(c, r) in cells then name else b[r][c])
    decreases |cells|
  {
    if |cells| == 0 then b
    else
      var p := cells[0];
      var b1 := if OnBoard(p) then b[p.y := b[p.y][p.x := name]] else b;
      assert cells == [p] + cells[1..];
      WriteCells(b1, name, cells[1..])
  }

  /**
   * The scan of verificarLineasCompletas over rows [0, hi): the indices of
   * complete rows, collected from the bottom row upward.
   */
  function CompleteRows(b: Board, hi: nat): (lines: seq<int>)
    requires hi <= |b|
    ensures forall i :: 0 <= i < |lines| ==> 0 <= lines[i] < hi && RowComplete(b[lines[i]])
    ensures forall r :: 0 <= r < hi && RowComplete(b[r]) ==> r in lines
    ensures forall i, j :: 0 <= i < j < |lines| ==> lines[i] > lines[j]
  {
    if hi == 0 then []
    else
      var rest := CompleteRows(b, hi - 1);
      if RowComplete(b[hi - 1]) then [hi - 1] + rest else rest
  }

  /** The list verificarLineasCompletas builds: every complete row of the board. */
  function LinesToRemove(b: Board): (lines: seq<int>)
  {
    CompleteRows(b, |b|)
  }

  /**
   * The indices of the rows in [0, n) that eliminarLineas keeps (those not
   * listed in `lines`), in top-to-bottom order.
   */
  function Kept(lines: seq<int>, n: nat): (idx: seq<int>)
    ensures |idx| <= n
    ensures forall i :: 0 <= i < |idx| ==> 0 <= idx[i] < n
  {
    if n == 0 then []
    else Kept(lines, n - 1) + (if n - 1 in lines then [] else [n - 1])
  }

  /**
   * The kept indices are exactly the rows below `n` not listed in `lines`,
   * in strictly increasing (top-to-bottom) order.
   */
  lemma {:induction false} KeptExactly(lines: seq<int>, n: nat)
    ensures var idx := Kept(lines, n);
            && (forall i :: 0 <= i < |idx| ==> idx[i] !in lines)
            && (forall r :: 0 <= r < n && r !in lines ==> r in idx)
            && (forall i, j :: 0 <= i < j < |idx| ==> idx[i] < idx[j])
  {
    if n > 0 {
      KeptExactly(lines, n - 1);
    }
  }

  /** `k` empty rows. */
  function EmptyRows(k: nat): (rows: seq<Row>)
    ensures |rows| == k
    ensures forall r :: 0 <= r < k ==> rows[r] == EmptyRow()
  {
    seq(k, _ => EmptyRow())
  }

  /** The rows eliminarLineas keeps (those not listed in `lines`), in their original order. */
  function Survivors(b: Board, lines: seq<int>): (rows: seq<Row>)
    requires WellFormed(b)
    ensures var idx := Kept(lines, |b|);
            |rows| == |idx| && forall i :: 0 <= i < |idx| ==> rows[i] == b[idx[i]]
  {
    var idx := Kept(lines, |b|);
    seq(|idx|, i requires 0 <= i < |idx| => b[idx[i]])
  }

  /**
   * eliminarLineas: the surviving rows keep their order, and empty rows are
   * put on top until the board has Rows rows again.
   */
  function RemoveRows(b: Board, lines: seq<int>): (b': Board)
    requires WellFormed(b)
    ensures WellFormed(b')
    ensures var k := Rows - |Survivors(b, lines)|;
            b'[..k] == EmptyRows(k) && b'[k..] == Survivors(b, lines)
  {
    var survivors := Survivors(b, lines);
    var k := Rows - |survivors|;
    var b' := EmptyRows(k) + survivors;
    assert b'[..k] == EmptyRows(k) && b'[k..] == survivors;
    b'
  }

  /** The outcome of the row-clearing step: the new board and the number of rows removed. */
  datatype Cleared = Cleared(board: Board, count: nat)

  /**
   * verificarLineasCompletas followed by eliminarLineas: all complete rows are
   * found on the unchanged board first, then removed together; the count is
   * the length of the list of complete rows.
   */
  function ClearCompleted(b: Board): (r: Cleared)
    requires WellFormed(b)
    ensures WellFormed(r.board)
    ensures r.count == |LinesToRemove(b)|
    ensures r.count == 0 <==> forall row :: 0 <= row < Rows ==> !RowComplete(b[row])
    ensures r.count == 0 ==> r.board == b
  {
    var lines := LinesToRemove(b);
    if |lines| > 0 then
      assert RowComplete(b[lines[0]]);
      Cleared(RemoveRows(b, lines), |lines|)
    else
      Cleared(b, 0)
  }

  /**
   * The board after clearing: `count` empty rows on top, then the surviving
   * rows in their original top-to-bottom order; `count` is exactly the number
   * of rows that disappeared.
   */
  lemma ClearedLayout(b: Board)
    requires WellFormed(b)
    ensures var r := ClearCompleted(b);
            var rest := Survivors(b, LinesToRemove(b));
            && r.count == Rows - |rest|
            && r.board[..r.count] == EmptyRows(r.count)
            && r.board[r.count..] == rest
  {
    var lines := LinesToRemove(b);
    var r := ClearCompleted(b);
    var rest := Survivors(b, lines);
    SplitCount(b, |b|);
    assert |lines| + |rest| == Rows;
    assert r.count == |lines|;
    if |lines| == 0 {
      RemoveNothing(b, lines);
    }
    assert r.board == RemoveRows(b, lines);
  }

  /** Removing an empty list of rows gives back the same board. */
  lemma RemoveNothing(b: Board, lines: seq<int>)
    requires WellFormed(b) && |lines| == 0
    ensures RemoveRows(b, lines) == b
  {
    KeptAll(lines, |b|);
    assert Survivors(b, lines) == b;
  }

  /** With nothing listed for removal, every row is kept in place. */
  lemma {:induction false} KeptAll(lines: seq<int>, n: nat)
    requires forall r :: 0 <= r < n ==> r !in lines
    ensures |Kept(lines, n)| == n
    ensures forall i :: 0 <= i < n ==> Kept(lines, n)[i] == i
  {
    if n > 0 {
      KeptAll(lines, n - 1);
    }
  }

  /** The rows that survive clearing are exactly the incomplete ones, in order. */
  lemma SurvivorsAreIncomplete(b: Board)
    requires WellFormed(b)
    ensures var idx := Kept(LinesToRemove(b), |b|);
            && (forall i :: 0 <= i < |idx| ==> !RowComplete(b[idx[i]]))
            && (forall row :: 0 <= row < Rows && !RowComplete(b[row]) ==> row in idx)
            && (forall i, j :: 0 <= i < j < |idx| ==> idx[i] < idx[j])
  {
    var lines := LinesToRemove(b);
    var idx := Kept(lines, |b|);
    KeptExactly(lines, |b|);
    forall i | 0 <= i < |idx|
      ensures !RowComplete(b[idx[i]])
    {
      assert idx[i] !in lines;
    }
  }

  /** After clearing, no row of the board is complete. */
  lemma NoCompleteRowAfterClear(b: Board)
    requires WellFormed(b)
    ensures forall row :: 0 <= row < Rows ==> !RowComplete(ClearCompleted(b).board[row])
  {
    var lines := LinesToRemove(b);
    if |lines| > 0 {
      var b' := RemoveRows(b, lines);
      var rest := Survivors(b, lines);
      var k := Rows - |rest|;
      SurvivorsAreIncomplete(b);
      assert !RowComplete(EmptyRow()) by { assert EmptyRow()[0] == Empty; }
      forall row | 0 <= row < Rows
        ensures !RowComplete(b'[row])
      {
        if row < k {
          assert b'[row] == b'[..k][row];
        } else {
          assert b'[row] == rest[row - k];
        }
      }
    }
  }

  /**
   * Every row below `n` is either listed as complete or kept, never both:
   * the complete rows and the kept rows split the board.
   */
  lemma {:induction false} SplitCount(b: Board, n: nat)
    requires WellFormed(b) && n <= Rows
    ensures |CompleteRows(b, n)| + |Kept(CompleteRows(b, |b|), n)| == n
  {
    if n > 0 {
      var lines := CompleteRows(b, |b|);
      SplitCount(b, n - 1);
      if RowComplete(b[n - 1]) {
        assert n - 1 in lines;
      } else {
        assert n - 1 !in lines;
      }
    }
  }

  /** What locking a piece does to the board (almacenarMinos). */
  datatype StoreOutcome = GameOver | Stored(board: Board, count: nat)

  /**
   * almacenarMinos: a piece with a cell above the board ends the game before
   * anything is written; otherwise its cells are written and complete rows
   * are cleared.
   */
  function Store(b: Board, name: string, cells: seq<Pos>): (r: StoreOutcome)
    requires WellFormed(b)
    ensures r.GameOver? <==> AboveBoard(cells)
    ensures r.Stored? ==> WellFormed(r.board)
    ensures r.Stored? ==> r.count == |LinesToRemove(WriteCells(b, name, cells))|
    ensures r.Stored? ==> r.board == ClearCompleted(WriteCells(b, name, cells)).board
    ensures r.Stored? ==> forall row :: 0 <= row < Rows ==> !RowComplete(r.board[row])
    ensures r.Stored? && r.count == 0 ==>
              forall row, c :: 0 <= row < Rows && 0 <= c < Columns ==>
                r.board[row][c] == (if Pos(c, row) in cells then name else b[row][c])
  {
    if AboveBoard(cells) then GameOver
    else
      var written := WriteCells(b, name, cells);
      var cleared := ClearCompleted(written);
      NoCompleteRowAfterClear(written);
      Stored(cleared.board, cleared.count)
  }

  /**
   * The board almacenarMinos leaves behind: the written board with its
   * complete rows removed, `count` empty rows on top and the incomplete rows
   * below them in their original order.
   */
  lemma StoreLayout(b: Board, name: string, cells: seq<Pos>)
    requires WellFormed(b) && !AboveBoard(cells)
    ensures var r := Store(b, name, cells);
            var w := WriteCells(b, name, cells);
            && r.Stored?
            && r.count <= Rows
            && r.board[..r.count] == EmptyRows(r.count)
            && r.board[r.count..] == Survivors(w, LinesToRemove(w))
  {
    ClearedLayout(WriteCells(b, name, cells));
  }
}
