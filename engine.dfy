/** The game state of the script (the board, the falling piece, the pause flag)
    and the operations that change it: spawning, moving, rotating, the gravity
    step with merge and line clearing, pausing, and the key handler. */
module Engine {
  import opened Shapes
  import opened Board

  /** `Math.floor((10 - shape[0].length) / 2)`: the column that centres a new piece. */
  function SpawnX(k: Kind): (x: int)
    ensures 0 <= x && x + |CreatePiece(k)[0]| <= Cols
    ensures Inside(CreatePiece(k), x, 0)
  {
    (Cols - |CreatePiece(k)[0]|) / 2
  }

  /** A new piece always fits on an empty board. */
  lemma SpawnFitsOnEmptyBoard(k: Kind)
    ensures !CollidesAt(EmptyBoard(), CreatePiece(k), SpawnX(k), 0, 0, 0)
  {
  }

  /** The column after the key handler's 'a' (d = -1) or 'd' (d = 1) branch:
      `move(d)`, then, if the piece would collide one more step that way, one
      step back the other way with no collision check. The piece ends at most
      one column away, and a piece already blocked that way is pushed back. */
  function KeyShiftX(b: Grid, s: Shape, x: int, y: int, d: int): (r: int)
    requires ValidBoard(b)
    ensures r == x - d || r == x || r == x + d
    ensures CollidesAt(b, s, x, y, d, 0) ==> r == x - d
  {
    var x1 := if CollidesAt(b, s, x, y, d, 0) then x else x + d;
    if CollidesAt(b, s, x1, y, d, 0) then x1 - d else x1
  }

  /** Every occupied cell of `s` placed at column x is at column `lo` or right of it. */
  predicate ColumnsFrom(s: Shape, x: int, lo: int)
  {
    forall r, c :: 0 <= r < |s| && 0 <= c < |s[r]| && s[r][c] != 0 ==> lo <= x + c
  }

  /** Every occupied cell of `s` placed at column x is at column `hi` or left of it. */
  predicate ColumnsUpTo(s: Shape, x: int, hi: int)
  {
    forall r, c :: 0 <= r < |s| && 0 <= c < |s[r]| && s[r][c] != 0 ==> x + c <= hi
  }

  /** After 'a' a piece that starts on the board never touches the left wall:
      from anywhere on or right of column 0 it ends on or right of column 1. */
  lemma LeftKeyNeverReachesWall(b: Grid, s: Shape, x: int, y: int)
    requires ValidBoard(b) && ColumnsFrom(s, x, 0)
    ensures ColumnsFrom(s, KeyShiftX(b, s, x, y, -1), 1)
  {
    if !CollidesAt(b, s, x, y, -1, 0) {
      OutsideCollides(b, s, x, y, -1, 0);
      if !CollidesAt(b, s, x - 1, y, -1, 0) {
        OutsideCollides(b, s, x - 1, y, -1, 0);
      }
    }
  }

  /** After 'd' a piece that starts on the board never touches the right wall:
      from anywhere on or left of column 9 it ends on or left of column 8. */
  lemma RightKeyNeverReachesWall(b: Grid, s: Shape, x: int, y: int)
    requires ValidBoard(b) && ColumnsUpTo(s, x, Cols - 1)
    ensures ColumnsUpTo(s, KeyShiftX(b, s, x, y, 1), Cols - 2)
  {
    if !CollidesAt(b, s, x, y, 1, 0) {
      OutsideCollides(b, s, x, y, 1, 0);
      if !CollidesAt(b, s, x + 1, y, 1, 0) {
        OutsideCollides(b, s, x + 1, y, 1, 0);
      }
    }
  }

  /** The unchecked step back can push a piece off the board: an `i` piece at
      columns 6..9 of row 0 with a 1 at column 5 ends at columns 7..10 after 'a'. */
  lemma LeftKeyCanLeaveBoard()
    ensures var b := EmptyBoard()[0 := EmptyRow()[5 := 1]];
      ValidBoard(b) &&
      KeyShiftX(b, CreatePiece(I), 6, 0, -1) == 7 && !Inside(CreatePiece(I), 7, 0)
  {
    var b := EmptyBoard()[0 := EmptyRow()[5 := 1]];
    var s := CreatePiece(I);
    assert s[0][0] != 0 && Blocked(b, 0 + 0 + 0, 6 + 0 + -1);
    assert s[0][3] != 0;
  }

  /** The same for 'd': an `o` piece at columns 0..1 of row 0 with a 1 at
      column 2 ends at columns -1..0. */
  lemma RightKeyCanLeaveBoard()
    ensures var b := EmptyBoard()[0 := EmptyRow()[2 := 1]];
      ValidBoard(b) &&
      KeyShiftX(b, CreatePiece(O), 0, 0, 1) == -1 && !Inside(CreatePiece(O), -1, 0)
  {
    var b := EmptyBoard()[0 := EmptyRow()[2 := 1]];
    var s := CreatePiece(O);
    assert s[0][1] != 0 && Blocked(b, 0 + 0 + 0, 0 + 1 + 1);
    assert s[0][0] != 0;
  }

  /** A piece pushed off the board comes back touching the wall: the `i` piece
      at columns 7..10 ends at columns 6..9 after 'd'. */
  lemma KeyFromOffBoardReachesWall()
    ensures var b := EmptyBoard()[0 := EmptyRow()[5 := 1]];
      ValidBoard(b) &&
      KeyShiftX(b, CreatePiece(I), 7, 0, 1) == 6 && !ColumnsUpTo(CreatePiece(I), 6, Cols - 2)
  {
    var b := EmptyBoard()[0 := EmptyRow()[5 := 1]];
    var s := CreatePiece(I);
    assert s[0][3] != 0 && Blocked(b, 0 + 0 + 0, 7 + 3 + 1);
  }

  /** An upright `i` piece in column 8 cannot rotate: lying flat it would reach column 11. */
  lemma UprightIBlockedAtRightWall(b: Grid, y: int)
    requires ValidBoard(b)
    ensures CollidesAt(b, Rotated(Rotated(CreatePiece(I))), 8, y, 0, 0)
  {
    var flat := Rotated(Rotated(CreatePiece(I)));
    assert flat[0][3] != 0;
    assert Blocked(b, y + 0 + 0, 8 + 3 + 0);
  }

  /** A rotation that does not collide gives the next of the kind's four
      rotations, and it lies on the board. */
  lemma RotationFits(b: Grid, k: Kind, n: nat, s: Shape, x: int, y: int)
    requires ValidBoard(b) && n < 4 && s == Turned(CreatePiece(k), n)
    requires !CollidesAt(b, Rotated(s), x, y, 0, 0)
    ensures Rotated(s) == Turned(CreatePiece(k), (n + 1) % 4)
    ensures Inside(Rotated(s), x, y)
  {
    TurnedStep(CreatePiece(k), n);
    OutsideCollides(b, Rotated(s), x, y, 0, 0);
  }

  /** The script's module-level state. */
  class Game {
    /** `board` */
    var board: Grid
    /** `currentPiece.type` */
    var kind: Kind
    /** `currentPiece.shape` */
    var shape: Shape
    /** `currentX`, `currentY`: the board position of the shape's top-left cell */
    var x: int
    var y: int
    /** `isPaused` */
    var isPaused: bool
    /** The game-over element is shown. */
    var gameOver: bool
    /** A gravity timer is registered (`interval` has not been cleared). */
    var scheduled: bool
    /** The number of clockwise turns the shape has had since it spawned, modulo 4. */
    ghost var turns: nat

    /** The board is 20 by 10 with cells 0..7; the occupied cells of the shape
        are all on board rows; a registered timer means the game is not paused. */
    ghost predicate Valid()
      reads this
    {
      && ValidBoard(board) && CellsInRange(board)
      && ValidShape(shape) && RowsInside(shape, y)
      && (scheduled ==> !isPaused)
    }

    /** The shape is its kind's shape from the table turned `turns` times
        clockwise (so, by `Tetromino`, it has four occupied cells, all 1). */
    ghost predicate Oriented()
      reads this`kind, this`shape, this`turns
    {
      turns < 4 && shape == Turned(CreatePiece(kind), turns)
    }

    /** The script's start: an empty board, not paused, `resetGame()`, then the timer. */
    constructor (first: Kind)
      ensures Valid() && Oriented()
      ensures board == EmptyBoard() && kind == first && shape == CreatePiece(first)
      ensures x == SpawnX(first) && y == 0
      ensures !isPaused && !gameOver && scheduled
    {
      board := EmptyBoard();
      isPaused := false;
      scheduled := false;
      new;
      ResetGame(first);
      scheduled := true;
    }

    /** `collides(dx, dy, s)`: scans the occupied cells of `s` and stops at the
        first whose target cell is off the board or holds exactly 1. */
    method Collides(dx: int, dy: int, s: Shape) returns (hit: bool)
      requires ValidBoard(board)
      ensures hit == CollidesAt(board, s, x, y, dx, dy)
    {
      var row := 0;
      while row < |s|
        invariant 0 <= row <= |s|
        invariant forall r, c :: 0 <= r < row && 0 <= c < |s[r]| && s[r][c] != 0 ==> !Blocked(board, y + r + dy, x + c + dx)
      {
        var col := 0;
        while col < |s[row]|
          invariant 0 <= col <= |s[row]|
          invariant forall c :: 0 <= c < col && s[row][c] != 0 ==> !Blocked(board, y + row + dy, x + c + dx)
        {
          var ty, tx := y + row + dy, x + col + dx;
          if s[row][col] != 0 &&
             (!(0 <= ty < |board|) || (0 <= tx < |board[ty]| && board[ty][tx] == 1) || tx < 0 || tx >= |board[0]|)
          {
            return true;
          }
          col := col + 1;
        }
        row := row + 1;
      }
      return false;
    }

    /** `spawnPiece` with the random kind passed in: a fresh shape at its centred
        column on row 0; if it already collides there the game-over element is
        shown and the timer is cleared. */
    method SpawnPiece(next: Kind)
      requires ValidBoard(board) && CellsInRange(board) && (scheduled ==> !isPaused)
      modifies this`kind, this`shape, this`x, this`y, this`turns, this`gameOver, this`scheduled
      ensures Valid() && Oriented() && Inside(shape, x, y)
      ensures kind == next && shape == CreatePiece(next) && x == SpawnX(next) && y == 0
      ensures gameOver == (old(gameOver) || CollidesAt(board, shape, x, y, 0, 0))
      ensures scheduled == (old(scheduled) && !CollidesAt(board, shape, x, y, 0, 0))
    {
      kind := next;
      shape := CreatePiece(next);
      turns := 0;
      x := (Cols - |shape[0]|) / 2;
      y := 0;
      var hit := Collides(0, 0, shape);
      if hit {
        gameOver := true;
        scheduled := false;
      }
    }

    /** `resetGame`: an empty board, the game-over element hidden, a new piece. */
    method ResetGame(first: Kind)
      requires scheduled ==> !isPaused
      modifies this`board, this`kind, this`shape, this`x, this`y, this`turns, this`gameOver, this`scheduled
      ensures Valid() && Oriented() && Inside(shape, x, y)
      ensures board == EmptyBoard() && kind == first && shape == CreatePiece(first)
      ensures x == SpawnX(first) && y == 0 && !gameOver && scheduled == old(scheduled)
    {
      board := EmptyBoard();
      gameOver := false;
      SpawnFitsOnEmptyBoard(first);
      SpawnPiece(first);
    }

    /** The outcome of `move(d)`: the column changes by `d` exactly when the
        shifted piece does not collide; nothing else changes. */
    twostate predicate Moved(d: int)
      reads this
    {
      && old(ValidBoard(board))
      && x == (if old(CollidesAt(board, shape, x, y, d, 0)) then old(x) else old(x) + d)
      && board == old(board) && kind == old(kind) && shape == old(shape) && turns == old(turns)
      && y == old(y) && isPaused == old(isPaused) && gameOver == old(gameOver) && scheduled == old(scheduled)
    }

    /** `move(direction)`. */
    method Move(direction: int)
      requires Valid()
      modifies this`x
      ensures Valid() && Moved(direction)
      ensures old(Inside(shape, x, y)) ==> Inside(shape, x, y)
    {
      var hit := Collides(direction, 0, shape);
      if !hit {
        OutsideCollides(board, shape, x, y, direction, 0);
        x := x + direction;
      }
    }

    /** The outcome of `rotate()`: the clockwise rotation replaces the shape
        exactly when it does not collide where the piece is; nothing else changes. */
    twostate predicate RotationApplied()
      reads this
    {
      && old(ValidShape(shape)) && ValidBoard(board)
      && shape == (if CollidesAt(board, Rotated(old(shape)), x, y, 0, 0) then old(shape) else Rotated(old(shape)))
      && board == old(board) && kind == old(kind) && x == old(x) && y == old(y)
      && isPaused == old(isPaused) && gameOver == old(gameOver) && scheduled == old(scheduled)
    }

    /** `rotate()`. */
    method Rotate()
      requires Valid() && Oriented()
      modifies this`shape, this`turns
      ensures Valid() && Oriented() && RotationApplied()
      ensures old(Inside(shape, x, y)) ==> Inside(shape, x, y)
    {
      var rotated := Rotated(shape);
      var hit := Collides(0, 0, rotated);
      if !hit {
        ghost var next := (turns + 1) % 4;
        RotationFits(board, kind, turns, shape, x, y);
        assert rotated == Turned(CreatePiece(kind), next);
        shape := rotated;
        turns := next;
      }
    }

    /** `merge()`: writes the kind's colour index into the board cells under the
        piece's occupied cells. */
    method Merge()
      requires ValidBoard(board) && CellsInRange(board) && ValidShape(shape) && RowsInside(shape, y)
      modifies this`board
      ensures ValidBoard(board) && CellsInRange(board)
      ensures board == Merged(old(board), shape, x, y, ColorIndex(kind))
    {
      var v := ColorIndex(kind);
      var b := board;
      var row := 0;
      while row < |shape|
        invariant 0 <= row <= |shape|
        invariant ValidBoard(b)
        invariant forall r, c :: 0 <= r < Rows && 0 <= c < Cols ==>
          b[r][c] == if Under(shape, x, y, r, c) && r - y < row then v else board[r][c]
      {
        var col := 0;
        while col < |shape[row]|
          invariant 0 <= col <= |shape[row]|
          invariant ValidBoard(b)
          invariant forall r, c :: 0 <= r < Rows && 0 <= c < Cols ==>
            b[r][c] ==
              if Under(shape, x, y, r, c) && (r - y < row || (r - y == row && c - x < col)) then v
              else board[r][c]
        {
          if shape[row][col] != 0 {
            var ty, tx := y + row, x + col;
            if 0 <= tx < Cols {
              b := b[ty := b[ty][tx := v]];
            }
          }
          col := col + 1;
        }
        row := row + 1;
      }
      var m := Merged(board, shape, x, y, v);
      forall r | 0 <= r < Rows
        ensures b[r] == m[r]
      {
        assert |b[r]| == |m[r]|;
      }
      board := b;
    }

    /** `clearLines()`: scans the rows from the bottom up; a full row is spliced
        out, an empty row is put on top, and the same row index is scanned again. */
    method ClearLines()
      modifies this`board
      ensures board == Cleared(old(board))
    {
      var b := board;
      var row := |b| - 1;
      ScanClears(b);
      while row >= 0
        invariant -1 <= row < |b|
        invariant Scan(b, row) == Cleared(old(board))
        decreases row + 1, CountFull(b[..row + 1])
      {
        if Full(b[row]) {
          SpliceLowersCount(b, row);
          b := [EmptyRow()] + b[..row] + b[row + 1..];
          row := row + 1;
        }
        row := row - 1;
      }
      board := b;
    }

    /** The outcome of `dropPiece()`: one row down if that is free; otherwise the
        piece is merged, full rows are cleared, and `next` spawns. */
    twostate predicate Dropped(next: Kind)
      reads this
    {
      && old(ValidBoard(board)) && isPaused == old(isPaused)
      && if !old(CollidesAt(board, shape, x, y, 0, 1)) then
           && board == old(board) && kind == old(kind) && shape == old(shape) && turns == old(turns)
           && x == old(x) && y == old(y) + 1 && gameOver == old(gameOver) && scheduled == old(scheduled)
         else
           && board == Cleared(Merged(old(board), old(shape), old(x), old(y), ColorIndex(old(kind))))
           && kind == next && shape == CreatePiece(next) && x == SpawnX(next) && y == 0
           && gameOver == (old(gameOver) || CollidesAt(board, shape, x, y, 0, 0))
           && scheduled == (old(scheduled) && !CollidesAt(board, shape, x, y, 0, 0))
    }

    /** `dropPiece()`, with the kind of the piece to spawn passed in. */
    method DropPiece(next: Kind)
      requires Valid() && Oriented()
      modifies this`board, this`kind, this`shape, this`x, this`y, this`turns, this`gameOver, this`scheduled
      ensures Valid() && Oriented() && Dropped(next) && Inside(shape, x, y)
    {
      var hit := Collides(0, 1, shape);
      if !hit {
        OutsideCollides(board, shape, x, y, 0, 1);
        y := y + 1;
      } else {
        ghost var settled := Cleared(Merged(board, shape, x, y, ColorIndex(kind)));
        Merge();
        ClearLines();
        assert board == settled;
        SpawnPiece(next);
      }
    }

    /** `togglePause()`: pausing clears the timer, resuming registers a new one. */
    method TogglePause()
      requires Valid()
      modifies this`isPaused, this`scheduled
      ensures Valid()
      ensures isPaused == !old(isPaused) && scheduled == !isPaused
    {
      isPaused := !isPaused;
      if isPaused {
        scheduled := false;
      } else {
        scheduled := true;
      }
    }

    /** One firing of the gravity timer: `dropPiece()` unless paused; no timer
        fires once it has been cleared. */
    method Tick(next: Kind)
      requires Valid() && Oriented()
      modifies this`board, this`kind, this`shape, this`x, this`y, this`turns, this`gameOver, this`scheduled
      ensures Valid() && Oriented()
      ensures old(scheduled && !isPaused) ==> Dropped(next)
      ensures !old(scheduled && !isPaused) ==> unchanged(this)
    {
      if scheduled && !isPaused {
        DropPiece(next);
      }
    }

    /** The outcome of the 'a' or 'd' branch of the key handler. */
    twostate predicate KeyShifted(d: int)
      reads this
    {
      && old(ValidBoard(board))
      && x == KeyShiftX(old(board), old(shape), old(x), old(y), d)
      && board == old(board) && kind == old(kind) && shape == old(shape) && turns == old(turns)
      && y == old(y) && isPaused == old(isPaused) && gameOver == old(gameOver) && scheduled == old(scheduled)
    }

    /** The 'a' (d = -1) and 'd' (d = 1) branches of the key handler:
        `move(d)`, then `currentX -= d` if the piece would collide one more step. */
    method ShiftKey(d: int)
      requires Valid()
      modifies this`x
      ensures Valid() && KeyShifted(d)
    {
      Move(d);
      var hit := Collides(d, 0, shape);
      if hit {
        x := x - d;
      }
    }

    /** The `keydown` handler: ignored while paused; 'a' and 'd' move left and
        right with the unchecked step back, 's' drops, 'w' rotates, other keys do nothing. */
    method KeyDown(key: string, next: Kind)
      requires Valid() && Oriented()
      modifies this`board, this`kind, this`shape, this`x, this`y, this`turns, this`gameOver, this`scheduled
      ensures Valid() && Oriented()
      ensures old(isPaused) || key !in {"a", "d", "s", "w"} ==> unchanged(this)
      ensures !old(isPaused) && key == "a" ==> KeyShifted(-1)
      ensures !old(isPaused) && key == "d" ==> KeyShifted(1)
      ensures !old(isPaused) && key == "s" ==> Dropped(next)
      ensures !old(isPaused) && key == "w" ==> RotationApplied()
    {
      if !isPaused {
        if key == "a" {
          ShiftKey(-1);
        } else if key == "d" {
          ShiftKey(1);
        } else if key == "s" {
          DropPiece(next);
        } else if key == "w" {
          Rotate();
        }
      }
    }
  }
}
