/** The 20-by-10 board and the rules that read or rewrite it: the collision
    test, merging a landed piece, and clearing full rows. */
module Board {
  import opened Shapes

  const Rows: int := 20
  const Cols: int := 10

  /** The board as rows of cells; 0 is empty, 1..7 is a kind's colour index. */
  type Grid = seq<seq<int>>

  /** Twenty rows of ten cells. */
  predicate ValidBoard(b: Grid)
  {
    |b| == Rows && forall r :: 0 <= r < |b| ==> |b[r]| == Cols
  }

  /** Every cell is empty or holds a colour index 1..7. */
  predicate CellsInRange(b: Grid)
  {
    forall r, c :: 0 <= r < |b| && 0 <= c < |b[r]| ==> 0 <= b[r][c] <= |Pieces|
  }

  /** `Array(10).fill(0)`. */
  function EmptyRow(): seq<int>
  {
    seq(Cols, _ => 0)
  }

  /** The board `resetGame` creates. */
  function EmptyBoard(): (b: Grid)
    ensures ValidBoard(b) && CellsInRange(b)
    ensures forall r, c :: 0 <= r < |b| && 0 <= c < |b[r]| ==> b[r][c] == 0
  {
    seq(Rows, _ => EmptyRow())
  }

  /** The test `collides` applies to one target cell: the row is not a row of
      the board, the cell holds exactly 1, or the column is off the board. */
  predicate Blocked(b: Grid, row: int, col: int)
    requires ValidBoard(b)
    ensures !(0 <= row < Rows && 0 <= col < Cols) ==> Blocked(b, row, col)
    ensures 0 <= row < Rows && 0 <= col < Cols ==> (Blocked(b, row, col) <==> b[row][col] == 1)
  {
    !(0 <= row < Rows) || (0 <= col < Cols && b[row][col] == 1) || col < 0 || Cols <= col
  }

  /** `collides(dx, dy, s)` for a piece whose origin is (x, y): some occupied
      cell of `s`, shifted by the origin and the offset, lands on a blocked cell. */
  predicate CollidesAt(b: Grid, s: Shape, x: int, y: int, dx: int, dy: int)
    requires ValidBoard(b)
  {
    exists r, c :: 0 <= r < |s| && 0 <= c < |s[r]| && s[r][c] != 0 && Blocked(b, y + r + dy, x + c + dx)
  }

  /** Every occupied cell of `s`, placed with origin (x, y), is on the board. */
  predicate Inside(s: Shape, x: int, y: int)
  {
    forall r, c :: 0 <= r < |s| && 0 <= c < |s[r]| && s[r][c] != 0 ==> 0 <= y + r < Rows && 0 <= x + c < Cols
  }

  /** Every occupied cell of `s`, placed at row offset y, is on a row of the board. */
  predicate RowsInside(s: Shape, y: int)
  {
    forall r, c :: 0 <= r < |s| && 0 <= c < |s[r]| && s[r][c] != 0 ==> 0 <= y + r < Rows
  }

  /** A piece placed off the board collides; a piece that does not collide is on the board. */
  lemma OutsideCollides(b: Grid, s: Shape, x: int, y: int, dx: int, dy: int)
    requires ValidBoard(b)
    ensures !Inside(s, x + dx, y + dy) ==> CollidesAt(b, s, x, y, dx, dy)
    ensures !CollidesAt(b, s, x, y, dx, dy) ==> Inside(s, x + dx, y + dy)
  {
    if !Inside(s, x + dx, y + dy) {
      var r, c :| 0 <= r < |s| && 0 <= c < |s[r]| && s[r][c] != 0 &&
        !(0 <= y + dy + r < Rows && 0 <= x + dx + c < Cols);
      assert Blocked(b, y + r + dy, x + c + dx);
    }
  }

  /** On the board, a piece collides exactly when one of its cells lands on a
      cell holding exactly 1: a cell holding 2..7 is no obstacle. */
  lemma InsideCollidesOnlyOnOnes(b: Grid, s: Shape, x: int, y: int, dx: int, dy: int)
    requires ValidBoard(b) && Inside(s, x + dx, y + dy)
    ensures CollidesAt(b, s, x, y, dx, dy) <==>
      exists r, c :: 0 <= r < |s| && 0 <= c < |s[r]| && s[r][c] != 0 && b[y + dy + r][x + dx + c] == 1
  {
    if CollidesAt(b, s, x, y, dx, dy) {
      var r, c :| 0 <= r < |s| && 0 <= c < |s[r]| && s[r][c] != 0 && Blocked(b, y + r + dy, x + c + dx);
      assert b[y + dy + r][x + dx + c] == 1;
    }
  }

  /** Two boards that agree on which cells hold 1 give the same collision answers. */
  lemma CollidesSeesOnlyOnes(b: Grid, b': Grid, s: Shape, x: int, y: int, dx: int, dy: int)
    requires ValidBoard(b) && ValidBoard(b')
    requires forall r, c :: 0 <= r < Rows && 0 <= c < Cols ==> (b[r][c] == 1 <==> b'[r][c] == 1)
    ensures CollidesAt(b, s, x, y, dx, dy) == CollidesAt(b', s, x, y, dx, dy)
  {
    if CollidesAt(b, s, x, y, dx, dy) {
      var r, c :| 0 <= r < |s| && 0 <= c < |s[r]| && s[r][c] != 0 && Blocked(b, y + r + dy, x + c + dx);
      assert Blocked(b', y + r + dy, x + c + dx);
    }
    if CollidesAt(b', s, x, y, dx, dy) {
      var r, c :| 0 <= r < |s| && 0 <= c < |s[r]| && s[r][c] != 0 && Blocked(b', y + r + dy, x + c + dx);
      assert Blocked(b, y + r + dy, x + c + dx);
    }
  }

  /** Board cell (row, col) lies under an occupied cell of `s` placed at (x, y). */
  predicate Under(s: Shape, x: int, y: int, row: int, col: int)
  {
    0 <= row - y < |s| && 0 <= col - x < |s[row - y]| && s[row - y][col - x] != 0
  }

  /** The board after `merge`: the cells under the piece's occupied cells hold
      `v`, every other cell is as before. Cells off the board are not written. */
  function Merged(b: Grid, s: Shape, x: int, y: int, v: int): (m: Grid)
    requires ValidBoard(b)
    ensures ValidBoard(m)
    ensures CellsInRange(b) && 0 <= v <= |Pieces| ==> CellsInRange(m)
  {
    seq(Rows, row requires 0 <= row < Rows =>
      seq(Cols, col requires 0 <= col < Cols =>
        if Under(s, x, y, row, col) then v else b[row][col]))
  }

  /** For a piece on the board, `merge` writes `v` into exactly the board cells
      of the piece's occupied cells and leaves every other cell as it was. */
  lemma MergedWritesPieceCells(b: Grid, s: Shape, x: int, y: int, v: int)
    requires ValidBoard(b) && Inside(s, x, y)
    ensures forall p :: p in Cells(s) ==> Merged(b, s, x, y, v)[y + p.0][x + p.1] == v
    ensures forall r, c :: 0 <= r < Rows && 0 <= c < Cols && (r - y, c - x) !in Cells(s) ==>
      Merged(b, s, x, y, v)[r][c] == b[r][c]
  {
    var m := Merged(b, s, x, y, v);
    forall p | p in Cells(s)
      ensures m[y + p.0][x + p.1] == v
    {
      assert Under(s, x, y, y + p.0, x + p.1);
    }
  }

  /** A piece merged with value 1 (an `i` piece) blocks itself afterwards; merged with
      any other value it does not: the same piece fits again on top of its own cells. */
  lemma MergedBlocksOnlyWhenOne(b: Grid, s: Shape, x: int, y: int, v: int)
    requires ValidBoard(b) && Inside(s, x, y) && Cells(s) != {}
    ensures CollidesAt(Merged(b, s, x, y, v), s, x, y, 0, 0) <==> v == 1
  {
    var m := Merged(b, s, x, y, v);
    if v == 1 {
      var p :| p in Cells(s);
      assert Under(s, x, y, y + p.0, x + p.1);
      assert Blocked(m, y + p.0 + 0, x + p.1 + 0);
    }
    if CollidesAt(m, s, x, y, 0, 0) {
      var r, c :| 0 <= r < |s| && 0 <= c < |s[r]| && s[r][c] != 0 && Blocked(m, y + r + 0, x + c + 0);
      assert Under(s, x, y, y + r, x + c);
      assert m[y + r][x + c] == v;
    }
  }

  /** `row.every(cell => cell)`: no cell of the row is 0. */
  predicate Full(row: seq<int>)
  {
    forall c :: 0 <= c < |row| ==> row[c] != 0
  }

  /** The number of full rows. */
  function CountFull(b: Grid): nat
  {
    if b == [] then 0 else (if Full(b[0]) then 1 else 0) + CountFull(b[1..])
  }

  /** The rows that are not full, in their order on the board. */
  function NonFull(b: Grid): (k: Grid)
    ensures |k| + CountFull(b) == |b|
  {
    if b == [] then []
    else (if Full(b[0]) then [] else [b[0]]) + NonFull(b[1..])
  }

  /** The kept rows are not full, are rows of the board (so keep its row
      length), and hold only cells the board holds. */
  lemma {:induction false} NonFullRows(b: Grid)
    ensures forall i :: 0 <= i < |NonFull(b)| ==> !Full(NonFull(b)[i])
    ensures forall i :: 0 <= i < |NonFull(b)| ==> NonFull(b)[i] in b
  {
    if b != [] {
      NonFullRows(b[1..]);
      var k := NonFull(b);
      var head := if Full(b[0]) then [] else [b[0]];
      forall i | 0 <= i < |k|
        ensures !Full(k[i]) && k[i] in b
      {
        if i < |head| {
          assert k[i] == b[0];
        } else {
          assert k[i] == NonFull(b[1..])[i - |head|];
          assert NonFull(b[1..])[i - |head|] in b[1..];
        }
      }
    }
  }

  /** `n` empty rows. */
  function EmptyRows(n: nat): seq<seq<int>>
  {
    seq(n, _ => EmptyRow())
  }

  /** The board after `clearLines`: the full rows are gone, the other rows keep
      their order at the bottom, and as many empty rows as were removed are on top. */
  function Cleared(b: Grid): (k: Grid)
    ensures |k| == |b|
    ensures ValidBoard(b) ==> ValidBoard(k)
    ensures CellsInRange(b) ==> CellsInRange(k)
    ensures forall i :: 0 <= i < |k| ==> !Full(k[i])
  {
    var z := EmptyRows(CountFull(b));
    assert forall i :: 0 <= i < |z| ==> z[i][0] == 0;
    NonFullRows(b);
    z + NonFull(b)
  }

  /** A board with no full row is its own `NonFull` and has no full rows to count. */
  lemma {:induction false} NoFullRowsKept(b: Grid)
    requires forall i :: 0 <= i < |b| ==> !Full(b[i])
    ensures NonFull(b) == b && CountFull(b) == 0
  {
    if b != [] {
      NoFullRowsKept(b[1..]);
    }
  }

  /** Clearing twice is clearing once. */
  lemma ClearedIdempotent(b: Grid)
    ensures Cleared(Cleared(b)) == Cleared(b)
  {
    NoFullRowsKept(Cleared(b));
  }

  /** `NonFull` and `CountFull` split over a concatenation. */
  lemma {:induction false} NonFullAppend(a: Grid, c: Grid)
    ensures NonFull(a + c) == NonFull(a) + NonFull(c)
    ensures CountFull(a + c) == CountFull(a) + CountFull(c)
  {
    if a != [] {
      assert (a + c)[1..] == a[1..] + c;
      NonFullAppend(a[1..], c);
    } else {
      assert a + c == c;
    }
  }

  /** `NonFull` and `CountFull` of a board split at row `k`. */
  lemma NonFullSplit(b: Grid, k: int)
    requires 0 <= k <= |b|
    ensures NonFull(b) == NonFull(b[..k]) + NonFull(b[k..])
    ensures CountFull(b) == CountFull(b[..k]) + CountFull(b[k..])
  {
    assert b == b[..k] + b[k..];
    NonFullAppend(b[..k], b[k..]);
  }

  /** Exactly one full row: it is removed and one empty row appears on top. */
  lemma ClearOneRow(b: Grid, k: int)
    requires 0 <= k < |b| && Full(b[k])
    requires forall i :: 0 <= i < |b| && i != k ==> !Full(b[i])
    ensures Cleared(b) == [EmptyRow()] + b[..k] + b[k + 1..]
  {
    var above, below := b[..k], b[k + 1..];
    assert forall i :: 0 <= i < |above| ==> !Full(above[i]);
    assert forall i :: 0 <= i < |below| ==> !Full(below[i]) by {
      forall i | 0 <= i < |below| ensures !Full(below[i]) {
        assert below[i] == b[k + 1 + i];
      }
    }
    NoFullRowsKept(above);
    NoFullRowsKept(below);
    OneFullRow(b[k]);
    ClearAround(b, k);
  }

  /** `Cleared` when the rows above and below row `k` are kept whole and row `k` is dropped. */
  lemma ClearAround(b: Grid, k: int)
    requires 0 <= k < |b|
    requires NonFull(b[..k]) == b[..k] && CountFull(b[..k]) == 0
    requires NonFull(b[k + 1..]) == b[k + 1..] && CountFull(b[k + 1..]) == 0
    requires NonFull([b[k]]) == [] && CountFull([b[k]]) == 1
    ensures Cleared(b) == [EmptyRow()] + b[..k] + b[k + 1..]
  {
    NonFullSplit(b, k);
    NonFullSplit(b[k..], 1);
    assert b[k..][..1] == [b[k]] && b[k..][1..] == b[k + 1..];
    assert EmptyRows(1) == [EmptyRow()];
  }

  /** A single full row is dropped by `NonFull` and counted by `CountFull`. */
  lemma OneFullRow(row: seq<int>)
    requires Full(row)
    ensures NonFull([row]) == [] && CountFull([row]) == 1
  {
    assert [row][1..] == [];
  }

  /** The bottom-up scan of `clearLines` from row `row` up: a full row is
      spliced out, an empty row is put on top, and the same row index is
      looked at again (`row++` before the loop's `row--`). */
  function Scan(b: Grid, row: int): (r: Grid)
    requires -1 <= row < |b|
    ensures |r| == |b|
    ensures r[row + 1..] == b[row + 1..]
    decreases row + 1, CountFull(b[..row + 1])
  {
    if row < 0 then b
    else if Full(b[row]) then
      SpliceLowersCount(b, row);
      Scan([EmptyRow()] + b[..row] + b[row + 1..], row)
    else Scan(b, row - 1)
  }

  /** Splicing out a full row and putting an empty row on top leaves one full
      row fewer at or above that row index. */
  lemma SpliceLowersCount(b: Grid, row: int)
    requires 0 <= row < |b| && Full(b[row])
    ensures |[EmptyRow()] + b[..row] + b[row + 1..]| == |b|
    ensures CountFull(([EmptyRow()] + b[..row] + b[row + 1..])[..row + 1]) < CountFull(b[..row + 1])
  {
    var b' := [EmptyRow()] + b[..row] + b[row + 1..];
    assert b'[..row + 1] == [EmptyRow()] + b[..row];
    assert EmptyRow()[0] == 0;
    assert ([EmptyRow()] + b[..row])[1..] == b[..row];
    NonFullAppend(b[..row], [b[row]]);
    assert b[..row + 1] == b[..row] + [b[row]];
    OneFullRow(b[row]);
  }

  /** The scan started at the bottom row computes `Cleared`. */
  lemma ScanClears(b: Grid)
    ensures Scan(b, |b| - 1) == Cleared(b)
  {
    assert b[..|b|] == b && b[|b|..] == [];
    assert EmptyRows(0) + b[..|b|] + NonFull(b[|b|..]) == b;
    ScanInvariant(b, |b|, 0, b, |b| - 1);
  }

  /** The scan's invariant: the original rows `b0[m..]` have been looked at,
      their `k` full rows removed and as many empty rows put on top; the scan
      is at the last unexamined original row, or among the empty rows on top. */
  lemma {:induction false} ScanInvariant(b0: Grid, m: int, k: nat, b: Grid, row: int)
    requires 0 <= m <= |b0| && -1 <= row
    requires k == CountFull(b0[m..])
    requires b == EmptyRows(k) + b0[..m] + NonFull(b0[m..])
    requires row + 1 == k + m || (m == 0 && row + 1 <= k)
    ensures row < |b| && Scan(b, row) == Cleared(b0)
    decreases row + 1 + m
  {
    if row < 0 {
      assert b0[..0] == [] && b0[0..] == b0;
    } else if m == 0 {
      EmptyRowIn(k, NonFull(b0[m..]), row);
      assert b0[..m] == [];
      ScanInvariant(b0, m, k, b, row - 1);
    } else {
      ScannedRow(b0, m, k, b, row);
      if Full(b[row]) {
        SpliceFullRow(b0, m, k, b, row);
        ScanInvariant(b0, m - 1, k + 1, [EmptyRow()] + b[..row] + b[row + 1..], row);
      } else {
        KeepRow(b0, m, k, b);
        ScanInvariant(b0, m - 1, k, b, row - 1);
      }
    }
  }

  /** Row `row` of `EmptyRows(k) + rest`, for a row index below `k`, is an empty
      row, which is not full. */
  lemma EmptyRowIn(k: nat, rest: Grid, row: int)
    requires 0 <= row < k
    ensures !Full((EmptyRows(k) + [] + rest)[row])
  {
    assert (EmptyRows(k) + [] + rest)[row] == EmptyRow();
    assert EmptyRow()[0] == 0;
  }

  /** While the scan is at original row `m - 1`, that row is the one it looks at. */
  lemma ScannedRow(b0: Grid, m: int, k: nat, b: Grid, row: int)
    requires 0 < m <= |b0| && b == EmptyRows(k) + b0[..m] + NonFull(b0[m..])
    requires row + 1 == k + m
    ensures row < |b| && b[row] == b0[m - 1]
  {
  }

  /** A row that is not full stays, and the scan moves one row up. */
  lemma KeepRow(b0: Grid, m: int, k: nat, b: Grid)
    requires 0 < m <= |b0| && b == EmptyRows(k) + b0[..m] + NonFull(b0[m..]) && !Full(b0[m - 1])
    ensures b == EmptyRows(k) + b0[..m - 1] + NonFull(b0[m - 1..])
    ensures CountFull(b0[m - 1..]) == CountFull(b0[m..])
  {
    assert b0[m - 1..][1..] == b0[m..];
    assert b0[..m] == b0[..m - 1] + [b0[m - 1]];
  }

  /** A full row is spliced out and an empty row is put on top. */
  lemma SpliceFullRow(b0: Grid, m: int, k: nat, b: Grid, row: int)
    requires 0 < m <= |b0| && b == EmptyRows(k) + b0[..m] + NonFull(b0[m..]) && Full(b0[m - 1])
    requires row + 1 == k + m
    ensures row < |b|
    ensures [EmptyRow()] + b[..row] + b[row + 1..] == EmptyRows(k + 1) + b0[..m - 1] + NonFull(b0[m - 1..])
    ensures CountFull(b0[m - 1..]) == CountFull(b0[m..]) + 1
  {
    assert b0[m - 1..][1..] == b0[m..];
    assert b[..k + m - 1] == EmptyRows(k) + b0[..m - 1];
    assert b[k + m..] == NonFull(b0[m..]);
    assert [EmptyRow()] + EmptyRows(k) == EmptyRows(k + 1);
  }

  /** The bottom-up scan of `clearLines` WITHOUT its `row++` re-check: after a
      removal it goes on to the next row up, skipping the row that moved down. */
  function ScanWithoutRecheck(b: Grid, row: int): (k: Grid)
    requires -1 <= row < |b|
    ensures |k| == |b|
    decreases row + 1
  {
    if row < 0 then b
    else if Full(b[row]) then ScanWithoutRecheck([EmptyRow()] + b[..row] + b[row + 1..], row - 1)
    else ScanWithoutRecheck(b, row - 1)
  }

  /** The scan without the re-check (`ScanWithoutRecheck`) never changes the
      rows below the row it starts at. */
  lemma {:induction false} ScanKeepsRowsBelow(b: Grid, row: int)
    requires -1 <= row < |b|
    ensures ScanWithoutRecheck(b, row)[row + 1..] == b[row + 1..]
    decreases row + 1
  {
    if 0 <= row {
      if Full(b[row]) {
        var b' := [EmptyRow()] + b[..row] + b[row + 1..];
        ScanKeepsRowsBelow(b', row - 1);
        assert b'[row + 1..] == b[row + 1..];
      } else {
        ScanKeepsRowsBelow(b, row - 1);
      }
    }
  }

  /** Why the re-check is needed: with the two bottom rows full, the scan without
      it leaves a full bottom row, while `Cleared` leaves no full row at all. */
  lemma RecheckNeededForStackedRows(b: Grid)
    requires |b| >= 2 && Full(b[|b| - 1]) && Full(b[|b| - 2])
    ensures Full(ScanWithoutRecheck(b, |b| - 1)[|b| - 1])
    ensures forall i :: 0 <= i < |b| ==> !Full(Cleared(b)[i])
  {
    var n := |b|;
    var b' := [EmptyRow()] + b[..n - 1];
    assert b'[n - 1] == b[n - 2];
    assert b[n..] == [];
    assert b' == [EmptyRow()] + b[..n - 1] + b[n..];
    ScanKeepsRowsBelow(b', n - 2);
    assert ScanWithoutRecheck(b', n - 2)[n - 1..] == b'[n - 1..];
  }
}
