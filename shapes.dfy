/** The seven tetromino kinds, their fixed shape table, their colour index,
    and the clockwise rotation of a shape (transpose, then reverse each row). */
module Shapes {

  /** The piece kinds, in the order of the `pieces` string. */
  datatype Kind = I | J | L | O | S | T | Z

  /** A shape is a grid of rows; a non-zero cell is occupied. */
  type Shape = seq<seq<int>>

  /** The `pieces` string; a kind's colour index is its position here plus one. */
  const Pieces: string := "ijlostz"

  /** The letter the source uses for a kind. */
  function Letter(k: Kind): char
  {
    match k
    case I => 'i'
    case J => 'j'
    case L => 'l'
    case O => 'o'
    case S => 's'
    case T => 't'
    case Z => 'z'
  }

  /** JavaScript's `indexOf` on a string: the first position of `ch`, or -1. */
  function IndexOf(s: string, ch: char): (i: int)
    ensures -1 <= i < |s|
    ensures 0 <= i ==> s[i] == ch && forall j :: 0 <= j < i ==> s[j] != ch
    ensures i == -1 ==> forall j :: 0 <= j < |s| ==> s[j] != ch
  {
    if |s| == 0 then -1
    else if s[0] == ch then 0
    else
      var i := IndexOf(s[1..], ch);
      if i == -1 then -1 else i + 1
  }

  /** The value `merge` writes into the board for a kind: `pieces.indexOf(type) + 1`. */
  function ColorIndex(k: Kind): (v: int)
    ensures 1 <= v <= |Pieces| && Pieces[v - 1] == Letter(k)
  {
    assert Pieces[0] == 'i' && Pieces[1] == 'j' && Pieces[2] == 'l' && Pieces[3] == 'o';
    assert Pieces[4] == 's' && Pieces[5] == 't' && Pieces[6] == 'z';
    IndexOf(Pieces, Letter(k)) + 1
  }

  /** Different kinds get different colour indices. */
  lemma ColorIndexInjective(k1: Kind, k2: Kind)
    requires k1 != k2
    ensures ColorIndex(k1) != ColorIndex(k2)
  {
  }

  /** A non-empty rectangle: at least one row, at least one column, equal row lengths. */
  predicate ValidShape(s: Shape)
  {
    |s| > 0 && |s[0]| > 0 && forall r :: 0 <= r < |s| ==> |s[r]| == |s[0]|
  }

  /** Every cell of the shape is 0 or 1. */
  predicate ZeroOne(s: Shape)
  {
    forall r, c :: 0 <= r < |s| && 0 <= c < |s[r]| ==> s[r][c] == 0 || s[r][c] == 1
  }

  /** The occupied cells of a shape, as (row, column) pairs. */
  ghost function Cells(s: Shape): set<(int, int)>
  {
    set r, c | 0 <= r < |s| && 0 <= c < |s[r]| && s[r][c] != 0 :: (r, c)
  }

  /** The shape table of `createPiece`. */
  function CreatePiece(k: Kind): (s: Shape)
    ensures ValidShape(s) && ZeroOne(s)
    ensures |s| <= 2 && |s[0]| <= 4
  {
    match k
    case I => [[1, 1, 1, 1]]
    case J => [[0, 0, 1], [1, 1, 1]]
    case L => [[1, 0, 0], [1, 1, 1]]
    case O => [[1, 1], [1, 1]]
    case S => [[0, 1, 1], [1, 1, 0]]
    case T => [[0, 1, 0], [1, 1, 1]]
    case Z => [[1, 1, 0], [0, 1, 1]]
  }

  /** Every piece of the table is a tetromino: four occupied cells. */
  lemma FourCells(k: Kind)
    ensures |Cells(CreatePiece(k))| == 4
  {
    var s := CreatePiece(k);
    match k
    case I => assert Cells(s) == {(0, 0), (0, 1), (0, 2), (0, 3)};
    case J => assert Cells(s) == {(0, 2), (1, 0), (1, 1), (1, 2)};
    case L => assert Cells(s) == {(0, 0), (1, 0), (1, 1), (1, 2)};
    case O => assert Cells(s) == {(0, 0), (0, 1), (1, 0), (1, 1)};
    case S => assert Cells(s) == {(0, 1), (0, 2), (1, 0), (1, 1)};
    case T => assert Cells(s) == {(0, 1), (1, 0), (1, 1), (1, 2)};
    case Z => assert Cells(s) == {(0, 0), (0, 1), (1, 1), (1, 2)};
  }

  /** Column `j` of a shape, top to bottom (`shape.map(row => row[j])`). */
  function Column(s: Shape, j: int): seq<int>
    requires ValidShape(s) && 0 <= j < |s[0]|
  {
    seq(|s|, r requires 0 <= r < |s| => s[r][j])
  }

  /** A row read back to front (`reverse`). */
  function Reversed(t: seq<int>): seq<int>
  {
    seq(|t|, i requires 0 <= i < |t| => t[|t| - 1 - i])
  }

  /** The clockwise rotation `rotate` computes: row `j` of the result is
      column `j` of the shape, reversed. An h-by-w shape becomes w-by-h. */
  function Rotated(s: Shape): (r: Shape)
    requires ValidShape(s)
    ensures ValidShape(r) && |r| == |s[0]| && |r[0]| == |s|
  {
    seq(|s[0]|, j requires 0 <= j < |s[0]| => Reversed(Column(s, j)))
  }

  /** Cell (j, i) of the rotated shape is cell (h - 1 - i, j) of an h-row shape. */
  lemma RotatedAt(s: Shape)
    requires ValidShape(s)
    ensures forall j, i :: 0 <= j < |s[0]| && 0 <= i < |s| ==> Rotated(s)[j][i] == s[|s| - 1 - i][j]
  {
  }

  /** The shape after `n` clockwise rotations. */
  function Turned(s: Shape, n: nat): (r: Shape)
    requires ValidShape(s)
    ensures ValidShape(r)
    ensures n % 2 == 0 ==> |r| == |s| && |r[0]| == |s[0]|
    ensures n % 2 == 1 ==> |r| == |s[0]| && |r[0]| == |s|
    decreases n
  {
    if n == 0 then s else Rotated(Turned(s, n - 1))
  }

  /** Two rotations turn a shape upside down and mirror it. */
  lemma RotatedTwice(s: Shape)
    requires ValidShape(s)
    ensures |Rotated(Rotated(s))| == |s|
    ensures forall i, j :: 0 <= i < |s| && 0 <= j < |s[i]| ==>
      |Rotated(Rotated(s))[i]| == |s[i]| &&
      Rotated(Rotated(s))[i][j] == s[|s| - 1 - i][|s[0]| - 1 - j]
  {
    var r := Rotated(s);
    var rr := Rotated(r);
    RotatedAt(s);
    RotatedAt(r);
    forall i, j | 0 <= i < |s| && 0 <= j < |s[i]|
      ensures |rr[i]| == |s[i]| && rr[i][j] == s[|s| - 1 - i][|s[0]| - 1 - j]
    {
      assert rr[i][j] == r[|r| - 1 - j][i];
    }
  }

  /** Four clockwise rotations give back the original shape. */
  lemma FourTurns(s: Shape)
    requires ValidShape(s)
    ensures Turned(s, 4) == s
  {
    var h := Rotated(Rotated(s));
    RotatedTwice(s);
    RotatedTwice(h);
    assert Turned(s, 4) == Rotated(Rotated(h));
    assert |Rotated(Rotated(h))| == |s|;
    forall i | 0 <= i < |s|
      ensures Rotated(Rotated(h))[i] == s[i]
    {
      assert |Rotated(Rotated(h))[i]| == |s[i]|;
    }
  }

  /** Rotation maps the occupied cell (r, c) of an h-row shape to (c, h - 1 - r). */
  lemma RotatedCells(s: Shape)
    requires ValidShape(s)
    ensures Cells(Rotated(s)) == set p | p in Cells(s) :: (p.1, |s| - 1 - p.0)
  {
    var r := Rotated(s);
    RotatedAt(s);
    var image := set p | p in Cells(s) :: (p.1, |s| - 1 - p.0);
    forall q | q in Cells(r)
      ensures q in image
    {
      var p := (|s| - 1 - q.1, q.0);
      assert p in Cells(s);
    }
  }

  /** The image of a set of cells under (r, c) |-> (c, h - 1 - r) has as many cells. */
  lemma {:induction false} QuarterTurnImageSize(a: set<(int, int)>, h: int)
    ensures |set p | p in a :: (p.1, h - 1 - p.0)| == |a|
    decreases |a|
  {
    if a != {} {
      var p :| p in a;
      var rest := a - {p};
      QuarterTurnImageSize(rest, h);
      var image := set q | q in a :: (q.1, h - 1 - q.0);
      var restImage := set q | q in rest :: (q.1, h - 1 - q.0);
      assert image == restImage + {(p.1, h - 1 - p.0)};
      assert (p.1, h - 1 - p.0) !in restImage;
    }
  }

  /** Rotation keeps the number of occupied cells and keeps every cell 0 or 1. */
  lemma RotatedKeepsCells(s: Shape)
    requires ValidShape(s)
    ensures |Cells(Rotated(s))| == |Cells(s)|
    ensures ZeroOne(s) ==> ZeroOne(Rotated(s))
  {
    RotatedCells(s);
    QuarterTurnImageSize(Cells(s), |s|);
  }

  /** Any number of rotations keeps the number of occupied cells and the 0/1 cells. */
  lemma {:induction false} TurnedKeepsCells(s: Shape, n: nat)
    requires ValidShape(s)
    ensures |Cells(Turned(s, n))| == |Cells(s)|
    ensures ZeroOne(s) ==> ZeroOne(Turned(s, n))
  {
    if n > 0 {
      TurnedKeepsCells(s, n - 1);
      RotatedKeepsCells(Turned(s, n - 1));
    }
  }

  /** One more rotation after `n` is rotation number `n + 1`, counted modulo four. */
  lemma TurnedStep(s: Shape, n: nat)
    requires ValidShape(s) && n < 4
    ensures Rotated(Turned(s, n)) == Turned(s, (n + 1) % 4)
  {
    if n == 3 {
      FourTurns(s);
    }
  }

  /** Every rotation of a piece of the table is a tetromino: four occupied
      cells, all 1. */
  lemma Tetromino(k: Kind, n: nat)
    ensures var t := Turned(CreatePiece(k), n); ZeroOne(t) && |Cells(t)| == 4
  {
    TurnedKeepsCells(CreatePiece(k), n);
    FourCells(k);
  }
}
