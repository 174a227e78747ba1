/** Combat areas held in one flat array, row after row, and their turned copies. */
module Areas {
  import opened AreaMatrix

  /** The place of a cell in the flat array. */
  function Place(row: nat, col: nat, cols: nat): nat {
    row * cols + col
  }

  lemma PlaceFits(row: nat, col: nat, rows: nat, cols: nat)
    requires row < rows && col < cols
    ensures Place(row, col, cols) < rows * cols
  {
    assert (rows - 1 - row) * cols >= 0;
    assert rows * cols == row * cols + cols + (rows - 1 - row) * cols;
  }

  lemma PlacesDiffer(row: nat, col: nat, row': nat, col': nat, cols: nat)
    requires col < cols && col' < cols && Place(row, col, cols) == Place(row', col', cols)
    ensures row == row' && col == col'
  {
    if row < row' {
      PlacesRise(row, col, row', col', cols);
    } else if row' < row {
      PlacesRise(row', col', row, col, cols);
    }
  }

  lemma PlacesRise(row: nat, col: nat, row': nat, col': nat, cols: nat)
    requires col < cols && row < row'
    ensures Place(row, col, cols) < Place(row', col', cols)
  {
    assert (row' - row - 1) * cols >= 0;
    assert row' * cols == row * cols + cols + (row' - row - 1) * cols;
  }

  ghost function CellOf(s: seq<bool>, row: nat, col: nat, cols: nat): bool {
    Place(row, col, cols) < |s| && s[Place(row, col, cols)]
  }

  /** The rows of a flat array. */
  ghost function Rows(s: seq<bool>, rows: nat, cols: nat): (cells: seq<seq<bool>>)
    ensures |cells| == rows && forall r | 0 <= r < rows :: |cells[r]| == cols
    ensures forall r, c | 0 <= r < rows && 0 <= c < cols :: cells[r][c] == CellOf(s, r, c, cols)
  {
    seq(rows, r requires 0 <= r < rows => seq(cols, c requires 0 <= c < cols => CellOf(s, r, c, cols)))
  }

  /** Writing one cell changes that cell only. */
  lemma WriteCell(s: seq<bool>, s': seq<bool>, rows: nat, cols: nat, row: nat, col: nat, v: bool)
    requires |s| == rows * cols && row < rows && col < cols
    requires Place(row, col, cols) < |s| && s' == s[Place(row, col, cols) := v]
    ensures forall r, c | 0 <= r < rows && 0 <= c < cols ::
              CellOf(s', r, c, cols) == if r == row && c == col then v else CellOf(s, r, c, cols)
  {
    forall r, c | 0 <= r < rows && 0 <= c < cols
      ensures CellOf(s', r, c, cols) == if r == row && c == col then v else CellOf(s, r, c, cols)
    {
      PlaceFits(r, c, rows, cols);
      if Place(r, c, cols) == Place(row, col, cols) {
        PlacesDiffer(r, c, row, col, cols);
      }
    }
  }

  lemma ReadCell(s: seq<bool>, rows: nat, cols: nat, row: nat, col: nat)
    requires |s| == rows * cols && row < rows && col < cols
    ensures Place(row, col, cols) < |s| && CellOf(s, row, col, cols) == s[Place(row, col, cols)]
  {
    PlaceFits(row, col, rows, cols);
  }

  class MatrixArea {
    const arr: array<bool>
    const rows: nat
    const cols: nat
    var centerX: Word
    var centerY: Word

    constructor (rows: nat, cols: nat)
      ensures fresh(arr) && this.rows == rows && this.cols == cols && Valid() && centerX == 0 && centerY == 0
      ensures forall i | 0 <= i < arr.Length :: !arr[i]
    {
      arr := new bool[rows * cols](i => false);
      this.rows, this.cols := rows, cols;
      centerX, centerY := 0, 0;
    }

    ghost predicate Valid() {
      arr.Length == rows * cols
    }

    ghost function View(): (m: Matrix)
      reads this, arr
      requires Valid()
      ensures Shaped(m)
    {
      Matrix(rows, cols, Rows(arr[..], rows, cols), centerX, centerY)
    }

    method Set(row: nat, col: nat, v: bool)
      requires Valid() && row < rows && col < cols
      modifies arr
      ensures forall r, c | 0 <= r < rows && 0 <= c < cols ::
                CellOf(arr[..], r, c, cols) == if r == row && c == col then v else old(CellOf(arr[..], r, c, cols))
    {
      hide CellOf;
      PlaceFits(row, col, rows, cols);
      ghost var s := arr[..];
      arr[row * cols + col] := v;
      WriteCell(s, arr[..], rows, cols, row, col, v);
    }

    /** Rows, top to bottom, become columns, right to left. */
    method Rotate90() returns (t: MatrixArea)
      requires Valid()
      ensures fresh(t) && t.Valid() && t.View() == Turned(View())
    {
      hide CellOf;
      t := new MatrixArea(cols, rows);
      t.centerX, t.centerY := Wrap(rows - centerY - 1), centerX;
      for i := 0 to rows
        invariant fresh(t) && fresh(t.arr) && t.Valid() && t.rows == cols && t.cols == rows
        invariant t.centerX == Wrap(rows - centerY - 1) && t.centerY == centerX
        invariant forall r, c | 0 <= r < cols && 0 <= c < i ::
                    CellOf(t.arr[..], r, c, rows) == CellOf(arr[..], rows - 1 - c, r, cols)
      {
        for k := 0 to cols
          invariant fresh(t) && fresh(t.arr) && t.Valid() && t.rows == cols && t.cols == rows
          invariant t.centerX == Wrap(rows - centerY - 1) && t.centerY == centerX
          invariant forall r, c | 0 <= r < cols && 0 <= c < (if r < k then i + 1 else i) ::
              CellOf(t.arr[..], r, c, rows) == CellOf(arr[..], rows - 1 - c, r, cols)
        {
          ReadCell(arr[..], rows, cols, rows - 1 - i, k);
          t.Set(k, i, arr[(rows - i - 1) * cols + k]);
        }
      }
      SameMatrix(t.View(), Turned(View()));
    }

    /** Columns, left to right, become rows, bottom to top. */
    method Rotate270() returns (t: MatrixArea)
      requires Valid()
      ensures fresh(t) && t.Valid() && t.View() == TurnedBack(View())
    {
      hide CellOf;
      t := new MatrixArea(cols, rows);
      t.centerX, t.centerY := centerY, Wrap(cols - centerX - 1);
      for i := 0 to cols
        invariant fresh(t) && fresh(t.arr) && t.Valid() && t.rows == cols && t.cols == rows
        invariant t.centerX == centerY && t.centerY == Wrap(cols - centerX - 1)
        invariant forall r, c | 0 <= r < i && 0 <= c < rows ::
                    CellOf(t.arr[..], r, c, rows) == CellOf(arr[..], c, cols - 1 - r, cols)
      {
        for k := 0 to rows
          invariant fresh(t) && fresh(t.arr) && t.Valid() && t.rows == cols && t.cols == rows
          invariant t.centerX == centerY && t.centerY == Wrap(cols - centerX - 1)
          invariant forall r, c | 0 <= r <= i && 0 <= c < (if r < i then rows else k) ::
              CellOf(t.arr[..], r, c, rows) == CellOf(arr[..], c, cols - 1 - r, cols)
        {
          ReadCell(arr[..], rows, cols, k, cols - 1 - i);
          t.Set(i, k, arr[cols - i - 1 + k * cols]);
        }
      }
      SameMatrix(t.View(), TurnedBack(View()));
    }

    /** The array read backwards. */
    method Rotate180() returns (t: MatrixArea)
      requires Valid()
      ensures fresh(t) && t.Valid() && t.View() == Reversed(View())
    {
      t := new MatrixArea(rows, cols);
      t.centerX, t.centerY := Wrap(cols - centerX - 1), Wrap(rows - centerY - 1);
      for j := 0 to arr.Length
        invariant fresh(t) && fresh(t.arr) && t.Valid() && t.rows == rows && t.cols == cols
        invariant t.centerX == Wrap(cols - centerX - 1) && t.centerY == Wrap(rows - centerY - 1)
        invariant forall i | 0 <= i < j :: t.arr[i] == arr[arr.Length - 1 - i]
      {
        t.arr[j] := arr[arr.Length - 1 - j];
      }
      ReversedCells(arr[..], t.arr[..], rows, cols);
      hide CellOf, Place;
      SameMatrix(t.View(), Reversed(View()));
    }
  }

  lemma ReversedCells(s: seq<bool>, t: seq<bool>, rows: nat, cols: nat)
    requires |s| == |t| == rows * cols && forall i | 0 <= i < |t| :: t[i] == s[|s| - 1 - i]
    ensures forall r, c | 0 <= r < rows && 0 <= c < cols ::
              CellOf(t, r, c, cols) == CellOf(s, rows - 1 - r, cols - 1 - c, cols)
  {
    forall r, c | 0 <= r < rows && 0 <= c < cols
      ensures CellOf(t, r, c, cols) == CellOf(s, rows - 1 - r, cols - 1 - c, cols)
    {
      ReadCell(t, rows, cols, r, c);
      ReadCell(s, rows, cols, rows - 1 - r, cols - 1 - c);
      OppositePlaces(r, c, rows, cols);
    }
  }

  lemma OppositePlaces(row: nat, col: nat, rows: nat, cols: nat)
    requires row < rows && col < cols
    ensures Place(rows - 1 - row, cols - 1 - col, cols) == rows * cols - 1 - Place(row, col, cols)
  {
    assert (rows - 1 - row) * cols == rows * cols - cols - row * cols;
  }

  // ----- Creating an area from a list of numbers

  predicate Covered(value: nat) {
    value == 1 || value == 3
  }

  predicate Middle(value: nat) {
    value == 2 || value == 3
  }

  /** The last cell marked as the centre. */
  function CentreOf(vec: seq<nat>, n: nat): (k: int)
    requires n <= |vec|
    ensures -1 <= k < n
    ensures k >= 0 ==> Middle(vec[k])
    ensures forall j | k < j < n :: !Middle(vec[j])
  {
    if n == 0 then -1 else if Middle(vec[n - 1]) then n - 1 else CentreOf(vec, n - 1)
  }

  /** Reads an area row by row. A list must not cover more than its rows hold. */
  method CreateArea(vec: seq<nat>, rows: nat) returns (area: MatrixArea)
    requires rows < WORD && |vec| < WORD
    requires forall k | 0 <= k < |vec| && Covered(vec[k]) :: k < rows * (if rows == 0 then 0 else |vec| / rows)
    ensures fresh(area) && area.Valid() && area.rows == rows && area.cols == (if rows == 0 then 0 else |vec| / rows)
    ensures forall k | 0 <= k < area.arr.Length && k < |vec| :: area.arr[k] == Covered(vec[k])
    ensures area.cols > 0 ==>
              var k := CentreOf(vec, |vec|);
              area.centerX == (if k < 0 then 0 else k % area.cols)
                  && area.centerY == (if k < 0 then 0 else k / area.cols)
  {
    var cols := if rows == 0 then 0 else |vec| / rows;
    area := new MatrixArea(rows, cols);
    var x, y := 0, 0;
    for k := 0 to |vec|
      invariant fresh(area) && fresh(area.arr) && area.Valid() && area.rows == rows && area.cols == cols
      invariant 0 <= x <= k && 0 <= y <= k && k == y * cols + x && (cols > 0 ==> x < cols)
      invariant forall j | 0 <= j < area.arr.Length :: area.arr[j] == (j < k && Covered(vec[j]))
      invariant cols > 0 ==>
          var c := CentreOf(vec, k);
          area.centerX == (if c < 0 then 0 else c % cols) && area.centerY == (if c < 0 then 0 else c / cols)
    {
      var value := vec[k];
      if value == 1 || value == 3 {
        area.arr[y * cols + x] := true;
      }
      if value == 2 || value == 3 {
        area.centerX, area.centerY := x, y;
        if cols > 0 {
          RowAndColumn(k, y, x, cols);
        }
      }
      x := x + 1;
      if cols == x {
        NextRow(y, cols);
        x := 0;
        y := y + 1;
      }
    }
  }

  lemma RowAndColumn(k: nat, y: nat, x: nat, cols: nat)
    requires 0 < cols && x < cols && k == y * cols + x
    ensures k / cols == y && k % cols == x
  {
    assert k == (k / cols) * cols + k % cols;
    PlacesDiffer(k / cols, k % cols, y, x, cols);
  }

  lemma NextRow(y: nat, cols: nat)
    ensures y * cols + cols == (y + 1) * cols
  {
  }

  const NORTH := 0
  const EAST := 1
  const SOUTH := 2
  const WEST := 3

  class AreaCombat {
    var areas: seq<MatrixArea>

    constructor ()
      ensures areas == []
    {
      areas := [];
    }

    /** The area for each direction: the given one points north, the others are turned. */
    method SetupArea(vec: seq<nat>, rows: nat)
      requires rows < WORD && |vec| < WORD && (|areas| == 0 || |areas| >= 4)
      requires forall k | 0 <= k < |vec| && Covered(vec[k]) :: k < rows * (if rows == 0 then 0 else |vec| / rows)
      modifies this
      ensures |areas| >= 4 && (forall d | 0 <= d < 4 :: areas[d].Valid())
              && areas[4..] == old(if |areas| < 4 then [] else areas[4..])
      ensures areas[NORTH].rows == rows && areas[NORTH].cols == (if rows == 0 then 0 else |vec| / rows)
      ensures forall k | 0 <= k < areas[NORTH].arr.Length && k < |vec| :: areas[NORTH].arr[k] == Covered(vec[k])
      ensures var north := areas[NORTH].View();
              && areas[EAST].View() == Turned(north) && areas[SOUTH].View() == Turned(Turned(north))
              && areas[WEST].View() == Turned(Turned(Turned(north)))
    {
      var north := CreateArea(vec, rows);
      var east := north.Rotate90();
      var south := north.Rotate180();
      var west := north.Rotate270();
      HalfTurn(north.View());
      FullTurn(north.View());
      areas := [north, east, south, west] + (if |areas| == 0 then [] else areas[4..]);
    }
  }
}
