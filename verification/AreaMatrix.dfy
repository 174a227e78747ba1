/** Combat areas as matrices with a centre, and what turning them does to the tiles they cover. */
module AreaMatrix {

  const WORD: nat := 0x1_0000_0000

  type Word = w: int | 0 <= w < WORD

  function Wrap(n: int): Word {
    n % WORD
  }

  /** `cells[r][c]` is the cell in row r and column c; the centre is in column cx and row cy. */
  datatype Matrix = Matrix(rows: nat, cols: nat, cells: seq<seq<bool>>, cx: Word, cy: Word)

  predicate Shaped(m: Matrix) {
    |m.cells| == m.rows && forall r | 0 <= r < m.rows :: |m.cells[r]| == m.cols
  }

  /** The centre is a cell of the matrix. */
  predicate Centred(m: Matrix) {
    m.cx < m.cols && m.cy < m.rows
  }

  // ----- Turning clockwise

  function Turned(m: Matrix): (t: Matrix)
    requires Shaped(m)
    ensures Shaped(t) && t.rows == m.cols && t.cols == m.rows
    ensures forall r, c | 0 <= r < m.cols && 0 <= c < m.rows :: t.cells[r][c] == m.cells[m.rows - 1 - c][r]
  {
    Matrix(m.cols, m.rows,
           seq(m.cols, r requires 0 <= r < m.cols =>
               seq(m.rows, c requires 0 <= c < m.rows => m.cells[m.rows - 1 - c][r])),
           Wrap(m.rows - m.cy - 1), m.cx)
  }

  function Reversed(m: Matrix): (t: Matrix)
    requires Shaped(m)
    ensures Shaped(t) && t.rows == m.rows && t.cols == m.cols
    ensures forall r, c | 0 <= r < m.rows && 0 <= c < m.cols :: t.cells[r][c] == m.cells[m.rows - 1 - r][m.cols - 1 - c]
  {
    Matrix(m.rows, m.cols,
           seq(m.rows, r requires 0 <= r < m.rows =>
             seq(m.cols, c requires 0 <= c < m.cols => m.cells[m.rows - 1 - r][m.cols - 1 - c])),
           Wrap(m.cols - m.cx - 1), Wrap(m.rows - m.cy - 1))
  }

  function TurnedBack(m: Matrix): (t: Matrix)
    requires Shaped(m)
    ensures Shaped(t) && t.rows == m.cols && t.cols == m.rows
    ensures forall r, c | 0 <= r < m.cols && 0 <= c < m.rows :: t.cells[r][c] == m.cells[c][m.cols - 1 - r]
  {
    Matrix(m.cols, m.rows,
           seq(m.cols, r requires 0 <= r < m.cols =>
               seq(m.rows, c requires 0 <= c < m.rows => m.cells[c][m.cols - 1 - r])),
           m.cy, Wrap(m.cols - m.cx - 1))
  }

  lemma SameMatrix(a: Matrix, b: Matrix)
    requires Shaped(a) && Shaped(b) && a.rows == b.rows && a.cols == b.cols && a.cx == b.cx && a.cy == b.cy
    requires forall r, c | 0 <= r < a.rows && 0 <= c < a.cols :: a.cells[r][c] == b.cells[r][c]
    ensures a == b
  {
    forall r | 0 <= r < a.rows ensures a.cells[r] == b.cells[r] {
    }
    assert a.cells == b.cells;
  }

  lemma WrapTwice(n: int, m: int)
    ensures Wrap(n - Wrap(m)) == Wrap(n - m)
  {
    assert Wrap(m) == m - WORD * (m / WORD);
    AddWords(n - m, m / WORD);
  }

  lemma AddWords(a: int, k: int)
    ensures Wrap(a + WORD * k) == Wrap(a)
  {
    assert a == WORD * (a / WORD) + a % WORD;
    var s := a + WORD * k;
    assert s == WORD * (a / WORD + k) + a % WORD;
    UniqueRest(s, a / WORD + k, a % WORD);
  }

  lemma UniqueRest(s: int, q: int, r: int)
    requires s == WORD * q + r && 0 <= r < WORD
    ensures s % WORD == r
  {
  }

  /** Half a turn is two quarter turns. */
  lemma HalfTurn(m: Matrix)
    requires Shaped(m)
    ensures Reversed(m) == Turned(Turned(m))
  {
    SameMatrix(Reversed(m), Turned(Turned(m)));
  }

  /** Turning back undoes turning, both ways round. */
  lemma TurnBack(m: Matrix)
    requires Shaped(m)
    ensures TurnedBack(Turned(m)) == m && Turned(TurnedBack(m)) == m
  {
    WrapTwice(m.rows - 1, m.rows - m.cy - 1);
    WrapTwice(m.cols - 1, m.cols - m.cx - 1);
    assert Wrap(m.cy) == m.cy && Wrap(m.cx) == m.cx;
    SameMatrix(TurnedBack(Turned(m)), m);
    SameMatrix(Turned(TurnedBack(m)), m);
  }

  /** Four quarter turns are none, and three are one back. */
  lemma FullTurn(m: Matrix)
    requires Shaped(m)
    ensures Turned(Turned(Turned(Turned(m)))) == m
    ensures Turned(Turned(Turned(m))) == TurnedBack(m)
  {
    var b := TurnedBack(m);
    TurnBack(m);
    HalfTurn(m);
    HalfTurn(b);
    var r := Reversed(Reversed(m));
    WrapTwice(m.cols - 1, m.cols - m.cx - 1);
    WrapTwice(m.rows - 1, m.rows - m.cy - 1);
    assert Wrap(m.cy) == m.cy && Wrap(m.cx) == m.cx;
    SameMatrix(r, m);
    HalfTurn(Turned(Turned(m)));
    assert Turned(Turned(Turned(Turned(m)))) == Reversed(Reversed(m));
    TurnBack(Turned(Turned(Turned(m))));
  }

  // ----- The tiles an area covers

  /** Offsets, in columns and rows, of the covered cells from the centre. */
  ghost predicate Covers(m: Matrix, dx: int, dy: int)
    requires Shaped(m)
  {
    var c, r := m.cx + dx, m.cy + dy;
    0 <= r < m.rows && 0 <= c < m.cols && m.cells[r][c]
  }

  /** A quarter turn clockwise takes what lies at (dx, dy) to (-dy, dx): the centre turns with its cell. */
  lemma TurnedCovers(m: Matrix, dx: int, dy: int)
    requires Shaped(m) && Centred(m) && m.rows < WORD && m.cols < WORD
    ensures Centred(Turned(m)) && (Covers(Turned(m), 0 - dy, dx) <==> Covers(m, dx, dy))
  {
    var t := Turned(m);
    assert t.cx == m.rows - m.cy - 1 && t.cy == m.cx;
    var c, r := m.cx + dx, m.cy + dy;
    if 0 <= r < m.rows && 0 <= c < m.cols {
      assert t.cells[c][m.rows - 1 - r] == m.cells[r][c];
    }
  }

  lemma ReversedCovers(m: Matrix, dx: int, dy: int)
    requires Shaped(m) && Centred(m) && m.rows < WORD && m.cols < WORD
    ensures Centred(Reversed(m)) && (Covers(Reversed(m), 0 - dx, 0 - dy) <==> Covers(m, dx, dy))
  {
    hide Covers, Turned, Reversed, Wrap;
    HalfTurn(m);
    TurnedCovers(m, dx, dy);
    TurnedCovers(Turned(m), 0 - dy, dx);
  }

  lemma TurnedBackCovers(m: Matrix, dx: int, dy: int)
    requires Shaped(m) && Centred(m) && m.rows < WORD && m.cols < WORD
    ensures Centred(TurnedBack(m)) && (Covers(TurnedBack(m), dy, 0 - dx) <==> Covers(m, dx, dy))
  {
    hide Covers, Turned, TurnedBack, Wrap;
    FullTurn(m);
    TurnedCovers(m, dx, dy);
    TurnedCovers(Turned(m), 0 - dy, dx);
    TurnedCovers(Turned(Turned(m)), 0 - dx, 0 - dy);
  }
}
