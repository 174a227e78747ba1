/** A creature's cache of the tiles around it that it can walk on, and how a step moves it along. */
module WalkCache {

  const HALF := 11
  const SIDE := 2 * HALF + 1

  /** Which positions of the creature's floor it can walk on. */
  type World = (int, int) -> bool

  datatype Position = Position(x: int, y: int, z: int)

  predicate Centre(row: int, col: int) {
    row == HALF && col == HALF
  }

  /** The cells of a cache, by row and column. */
  type Cells = g: seq<seq<bool>> | |g| == SIDE && forall row | 0 <= row < SIDE :: |g[row]| == SIDE
    ghost witness seq(SIDE, i => seq(SIDE, j => false))

  /** The cache says of every tile around `p` but the creature's own what the world says. */
  ghost predicate Agrees(g: Cells, w: World, p: Position) {
    forall row, col | 0 <= row < SIDE && 0 <= col < SIDE && !Centre(row, col) ::
      g[row][col] == w(p.x + col - HALF, p.y + row - HALF)
  }

  /** A step changes at most the tile left and the tile entered. */
  ghost predicate StepsTo(w: World, w': World, p: Position, q: Position) {
    forall x, y | !(x == p.x && y == p.y) && !(x == q.x && y == q.y) :: w'(x, y) == w(x, y)
  }

  /** All tiles of a row from one column to another are alike. */
  ghost predicate Uniform(w: World, y: int, from: int, to: int) {
    forall x | from <= x <= to :: w(x, y) == w(from, y)
  }

  /**
   The strips on which a step south-east or south-west depends:
   the tiles the top row was filled from, and the bottom row.
   */
  ghost predicate StripsUniform(w: World, p: Position, q: Position) {
    && Uniform(w, q.y - HALF, if p.x < q.x then p.x - HALF else q.x - HALF + 1,
               if p.x < q.x then q.x + HALF - 1 else p.x + HALF)
    && Uniform(w, q.y + HALF, q.x - HALF, q.x + HALF)
  }

  function Abs(n: int): int {
    if n < 0 then -n else n
  }

  class Creature {
    var position: Position
    const localMapCache: array2<bool>

    constructor (p: Position)
      ensures fresh(localMapCache) && localMapCache.Length0 == SIDE && localMapCache.Length1 == SIDE && position == p
    {
      position := p;
      localMapCache := new bool[SIDE, SIDE]((i, j) => false);
    }

    ghost predicate Sized() {
      localMapCache.Length0 == SIDE && localMapCache.Length1 == SIDE
    }

    ghost function Grid(): (g: Cells)
      reads localMapCache
      requires Sized()
      ensures forall row, col | 0 <= row < SIDE && 0 <= col < SIDE :: g[row][col] == localMapCache[row, col]
    {
      seq(SIDE, row requires 0 <= row < SIDE && Sized() reads localMapCache =>
        seq(SIDE, col requires 0 <= col < SIDE && Sized() reads localMapCache => localMapCache[row, col]))
    }

    /** Writes one cell, given by its offset from the creature; offsets outside the cache are ignored. */
    method UpdateTileCache(walkable: bool, dx: int, dy: int)
      requires Sized()
      modifies localMapCache
      ensures forall row, col | 0 <= row < SIDE && 0 <= col < SIDE ::
                localMapCache[row, col] ==
                if row == HALF + dy && col == HALF + dx then walkable else old(localMapCache[row, col])
    {
      if Abs(dx) <= HALF && Abs(dy) <= HALF {
        localMapCache[HALF + dy, HALF + dx] := walkable;
      }
    }

    method UpdateTileAt(w: World, p: Position)
      requires Sized()
      modifies localMapCache
      ensures forall row, col | 0 <= row < SIDE && 0 <= col < SIDE ::
                localMapCache[row, col] ==
                if p.z == position.z && p.x == position.x + col - HALF && p.y == position.y + row - HALF
                then w(p.x, p.y)
                else old(localMapCache[row, col])
    {
      if p.z == position.z {
        UpdateTileCache(w(p.x, p.y), p.x - position.x, p.y - position.y);
      }
    }

    /** Reads everything around the creature anew. */
    method UpdateMapCache(w: World)
      requires Sized()
      modifies localMapCache
      ensures forall row, col | 0 <= row < SIDE && 0 <= col < SIDE ::
                localMapCache[row, col] == w(position.x + col - HALF, position.y + row - HALF)
    {
      for y := -HALF to HALF + 1
        invariant forall row, col | 0 <= row < HALF + y && 0 <= col < SIDE ::
            localMapCache[row, col] == w(position.x + col - HALF, position.y + row - HALF)
      {
        for x := -HALF to HALF + 1
          invariant forall row, col | 0 <= row <= HALF + y && 0 <= col < (if row < HALF + y then SIDE else HALF + x) ::
              localMapCache[row, col] == w(position.x + col - HALF, position.y + row - HALF)
        {
          UpdateTileAt(w, Position(position.x + x, position.y + y, position.z));
        }
      }
    }

    /** Whether a position can be walked on: 1 yes, 0 no, 2 not known. */
    method GetWalkCache(p: Position, useCacheMap: bool) returns (answer: int)
      requires Sized()
      ensures !useCacheMap ==> answer == 2
      ensures useCacheMap && p.z != position.z ==> answer == 0
      ensures useCacheMap && p == position ==> answer == 1
      ensures var dx, dy := p.x - position.x, p.y - position.y;
              useCacheMap && p.z == position.z && p != position ==>
                answer == if Abs(dx) > HALF || Abs(dy) > HALF then 2
                          else if localMapCache[HALF + dy, HALF + dx] then 1 else 0
    {
      if !useCacheMap {
        return 2;
      }
      if position.z != p.z {
        return 0;
      }
      if p == position {
        return 1;
      }
      var dx, dy := p.x - position.x, p.y - position.y;
      if Abs(dx) <= HALF {
        if Abs(dy) <= HALF {
          return if localMapCache[HALF + dy, HALF + dx] then 1 else 0;
        }
      }
      return 2;
    }

    method CopyRow(to: nat, from: nat)
      requires Sized() && to < SIDE && from < SIDE && to != from
      modifies localMapCache
      ensures forall row, col | 0 <= row < SIDE && 0 <= col < SIDE ::
                localMapCache[row, col] == if row == to then old(localMapCache[from, col])
                    else old(localMapCache[row, col])
    {
      for i := 0 to SIDE
        invariant forall row, col | 0 <= row < SIDE && 0 <= col < SIDE ::
            localMapCache[row, col] ==
            if row == to && col < i then old(localMapCache[from, col]) else old(localMapCache[row, col])
      {
        localMapCache[to, i] := localMapCache[from, i];
      }
    }

    method ShiftSouth()
      requires Sized()
      modifies localMapCache
      ensures forall row, col | 0 < row < SIDE && 0 <= col < SIDE ::
                localMapCache[row, col] == old(localMapCache[row - 1, col])
      ensures forall col | 0 <= col < SIDE :: localMapCache[0, col] == old(localMapCache[0, col])
    {
      var y := SIDE - 1;
      while y > 0
        invariant 0 <= y < SIDE
        invariant forall row, col | y < row < SIDE && 0 <= col < SIDE ::
                    localMapCache[row, col] == old(localMapCache[row - 1, col])
        invariant forall row, col | 0 <= row <= y && 0 <= col < SIDE ::
                    localMapCache[row, col] == old(localMapCache[row, col])
      {
        y := y - 1;
        CopyRow(y + 1, y);
      }
    }

    method ShiftNorth()
      requires Sized()
      modifies localMapCache
      ensures forall row, col | 0 <= row < SIDE && 0 <= col < SIDE ::
                localMapCache[row, col] ==
                if row < SIDE - 1 then old(localMapCache[row + 1, col]) else old(localMapCache[row, col])
    {
      for y := 0 to SIDE - 1
        invariant forall row, col | 0 <= row < SIDE && 0 <= col < SIDE ::
            localMapCache[row, col] == if row < y then old(localMapCache[row + 1, col])
                else old(localMapCache[row, col])
      {
        CopyRow(y, y + 1);
      }
    }

    method ShiftWest(starty: nat)
      requires Sized() && starty <= SIDE
      modifies localMapCache
      ensures forall row, col | 0 <= row < SIDE && 0 <= col < SIDE ::
                localMapCache[row, col] ==
                if row >= starty && col < SIDE - 1 then old(localMapCache[row, col + 1])
                    else old(localMapCache[row, col])
    {
      for y := starty to SIDE
        invariant forall row, col | 0 <= row < SIDE && 0 <= col < SIDE ::
            localMapCache[row, col] ==
            if starty <= row < y && col < SIDE - 1 then old(localMapCache[row, col + 1])
                else old(localMapCache[row, col])
      {
        for x := 0 to SIDE - 1
          invariant forall row, col | 0 <= row < SIDE && 0 <= col < SIDE ::
              localMapCache[row, col] ==
              if (starty <= row < y && col < SIDE - 1) || (row == y && col < x) then old(localMapCache[row, col + 1])
              else old(localMapCache[row, col])
        {
          localMapCache[y, x] := localMapCache[y, x + 1];
        }
      }
    }

    method ShiftEast(starty: nat)
      requires Sized() && starty <= SIDE
      modifies localMapCache
      ensures forall row, col | 0 <= row < SIDE && 0 <= col < SIDE ::
                localMapCache[row, col] ==
                if row >= starty && col > 0 then old(localMapCache[row, col - 1]) else old(localMapCache[row, col])
    {
      for y := starty to SIDE
        invariant forall row, col | 0 <= row < SIDE && 0 <= col < SIDE ::
            localMapCache[row, col] ==
            if starty <= row < y && col > 0 then old(localMapCache[row, col - 1]) else old(localMapCache[row, col])
      {
        var x := SIDE - 1;
        while x > 0
          invariant 0 <= x < SIDE
          invariant forall row, col | 0 <= row < SIDE && 0 <= col < SIDE ::
              localMapCache[row, col] ==
              if (starty <= row < y && col > 0) || (row == y && col > x) then old(localMapCache[row, col - 1])
              else old(localMapCache[row, col])
        {
          x := x - 1;
          localMapCache[y, x + 1] := localMapCache[y, x];
        }
      }
    }

    method FillRow(w: World, dy: int)
      requires Sized() && Abs(dy) <= HALF
      modifies localMapCache
      ensures forall row, col | 0 <= row < SIDE && 0 <= col < SIDE ::
                localMapCache[row, col] ==
                if row == HALF + dy then w(position.x + col - HALF, position.y + dy) else old(localMapCache[row, col])
    {
      for x := -HALF to HALF + 1
        invariant forall row, col | 0 <= row < SIDE && 0 <= col < SIDE ::
            localMapCache[row, col] ==
            if row == HALF + dy && col < HALF + x then w(position.x + col - HALF, position.y + dy)
                else old(localMapCache[row, col])
      {
        UpdateTileCache(w(position.x + x, position.y + dy), x, dy);
      }
    }

    method FillColumn(w: World, dx: int)
      requires Sized() && Abs(dx) <= HALF
      modifies localMapCache
      ensures forall row, col | 0 <= row < SIDE && 0 <= col < SIDE ::
                localMapCache[row, col] ==
                if col == HALF + dx then w(position.x + dx, position.y + row - HALF) else old(localMapCache[row, col])
    {
      for y := -HALF to HALF + 1
        invariant forall row, col | 0 <= row < SIDE && 0 <= col < SIDE ::
            localMapCache[row, col] ==
            if col == HALF + dx && row < HALF + y then w(position.x + dx, position.y + row - HALF)
                else old(localMapCache[row, col])
      {
        UpdateTileCache(w(position.x + dx, position.y + y), dx, y);
      }
    }
  
    method MoveVertically(w': World, p: Position)
      requires Sized()
      modifies localMapCache
      ensures MovedVertically(old(Grid()), Grid(), w', p, position)
    {
      if p.y > position.y {
        ShiftSouth();
        FillRow(w', -HALF);
      } else if p.y < position.y {
        ShiftNorth();
        FillRow(w', HALF);
      }
    }

    /** The distance of the rows is never negative, so rows are only ever left out at the top. */
    method MoveHorizontally(w': World, p: Position)
      requires Sized() && Abs(p.y - position.y) <= 1
      modifies localMapCache
      ensures MovedHorizontally(old(Grid()), Grid(), w', p, position)
    {
      var starty := Abs(p.y - position.y);
      if p.x < position.x {
        ShiftWest(starty);
        FillColumn(w', HALF);
      } else if p.x > position.x {
        ShiftEast(starty);
        FillColumn(w', -HALF);
      }
    }

    /**
     Follows a step of the creature from `p` to where it is now. After a step north, east, south, west, north-east
     or north-west the cache agrees with the world; after one south-east or south-west exactly if the two strips
     along the top and bottom row are uniform.
     */
    method OnStep(w': World, p: Position, ghost w: World)
      requires Sized() && OneStep(p, position) && Agrees(Grid(), w, p) && StepsTo(w, w', p, position)
      modifies localMapCache
      ensures position.y <= p.y || position.x == p.x ==> Agrees(Grid(), w', position)
      ensures position.y > p.y && position.x != p.x ==>
                (Agrees(Grid(), w', position) <==> StripsUniform(w', p, position))
      ensures InnerAgrees(Grid(), w', position)
    {
      hide *;
      StepIsShort(p, position);
      ghost var g0 := Grid();
      MoveVertically(w', p);
      ghost var g1 := Grid();
      MoveHorizontally(w', p);
      ghost var g2 := Grid();
      RefreshTile(w', p);
      StepFollowed(g0, g1, g2, Grid(), w, w', p, position);
    }

    method RefreshTile(w: World, p: Position)
      requires Sized() && p.z == position.z
      modifies localMapCache
      ensures Refreshed(old(Grid()), Grid(), w, p, position)
    {
      UpdateTileAt(w, p);
    }
  }

  ghost predicate OneStep(p: Position, q: Position) {
    p.z == q.z && p != q && Abs(p.x - q.x) <= 1 && Abs(p.y - q.y) <= 1
  }

  ghost predicate InnerAgrees(g: Cells, w: World, p: Position) {
    forall row, col | 0 < row < SIDE - 1 && 0 <= col < SIDE && !Centre(row, col) ::
      g[row][col] == w(p.x + col - HALF, p.y + row - HALF)
  }

  /** A cell after the rows have moved. */
  function RowMoved(g: Cells, w': World, p: Position, q: Position, row: nat, col: nat): bool
    requires row < SIDE && col < SIDE
  {
    if p.y > q.y then (if row == 0 then w'(q.x + col - HALF, q.y - HALF) else g[row - 1][col])
    else if p.y < q.y then (if row == SIDE - 1 then w'(q.x + col - HALF, q.y + HALF) else g[row + 1][col])
    else g[row][col]
  }

  ghost predicate MovedVertically(g: Cells, g': Cells, w': World, p: Position, q: Position) {
    forall row, col | 0 <= row < SIDE && 0 <= col < SIDE :: g'[row][col] == RowMoved(g, w', p, q, row, col)
  }

  /** A cell after the columns have moved: rows above the distance of the rows stay. */
  function ColumnMoved(g: Cells, w': World, p: Position, q: Position, row: nat, col: nat): bool
    requires row < SIDE && col < SIDE
  {
    if p.x < q.x then
      (if col == SIDE - 1 then w'(q.x + HALF, q.y + row - HALF)
       else if row >= Abs(p.y - q.y) then g[row][col + 1] else g[row][col])
    else if p.x > q.x then
      (if col == 0 then w'(q.x - HALF, q.y + row - HALF)
       else if row >= Abs(p.y - q.y) then g[row][col - 1] else g[row][col])
    else g[row][col]
  }

  ghost predicate MovedHorizontally(g: Cells, g': Cells, w': World, p: Position, q: Position) {
    forall row, col | 0 <= row < SIDE && 0 <= col < SIDE :: g'[row][col] == ColumnMoved(g, w', p, q, row, col)
  }

  ghost predicate Refreshed(g: Cells, g': Cells, w': World, p: Position, q: Position) {
    forall row, col | 0 <= row < SIDE && 0 <= col < SIDE ::
      g'[row][col] == if p.x == q.x + col - HALF && p.y == q.y + row - HALF then w'(p.x, p.y) else g[row][col]
  }

  lemma StepIsShort(p: Position, q: Position)
    requires OneStep(p, q)
    ensures Abs(p.y - q.y) <= 1 && p.z == q.z
  {
  }

  ghost predicate Followed(g0: Cells, g1: Cells, g2: Cells, g3: Cells, w: World, w': World, p: Position, q: Position) {
    && OneStep(p, q) && Agrees(g0, w, p) && StepsTo(w, w', p, q)
    && MovedVertically(g0, g1, w', p, q) && MovedHorizontally(g1, g2, w', p, q) && Refreshed(g2, g3, w', p, q)
  }

  /** After the rows have moved, a cell shows the tile it stands for, seen from the old column and the new row. */
  lemma CellMovedVertically(g0: Cells, g1: Cells, g2: Cells, g3: Cells, w: World, w': World, p: Position, q: Position,
                            row: int, col: int)
    requires Followed(g0, g1, g2, g3, w, w', p, q) && 0 <= row < SIDE && 0 <= col < SIDE
    requires !(p.x + col - HALF == p.x && q.y + row - HALF == p.y)
             && !(p.x + col - HALF == q.x && q.y + row - HALF == q.y)
    ensures (p.y > q.y ==> row > 0) && (p.y < q.y ==> row < SIDE - 1) ==>
              g1[row][col] == w'(p.x + col - HALF, q.y + row - HALF)
  {
    hide MovedHorizontally, Refreshed;
    var from := if p.y > q.y then row - 1 else if p.y < q.y then row + 1 else row;
    if 0 <= from < SIDE {
      assert g0[from][col] == w(p.x + col - HALF, p.y + from - HALF);
    }
  }

  /** The cells of all rows that a step moves the right way. */
  lemma CellFollows(g0: Cells, g1: Cells, g2: Cells, g3: Cells, w: World, w': World, p: Position, q: Position, row: int,
                    col: int)
    requires Followed(g0, g1, g2, g3, w, w', p, q) && 0 <= row < SIDE && 0 <= col < SIDE && !Centre(row, col)
    requires 0 < row < SIDE - 1 || q.y <= p.y || q.x == p.x || (q.x > p.x && col == SIDE - 1) || (q.x < p.x && col == 0)
    ensures g3[row][col] == w'(q.x + col - HALF, q.y + row - HALF)
  {
    if !(p.x == q.x + col - HALF && p.y == q.y + row - HALF) {
      assert g3[row][col] == g2[row][col] by { hide MovedVertically, MovedHorizontally; }
      var edge := (q.x > p.x && col == SIDE - 1) || (q.x < p.x && col == 0);
      if edge {
        hide MovedVertically, Refreshed;
        assert g2[row][col] == w'(q.x + col - HALF, q.y + row - HALF);
      } else {
        var from := if row >= Abs(p.y - q.y) then col + q.x - p.x else col;
        assert g2[row][col] == g1[row][from] by { hide MovedVertically, Refreshed; }
        if (p.y > q.y && row == 0) || (p.y < q.y && row == SIDE - 1) {
          hide MovedHorizontally, Refreshed;
          assert g1[row][from] == w'(q.x + from - HALF, q.y + row - HALF);
        } else {
          CellMovedVertically(g0, g1, g2, g3, w, w', p, q, row, from);
        }
      }
    }
  }

  /**
   After a step south-east or south-west the top row shows the tiles
   one column back, the bottom row those one column on.
   */
  lemma StripsLag(g0: Cells, g1: Cells, g2: Cells, g3: Cells, w: World, w': World, p: Position, q: Position, col: int)
    requires Followed(g0, g1, g2, g3, w, w', p, q) && q.y > p.y && q.x != p.x
    requires 0 <= col < SIDE && !(q.x > p.x && col == SIDE - 1) && !(q.x < p.x && col == 0)
    ensures g3[0][col] == w'(p.x + col - HALF, q.y - HALF)
    ensures g3[SIDE - 1][col] == w'(q.x + (col + q.x - p.x) - HALF, q.y + HALF)
  {
    assert g3[0][col] == g2[0][col] && g3[SIDE - 1][col] == g2[SIDE - 1][col] by {
      hide MovedVertically, MovedHorizontally;
    }
    assert g2[0][col] == g1[0][col] && g2[SIDE - 1][col] == g1[SIDE - 1][col + q.x - p.x] by {
      hide MovedVertically, Refreshed;
    }
    CellMovedVertically(g0, g1, g2, g3, w, w', p, q, 0, col);
    hide MovedHorizontally, Refreshed;
    assert g1[SIDE - 1][col + q.x - p.x] == w'(q.x + (col + q.x - p.x) - HALF, q.y + HALF);
  }

  predicate Alike(w: World, y: int, x: int) {
    w(x, y) == w(x + 1, y)
  }

  /** A strip in which each tile is like its neighbour. */
  ghost predicate Neighbours(w: World, y: int, from: int, to: int) {
    forall x | from <= x < to :: Alike(w, y, x)
  }

  lemma {:induction false} SameAsFirst(w: World, y: int, from: int, to: int, x: int)
    requires from <= x <= to && Neighbours(w, y, from, to)
    ensures w(x, y) == w(from, y)
    decreases x - from
  {
    if from < x {
      SameAsFirst(w, y, from, to, x - 1);
      assert Alike(w, y, x - 1);
    }
  }

  lemma UniformByNeighbours(w: World, y: int, from: int, to: int)
    requires from <= to
    ensures Neighbours(w, y, from, to) <==> Uniform(w, y, from, to)
  {
    if Neighbours(w, y, from, to) {
      forall x | from <= x <= to ensures w(x, y) == w(from, y) {
        SameAsFirst(w, y, from, to, x);
      }
    }
  }

  lemma StepFollowed(g0: Cells, g1: Cells, g2: Cells, g3: Cells, w: World, w': World, p: Position, q: Position)
    requires OneStep(p, q) && Agrees(g0, w, p) && StepsTo(w, w', p, q)
    requires MovedVertically(g0, g1, w', p, q) && MovedHorizontally(g1, g2, w', p, q) && Refreshed(g2, g3, w', p, q)
    ensures InnerAgrees(g3, w', q)
    ensures q.y <= p.y || q.x == p.x ==> Agrees(g3, w', q)
    ensures q.y > p.y && q.x != p.x ==> (Agrees(g3, w', q) <==> StripsUniform(w', p, q))
  {
    assert Followed(g0, g1, g2, g3, w, w', p, q);
    hide Followed, StepsTo, MovedVertically, MovedHorizontally, Refreshed, StripsUniform;
    forall row, col | 0 <= row < SIDE && 0 <= col < SIDE && !Centre(row, col)
      ensures 0 < row < SIDE - 1 || q.y <= p.y || q.x == p.x || (q.x > p.x && col == SIDE - 1)
              || (q.x < p.x && col == 0) ==>
                g3[row][col] == w'(q.x + col - HALF, q.y + row - HALF)
    {
      if 0 < row < SIDE - 1 || q.y <= p.y || q.x == p.x || (q.x > p.x && col == SIDE - 1) || (q.x < p.x && col == 0) {
        CellFollows(g0, g1, g2, g3, w, w', p, q, row, col);
      }
    }
    if q.y > p.y && q.x != p.x {
      StripsDecide(g0, g1, g2, g3, w, w', p, q);
    }
  }

  predicate Right(g: Cells, w: World, x: int, row: nat, y: int, col: nat)
    requires row < SIDE && col < SIDE
  {
    g[row][col] == w(x + col - HALF, y)
  }

  ghost predicate RowAgrees(g: Cells, w: World, x: int, row: nat, y: int)
    requires row < SIDE
  {
    forall col | 0 <= col < SIDE :: Right(g, w, x, row, y, col)
  }

  /**
   One strip: cells that are right just when two neighbouring tiles are alike, and one cell at the edge that is right.
   */
  lemma StripDecides(g: Cells, w: World, x: int, row: nat, y: int, lo: nat, start: int)
    requires row < SIDE && lo <= 1
    requires forall col | lo <= col < lo + SIDE - 1 :: Right(g, w, x, row, y, col) <==> Alike(w, y, start + (col - lo))
    requires Right(g, w, x, row, y, if lo == 0 then SIDE - 1 else 0)
    ensures RowAgrees(g, w, x, row, y) <==> Uniform(w, y, start, start + SIDE - 1)
  {
    hide Right, Uniform, Alike;
    UniformByNeighbours(w, y, start, start + SIDE - 1);
    if RowAgrees(g, w, x, row, y) {
      forall t | start <= t < start + SIDE - 1 ensures Alike(w, y, t) {
        assert Right(g, w, x, row, y, t - start + lo);
      }
    }
  }

  lemma RowsDecide(g: Cells, w: World, q: Position)
    requires InnerAgrees(g, w, q)
    ensures Agrees(g, w, q) <==> RowAgrees(g, w, q.x, 0, q.y - HALF) && RowAgrees(g, w, q.x, SIDE - 1, q.y + HALF)
  {
    var north, south := q.y - HALF, q.y + HALF;
    if Agrees(g, w, q) {
      forall col | 0 <= col < SIDE
        ensures Right(g, w, q.x, 0, north, col) && Right(g, w, q.x, SIDE - 1, south, col)
      {
        assert g[0][col] == w(q.x + col - HALF, q.y + 0 - HALF);
        assert g[SIDE - 1][col] == w(q.x + col - HALF, q.y + (SIDE - 1) - HALF);
      }
    }
    if RowAgrees(g, w, q.x, 0, q.y - HALF) && RowAgrees(g, w, q.x, SIDE - 1, q.y + HALF) {
      forall row, col | 0 <= row < SIDE && 0 <= col < SIDE && !Centre(row, col)
        ensures g[row][col] == w(q.x + col - HALF, q.y + row - HALF)
      {
        assert Right(g, w, q.x, 0, q.y - HALF, col) && Right(g, w, q.x, SIDE - 1, q.y + HALF, col);
      }
    }
  }

  ghost function Top(p: Position, q: Position): int {
    if p.x < q.x then p.x - HALF else q.x - HALF + 1
  }

  lemma StripsAlike(g0: Cells, g1: Cells, g2: Cells, g3: Cells, w: World, w': World, p: Position, q: Position, lo: int,
                    col: int)
    requires Followed(g0, g1, g2, g3, w, w', p, q) && q.y > p.y && q.x != p.x
    requires lo == (if p.x < q.x then 0 else 1) && lo <= col < lo + SIDE - 1
    ensures Right(g3, w', q.x, 0, q.y - HALF, col) <==> Alike(w', q.y - HALF, Top(p, q) + (col - lo))
    ensures Right(g3, w', q.x, SIDE - 1, q.y + HALF, col) <==> Alike(w', q.y + HALF, q.x - HALF + (col - lo))
  {
    hide MovedVertically, MovedHorizontally, Refreshed, Agrees, StepsTo;
    StripsLag(g0, g1, g2, g3, w, w', p, q, col);
  }

  lemma StripsDecide(g0: Cells, g1: Cells, g2: Cells, g3: Cells, w: World, w': World, p: Position, q: Position)
    requires Followed(g0, g1, g2, g3, w, w', p, q) && q.y > p.y && q.x != p.x
    requires InnerAgrees(g3, w', q)
    ensures Agrees(g3, w', q) <==> StripsUniform(w', p, q)
  {
    hide Followed, Agrees, RowAgrees, InnerAgrees, Uniform;
    var lo := if p.x < q.x then 0 else 1;
    var top, bottom := Top(p, q), q.x - HALF;
    var north, south := q.y - HALF, q.y + HALF;
    forall col | lo <= col < lo + SIDE - 1
      ensures Right(g3, w', q.x, 0, north, col) <==> Alike(w', north, top + (col - lo))
    {
      StripsAlike(g0, g1, g2, g3, w, w', p, q, lo, col);
    }
    var last := SIDE - 1;
    forall col | lo <= col < lo + SIDE - 1
      ensures Right(g3, w', q.x, last, south, col) <==> Alike(w', south, bottom + (col - lo))
    {
      StripsAlike(g0, g1, g2, g3, w, w', p, q, lo, col);
    }
    EdgesFollow(g0, g1, g2, g3, w, w', p, q);
    StepIsOne(g0, g1, g2, g3, w, w', p, q);
    RowsDecide(g3, w', q);
    StripDecides(g3, w', q.x, 0, north, lo, top);
    StripDecides(g3, w', q.x, last, south, lo, bottom);
  }

  lemma StepIsOne(g0: Cells, g1: Cells, g2: Cells, g3: Cells, w: World, w': World, p: Position, q: Position)
    requires Followed(g0, g1, g2, g3, w, w', p, q) && q.x != p.x
    ensures q.x == p.x + 1 || q.x == p.x - 1
  {
    hide MovedVertically, MovedHorizontally, Refreshed, Agrees, StepsTo;
  }

  lemma EdgesFollow(g0: Cells, g1: Cells, g2: Cells, g3: Cells, w: World, w': World, p: Position, q: Position)
    requires Followed(g0, g1, g2, g3, w, w', p, q) && q.x != p.x
    ensures var col := if p.x < q.x then SIDE - 1 else 0;
            && g3[0][col] == w'(q.x + col - HALF, q.y - HALF)
            && g3[SIDE - 1][col] == w'(q.x + col - HALF, q.y + HALF)
  {
    hide Followed;
    var col := if p.x < q.x then SIDE - 1 else 0;
    CellFollows(g0, g1, g2, g3, w, w', p, q, 0, col);
    CellFollows(g0, g1, g2, g3, w, w', p, q, SIDE - 1, col);
  }

  /** One blocked tile in the bottom row is enough for a step south-east to leave the cache wrong. */
  lemma OneTileIsEnough(w: World, p: Position, q: Position)
    requires q.y == p.y + 1 && q.x == p.x + 1
    requires forall x, y :: w(x, y) <==> !(x == q.x && y == q.y + HALF)
    ensures !StripsUniform(w, p, q)
  {
    assert w(q.x - HALF, q.y + HALF) && !w(q.x, q.y + HALF);
  }
}
