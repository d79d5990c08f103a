/** The 8-puzzle board (Week4 Board): an immutable n-by-n grid of tiles in
    which 0 marks the empty slot, with its goal test, its Hamming and
    Manhattan scores, its twin and its neighbours. */
module Boards {
  import opened Wrappers
  import opened Arithmetic

  /** A board's tiles, row by row. */
  type Grid = seq<seq<int>>

  /** Every row is as long as there are rows. */
  predicate Square(g: Grid) {
    forall i :: 0 <= i < |g| ==> |g[i]| == |g|
  }

  datatype Cell = Cell(row: int, col: int)

  predicate InGrid(n: int, c: Cell) {
    0 <= c.row < n && 0 <= c.col < n
  }

  /** The two grids are equal when they agree on every cell. */
  lemma GridExt(g1: Grid, g2: Grid)
    requires Square(g1) && Square(g2) && |g1| == |g2|
    requires forall i, j :: 0 <= i < |g1| && 0 <= j < |g1| ==> g1[i][j] == g2[i][j]
    ensures g1 == g2
  {
    forall i | 0 <= i < |g1| ensures g1[i] == g2[i] {
      assert |g1[i]| == |g2[i]|;
    }
  }

  // ---------------------------------------------------------------------
  // The goal layout

  /** goalValue: the tile the goal layout puts at (i, j). The layout numbers
      the cells 1, 2, ... row by row and leaves the last cell empty: on the
      grid each goal tile is below n*n, only the last cell's is 0, and tile
      v sits in row (v-1) div n, column (v-1) mod n. */
  function GoalValue(n: int, i: int, j: int): (v: int)
    ensures 0 <= i < n && 0 <= j < n ==>
              && 0 <= v < n * n
              && (v == 0 <==> i == n - 1 && j == n - 1)
              && (v != 0 ==> (v - 1) / n == i && (v - 1) % n == j)
  {
    GoalIndex(n, i, j);
    if i == n - 1 && j == n - 1 then 0 else i * n + j + 1
  }

  /** The row-major number of an in-grid cell other than the last. */
  lemma GoalIndex(n: int, i: int, j: int)
    ensures 0 < n ==> n <= n * n
    ensures 0 <= i < n && 0 <= j < n && !(i == n - 1 && j == n - 1) ==>
              && 0 < i * n + j + 1 < n * n
              && (i * n + j) / n == i && (i * n + j) % n == j
  {
    if 0 < n {
      MulMonotone(1, n, n);
    }
    if 0 <= i < n && 0 <= j < n && !(i == n - 1 && j == n - 1) {
      DivModOfIndex(n, i, j);
      MulMonotone(0, i, n);
      MulMonotone(i, n - 1, n);
      assert (n - 1) * n == n * n - n;
      assert i * n + j + 1 < n * n by {
        if i < n - 1 {
          MulMonotone(i + 1, n - 1, n);
          assert (i + 1) * n == i * n + n;
        }
      }
    }
  }

  /** Every tile 1..n*n-1 has exactly one goal cell. */
  lemma GoalCellOfTile(n: int, v: int)
    requires n > 0 && 1 <= v < n * n
    ensures var c := Cell((v - 1) / n, (v - 1) % n);
            InGrid(n, c) && GoalValue(n, c.row, c.col) == v
    ensures forall i, j :: 0 <= i < n && 0 <= j < n && GoalValue(n, i, j) == v ==>
              i == (v - 1) / n && j == (v - 1) % n
  {
    var q, m := (v - 1) / n, (v - 1) % n;
    TileCellInGrid(n, v);
    forall i, j | 0 <= i < n && 0 <= j < n && GoalValue(n, i, j) == v
      ensures i == q && j == m
    {
      var w := GoalValue(n, i, j);
      assert (w - 1) / n == i && (w - 1) % n == j;
    }
  }

  /** Tile v's row (v-1) div n and column (v-1) mod n are in the grid and
      not both n-1. */
  lemma TileCellInGrid(n: int, v: int)
    requires n > 0 && 1 <= v < n * n
    ensures var q, m := (v - 1) / n, (v - 1) % n;
            && 0 <= q < n && 0 <= m < n && !(q == n - 1 && m == n - 1)
            && q * n + m + 1 == v
  {
    var q, m := (v - 1) / n, (v - 1) % n;
    assert q * n + m == v - 1;
    if q >= n {
      MulMonotone(n, q, n);
    }
    assert !(q == n - 1 && m == n - 1) by {
      assert (n - 1) * n == n * n - n;
    }
  }

  /** The whole grid is in the goal layout. */
  predicate IsGoalGrid(g: Grid) {
    Square(g) && forall i, j :: 0 <= i < |g| && 0 <= j < |g| ==> g[i][j] == GoalValue(|g|, i, j)
  }

  // ---------------------------------------------------------------------
  // Java's integer division and the goal row and column manhattan computes

  /** Java's int division, which truncates toward zero. */
  function JavaDiv(a: int, b: int): int
    requires b > 0
  {
    if a >= 0 then a / b else -((-a) / b)
  }

  /** Java's %, whose result takes the sign of the dividend. */
  function JavaRem(a: int, b: int): int
    requires b > 0
  {
    a - JavaDiv(a, b) * b
  }

  /** The row manhattan takes as tile v's goal row: v / n, one less when n
      divides v. */
  function GoalRow(n: int, v: int): int
    requires n > 0
  {
    JavaDiv(v, n) - (if JavaRem(v, n) == 0 then 1 else 0)
  }

  /** The column manhattan takes as tile v's goal column. */
  function GoalCol(n: int, v: int): int
    requires n > 0
  {
    v - 1 - GoalRow(n, v) * n
  }

  /** For every positive tile, the row and column manhattan computes are
      (v-1) div n and (v-1) mod n: the goal cell of the tile. */
  lemma GoalRowCol(n: int, v: int)
    requires n > 0 && v >= 1
    ensures GoalRow(n, v) == (v - 1) / n && GoalCol(n, v) == (v - 1) % n
  {
    var q, m := (v - 1) / n, (v - 1) % n;
    assert q * n + m == v - 1;
    if m + 1 < n {
      DivModOfIndex(n, q, m + 1);
    } else {
      assert v == (q + 1) * n + 0;
      DivModOfIndex(n, q + 1, 0);
    }
  }

  // ---------------------------------------------------------------------
  // Scores

  datatype Score = HammingScore | ManhattanScore

  function Abs(x: int): nat {
    if x < 0 then -x else x
  }

  /** What the tile v at (i, j) adds to a score: nothing for the empty slot or
      a tile in its goal cell; otherwise 1 for hamming, and for manhattan its
      row and column distance from the goal cell. */
  function CellScore(m: Score, n: int, v: int, i: int, j: int): nat
    requires n > 0
  {
    if v == 0 || v == GoalValue(n, i, j) then 0
    else if m == HammingScore then 1
    else Abs(GoalRow(n, v) - i) + Abs(GoalCol(n, v) - j)
  }

  /** The score of the first k cells of row i. */
  function RowScore(m: Score, g: Grid, i: int, k: int): nat
    requires Square(g) && 0 <= i < |g| && 0 <= k <= |g|
  {
    if k == 0 then 0 else RowScore(m, g, i, k - 1) + CellScore(m, |g|, g[i][k - 1], i, k - 1)
  }

  /** The score of the first k rows. */
  function GridScore(m: Score, g: Grid, k: int): nat
    requires Square(g) && 0 <= k <= |g|
  {
    if k == 0 then 0 else GridScore(m, g, k - 1) + RowScore(m, g, k - 1, |g|)
  }

  function Total(m: Score, g: Grid): nat
    requires Square(g)
  {
    GridScore(m, g, |g|)
  }

  /** No cell of the first k in row i adds to the score. */
  ghost predicate RowClear(m: Score, g: Grid, i: int, k: int)
    requires Square(g) && 0 <= i < |g| && 0 <= k <= |g|
  {
    forall j :: 0 <= j < k ==> CellScore(m, |g|, g[i][j], i, j) == 0
  }

  lemma {:induction false} RowScoreZero(m: Score, g: Grid, i: int, k: int)
    requires Square(g) && 0 <= i < |g| && 0 <= k <= |g|
    ensures RowScore(m, g, i, k) == 0 <==> RowClear(m, g, i, k)
  {
    if k > 0 {
      RowScoreZero(m, g, i, k - 1);
    }
  }

  lemma {:induction false} GridScoreZero(m: Score, g: Grid, k: int)
    requires Square(g) && 0 <= k <= |g|
    ensures GridScore(m, g, k) == 0 <==> forall i :: 0 <= i < k ==> RowClear(m, g, i, |g|)
  {
    if k > 0 {
      GridScoreZero(m, g, k - 1);
      RowScoreZero(m, g, k - 1, |g|);
    }
  }

  /** A score is 0 exactly when no cell adds to it. */
  lemma ScoreZero(m: Score, g: Grid)
    requires Square(g)
    ensures Total(m, g) == 0 <==>
            forall i, j :: 0 <= i < |g| && 0 <= j < |g| ==> CellScore(m, |g|, g[i][j], i, j) == 0
  {
    GridScoreZero(m, g, |g|);
    if Total(m, g) == 0 {
      forall i, j | 0 <= i < |g| && 0 <= j < |g| ensures CellScore(m, |g|, g[i][j], i, j) == 0 {
        assert RowClear(m, g, i, |g|);
      }
    } else {
      var i :| 0 <= i < |g| && !RowClear(m, g, i, |g|);
    }
  }

  /** The hamming score is 0 exactly when every tile (the empty slot aside)
      is in its goal cell. */
  lemma HammingZeroIff(g: Grid)
    requires Square(g)
    ensures Total(HammingScore, g) == 0 <==>
            forall i, j :: 0 <= i < |g| && 0 <= j < |g| && g[i][j] != 0 ==> g[i][j] == GoalValue(|g|, i, j)
  {
    ScoreZero(HammingScore, g);
  }

  /** Both scores are 0 on the goal board. */
  lemma GoalScoresZero(m: Score, g: Grid)
    requires IsGoalGrid(g)
    ensures Total(m, g) == 0
  {
    ScoreZero(m, g);
  }

  /** Every tile is 0..n*n-1, as on a board of the puzzle. */
  predicate Tiles(g: Grid) {
    Square(g) && forall i, j :: 0 <= i < |g| && 0 <= j < |g| ==> 0 <= g[i][j] < |g| * |g|
  }

  /** A misplaced tile of the puzzle is at least one step from its goal cell. */
  lemma ManhattanCellPositive(n: int, v: int, i: int, j: int)
    requires 0 <= i < n && 0 <= j < n && 1 <= v < n * n && v != GoalValue(n, i, j)
    ensures CellScore(ManhattanScore, n, v, i, j) >= 1
  {
    GoalRowCol(n, v);
    GoalCellOfTile(n, v);
  }

  lemma {:induction false} RowScoreBelow(g: Grid, i: int, k: int)
    requires Tiles(g) && 0 <= i < |g| && 0 <= k <= |g|
    ensures RowScore(HammingScore, g, i, k) <= RowScore(ManhattanScore, g, i, k)
  {
    if k > 0 {
      RowScoreBelow(g, i, k - 1);
      var v := g[i][k - 1];
      if v != 0 && v != GoalValue(|g|, i, k - 1) {
        ManhattanCellPositive(|g|, v, i, k - 1);
      }
    }
  }

  lemma {:induction false} GridScoreBelow(g: Grid, k: int)
    requires Tiles(g) && 0 <= k <= |g|
    ensures GridScore(HammingScore, g, k) <= GridScore(ManhattanScore, g, k)
  {
    if k > 0 {
      GridScoreBelow(g, k - 1);
      RowScoreBelow(g, k - 1, |g|);
    }
  }

  /** On a board of the puzzle, every misplaced tile is at least one step
      away: the hamming score never exceeds the manhattan score, and one is 0
      exactly when the other is. */
  lemma HammingAtMostManhattan(g: Grid)
    requires Tiles(g)
    ensures Total(HammingScore, g) <= Total(ManhattanScore, g)
    ensures Total(HammingScore, g) == 0 <==> Total(ManhattanScore, g) == 0
  {
    GridScoreBelow(g, |g|);
    ScoreZero(HammingScore, g);
    ScoreZero(ManhattanScore, g);
    if Total(HammingScore, g) == 0 {
      forall i, j | 0 <= i < |g| && 0 <= j < |g|
        ensures CellScore(ManhattanScore, |g|, g[i][j], i, j) == 0
      {
        assert CellScore(HammingScore, |g|, g[i][j], i, j) == 0;
      }
    }
  }

  // ---------------------------------------------------------------------
  // Changing cells

  /** The grid with cell c set to v. */
  function Set(g: Grid, c: Cell, v: int): (r: Grid)
    requires Square(g) && InGrid(|g|, c)
    ensures Square(r) && |r| == |g|
  {
    g[c.row := g[c.row][c.col := v]]
  }

  /** Set changes cell c to v and no other cell. */
  lemma SetAt(g: Grid, c: Cell, v: int)
    requires Square(g) && InGrid(|g|, c)
    ensures forall i, j :: 0 <= i < |g| && 0 <= j < |g| ==>
              Set(g, c, v)[i][j] == if i == c.row && j == c.col then v else g[i][j]
  {
  }

  /** The grid with the tiles of cells a and b exchanged. */
  function Swap(g: Grid, a: Cell, b: Cell): (r: Grid)
    requires Square(g) && InGrid(|g|, a) && InGrid(|g|, b)
    ensures Square(r) && |r| == |g|
    ensures forall i, j :: 0 <= i < |g| && 0 <= j < |g| ==>
              r[i][j] == if i == b.row && j == b.col then g[a.row][a.col]
                         else if i == a.row && j == a.col then g[b.row][b.col]
                         else g[i][j]
  {
    var mid := Set(g, a, g[b.row][b.col]);
    SetAt(g, a, g[b.row][b.col]);
    SetAt(mid, b, g[a.row][a.col]);
    Set(mid, b, g[a.row][a.col])
  }

  /** Exactly one cell, z, is empty. */
  predicate OneBlank(g: Grid, z: Cell) {
    Square(g) && InGrid(|g|, z)
    && forall i, j :: 0 <= i < |g| && 0 <= j < |g| ==> (g[i][j] == 0 <==> i == z.row && j == z.col)
  }

  // ---------------------------------------------------------------------
  // twin

  /** The two cells twin exchanges, chosen in the first two rows so as to
      avoid the empty slot. */
  function TwinCells(g: Grid): (Cell, Cell)
    requires Square(g) && |g| >= 2
  {
    if g[0][0] == 0 then (Cell(0, 1), Cell(1, 1))
    else if g[0][1] == 0 then (Cell(0, 0), Cell(1, 0))
    else (Cell(0, 0), Cell(0, 1))
  }

  /** twin's grid: the tiles of two distinct cells of the first two rows
      exchanged, every other cell kept. */
  function TwinGrid(g: Grid): (t: Grid)
    requires Square(g) && |g| >= 2
    ensures var (a, b) := TwinCells(g);
            && a != b && InGrid(|g|, a) && InGrid(|g|, b) && a.row <= 1 && b.row <= 1
            && Square(t) && |t| == |g|
            && t[a.row][a.col] == g[b.row][b.col] && t[b.row][b.col] == g[a.row][a.col]
            && forall i, j :: 0 <= i < |g| && 0 <= j < |g| && Cell(i, j) != a && Cell(i, j) != b ==>
                 t[i][j] == g[i][j]
  {
    var (a, b) := TwinCells(g);
    Swap(g, a, b)
  }

  /** On a board with one empty slot neither of the cells twin exchanges
      holds the 0, so the empty slot stays where it is, and taking the twin
      twice gives back the board. */
  lemma TwinProperties(g: Grid, z: Cell)
    requires OneBlank(g, z) && |g| >= 2
    ensures var (a, b) := TwinCells(g);
            && g[a.row][a.col] != 0 && g[b.row][b.col] != 0
            && OneBlank(TwinGrid(g), z)
            && TwinGrid(TwinGrid(g)) == g
  {
    var (a, b) := TwinCells(g);
    var t := TwinGrid(g);
    assert t[0][0] == 0 <==> g[0][0] == 0;
    assert t[0][1] == 0 <==> g[0][1] == 0;
    assert TwinCells(t) == (a, b);
    GridExt(TwinGrid(t), g);
  }

  // ---------------------------------------------------------------------
  // neighbors

  predicate Adjacent(z: Cell, t: Cell) {
    || (z.row == t.row && (z.col == t.col + 1 || t.col == z.col + 1))
    || (z.col == t.col && (z.row == t.row + 1 || t.row == z.row + 1))
  }

  /** The number of cells adjacent to z on an n-by-n grid. */
  function Dirs(n: int, z: Cell): nat {
    (if z.col > 0 then 1 else 0) + (if z.col < n - 1 then 1 else 0)
    + (if z.row > 0 then 1 else 0) + (if z.row < n - 1 then 1 else 0)
  }

  /** The grid after the tile at t slides into the empty cell z: z takes
      t's tile and t becomes empty, so that when z is empty the two cells
      are exchanged. */
  function Slide(g: Grid, z: Cell, t: Cell): (r: Grid)
    requires Square(g) && InGrid(|g|, z) && InGrid(|g|, t)
    ensures g[z.row][z.col] == 0 ==> r == Swap(g, z, t)
  {
    var r := Set(Set(g, z, g[t.row][t.col]), t, 0);
    if g[z.row][z.col] == 0 then
      SetAt(g, z, g[t.row][t.col]);
      SetAt(Set(g, z, g[t.row][t.col]), t, 0);
      GridExt(r, Swap(g, z, t));
      r
    else
      r
  }

  /** Sliding empties t, fills z with t's tile and changes no other cell. */
  lemma SlideAt(g: Grid, z: Cell, t: Cell)
    requires Square(g) && InGrid(|g|, z) && InGrid(|g|, t)
    ensures forall i, j :: 0 <= i < |g| && 0 <= j < |g| ==>
              Slide(g, z, t)[i][j] == if i == t.row && j == t.col then 0
                                      else if i == z.row && j == z.col then g[t.row][t.col]
                                      else g[i][j]
  {
    SetAt(g, z, g[t.row][t.col]);
    SetAt(Set(g, z, g[t.row][t.col]), t, 0);
  }


  /** The boards neighbors pushes for cell (i, j), in push order: none
      unless the cell is empty, else its left, right, upper and lower
      neighbour's tile slid in, when on the grid. */
  function Moves(g: Grid, i: int, j: int): (ms: seq<Grid>)
    requires Square(g) && 0 <= i < |g| && 0 <= j < |g|
    ensures |ms| == if g[i][j] == 0 then Dirs(|g|, Cell(i, j)) else 0
  {
    if g[i][j] != 0 then [] else SideMoves(g, i, j) + UpDownMoves(g, i, j)
  }

  /** The left and right neighbours' tiles slid into (i, j). */
  function SideMoves(g: Grid, i: int, j: int): seq<Grid>
    requires Square(g) && 0 <= i < |g| && 0 <= j < |g|
  {
    var z := Cell(i, j);
    (if j > 0 then [Slide(g, z, Cell(i, j - 1))] else [])
    + (if j < |g| - 1 then [Slide(g, z, Cell(i, j + 1))] else [])
  }

  /** The upper and lower neighbours' tiles slid into (i, j). */
  function UpDownMoves(g: Grid, i: int, j: int): seq<Grid>
    requires Square(g) && 0 <= i < |g| && 0 <= j < |g|
  {
    var z := Cell(i, j);
    (if i > 0 then [Slide(g, z, Cell(i - 1, j))] else [])
    + (if i < |g| - 1 then [Slide(g, z, Cell(i + 1, j))] else [])
  }

  /** The pushes for the first k cells of row i. */
  function RowPushes(g: Grid, i: int, k: int): seq<Grid>
    requires Square(g) && 0 <= i < |g| && 0 <= k <= |g|
  {
    if k == 0 then [] else RowPushes(g, i, k - 1) + Moves(g, i, k - 1)
  }

  /** The pushes for the first k rows. */
  function GridPushes(g: Grid, k: int): seq<Grid>
    requires Square(g) && 0 <= k <= |g|
  {
    if k == 0 then [] else GridPushes(g, k - 1) + RowPushes(g, k - 1, |g|)
  }

  function Reverse<T>(s: seq<T>): (r: seq<T>)
    ensures |r| == |s|
  {
    if s == [] then [] else [s[|s| - 1]] + Reverse(s[..|s| - 1])
  }

  lemma {:induction false} ReverseMembers<T>(s: seq<T>, x: T)
    ensures x in Reverse(s) <==> x in s
  {
    if s != [] {
      var front := s[..|s| - 1];
      ReverseMembers(front, x);
      assert s == front + [s[|s| - 1]];
    }
  }

  /** Pushing x after the items of a puts x on top. */
  lemma ReversePush<T>(a: seq<T>, x: T)
    ensures Reverse(a + [x]) == [x] + Reverse(a)
  {
    assert (a + [x])[..|a|] == a;
  }

  /** Concatenation is associative. */
  lemma AppendAssoc<T>(a: seq<T>, b: seq<T>, c: seq<T>)
    ensures (a + b) + c == a + (b + c)
  {
  }

  /** The reverse of a + b is the reverse of b, then the reverse of a. */
  lemma {:induction false} ReverseAppend<T>(a: seq<T>, b: seq<T>)
    ensures Reverse(a + b) == Reverse(b) + Reverse(a)
    decreases |b|
  {
    if b == [] {
      assert a + b == a;
      assert [] + Reverse(a) == Reverse(a);
    } else {
      var front, x := b[..|b| - 1], b[|b| - 1];
      assert b == front + [x];
      AppendAssoc(a, front, [x]);
      ReversePush(a + front, x);
      ReversePush(front, x);
      ReverseAppend(a, front);
      AppendAssoc([x], Reverse(front), Reverse(a));
    }
  }

  /** A sequence of at most one element is its own reverse. */
  lemma ReverseShort<T>(a: seq<T>)
    requires |a| <= 1
    ensures Reverse(a) == a
  {
    if |a| == 1 {
      assert a[..0] == [];
    }
  }

  /** The pushes up to cell (i, j+1) are those up to (i, j), then the
      cell's own. */
  lemma PushesStep(g: Grid, i: int, j: int)
    requires Square(g) && 0 <= i < |g| && 0 <= j < |g|
    ensures GridPushes(g, i) + RowPushes(g, i, j + 1) == GridPushes(g, i) + RowPushes(g, i, j) + Moves(g, i, j)
  {
  }

  /** The pushes up to the start of row i are those of the rows before, and
      up to its end those of the rows up to i. */
  lemma PushesRowStart(g: Grid, i: int)
    requires Square(g) && 0 <= i < |g|
    ensures GridPushes(g, i) + RowPushes(g, i, 0) == GridPushes(g, i)
    ensures GridPushes(g, i) + RowPushes(g, i, |g|) == GridPushes(g, i + 1)
  {
    assert GridPushes(g, i) + [] == GridPushes(g, i);
  }

  /** What the stack neighbors returns yields, top first: the boards in the
      reverse of the order they were pushed. */
  function NeighborGrids(g: Grid): seq<Grid>
    requires Square(g)
  {
    Reverse(GridPushes(g, |g|))
  }

  /** x is the board after some tile slides into some empty cell. */
  ghost predicate IsSlide(g: Grid, x: Grid) {
    Square(g)
    && exists z: Cell, t: Cell :: BlankMove(g, z, t) && x == Swap(g, z, t)
  }

  /** t is adjacent to the empty cell z. */
  predicate BlankMove(g: Grid, z: Cell, t: Cell) {
    Square(g) && InGrid(|g|, z) && InGrid(|g|, t) && g[z.row][z.col] == 0 && Adjacent(z, t)
  }

  /** The left and right pushes of the blank at (i, j) are slides. */
  lemma SideMovesSound(g: Grid, i: int, j: int)
    requires Square(g) && 0 <= i < |g| && 0 <= j < |g| && g[i][j] == 0
    ensures forall x :: x in SideMoves(g, i, j) ==> IsSlide(g, x)
  {
    var z := Cell(i, j);
    forall x | x in SideMoves(g, i, j) ensures IsSlide(g, x) {
      var t := if j > 0 && x == Slide(g, z, Cell(i, j - 1)) then Cell(i, j - 1) else Cell(i, j + 1);
      assert BlankMove(g, z, t) && x == Slide(g, z, t);
    }
  }

  /** The upper and lower pushes of the blank at (i, j) are slides. */
  lemma UpDownMovesSound(g: Grid, i: int, j: int)
    requires Square(g) && 0 <= i < |g| && 0 <= j < |g| && g[i][j] == 0
    ensures forall x :: x in UpDownMoves(g, i, j) ==> IsSlide(g, x)
  {
    var z := Cell(i, j);
    forall x | x in UpDownMoves(g, i, j) ensures IsSlide(g, x) {
      var t := if i > 0 && x == Slide(g, z, Cell(i - 1, j)) then Cell(i - 1, j) else Cell(i + 1, j);
      assert BlankMove(g, z, t) && x == Slide(g, z, t);
    }
  }

  /** Every push for one cell is a slide of its blank. */
  lemma MovesSound(g: Grid, i: int, j: int)
    requires Square(g) && 0 <= i < |g| && 0 <= j < |g|
    ensures forall x :: x in Moves(g, i, j) ==> IsSlide(g, x)
  {
    if g[i][j] == 0 {
      SideMovesSound(g, i, j);
      UpDownMovesSound(g, i, j);
    }
  }

  /** Every slide of the blank at (i, j) is among the cell's pushes. */
  lemma MovesComplete(g: Grid, i: int, j: int)
    requires Square(g) && 0 <= i < |g| && 0 <= j < |g|
    ensures forall t :: BlankMove(g, Cell(i, j), t) ==> Swap(g, Cell(i, j), t) in Moves(g, i, j)
  {
    var z := Cell(i, j);
    forall t | BlankMove(g, z, t)
      ensures Swap(g, z, t) in Moves(g, i, j)
    {
    }
  }

  /** Every push for the first k cells of row i is a slide. */
  lemma {:induction false} RowPushesSound(g: Grid, i: int, k: int)
    requires Square(g) && 0 <= i < |g| && 0 <= k <= |g|
    ensures forall x :: x in RowPushes(g, i, k) ==> IsSlide(g, x)
  {
    if k > 0 {
      RowPushesSound(g, i, k - 1);
      MovesSound(g, i, k - 1);
    }
  }

  /** Every slide of a blank among the first k cells of row i is pushed. */
  lemma {:induction false} RowPushesComplete(g: Grid, i: int, k: int)
    requires Square(g) && 0 <= i < |g| && 0 <= k <= |g|
    ensures forall j, t :: 0 <= j < k && BlankMove(g, Cell(i, j), t) ==>
              Swap(g, Cell(i, j), t) in RowPushes(g, i, k)
  {
    if k > 0 {
      RowPushesComplete(g, i, k - 1);
      MovesComplete(g, i, k - 1);
    }
  }

  /** Every push for the first k rows is a slide. */
  lemma {:induction false} GridPushesSound(g: Grid, k: int)
    requires Square(g) && 0 <= k <= |g|
    ensures forall x :: x in GridPushes(g, k) ==> IsSlide(g, x)
  {
    if k > 0 {
      GridPushesSound(g, k - 1);
      RowPushesSound(g, k - 1, |g|);
    }
  }

  /** Every slide of a blank in the first k rows is pushed. */
  lemma {:induction false} GridPushesComplete(g: Grid, k: int)
    requires Square(g) && 0 <= k <= |g|
    ensures forall z: Cell, t: Cell :: 0 <= z.row < k && BlankMove(g, z, t) ==> Swap(g, z, t) in GridPushes(g, k)
  {
    if k > 0 {
      GridPushesComplete(g, k - 1);
      RowPushesComplete(g, k - 1, |g|);
      forall z: Cell, t: Cell | 0 <= z.row < k && BlankMove(g, z, t)
        ensures Swap(g, z, t) in GridPushes(g, k)
      {
        if z.row == k - 1 {
          assert Swap(g, Cell(z.row, z.col), t) in RowPushes(g, k - 1, |g|);
        }
      }
    }
  }

  /** neighbors yields exactly the boards made by sliding a tile adjacent to
      an empty cell into it. */
  lemma NeighborsAreSlides(g: Grid)
    requires Square(g)
    ensures forall x :: x in NeighborGrids(g) <==> IsSlide(g, x)
  {
    GridPushesSound(g, |g|);
    GridPushesComplete(g, |g|);
    forall x ensures x in NeighborGrids(g) <==> IsSlide(g, x) {
      ReverseMembers(GridPushes(g, |g|), x);
      if IsSlide(g, x) {
        var z, t :| BlankMove(g, z, t) && x == Swap(g, z, t);
      }
    }
  }

  lemma {:induction false} RowPushesCount(g: Grid, z: Cell, i: int, k: int)
    requires OneBlank(g, z) && 0 <= i < |g| && 0 <= k <= |g|
    ensures |RowPushes(g, i, k)| == if i == z.row && z.col < k then Dirs(|g|, z) else 0
  {
    if k > 0 {
      RowPushesCount(g, z, i, k - 1);
    }
  }

  lemma {:induction false} GridPushesCount(g: Grid, z: Cell, k: int)
    requires Square(g) && 0 <= k <= |g|
    requires forall i :: 0 <= i < |g| ==> |RowPushes(g, i, |g|)| == if i == z.row then Dirs(|g|, z) else 0
    ensures |GridPushes(g, k)| == if 0 <= z.row < k then Dirs(|g|, z) else 0
  {
    if k > 0 {
      GridPushesCount(g, z, k - 1);
    }
  }

  /** Only the empty slot's row has pushes, one per direction. */
  lemma AllRowPushesCount(g: Grid, z: Cell)
    requires OneBlank(g, z)
    ensures forall i :: 0 <= i < |g| ==> |RowPushes(g, i, |g|)| == if i == z.row then Dirs(|g|, z) else 0
  {
    forall i | 0 <= i < |g| ensures |RowPushes(g, i, |g|)| == if i == z.row then Dirs(|g|, z) else 0 {
      RowPushesCount(g, z, i, |g|);
    }
  }

  /** A cell of a grid at least 2-by-2 has between two and four adjacent
      cells. */
  lemma DirsBounds(n: int, z: Cell)
    requires n >= 2 && InGrid(n, z)
    ensures 2 <= Dirs(n, z) <= 4
  {
  }

  /** On a board with one empty slot there is one neighbour per direction
      the slot can take: 2 in a corner, 3 on an edge, 4 inside. */
  lemma NeighborCount(g: Grid, z: Cell)
    requires OneBlank(g, z)
    ensures |NeighborGrids(g)| == Dirs(|g|, z)
    ensures |g| >= 2 ==> 2 <= |NeighborGrids(g)| <= 4
  {
    AllRowPushesCount(g, z);
    GridPushesCount(g, z, |g|);
    if |g| >= 2 {
      DirsBounds(|g|, z);
    }
  }

  // ---------------------------------------------------------------------
  // The class

  /** The array holds the grid: the same size and the same tiles. */
  ghost predicate Holds(a: array2<int>, g: Grid)
    reads a
  {
    Square(g) && a.Length0 == |g| && a.Length1 == |g|
    && forall i, j :: 0 <= i < |g| && 0 <= j < |g| ==> a[i, j] == g[i][j]
  }

  /** deepCopyBlocks: a fresh n-by-n array with the first n columns of the
      first n rows of src. */
  method DeepCopy(src: array2<int>, n: int) returns (copy: array2<int>, ghost g: Grid)
    requires 0 <= n <= src.Length0 && n <= src.Length1
    ensures fresh(copy) && Holds(copy, g) && |g| == n
    ensures forall i, j :: 0 <= i < n && 0 <= j < n ==> g[i][j] == src[i, j]
  {
    copy := new int[n, n];
    for i := 0 to n
      invariant forall i', j :: 0 <= i' < i && 0 <= j < n ==> copy[i', j] == src[i', j]
    {
      for j := 0 to n
        invariant forall i', j' :: 0 <= i' < i && 0 <= j' < n ==> copy[i', j'] == src[i', j']
        invariant forall j' :: 0 <= j' < j ==> copy[i, j'] == src[i, j']
      {
        copy[i, j] := src[i, j];
      }
    }
    g := seq(n, i requires 0 <= i < n reads src => seq(n, j requires 0 <= j < n reads src => src[i, j]));
  }

  /** isGoal: every cell holds its goal tile. */
  method GoalTest(a: array2<int>, ghost g: Grid) returns (r: bool)
    requires Holds(a, g)
    ensures r == IsGoalGrid(g)
  {
    var n := a.Length0;
    for i := 0 to n
      invariant forall i', j :: 0 <= i' < i && 0 <= j < n ==> g[i'][j] == GoalValue(n, i', j)
    {
      for j := 0 to n
        invariant forall i', j' :: 0 <= i' < i && 0 <= j' < n ==> g[i'][j'] == GoalValue(n, i', j')
        invariant forall j' :: 0 <= j' < j ==> g[i][j'] == GoalValue(n, i, j')
      {
        if a[i, j] != GoalValue(n, i, j) {
          return false;
        }
      }
    }
    return true;
  }

  /** The grids of a sequence of boards. */
  ghost function GridsOf(s: seq<Board>): (r: seq<Grid>)
    ensures |r| == |s|
  {
    if s == [] then [] else [s[0].grid] + GridsOf(s[1..])
  }

  class Board {
    const n: int
    const blocks: array2<int>
    const isGoal: bool
    /** The tiles the board stands for. */
    ghost const grid: Grid

    ghost predicate Valid()
      reads blocks
    {
      Holds(blocks, grid) && n == |grid| && isGoal == IsGoalGrid(grid)
    }

    /** Board(blocks): the board keeps its own copy of the first n columns of
        the n rows of the argument, and records whether it is the goal. */
    constructor (input: array2<int>)
      requires input.Length0 <= input.Length1
      ensures Valid() && fresh(blocks) && n == input.Length0
      ensures forall i, j :: 0 <= i < n && 0 <= j < n ==> grid[i][j] == input[i, j]
    {
      n := input.Length0;
      var copy, g := DeepCopy(input, input.Length0);
      var goal := GoalTest(copy, g);
      blocks := copy;
      grid := g;
      isGoal := goal;
    }

    /** dimension. */
    function Dimension(): (d: int)
      reads blocks
      requires Valid()
      ensures d == |grid| && d == blocks.Length0
    {
      n
    }

    /** isGoal. */
    method IsGoal() returns (r: bool)
      requires Valid()
      ensures r == IsGoalGrid(grid)
    {
      r := GoalTest(blocks, grid);
    }

    /** hamming: the number of tiles, the empty slot aside, not in their goal
        cell; 0 at once on the goal board. */
    method Hamming() returns (score: int)
      requires Valid()
      ensures score == Total(HammingScore, grid)
    {
      if isGoal {
        GoalScoresZero(HammingScore, grid);
        return 0;
      }
      score := 0;
      for i := 0 to n
        invariant score == GridScore(HammingScore, grid, i)
      {
        for j := 0 to n
          invariant score == GridScore(HammingScore, grid, i) + RowScore(HammingScore, grid, i, j)
        {
          if blocks[i, j] == 0 {
            continue;
          }
          if blocks[i, j] != GoalValue(n, i, j) {
            score := score + 1;
          }
        }
      }
    }

    /** manhattan: the sum over misplaced tiles of their row and column
        distances from their goal cells; 0 at once on the goal board. */
    method Manhattan() returns (score: int)
      requires Valid()
      ensures score == Total(ManhattanScore, grid)
    {
      if isGoal {
        GoalScoresZero(ManhattanScore, grid);
        return 0;
      }
      score := 0;
      for i := 0 to n
        invariant score == GridScore(ManhattanScore, grid, i)
      {
        for j := 0 to n
          invariant score == GridScore(ManhattanScore, grid, i) + RowScore(ManhattanScore, grid, i, j)
        {
          var val := blocks[i, j];
          if val == 0 {
            continue;
          }
          if val == GoalValue(n, i, j) {
            continue;
          }
          var rowShouldBe := JavaDiv(val, n);
          if JavaRem(val, n) == 0 {
            rowShouldBe := rowShouldBe - 1;
          }
          var colShouldBe := val - 1 - rowShouldBe * n;
          score := score + Abs(rowShouldBe - i);
          score := score + Abs(colShouldBe - j);
        }
      }
    }

    /** twin: a new board with two tiles of the first two rows exchanged;
        a board smaller than 2-by-2 has no such cells and the array access
        fails. This board is not changed. */
    method Twin() returns (r: Result<Board>)
      requires Valid()
      ensures n < 2 ==> r == Failure(ArrayIndexOutOfBounds)
      ensures n >= 2 ==> r.Success? && fresh(r.value) && r.value.Valid() && r.value.grid == TwinGrid(grid)
    {
      if n < 2 {
        return Failure(ArrayIndexOutOfBounds);
      }
      var copy, g := DeepCopy(blocks, n);
      var a0, a1, b0, b1;
      if copy[0, 0] == 0 {
        a0, a1, b0, b1 := 0, 1, 1, 1;
      } else if copy[0, 1] == 0 {
        a0, a1, b0, b1 := 0, 0, 1, 0;
      } else {
        a0, a1, b0, b1 := 0, 0, 0, 1;
      }
      assert TwinCells(grid) == (Cell(a0, a1), Cell(b0, b1));
      var temp := copy[a0, a1];
      copy[a0, a1] := copy[b0, b1];
      copy[b0, b1] := temp;
      var twin := new Board(copy);
      GridExt(twin.grid, TwinGrid(grid));
      return Success(twin);
    }

    /** equals: false for null, true for this very board, else whether the
        dimensions and every cell agree. */
    method Equals(that: Board?) returns (r: bool)
      requires Valid() && (that != null ==> that.Valid())
      ensures r <==> that != null && that.grid == grid
    {
      if that == null {
        return false;
      }
      if this == that {
        return true;
      }
      if n != that.n {
        return false;
      }
      for i := 0 to n
        invariant forall i', j :: 0 <= i' < i && 0 <= j < n ==> grid[i'][j] == that.grid[i'][j]
      {
        for j := 0 to n
          invariant forall i', j' :: 0 <= i' < i && 0 <= j' < n ==> grid[i'][j'] == that.grid[i'][j']
          invariant forall j' :: 0 <= j' < j ==> grid[i][j'] == that.grid[i][j']
        {
          if blocks[i, j] != that.blocks[i, j] {
            return false;
          }
        }
      }
      GridExt(grid, that.grid);
      return true;
    }

    /** One of neighbors' pushes: a new board with the tile at t slid into
        the empty cell z. */
    method SlideInto(z: Cell, t: Cell) returns (b: Board)
      requires Valid() && InGrid(n, z) && InGrid(n, t)
      ensures fresh(b) && fresh(b.blocks) && b.Valid() && b.grid == Slide(grid, z, t)
    {
      var copy, g := DeepCopy(blocks, n);
      copy[z.row, z.col] := copy[t.row, t.col];
      copy[t.row, t.col] := 0;
      b := new Board(copy);
      SlideAt(grid, z, t);
      GridExt(b.grid, Slide(grid, z, t));
    }

    /** The body of neighbors for cell (i, j): when it is the empty cell,
        pushes the boards with its left, right, upper and lower neighbour
        slid in, so that they come off the stack in reverse order. */
    method PushMoves(i: int, j: int, stack: seq<Board>) returns (r: seq<Board>)
      requires Valid() && 0 <= i < n && 0 <= j < n
      ensures GridsOf(r) == Reverse(Moves(grid, i, j)) + GridsOf(stack)
      ensures forall b :: b in r ==> b in stack || (fresh(b) && b.Valid())
    {
      if blocks[i, j] != 0 {
        assert Reverse(Moves(grid, i, j)) + GridsOf(stack) == GridsOf(stack);
        return stack;
      }
      r := PushSideMoves(i, j, stack);
      r := PushUpDownMoves(i, j, r);
      ReverseAppend(SideMoves(grid, i, j), UpDownMoves(grid, i, j));
      AppendAssoc(Reverse(UpDownMoves(grid, i, j)), Reverse(SideMoves(grid, i, j)), GridsOf(stack));
    }

    /** The left and right pushes of neighbors for the empty cell (i, j). */
    method PushSideMoves(i: int, j: int, stack: seq<Board>) returns (r: seq<Board>)
      requires Valid() && 0 <= i < n && 0 <= j < n
      ensures GridsOf(r) == Reverse(SideMoves(grid, i, j)) + GridsOf(stack)
      ensures forall b :: b in r ==> b in stack || (fresh(b) && b.Valid())
    {
      var z := Cell(i, j);
      ghost var left := if j > 0 then [Slide(grid, z, Cell(i, j - 1))] else [];
      ghost var right := if j < n - 1 then [Slide(grid, z, Cell(i, j + 1))] else [];
      r := PushWhen(j > 0, stack, z, Cell(i, j - 1));
      r := PushWhen(j < n - 1, r, z, Cell(i, j + 1));
      ReverseAppend(left, right);
      ReverseShort(left);
      ReverseShort(right);
      AppendAssoc(right, left, GridsOf(stack));
    }

    /** The upper and lower pushes of neighbors for the empty cell (i, j). */
    method PushUpDownMoves(i: int, j: int, stack: seq<Board>) returns (r: seq<Board>)
      requires Valid() && 0 <= i < n && 0 <= j < n
      ensures GridsOf(r) == Reverse(UpDownMoves(grid, i, j)) + GridsOf(stack)
      ensures forall b :: b in r ==> b in stack || (fresh(b) && b.Valid())
    {
      var z := Cell(i, j);
      ghost var up := if i > 0 then [Slide(grid, z, Cell(i - 1, j))] else [];
      ghost var down := if i < n - 1 then [Slide(grid, z, Cell(i + 1, j))] else [];
      r := PushWhen(i > 0, stack, z, Cell(i - 1, j));
      r := PushWhen(i < n - 1, r, z, Cell(i + 1, j));
      ReverseAppend(up, down);
      ReverseShort(up);
      ReverseShort(down);
      AppendAssoc(down, up, GridsOf(stack));
    }

    /** One guarded push of neighbors: when the guard holds, the board with
        the tile at t slid into z goes on top of the stack. */
    method PushWhen(guard: bool, stack: seq<Board>, z: Cell, t: Cell) returns (r: seq<Board>)
      requires Valid() && InGrid(n, z) && (guard ==> InGrid(n, t))
      ensures GridsOf(r) == (if guard then [Slide(grid, z, t)] else []) + GridsOf(stack)
      ensures forall b :: b in r ==> b in stack || (fresh(b) && b.Valid())
    {
      if guard {
        var b := SlideInto(z, t);
        r := [b] + stack;
        assert r[1..] == stack;
      } else {
        assert [] + GridsOf(stack) == GridsOf(stack);
        r := stack;
      }
    }

    /** neighbors: for every empty cell, in row-major order, pushes the
        boards with its left, right, upper and lower neighbour slid in, onto
        a stack that yields them last pushed first. */
    method Neighbors() returns (stack: seq<Board>)
      requires Valid()
      ensures GridsOf(stack) == NeighborGrids(grid)
      ensures forall b :: b in stack ==> fresh(b) && b.Valid()
    {
      stack := [];
      for i := 0 to n
        invariant GridsOf(stack) == Reverse(GridPushes(grid, i))
        invariant forall b :: b in stack ==> fresh(b) && b.Valid()
      {
        stack := PushRow(i, stack);
      }
    }

    /** The inner loop of neighbors: the pushes for the cells of row i. */
    method PushRow(i: int, stack: seq<Board>) returns (r: seq<Board>)
      requires Valid() && 0 <= i < n
      requires GridsOf(stack) == Reverse(GridPushes(grid, i))
      ensures GridsOf(r) == Reverse(GridPushes(grid, i + 1))
      ensures forall b :: b in r ==> b in stack || (fresh(b) && b.Valid())
    {
      PushesRowStart(grid, i);
      r := stack;
      for j := 0 to n
        invariant GridsOf(r) == Reverse(GridPushes(grid, i) + RowPushes(grid, i, j))
        invariant forall b :: b in r ==> b in stack || (fresh(b) && b.Valid())
      {
        ghost var before := GridPushes(grid, i) + RowPushes(grid, i, j);
        PushesStep(grid, i, j);
        ReverseAppend(before, Moves(grid, i, j));
        r := PushMoves(i, j, r);
      }
    }
  }
}
