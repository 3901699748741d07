/**
 * What the Life step does to some well-known configurations on a torus large enough for
 * them: the empty board, a lone cell, the 2x2 block and the period-2 blinker. Each of
 * them is a rectangle of live cells, a set of rows times a set of columns, and on such a
 * board a cell's neighbour count factors into one count per axis.
 */
module Patterns {
  import opened LifeRules

  /** The board on which exactly the cells (r, c) with r in liveRows and c in liveCols are live. */
  function Rect(rows: int, cols: int, liveRows: set<int>, liveCols: set<int>): (b: Board)
    requires 0 < rows && 0 < cols
    ensures b.Valid() && b.rows == rows && b.cols == cols
    ensures forall r, c :: 0 <= r < rows && 0 <= c < cols ==> (b.At(r, c) <==> r in liveRows && c in liveCols)
  {
    var n := RowStart(rows, cols);
    var b := Board(rows, cols, seq(n, i requires 0 <= i < n =>
               IndexCoordinates(rows, cols, i);
               i / cols in liveRows && i % cols in liveCols));
    assert forall r, c :: 0 <= r < rows && 0 <= c < cols ==> (b.At(r, c) <==> r in liveRows && c in liveCols) by {
      forall r, c | 0 <= r < rows && 0 <= c < cols
        ensures b.At(r, c) <==> r in liveRows && c in liveCols
      {
        var i := Index(rows, cols, r, c);
        IndexCoordinates(rows, cols, i);
        IndexInjective(rows, cols, r, c, i / cols, i % cols);
      }
    }
    b
  }

  /** 1 when i moved by d on a ring of n positions lands in s, else 0. */
  function Lands(i: int, d: Delta, n: int, s: set<int>): nat
    requires 0 <= i < n
  {
    if Shift(i, d, n) in s then 1 else 0
  }

  /** Of the three positions i - 1, i and i + 1 (wrapped), how many lie in s. */
  function AxisHits(i: int, n: int, s: set<int>): (h: nat)
    requires 0 <= i < n
    ensures h <= 3
  {
    Lands(i, Back, n, s) + Lands(i, Here, n, s) + Lands(i, Ahead, n, s)
  }

  /** One offset of a rectangle's neighbour count: the product of the two axis indicators. */
  lemma RectNeighbourLive(rows: int, cols: int, liveRows: set<int>, liveCols: set<int>, x: int, y: int, dr: Delta, dc: Delta)
    requires 0 <= x < rows && 0 <= y < cols
    ensures NeighbourLive(Rect(rows, cols, liveRows, liveCols), x, y, dr, dc)
         == Lands(x, dr, rows, liveRows) * Lands(y, dc, cols, liveCols)
  {
  }

  /** The product of two sums of three, multiplied out. */
  lemma ExpandProduct(rb: int, rh: int, ra: int, cb: int, ch: int, ca: int)
    ensures (rb + rh + ra) * (cb + ch + ca)
         == rb * cb + rb * ch + rb * ca + rh * cb + rh * ch + rh * ca + ra * cb + ra * ch + ra * ca
  {
  }

  /**
   * On a rectangle the live neighbours of (x, y) are the row hits times the column hits,
   * less the cell itself when it is live.
   */
  lemma {:induction false} RectNeighbours(rows: int, cols: int, liveRows: set<int>, liveCols: set<int>, x: int, y: int)
    requires 0 <= x < rows && 0 <= y < cols
    ensures LiveNeighbours(Rect(rows, cols, liveRows, liveCols), x, y)
         == AxisHits(x, rows, liveRows) * AxisHits(y, cols, liveCols) - (if x in liveRows && y in liveCols then 1 else 0)
  {
    RectNeighbourLive(rows, cols, liveRows, liveCols, x, y, Back, Back);
    RectNeighbourLive(rows, cols, liveRows, liveCols, x, y, Back, Here);
    RectNeighbourLive(rows, cols, liveRows, liveCols, x, y, Back, Ahead);
    RectNeighbourLive(rows, cols, liveRows, liveCols, x, y, Here, Back);
    RectNeighbourLive(rows, cols, liveRows, liveCols, x, y, Here, Here);
    RectNeighbourLive(rows, cols, liveRows, liveCols, x, y, Here, Ahead);
    RectNeighbourLive(rows, cols, liveRows, liveCols, x, y, Ahead, Back);
    RectNeighbourLive(rows, cols, liveRows, liveCols, x, y, Ahead, Here);
    RectNeighbourLive(rows, cols, liveRows, liveCols, x, y, Ahead, Ahead);
    ExpandProduct(Lands(x, Back, rows, liveRows), Lands(x, Here, rows, liveRows), Lands(x, Ahead, rows, liveRows),
                  Lands(y, Back, cols, liveCols), Lands(y, Here, cols, liveCols), Lands(y, Ahead, cols, liveCols));
  }

  /** A rectangle steps to another rectangle when every cell's rule outcome is membership in the new one. */
  lemma {:induction false} RectSteps(rows: int, cols: int, liveRows: set<int>, liveCols: set<int>, nextRows: set<int>, nextCols: set<int>)
    requires 0 < rows && 0 < cols
    requires forall x, y :: 0 <= x < rows && 0 <= y < cols ==>
               (NextCell(x in liveRows && y in liveCols, LiveNeighbours(Rect(rows, cols, liveRows, liveCols), x, y))
                <==> x in nextRows && y in nextCols)
    ensures Step(Rect(rows, cols, liveRows, liveCols)) == Rect(rows, cols, nextRows, nextCols)
  {
    var b, b' := Rect(rows, cols, liveRows, liveCols), Rect(rows, cols, nextRows, nextCols);
    forall x, y | 0 <= x < rows && 0 <= y < cols
      ensures Step(b).At(x, y) == b'.At(x, y)
    {
      assert Step(b).At(x, y) == NextCell(b.At(x, y), LiveNeighbours(b, x, y));
    }
    BoardsEqual(Step(b), b');
  }

  /** The board after k generations. */
  function Generations(b: Board, k: nat): (b': Board)
    requires b.Valid()
    ensures b'.Valid() && b'.rows == b.rows && b'.cols == b.cols
    decreases k
  {
    if k == 0 then b else Generations(Step(b), k - 1)
  }

  /** A board that the step leaves alone stays the same for ever. */
  lemma {:induction false} StillForever(b: Board, k: nat)
    requires b.Valid() && Step(b) == b
    ensures Generations(b, k) == b
  {
    if k > 0 {
      StillForever(b, k - 1);
    }
  }

  /** Two boards that step to each other alternate for ever. */
  lemma {:induction false} AlternateForever(a: Board, c: Board, k: nat)
    requires a.Valid() && c.Valid() && Step(a) == c && Step(c) == a
    ensures Generations(a, 2 * k) == a && Generations(a, 2 * k + 1) == c
  {
    if k > 0 {
      AlternateForever(a, c, k - 1);
      assert Generations(c, 2 * k - 1) == Generations(a, 2 * k - 2);
    }
  }

  /** An empty board stays empty. */
  lemma EmptyStaysEmpty(rows: int, cols: int)
    requires 0 < rows && 0 < cols
    ensures Step(Dead(rows, cols)) == Dead(rows, cols)
  {
    var b := Dead(rows, cols);
    forall x, y | 0 <= x < rows && 0 <= y < cols
      ensures Step(b).At(x, y) == b.At(x, y)
    {
      assert LiveNeighbours(b, x, y) == 0;
    }
    BoardsEqual(Step(b), b);
  }

  /** On a ring of at least two positions only i itself reaches i without moving: i hits {i} once. */
  lemma SingleAxis(i: int, n: int, p: int)
    requires 0 <= i < n && 2 <= n
    ensures AxisHits(i, n, {p}) <= 2
    ensures i == p ==> AxisHits(i, n, {p}) == 1
  {
    ShiftMoves(i, Back, n);
    ShiftMoves(i, Ahead, n);
  }

  /**
   * A lone live cell dies and nothing is born, on any torus of at least two rows and two
   * columns (on fewer, the cell is its own neighbour through the wrap).
   */
  lemma LoneCellDies(rows: int, cols: int, r: int, c: int)
    requires 2 <= rows && 2 <= cols && 0 <= r < rows && 0 <= c < cols
    ensures Step(Rect(rows, cols, {r}, {c})) == Dead(rows, cols)
  {
    forall x, y | 0 <= x < rows && 0 <= y < cols
      ensures NextCell(x in {r} && y in {c}, LiveNeighbours(Rect(rows, cols, {r}, {c}), x, y)) <==> x in {} && y in {}
    {
      RectNeighbours(rows, cols, {r}, {c}, x, y);
      SingleAxis(x, rows, r);
      SingleAxis(y, cols, c);
    }
    RectSteps(rows, cols, {r}, {c}, {}, {});
    BoardsEqual(Rect(rows, cols, {}, {}), Dead(rows, cols));
  }

  /** Hits of the two-position band {1, 2} on a ring of at least four positions. */
  lemma BandOfTwo(i: int, n: int)
    requires 0 <= i < n && 4 <= n
    ensures AxisHits(i, n, {1, 2}) == if i == 1 || i == 2 then 2 else if i == 0 || i == 3 then 1 else 0
  {
  }

  /** A lone live cell, seeded by one setAlive on a cleared grid, is the rectangle {r} x {c}. */
  lemma LoneCellBySetAlive(rows: int, cols: int, r: int, c: int)
    requires 0 <= r < rows && 0 <= c < cols
    ensures Dead(rows, cols).With(r, c, true) == Rect(rows, cols, {r}, {c})
  {
    BoardsEqual(Dead(rows, cols).With(r, c, true), Rect(rows, cols, {r}, {c}));
  }

  /** The 2x2 block, seeded by four setAlive calls on a cleared grid, is the rectangle {1, 2} x {1, 2}. */
  lemma BlockBySetAlive(rows: int, cols: int)
    requires 4 <= rows && 4 <= cols
    ensures Dead(rows, cols).With(1, 1, true).With(1, 2, true).With(2, 1, true).With(2, 2, true)
         == Rect(rows, cols, {1, 2}, {1, 2})
  {
    BoardsEqual(Dead(rows, cols).With(1, 1, true).With(1, 2, true).With(2, 1, true).With(2, 2, true),
                Rect(rows, cols, {1, 2}, {1, 2}));
  }

  /** The horizontal blinker, seeded by three setAlive calls on a cleared grid, is the rectangle {2} x {1, 2, 3}. */
  lemma BlinkerBySetAlive(rows: int, cols: int)
    requires 5 <= rows && 5 <= cols
    ensures Dead(rows, cols).With(2, 1, true).With(2, 2, true).With(2, 3, true)
         == Rect(rows, cols, {2}, {1, 2, 3})
  {
    BoardsEqual(Dead(rows, cols).With(2, 1, true).With(2, 2, true).With(2, 3, true),
                Rect(rows, cols, {2}, {1, 2, 3}));
  }

  /** The 2x2 block at rows 1-2, columns 1-2 is a still life on any torus of at least 4x4. */
  lemma BlockIsStill(rows: int, cols: int)
    requires 4 <= rows && 4 <= cols
    ensures Step(Rect(rows, cols, {1, 2}, {1, 2})) == Rect(rows, cols, {1, 2}, {1, 2})
  {
    forall x, y | 0 <= x < rows && 0 <= y < cols
      ensures NextCell(x in {1, 2} && y in {1, 2}, LiveNeighbours(Rect(rows, cols, {1, 2}, {1, 2}), x, y)) <==> x in {1, 2} && y in {1, 2}
    {
      RectNeighbours(rows, cols, {1, 2}, {1, 2}, x, y);
      BandOfTwo(x, rows);
      BandOfTwo(y, cols);
    }
    RectSteps(rows, cols, {1, 2}, {1, 2}, {1, 2}, {1, 2});
  }

  /** Hits of the single position {2} on a ring of at least five positions. */
  lemma BandOfOne(i: int, n: int)
    requires 0 <= i < n && 5 <= n
    ensures AxisHits(i, n, {2}) == if 1 <= i <= 3 then 1 else 0
  {
  }

  /** Hits of the three-position band {1, 2, 3} on a ring of at least five positions. */
  lemma BandOfThree(i: int, n: int)
    requires 0 <= i < n && 5 <= n
    ensures AxisHits(i, n, {1, 2, 3}) == if i == 2 then 3 else if i == 1 || i == 3 then 2 else if i == 0 || i == 4 then 1 else 0
  {
  }

  /** The horizontal blinker, three cells in row 2, turns vertical on any torus of at least 5x5. */
  lemma BlinkerTurnsVertical(rows: int, cols: int)
    requires 5 <= rows && 5 <= cols
    ensures Step(Rect(rows, cols, {2}, {1, 2, 3})) == Rect(rows, cols, {1, 2, 3}, {2})
  {
    forall x, y | 0 <= x < rows && 0 <= y < cols
      ensures NextCell(x in {2} && y in {1, 2, 3}, LiveNeighbours(Rect(rows, cols, {2}, {1, 2, 3}), x, y)) <==> x in {1, 2, 3} && y in {2}
    {
      RectNeighbours(rows, cols, {2}, {1, 2, 3}, x, y);
      BandOfOne(x, rows);
      BandOfThree(y, cols);
    }
    RectSteps(rows, cols, {2}, {1, 2, 3}, {1, 2, 3}, {2});
  }

  /** The vertical blinker, three cells in column 2, turns horizontal on any torus of at least 5x5. */
  lemma BlinkerTurnsHorizontal(rows: int, cols: int)
    requires 5 <= rows && 5 <= cols
    ensures Step(Rect(rows, cols, {1, 2, 3}, {2})) == Rect(rows, cols, {2}, {1, 2, 3})
  {
    forall x, y | 0 <= x < rows && 0 <= y < cols
      ensures NextCell(x in {1, 2, 3} && y in {2}, LiveNeighbours(Rect(rows, cols, {1, 2, 3}, {2}), x, y)) <==> x in {2} && y in {1, 2, 3}
    {
      RectNeighbours(rows, cols, {1, 2, 3}, {2}, x, y);
      BandOfThree(x, rows);
      BandOfOne(y, cols);
    }
    RectSteps(rows, cols, {1, 2, 3}, {2}, {2}, {1, 2, 3});
  }

  /** The 2x2 block survives any number of generations. */
  lemma BlockForever(rows: int, cols: int, k: nat)
    requires 4 <= rows && 4 <= cols
    ensures Generations(Rect(rows, cols, {1, 2}, {1, 2}), k) == Rect(rows, cols, {1, 2}, {1, 2})
  {
    BlockIsStill(rows, cols);
    StillForever(Rect(rows, cols, {1, 2}, {1, 2}), k);
  }

  /** The blinker is horizontal after every even number of generations and vertical after every odd one. */
  lemma BlinkerForever(rows: int, cols: int, k: nat)
    requires 5 <= rows && 5 <= cols
    ensures Generations(Rect(rows, cols, {2}, {1, 2, 3}), 2 * k) == Rect(rows, cols, {2}, {1, 2, 3})
    ensures Generations(Rect(rows, cols, {2}, {1, 2, 3}), 2 * k + 1) == Rect(rows, cols, {1, 2, 3}, {2})
  {
    BlinkerTurnsVertical(rows, cols);
    BlinkerTurnsHorizontal(rows, cols);
    AlternateForever(Rect(rows, cols, {2}, {1, 2, 3}), Rect(rows, cols, {1, 2, 3}, {2}), k);
  }
}
