/**
 * Pure specification of one generation of Conway's Game of Life (rule B3/S23)
 * on a toroidal grid stored row-major: row r, column c lives at index r * cols + c,
 * and the row before row 0 is the last row, the column left of column 0 the last column.
 */
module LifeRules {

  /** The row (or column) one step back on a ring of n positions: i - 1, or n - 1 from 0. */
  function WrapDec(i: int, n: int): (r: int)
    requires 0 <= i < n
    ensures 0 <= r < n
  {
    if i - 1 >= 0 then i - 1 else n - 1
  }

  /** The row (or column) one step forward on a ring of n positions: i + 1, or 0 from n - 1. */
  function WrapInc(i: int, n: int): (r: int)
    requires 0 <= i < n
    ensures 0 <= r < n
  {
    if i + 1 < n then i + 1 else 0
  }

  /** Stepping back wraps modulo n: the result is (i - 1) mod n. */
  lemma WrapDecIsModular(i: int, n: int)
    requires 0 <= i < n
    ensures WrapDec(i, n) == (i - 1) % n
  {
  }

  /** Stepping forward wraps modulo n: the result is (i + 1) mod n. */
  lemma WrapIncIsModular(i: int, n: int)
    requires 0 <= i < n
    ensures WrapInc(i, n) == (i + 1) % n
  {
  }

  /** One coordinate of a neighbour offset: -1, 0 or +1. */
  datatype Delta = Back | Here | Ahead {
    function Value(): int {
      match this
      case Back => -1
      case Here => 0
      case Ahead => 1
    }

    function Opposite(): (d: Delta)
      ensures d.Value() == -Value()
    {
      match this
      case Back => Ahead
      case Here => Here
      case Ahead => Back
    }
  }

  /** Moves index i by d on a ring of n positions. */
  function Shift(i: int, d: Delta, n: int): (r: int)
    requires 0 <= i < n
    ensures 0 <= r < n
  {
    match d
    case Back => WrapDec(i, n)
    case Here => i
    case Ahead => WrapInc(i, n)
  }

  /** Every shift is modular: i moved by d is (i + d) mod n. */
  lemma ShiftIsModular(i: int, d: Delta, n: int)
    requires 0 <= i < n
    ensures Shift(i, d, n) == (i + d.Value()) % n
  {
    WrapDecIsModular(i, n);
    WrapIncIsModular(i, n);
  }

  /** The neighbour relation is symmetric: j is i moved by d exactly when i is j moved back by d. */
  lemma ShiftInverse(i: int, j: int, d: Delta, n: int)
    requires 0 <= i < n && 0 <= j < n
    ensures Shift(i, d, n) == j <==> Shift(j, d.Opposite(), n) == i
  {
  }

  /** On a ring of at least two positions a step back or forward never stays in place. */
  lemma ShiftMoves(i: int, d: Delta, n: int)
    requires 0 <= i < n && 2 <= n
    ensures Shift(i, d, n) == i <==> d == Here
  {
  }

  /**
   * The position at which row r starts in a row-major grid whose rows hold `cols` cells:
   * r * cols (RowStartIsProduct), built up one row at a time.
   */
  function RowStart(r: nat, cols: nat): nat {
    if r == 0 then 0 else RowStart(r - 1, cols) + cols
  }

  /** Row r starts at r * cols. */
  lemma {:induction false} RowStartIsProduct(r: nat, cols: nat)
    ensures RowStart(r, cols) == r * cols
  {
    if r > 0 {
      RowStartIsProduct(r - 1, cols);
    }
  }

  /** A later row starts at least one whole row further on. */
  lemma {:induction false} RowStartMonotone(r1: nat, r2: nat, cols: nat)
    requires r1 < r2
    ensures RowStart(r1, cols) + cols <= RowStart(r2, cols)
    decreases r2
  {
    if r1 + 1 < r2 {
      RowStartMonotone(r1, r2 - 1, cols);
    }
  }

  /** The row-major position `r * cols + c` of cell (r, c) in a grid of the given dimensions. */
  function Index(rows: int, cols: int, r: int, c: int): (i: int)
    requires 0 <= r < rows && 0 <= c < cols
    ensures 0 <= i < RowStart(rows, cols)
  {
    RowStartMonotone(r, rows, cols);
    RowStart(r, cols) + c
  }

  /** The position of (r, c) is the C++ expression `row * COLS + col`. */
  lemma IndexIsRowMajor(rows: int, cols: int, r: int, c: int)
    requires 0 <= r < rows && 0 <= c < cols
    ensures Index(rows, cols, r, c) == r * cols + c
  {
    RowStartIsProduct(r, cols);
  }

  /** Distinct in-range cells have distinct row-major positions. */
  lemma {:induction false} IndexInjective(rows: int, cols: int, r1: int, c1: int, r2: int, c2: int)
    requires 0 <= r1 < rows && 0 <= c1 < cols
    requires 0 <= r2 < rows && 0 <= c2 < cols
    ensures Index(rows, cols, r1, c1) == Index(rows, cols, r2, c2) <==> r1 == r2 && c1 == c2
  {
    if r1 < r2 {
      RowStartMonotone(r1, r2, cols);
    } else if r2 < r1 {
      RowStartMonotone(r2, r1, cols);
    }
  }

  /** Multiplying by a positive factor preserves strict order, so it can be cancelled. */
  lemma CancelFactor(x: int, y: int, k: int)
    requires 0 < k && x * k < y * k
    ensures x < y
  {
  }

  /** Every position of a rows-by-cols grid is the row-major position of exactly one in-range cell. */
  lemma {:induction false} IndexCoordinates(rows: int, cols: int, i: int)
    requires 0 < rows && 0 < cols && 0 <= i < RowStart(rows, cols)
    ensures 0 <= i / cols < rows && 0 <= i % cols < cols
    ensures Index(rows, cols, i / cols, i % cols) == i
  {
    var q, m := i / cols, i % cols;
    assert q * cols + m == i && 0 <= m < cols;
    RowStartIsProduct(rows, cols);
    CancelFactor(-1, q, cols);
    CancelFactor(q, rows, cols);
    RowStartIsProduct(q, cols);
  }

  /** A generation: the grid dimensions and the row-major cell states (true is live). */
  datatype Board = Board(rows: int, cols: int, cells: seq<bool>) {
    predicate Valid() {
      0 < rows && 0 < cols && |cells| == RowStart(rows, cols)
    }

    predicate InRange(r: int, c: int) {
      0 <= r < rows && 0 <= c < cols
    }

    function At(r: int, c: int): bool
      requires Valid() && InRange(r, c)
    {
      cells[Index(rows, cols, r, c)]
    }

    /** This board with cell (r, c) forced to `alive`. */
    function With(r: int, c: int, alive: bool): (b: Board)
      requires Valid() && InRange(r, c)
      ensures b.Valid() && b.rows == rows && b.cols == cols
      ensures b.At(r, c) == alive
      ensures forall x, y :: 0 <= x < rows && 0 <= y < cols && (x != r || y != c) ==> b.At(x, y) == At(x, y)
    {
      var b := Board(rows, cols, cells[Index(rows, cols, r, c) := alive]);
      assert forall x, y :: 0 <= x < rows && 0 <= y < cols && (x != r || y != c) ==> b.At(x, y) == At(x, y) by {
        forall x, y | 0 <= x < rows && 0 <= y < cols && (x != r || y != c) ensures b.At(x, y) == At(x, y) {
          IndexInjective(rows, cols, x, y, r, c);
        }
      }
      b
    }
  }

  /** Two boards of the same dimensions that agree on every cell are the same board. */
  lemma {:induction false} BoardsEqual(a: Board, b: Board)
    requires a.Valid() && b.Valid() && a.rows == b.rows && a.cols == b.cols
    requires forall r, c :: 0 <= r < a.rows && 0 <= c < a.cols ==> a.At(r, c) == b.At(r, c)
    ensures a == b
  {
    forall i | 0 <= i < |a.cells| ensures a.cells[i] == b.cells[i] {
      IndexCoordinates(a.rows, a.cols, i);
      assert a.At(i / a.cols, i % a.cols) == b.At(i / a.cols, i % a.cols);
    }
  }

  /** The board of the given dimensions on which every cell is dead. */
  function Dead(rows: int, cols: int): (b: Board)
    requires 0 < rows && 0 < cols
    ensures b.Valid() && b.rows == rows && b.cols == cols
    ensures forall r, c :: 0 <= r < rows && 0 <= c < cols ==> !b.At(r, c)
  {
    Board(rows, cols, seq(RowStart(rows, cols), _ => false))
  }

  /** 1 when the neighbour of (r, c) at offset (dr, dc), wrapped onto the torus, is live, else 0. */
  function NeighbourLive(b: Board, r: int, c: int, dr: Delta, dc: Delta): nat
    requires b.Valid() && b.InRange(r, c)
  {
    if b.At(Shift(r, dr, b.rows), Shift(c, dc, b.cols)) then 1 else 0
  }

  /**
   * The number of live cells among the eight wrapped neighbours of (r, c). On a grid with
   * fewer than three rows or columns the same cell can be several of the eight; it is
   * counted once per offset that reaches it.
   */
  function LiveNeighbours(b: Board, r: int, c: int): (n: nat)
    requires b.Valid() && b.InRange(r, c)
    ensures n <= 8
  {
    NeighbourLive(b, r, c, Back, Back) + NeighbourLive(b, r, c, Back, Here) + NeighbourLive(b, r, c, Back, Ahead)
    + NeighbourLive(b, r, c, Here, Back) + NeighbourLive(b, r, c, Here, Ahead)
    + NeighbourLive(b, r, c, Ahead, Back) + NeighbourLive(b, r, c, Ahead, Here) + NeighbourLive(b, r, c, Ahead, Ahead)
  }

  /** Neighbour counts at which a dead cell is born, and at which a live cell survives (B3/S23). */
  const Birth: set<int> := {3}
  const Survival: set<int> := {2, 3}

  /** The state of a cell in the next generation, from its state and its live-neighbour count. */
  function NextCell(alive: bool, count: int): (next: bool)
    ensures count == 3 ==> next
    ensures count == 2 ==> (next <==> alive)
    ensures next ==> count == 2 || count == 3
  {
    count in (if alive then Survival else Birth)
  }

  /** The next state of the cell at row-major position i of b. */
  function NextAt(b: Board, i: int): bool
    requires b.Valid() && 0 <= i < |b.cells|
  {
    IndexCoordinates(b.rows, b.cols, i);
    NextCell(b.cells[i], LiveNeighbours(b, i / b.cols, i % b.cols))
  }

  /** The next states of the first n cells of b, in row-major order. */
  function NextCells(b: Board, n: nat): (cells: seq<bool>)
    requires b.Valid() && n <= |b.cells|
    ensures |cells| == n
    ensures forall i {:trigger NextAt(b, i)} :: 0 <= i < n ==> cells[i] == NextAt(b, i)
  {
    if n == 0 then [] else NextCells(b, n - 1) + [NextAt(b, n - 1)]
  }

  /** The next generation of the whole board: every cell follows NextCell simultaneously. */
  function Step(b: Board): (b': Board)
    requires b.Valid()
    ensures b'.Valid() && b'.rows == b.rows && b'.cols == b.cols
    ensures forall r, c {:trigger LiveNeighbours(b, r, c)} :: 0 <= r < b.rows && 0 <= c < b.cols ==>
              b'.At(r, c) == NextCell(b.At(r, c), LiveNeighbours(b, r, c))
  {
    var b' := Board(b.rows, b.cols, NextCells(b, |b.cells|));
    assert forall r, c :: 0 <= r < b.rows && 0 <= c < b.cols ==>
              b'.At(r, c) == NextCell(b.At(r, c), LiveNeighbours(b, r, c)) by {
      forall r, c | 0 <= r < b.rows && 0 <= c < b.cols
        ensures b'.At(r, c) == NextCell(b.At(r, c), LiveNeighbours(b, r, c))
      {
        var i := Index(b.rows, b.cols, r, c);
        IndexCoordinates(b.rows, b.cols, i);
        IndexInjective(b.rows, b.cols, r, c, i / b.cols, i % b.cols);
        assert b'.cells[i] == NextAt(b, i);
      }
    }
    b'
  }

  /** Step is the only board of the same dimensions on which every cell follows NextCell. */
  lemma StepIsCellwise(b: Board, b': Board)
    requires b.Valid() && b'.Valid() && b'.rows == b.rows && b'.cols == b.cols
    requires forall r, c {:trigger b'.At(r, c)} :: 0 <= r < b.rows && 0 <= c < b.cols ==>
               b'.At(r, c) == NextCell(b.At(r, c), LiveNeighbours(b, r, c))
    ensures b' == Step(b)
  {
    forall r, c | 0 <= r < b.rows && 0 <= c < b.cols
      ensures b'.At(r, c) == Step(b).At(r, c)
    {
      assert b'.At(r, c) == NextCell(b.At(r, c), LiveNeighbours(b, r, c));
    }
    BoardsEqual(b', Step(b));
  }
}
