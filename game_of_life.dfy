/**
 * The GameOfLife<ROWS, COLS> grid: a fixed-size toroidal Life board held in two flat
 * row-major arrays, the cell states and a per-cell neighbour-count accumulator of bytes.
 * The template parameters become constructor arguments kept in constant fields.
 */
module GameOfLifeGrid {
  import opened LifeRules
  import opened Accumulation

  /** An unsigned 8-bit value, the element type of the accumulator. */
  newtype byte = x: int | 0 <= x < 256

  /** `x++` on an unsigned 8-bit value: 255 wraps round to 0. */
  function Succ(x: byte): (y: byte)
    ensures y as int == (x as int + 1) % 256
  {
    if x == 255 then 0 else x + 1
  }

  /** The accumulator `a` after `++` on each slot listed in `slots`, one after the other (a slot outside it changes nothing). */
  function IncrementAll(a: seq<byte>, slots: seq<int>): (a': seq<byte>)
    ensures |a'| == |a|
    decreases |slots|
  {
    if slots == [] then a
    else
      var i := slots[0];
      IncrementAll(if 0 <= i < |a| then a[i := Succ(a[i])] else a, slots[1..])
  }

  /** A slot listed k times gains k, as long as that does not pass 255. */
  lemma {:induction false} IncrementAllCounts(a: seq<byte>, slots: seq<int>, j: int)
    requires 0 <= j < |a| && a[j] as int + multiset(slots)[j] < 256
    ensures IncrementAll(a, slots)[j] as int == a[j] as int + multiset(slots)[j]
    decreases |slots|
  {
    if slots != [] {
      var i := slots[0];
      assert slots == [i] + slots[1..];
      IncrementAllCounts(if 0 <= i < |a| then a[i := Succ(a[i])] else a, slots[1..], j);
    }
  }

  /** Two wrapping additions in a row are one wrapping addition of the sum. */
  lemma WrapAdd(x: int, h1: int, h2: int)
    ensures ((x + h1) % 256 + h2) % 256 == (x + h1 + h2) % 256
  {
  }

  /** In general slot j gains its number of occurrences in `slots`, modulo 256. */
  lemma {:induction false} IncrementAllWraps(a: seq<byte>, slots: seq<int>, j: int)
    requires 0 <= j < |a|
    ensures IncrementAll(a, slots)[j] as int == (a[j] as int + multiset(slots)[j]) % 256
    decreases |slots|
  {
    if slots != [] {
      var i := slots[0];
      var a1 := if 0 <= i < |a| then a[i := Succ(a[i])] else a;
      IncrementAllWraps(a1, slots[1..], j);
      assert slots == [i] + slots[1..];
      WrapAdd(a[j] as int, if i == j then 1 else 0, multiset(slots[1..])[j]);
    }
  }

  /** Incrementing the slots of s and then those of t is incrementing the slots of s + t. */
  lemma {:induction false} IncrementAllAppend(a: seq<byte>, s: seq<int>, t: seq<int>)
    ensures IncrementAll(IncrementAll(a, s), t) == IncrementAll(a, s + t)
    decreases |s|
  {
    if s != [] {
      var i := s[0];
      var a1 := if 0 <= i < |a| then a[i := Succ(a[i])] else a;
      assert (s + t)[0] == i && (s + t)[1..] == s[1..] + t;
      IncrementAllAppend(a1, s[1..], t);
    } else {
      assert s + t == t;
    }
  }

  /**
   * The eight increments of a live cell at (row, col) move slot (r, c) from the credits of
   * the cells before it to the credits of the cells up to and including it; no increment
   * wraps, because neither count exceeds 8.
   */
  lemma {:induction false} ScanLiveCell(b: Board, acc: seq<byte>, row: int, col: int, r: int, c: int)
    requires b.Valid() && b.InRange(row, col) && b.InRange(r, c) && b.At(row, col)
    requires Index(b.rows, b.cols, r, c) < |acc|
    requires acc[Index(b.rows, b.cols, r, c)] as int == Credited(b, row, col, r, c)
    ensures IncrementAll(acc, CellSlots(b.rows, b.cols, row, col))[Index(b.rows, b.cols, r, c)] as int
            == Credited(b, row, col + 1, r, c)
  {
    CellSlotsHits(b.rows, b.cols, row, col, r, c);
    IncrementAllCounts(acc, CellSlots(b.rows, b.cols, row, col), Index(b.rows, b.cols, r, c));
    ScanCell(b, row, col, r, c);
  }

  /** Every slot of `acc` holds the credits of the cells of b scanned before (row, col). */
  ghost predicate Scanned(b: Board, acc: seq<byte>, row: int, col: int)
    requires b.Valid() && |acc| == |b.cells|
  {
    forall r, c {:trigger Credited(b, row, col, r, c)} :: 0 <= r < b.rows && 0 <= c < b.cols ==>
      acc[Index(b.rows, b.cols, r, c)] as int == Credited(b, row, col, r, c)
  }

  /** A zeroed accumulator is where the scan starts. */
  lemma ScanStartsZeroed(b: Board, acc: seq<byte>)
    requires b.Valid() && |acc| == |b.cells| && forall j :: 0 <= j < |acc| ==> acc[j] == 0
    ensures Scanned(b, acc, 0, 0)
  {
    forall r, c | 0 <= r < b.rows && 0 <= c < b.cols ensures acc[Index(b.rows, b.cols, r, c)] as int == Credited(b, 0, 0, r, c) {
      ScanStart(b, r, c);
    }
  }

  /** Skipping a dead cell moves the scan on without touching the accumulator. */
  lemma ScanSkipsDead(b: Board, acc: seq<byte>, row: int, col: int)
    requires b.Valid() && |acc| == |b.cells| && b.InRange(row, col) && !b.At(row, col)
    requires Scanned(b, acc, row, col)
    ensures Scanned(b, acc, row, col + 1)
  {
    forall r, c | 0 <= r < b.rows && 0 <= c < b.cols ensures acc[Index(b.rows, b.cols, r, c)] as int == Credited(b, row, col + 1, r, c) {
      ScanCell(b, row, col, r, c);
    }
  }

  /** Incrementing the eight neighbour slots of a live cell moves the scan on past it. */
  lemma ScanCountsLive(b: Board, acc: seq<byte>, row: int, col: int)
    requires b.Valid() && |acc| == |b.cells| && b.InRange(row, col) && b.At(row, col)
    requires Scanned(b, acc, row, col)
    ensures Scanned(b, IncrementAll(acc, CellSlots(b.rows, b.cols, row, col)), row, col + 1)
  {
    forall r, c | 0 <= r < b.rows && 0 <= c < b.cols
      ensures IncrementAll(acc, CellSlots(b.rows, b.cols, row, col))[Index(b.rows, b.cols, r, c)] as int == Credited(b, row, col + 1, r, c)
    {
      ScanLiveCell(b, acc, row, col, r, c);
    }
  }

  /** Past the end of a row is the start of the next. */
  lemma ScanWrapsRow(b: Board, acc: seq<byte>, row: int)
    requires b.Valid() && |acc| == |b.cells| && Scanned(b, acc, row, b.cols)
    ensures Scanned(b, acc, row + 1, 0)
  {
    forall r, c | 0 <= r < b.rows && 0 <= c < b.cols ensures acc[Index(b.rows, b.cols, r, c)] as int == Credited(b, row + 1, 0, r, c) {
      ScanNextRow(b, row, r, c);
    }
  }

  /** After the last row every slot holds the live-neighbour count of its cell. */
  lemma ScanEndsCounted(b: Board, acc: seq<byte>)
    requires b.Valid() && |acc| == |b.cells| && Scanned(b, acc, b.rows, 0)
    ensures forall r, c :: 0 <= r < b.rows && 0 <= c < b.cols ==>
              acc[Index(b.rows, b.cols, r, c)] as int == LiveNeighbours(b, r, c)
  {
    forall r, c | 0 <= r < b.rows && 0 <= c < b.cols ensures acc[Index(b.rows, b.cols, r, c)] as int == LiveNeighbours(b, r, c) {
      ScanComplete(b, r, c);
    }
  }

  class GameOfLife {
    const rows: int
    const cols: int
    const cells: array<bool>
    const accumulator: array<byte>

    ghost predicate Valid() {
      0 < rows && 0 < cols && cells.Length == RowStart(rows, cols) && accumulator.Length == RowStart(rows, cols)
    }

    /** The current generation as a value. */
    function Current(): (b: Board)
      reads cells
      requires Valid()
      ensures b.Valid() && b.rows == rows && b.cols == cols
    {
      Board(rows, cols, cells[..])
    }

    /** A new grid of the given dimensions, with every cell dead. */
    constructor (rows: int, cols: int)
      requires 0 < rows && 0 < cols
      ensures Valid() && this.rows == rows && this.cols == cols
      ensures fresh(cells) && fresh(accumulator)
      ensures Current() == Dead(rows, cols)
    {
      this.rows, this.cols := rows, cols;
      RowStartIsProduct(rows, cols);
      cells := new bool[rows * cols];
      accumulator := new byte[rows * cols];
      new;
      Clear();
    }

    function Rows(): (n: int)
      requires Valid()
      ensures n == rows
      ensures 0 < n && cells.Length == n * cols
    {
      RowStartIsProduct(rows, cols);
      rows
    }

    function Cols(): (n: int)
      requires Valid()
      ensures n == cols
      ensures 0 < n && cells.Length == rows * n
    {
      RowStartIsProduct(rows, cols);
      cols
    }

    /** Sets every cell dead, whatever the grid held before (so clearing twice is clearing once). */
    method Clear()
      requires Valid()
      modifies cells
      ensures Current() == Dead(rows, cols)
    {
      for i := 0 to cells.Length
        invariant forall j :: 0 <= j < i ==> !cells[j]
      {
        cells[i] := false;
      }
      BoardsEqual(Current(), Dead(rows, cols));
    }

    /**
     * Sets each cell live when the value the random source drew for it, draws[i] (a value of
     * random(100) in the source), is below 30.
     */
    method Randomize(draws: seq<int>)
      requires Valid() && |draws| == cells.Length
      modifies cells
      ensures forall i :: 0 <= i < cells.Length ==> cells[i] == (draws[i] < 30)
    {
      for i := 0 to cells.Length
        invariant forall j :: 0 <= j < i ==> cells[j] == (draws[j] < 30)
      {
        cells[i] := draws[i] < 30;
      }
    }

    function IsAlive(row: int, col: int): (alive: bool)
      reads cells
      requires Valid() && 0 <= row < rows && 0 <= col < cols
      ensures alive == Current().At(row, col)
    {
      cells[Index(rows, cols, row, col)]
    }

    /** Forces cell (row, col) to `alive`; every other cell keeps its state. */
    method SetAlive(row: int, col: int, alive: bool)
      requires Valid() && 0 <= row < rows && 0 <= col < cols
      modifies cells
      ensures Current() == old(Current()).With(row, col, alive)
      ensures IsAlive(row, col) == alive
      ensures forall r, c :: 0 <= r < rows && 0 <= c < cols && (r != row || c != col) ==>
                IsAlive(r, c) == old(IsAlive(r, c))
    {
      cells[Index(rows, cols, row, col)] := alive;
      assert cells[..] == old(cells[..])[Index(rows, cols, row, col) := alive];
    }

    /** Advances the grid by one generation: the new generation is the Life successor of the old one. */
    method Update()
      requires Valid()
      modifies cells, accumulator
      ensures Current() == Step(old(Current()))
    {
      ghost var b := Current();
      AccumulateNeighbours();
      UpdateCells();
      forall r, c | 0 <= r < rows && 0 <= c < cols
        ensures Current().At(r, c) == NextCell(b.At(r, c), LiveNeighbours(b, r, c))
      {
      }
      StepIsCellwise(b, Current());
    }

    /** `_accumulator[row * COLS + col]++`: increments one slot, wrapping as a byte does. */
    method Increment(row: int, col: int)
      requires Valid() && 0 <= row < rows && 0 <= col < cols
      modifies accumulator
      ensures accumulator[..] == IncrementAll(old(accumulator[..]), [Index(rows, cols, row, col)])
    {
      var i := Index(rows, cols, row, col);
      accumulator[i] := Succ(accumulator[i]);
      assert IncrementAll(old(accumulator[..]), [i]) == IncrementAll(accumulator[..], []);
    }

    /** Increments the slots of (row, col - 1), (row, col + 1) and (row, col), columns wrapped. */
    method AccumulateColumnNeighbours(row: int, col: int)
      requires Valid() && 0 <= row < rows && 0 <= col < cols
      modifies accumulator
      ensures accumulator[..] == IncrementAll(old(accumulator[..]), ColumnSlots(rows, cols, row, col))
    {
      ghost var a0 := accumulator[..];
      if col - 1 >= 0 {
        Increment(row, col - 1);
      } else {
        Increment(row, cols - 1);
      }
      ghost var a1 := accumulator[..];
      if col + 1 < cols {
        Increment(row, col + 1);
      } else {
        Increment(row, 0);
      }
      ghost var a2 := accumulator[..];
      Increment(row, col);
      ghost var left, right, here := Index(rows, cols, row, WrapDec(col, cols)), Index(rows, cols, row, WrapInc(col, cols)), Index(rows, cols, row, col);
      assert a1 == IncrementAll(a0, [left]);
      assert a2 == IncrementAll(a1, [right]);
      assert accumulator[..] == IncrementAll(a2, [here]);
      IncrementAllAppend(a0, [left], [right]);
      assert [left] + [right] == [left, right];
      IncrementAllAppend(a0, [left, right], [here]);
      assert [left, right] + [here] == ColumnSlots(rows, cols, row, col);
    }

    /**
     * The scan loop's body for a live cell at (row, col): the three slots of row - 1
     * and of row + 1, rows wrapped (through AccumulateColumnNeighbours), then its left and right
     * neighbours in its own row (AccumulateRowNeighbours), all wrapped.
     */
    method AccumulateCellNeighbours(row: int, col: int)
      requires Valid() && 0 <= row < rows && 0 <= col < cols
      modifies accumulator
      ensures accumulator[..] == IncrementAll(old(accumulator[..]), CellSlots(rows, cols, row, col))
    {
      ghost var prevRow, nextRow := ColumnSlots(rows, cols, WrapDec(row, rows), col), ColumnSlots(rows, cols, WrapInc(row, rows), col);
      ghost var a0 := accumulator[..];
      if row - 1 >= 0 {
        AccumulateColumnNeighbours(row - 1, col);
        assert accumulator[..] == IncrementAll(a0, prevRow);
      } else {
        AccumulateColumnNeighbours(rows - 1, col);
        assert accumulator[..] == IncrementAll(a0, prevRow);
      }
      ghost var a1 := accumulator[..];
      if row + 1 < rows {
        AccumulateColumnNeighbours(row + 1, col);
        assert accumulator[..] == IncrementAll(a1, nextRow);
      } else {
        AccumulateColumnNeighbours(0, col);
        assert accumulator[..] == IncrementAll(a1, nextRow);
      }
      ghost var a2 := accumulator[..];
      AccumulateRowNeighbours(row, col);
      IncrementAllAppend(a0, prevRow, nextRow);
      IncrementAllAppend(a0, prevRow + nextRow, RowSlots(rows, cols, row, col));
    }

    /** Increments the slots of the left and right neighbours of (row, col) in its own row, columns wrapped. */
    method AccumulateRowNeighbours(row: int, col: int)
      requires Valid() && 0 <= row < rows && 0 <= col < cols
      modifies accumulator
      ensures accumulator[..] == IncrementAll(old(accumulator[..]), RowSlots(rows, cols, row, col))
    {
      ghost var left, right := Index(rows, cols, row, WrapDec(col, cols)), Index(rows, cols, row, WrapInc(col, cols));
      ghost var a0 := accumulator[..];
      if col - 1 >= 0 {
        Increment(row, col - 1);
      } else {
        Increment(row, cols - 1);
      }
      assert accumulator[..] == IncrementAll(a0, [left]);
      ghost var a1 := accumulator[..];
      if col + 1 < cols {
        Increment(row, col + 1);
      } else {
        Increment(row, 0);
      }
      assert accumulator[..] == IncrementAll(a1, [right]);
      IncrementAllAppend(a0, [left], [right]);
    }

    /**
     * Recomputes the accumulator: every slot ends up holding the number of live cells among
     * the eight wrapped neighbours of its cell (so at most 8, and the byte never wraps).
     */
    method AccumulateNeighbours()
      requires Valid()
      modifies accumulator
      ensures forall r, c :: 0 <= r < rows && 0 <= c < cols ==>
                accumulator[Index(rows, cols, r, c)] as int == LiveNeighbours(Current(), r, c)
    {
      ghost var b := Current();
      ZeroAccumulator();
      ScanStartsZeroed(b, accumulator[..]);

      for row := 0 to rows
        invariant Scanned(b, accumulator[..], row, 0)
      {
        for col := 0 to cols
          invariant Scanned(b, accumulator[..], row, col)
        {
          if !cells[Index(rows, cols, row, col)] {
            ScanSkipsDead(b, accumulator[..], row, col);
            continue;
          }
          ScanCountsLive(b, accumulator[..], row, col);
          AccumulateCellNeighbours(row, col);
        }
        ScanWrapsRow(b, accumulator[..], row);
      }
      ScanEndsCounted(b, accumulator[..]);
    }

    /** `memset(_accumulator, 0, ROWS * COLS)`: every slot becomes 0. */
    method ZeroAccumulator()
      requires Valid()
      modifies accumulator
      ensures forall j :: 0 <= j < accumulator.Length ==> accumulator[j] == 0
    {
      for i := 0 to accumulator.Length
        invariant forall j :: 0 <= j < i ==> accumulator[j] == 0
      {
        accumulator[i] := 0;
      }
    }

    /** Rewrites every cell in place from its own old state and its own accumulator slot, by rule B3/S23. */
    method UpdateCells()
      requires Valid()
      modifies cells
      ensures forall i :: 0 <= i < cells.Length ==> cells[i] == NextCell(old(cells[i]), accumulator[i] as int)
    {
      for row := 0 to rows
        invariant RowStart(row, cols) <= cells.Length
        invariant forall i :: 0 <= i < RowStart(row, cols) ==> cells[i] == NextCell(old(cells[i]), accumulator[i] as int)
        invariant forall i :: RowStart(row, cols) <= i < cells.Length ==> cells[i] == old(cells[i])
      {
        RowStartMonotone(row, rows, cols);
        for col := 0 to cols
          invariant forall i :: 0 <= i < RowStart(row, cols) + col ==> cells[i] == NextCell(old(cells[i]), accumulator[i] as int)
          invariant forall i :: RowStart(row, cols) + col <= i < cells.Length ==> cells[i] == old(cells[i])
        {
          var index := Index(rows, cols, row, col);
          if cells[index] {
            cells[index] := accumulator[index] == 2 || accumulator[index] == 3;
          } else {
            cells[index] := accumulator[index] == 3;
          }
        }
      }
    }
  }
}
