/**
 * The neighbour-count accumulation phase, described as values: how much each accumulator
 * slot holds once the row-major scan over the cells has reached a given cell. A live cell
 * at p adds 1 to slot s once for every offset d with p + d = s (wrapped), so the cell that
 * credits s through d is the one at s - d.
 */
module Accumulation {
  import opened LifeRules

  /** Whether cell (r, c) comes strictly before cell (row, col) in row-major scan order. */
  predicate Before(r: int, c: int, row: int, col: int) {
    r < row || (r == row && c < col)
  }

  /** 1 when the cell that reaches slot (r, c) through offset (dr, dc) is scanned before (row, col) and live. */
  function CreditThrough(b: Board, row: int, col: int, r: int, c: int, dr: Delta, dc: Delta): nat
    requires b.Valid() && b.InRange(r, c)
  {
    var sr, sc := Shift(r, dr.Opposite(), b.rows), Shift(c, dc.Opposite(), b.cols);
    if Before(sr, sc, row, col) && b.At(sr, sc) then 1 else 0
  }

  /**
   * The value of accumulator slot (r, c) once every cell before (row, col) has been scanned:
   * the number of live scanned cells that have (r, c) as a neighbour, one per offset.
   */
  function Credited(b: Board, row: int, col: int, r: int, c: int): (n: nat)
    requires b.Valid() && b.InRange(r, c)
    ensures n <= 8
  {
    CreditThrough(b, row, col, r, c, Back, Back) + CreditThrough(b, row, col, r, c, Back, Here)
    + CreditThrough(b, row, col, r, c, Back, Ahead) + CreditThrough(b, row, col, r, c, Here, Back)
    + CreditThrough(b, row, col, r, c, Here, Ahead) + CreditThrough(b, row, col, r, c, Ahead, Back)
    + CreditThrough(b, row, col, r, c, Ahead, Here) + CreditThrough(b, row, col, r, c, Ahead, Ahead)
  }

  /** 1 when incrementing slot (row, col) touches slot (r, c), else 0. */
  function Hit(row: int, col: int, r: int, c: int): nat {
    if row == r && col == c then 1 else 0
  }

  /** How often the eight increments of a live cell at (row, col) touch slot (r, c). */
  function Hits(rows: int, cols: int, row: int, col: int, r: int, c: int): (n: nat)
    requires 0 <= row < rows && 0 <= col < cols
    ensures n <= 8
  {
    Hit(Shift(row, Back, rows), Shift(col, Back, cols), r, c)
    + Hit(Shift(row, Back, rows), Shift(col, Here, cols), r, c)
    + Hit(Shift(row, Back, rows), Shift(col, Ahead, cols), r, c)
    + Hit(Shift(row, Here, rows), Shift(col, Back, cols), r, c)
    + Hit(Shift(row, Here, rows), Shift(col, Ahead, cols), r, c)
    + Hit(Shift(row, Ahead, rows), Shift(col, Back, cols), r, c)
    + Hit(Shift(row, Ahead, rows), Shift(col, Here, cols), r, c)
    + Hit(Shift(row, Ahead, rows), Shift(col, Ahead, cols), r, c)
  }

  /** The row-major slots `accumulateColumnNeighbors(row, col)` increments, in order: left, right, own column. */
  function ColumnSlots(rows: int, cols: int, row: int, col: int): (s: seq<int>)
    requires 0 <= row < rows && 0 <= col < cols
    ensures |s| == 3
  {
    [Index(rows, cols, row, WrapDec(col, cols)), Index(rows, cols, row, WrapInc(col, cols)), Index(rows, cols, row, col)]
  }

  /** The row-major slots of the left and right neighbours of (row, col) in its own row. */
  function RowSlots(rows: int, cols: int, row: int, col: int): (s: seq<int>)
    requires 0 <= row < rows && 0 <= col < cols
    ensures |s| == 2
  {
    [Index(rows, cols, row, WrapDec(col, cols)), Index(rows, cols, row, WrapInc(col, cols))]
  }

  /**
   * The row-major slots a live cell at (row, col) increments, in the order of the scan:
   * three in row - 1, three in row + 1 (rows wrapped), then left and right in its own row.
   */
  function CellSlots(rows: int, cols: int, row: int, col: int): (s: seq<int>)
    requires 0 <= row < rows && 0 <= col < cols
    ensures |s| == 8
  {
    ColumnSlots(rows, cols, WrapDec(row, rows), col) + ColumnSlots(rows, cols, WrapInc(row, rows), col)
    + RowSlots(rows, cols, row, col)
  }

  /** Slot (x, y) is slot (r, c) exactly when their row-major positions agree. */
  lemma SlotHit(rows: int, cols: int, x: int, y: int, r: int, c: int)
    requires 0 <= x < rows && 0 <= y < cols && 0 <= r < rows && 0 <= c < cols
    ensures multiset([Index(rows, cols, x, y)])[Index(rows, cols, r, c)] == Hit(x, y, r, c)
  {
    IndexInjective(rows, cols, x, y, r, c);
  }

  /** The number of occurrences of x in a list of eight is the sum over its eight entries. */
  lemma {:induction false} CountOfEight(s: seq<int>, x: int)
    requires |s| == 8
    ensures multiset(s)[x] == multiset([s[0]])[x] + multiset([s[1]])[x] + multiset([s[2]])[x] + multiset([s[3]])[x]
                            + multiset([s[4]])[x] + multiset([s[5]])[x] + multiset([s[6]])[x] + multiset([s[7]])[x]
  {
    assert s == [s[0]] + [s[1]] + [s[2]] + [s[3]] + [s[4]] + [s[5]] + [s[6]] + [s[7]];
  }

  /** The eight slots of a live cell, entry by entry. */
  lemma CellSlotsEntries(rows: int, cols: int, row: int, col: int)
    requires 0 <= row < rows && 0 <= col < cols
    ensures var s, rd, ri, cd, ci := CellSlots(rows, cols, row, col), WrapDec(row, rows), WrapInc(row, rows), WrapDec(col, cols), WrapInc(col, cols);
      s[0] == Index(rows, cols, rd, cd) && s[1] == Index(rows, cols, rd, ci) && s[2] == Index(rows, cols, rd, col)
      && s[3] == Index(rows, cols, ri, cd) && s[4] == Index(rows, cols, ri, ci) && s[5] == Index(rows, cols, ri, col)
      && s[6] == Index(rows, cols, row, cd) && s[7] == Index(rows, cols, row, ci)
  {
  }

  /** Slot (r, c) occurs in the increments of a live cell at (row, col) once per offset that reaches it. */
  lemma {:induction false} CellSlotsHits(rows: int, cols: int, row: int, col: int, r: int, c: int)
    requires 0 <= row < rows && 0 <= col < cols && 0 <= r < rows && 0 <= c < cols
    ensures multiset(CellSlots(rows, cols, row, col))[Index(rows, cols, r, c)] == Hits(rows, cols, row, col, r, c)
  {
    var rd, ri, cd, ci := WrapDec(row, rows), WrapInc(row, rows), WrapDec(col, cols), WrapInc(col, cols);
    CountOfEight(CellSlots(rows, cols, row, col), Index(rows, cols, r, c));
    CellSlotsEntries(rows, cols, row, col);
    SlotHit(rows, cols, rd, cd, r, c);
    SlotHit(rows, cols, rd, ci, r, c);
    SlotHit(rows, cols, rd, col, r, c);
    SlotHit(rows, cols, ri, cd, r, c);
    SlotHit(rows, cols, ri, ci, r, c);
    SlotHit(rows, cols, ri, col, r, c);
    SlotHit(rows, cols, row, cd, r, c);
    SlotHit(rows, cols, row, ci, r, c);
  }

  /** Before the scan starts nothing has been credited. */
  lemma ScanStart(b: Board, r: int, c: int)
    requires b.Valid() && b.InRange(r, c)
    ensures Credited(b, 0, 0, r, c) == 0
  {
  }

  /** Scanning cell (row, col) credits slot (r, c) through offset (dr, dc) exactly when it is live and reaches it. */
  lemma {:induction false} ScanCellThrough(b: Board, row: int, col: int, r: int, c: int, dr: Delta, dc: Delta)
    requires b.Valid() && b.InRange(row, col) && b.InRange(r, c)
    ensures CreditThrough(b, row, col + 1, r, c, dr, dc)
         == CreditThrough(b, row, col, r, c, dr, dc)
            + if b.At(row, col) then Hit(Shift(row, dr, b.rows), Shift(col, dc, b.cols), r, c) else 0
  {
    ShiftInverse(row, r, dr, b.rows);
    ShiftInverse(col, c, dc, b.cols);
  }

  /**
   * Scanning cell (row, col) adds its eight increments to the slots when it is live and
   * nothing when it is dead.
   */
  lemma {:induction false} ScanCell(b: Board, row: int, col: int, r: int, c: int)
    requires b.Valid() && b.InRange(row, col) && b.InRange(r, c)
    ensures Credited(b, row, col + 1, r, c)
         == Credited(b, row, col, r, c) + if b.At(row, col) then Hits(b.rows, b.cols, row, col, r, c) else 0
  {
    ScanCellThrough(b, row, col, r, c, Back, Back);
    ScanCellThrough(b, row, col, r, c, Back, Here);
    ScanCellThrough(b, row, col, r, c, Back, Ahead);
    ScanCellThrough(b, row, col, r, c, Here, Back);
    ScanCellThrough(b, row, col, r, c, Here, Ahead);
    ScanCellThrough(b, row, col, r, c, Ahead, Back);
    ScanCellThrough(b, row, col, r, c, Ahead, Here);
    ScanCellThrough(b, row, col, r, c, Ahead, Ahead);
  }

  /** Finishing a row is the same scan position as starting the next one. */
  lemma ScanNextRow(b: Board, row: int, r: int, c: int)
    requires b.Valid() && b.InRange(r, c)
    ensures Credited(b, row, b.cols, r, c) == Credited(b, row + 1, 0, r, c)
  {
  }

  /** Once every row has been scanned, each slot holds the live-neighbour count of its cell. */
  lemma ScanComplete(b: Board, r: int, c: int)
    requires b.Valid() && b.InRange(r, c)
    ensures Credited(b, b.rows, 0, r, c) == LiveNeighbours(b, r, c)
  {
  }
}
