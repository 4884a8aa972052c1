/** The Connect Four board as a value, and what it means to hold four in a row.
    Row 0 is the top row, as in the program's `grid[row][col]`. */
module Board {
  const ROWS := 6
  const COLS := 7
  const WIN_IN_A_ROW := 4

  datatype Cell = Empty | Red | Yellow

  type Player = p: Cell | p != Empty witness Red

  const HUMAN: Player := Red
  const AI: Player := Yellow

  function Other(p: Player): Player {
    if p == HUMAN then AI else HUMAN
  }

  type Grid = g: seq<seq<Cell>> | |g| == ROWS && forall r :: 0 <= r < ROWS ==> |g[r]| == COLS
    witness seq(ROWS, _ => seq(COLS, _ => Empty))

  function Blank(): Grid {
    seq(ROWS, _ => seq(COLS, _ => Empty))
  }

  predicate InBounds(r: int, c: int) {
    0 <= r < ROWS && 0 <= c < COLS
  }

  function Put(b: Grid, r: int, c: int, v: Cell): (g: Grid)
    requires InBounds(r, c)
  {
    b[r := b[r][c := v]]
  }

  lemma GridsEqual(a: Grid, b: Grid)
    requires forall r, c :: InBounds(r, c) ==> a[r][c] == b[r][c]
    ensures a == b
  {
    forall r | 0 <= r < ROWS
      ensures a[r] == b[r]
    {
      assert forall c :: 0 <= c < COLS ==> InBounds(r, c);
    }
  }

  lemma PutBack(b: Grid, r: int, c: int, v: Cell)
    requires InBounds(r, c)
    ensures Put(Put(b, r, c, v), r, c, b[r][c]) == b
  {
    GridsEqual(Put(Put(b, r, c, v), r, c, b[r][c]), b);
  }

  // ---------- Columns: where a disc lands ----------

  predicate Open(b: Grid, c: int)
    requires 0 <= c < COLS
  {
    b[0][c] == Empty
  }

  /** The lowest empty cell of column `c` among its top `n` cells, or -1. */
  function DropWithin(b: Grid, c: int, n: nat): (row: int)
    requires 0 <= c < COLS && n <= ROWS
    ensures -1 <= row < n
    ensures row >= 0 ==> b[row][c] == Empty
    ensures forall k :: row < k < n ==> b[k][c] != Empty
  {
    if n == 0 then -1 else if b[n - 1][c] == Empty then n - 1 else DropWithin(b, c, n - 1)
  }

  function DropRow(b: Grid, c: int): (row: int)
    requires 0 <= c < COLS
    ensures -1 <= row < ROWS
    ensures row >= 0 ==> b[row][c] == Empty
    ensures forall k :: row < k < ROWS ==> b[k][c] != Empty
    ensures Open(b, c) ==> row >= 0
  {
    DropWithin(b, c, ROWS)
  }

  lemma DropRowUnique(b: Grid, c: int, row: int)
    requires 0 <= c < COLS && -1 <= row < ROWS
    requires row >= 0 ==> b[row][c] == Empty
    requires forall k :: row < k < ROWS ==> b[k][c] != Empty
    ensures DropRow(b, c) == row
  {
  }

  function Drop(b: Grid, c: int, p: Player): Grid
    requires 0 <= c < COLS && Open(b, c)
  {
    Put(b, DropRow(b, c), c, p)
  }

  // ---------- Lines of four ----------

  predicate Is(b: Grid, r: int, c: int, p: Cell) {
    InBounds(r, c) && b[r][c] == p
  }

  /** Four cells in a straight line, from (r, c) in steps of (dr, dc). */
  datatype Window = Window(r: int, c: int, dr: int, dc: int)

  const DIRECTIONS: seq<(int, int)> := [(0, 1), (1, 0), (1, 1), (1, -1)]

  predicate IsDirection(dr: int, dc: int) {
    (dr == 0 && dc == 1) || (dr == 1 && (dc == 0 || dc == 1 || dc == -1))
  }

  predicate OnBoard(w: Window) {
    && IsDirection(w.dr, w.dc)
    && InBounds(w.r, w.c)
    && InBounds(w.r + 3 * w.dr, w.c + 3 * w.dc)
  }

  predicate Four(b: Grid, w: Window, p: Cell) {
    && IsDirection(w.dr, w.dc)
    && Is(b, w.r, w.c, p)
    && Is(b, w.r + w.dr, w.c + w.dc, p)
    && Is(b, w.r + 2 * w.dr, w.c + 2 * w.dc, p)
    && Is(b, w.r + 3 * w.dr, w.c + 3 * w.dc, p)
  }

  ghost predicate HasFour(b: Grid, p: Cell) {
    exists w: Window :: Four(b, w, p)
  }

  // ---------- Gravity, heights and counts ----------

  /** Every column is a gap-free stack standing on the bottom row. */
  ghost predicate Stacked(b: Grid) {
    forall c, r, k :: 0 <= c < COLS && 0 <= r < k < ROWS && b[r][c] != Empty ==> b[k][c] != Empty
  }

  lemma DropKeepsStacked(b: Grid, c: int, p: Player)
    requires Stacked(b) && 0 <= c < COLS && Open(b, c)
    ensures Stacked(Drop(b, c, p))
  {
  }

  function HeightWithin(b: Grid, c: int, n: nat): (h: nat)
    requires 0 <= c < COLS && n <= ROWS
    ensures h <= n
  {
    if n == 0 then 0 else HeightWithin(b, c, n - 1) + if b[n - 1][c] != Empty then 1 else 0
  }

  /** How many discs column `c` holds. */
  function Height(b: Grid, c: int): (h: nat)
    requires 0 <= c < COLS
    ensures h <= ROWS
  {
    HeightWithin(b, c, ROWS)
  }

  lemma {:induction false} HeightOfStack(b: Grid, c: int, row: int, n: nat)
    requires 0 <= c < COLS && -1 <= row < ROWS && n <= ROWS
    requires forall k :: 0 <= k < ROWS ==> (b[k][c] != Empty <==> k > row)
    ensures HeightWithin(b, c, n) == if n > row + 1 then n - 1 - row else 0
  {
    if n > 0 {
      HeightOfStack(b, c, row, n - 1);
    }
  }

  /** On a stacked board, the scan for a landing row, the test on the top cell and the stack height agree. */
  lemma StackHeights(b: Grid, c: int)
    requires Stacked(b) && 0 <= c < COLS
    ensures DropRow(b, c) == ROWS - 1 - Height(b, c)
    ensures Open(b, c) <==> Height(b, c) < ROWS
    ensures forall r :: 0 <= r < ROWS ==> (b[r][c] != Empty <==> r >= ROWS - Height(b, c))
  {
    var row := DropRow(b, c);
    HeightOfStack(b, c, row, ROWS);
  }

  function CountRow(row: seq<Cell>, v: Cell): nat {
    if row == [] then 0 else (if row[0] == v then 1 else 0) + CountRow(row[1..], v)
  }

  function CountRows(rows: seq<seq<Cell>>, v: Cell): nat {
    if rows == [] then 0 else CountRow(rows[0], v) + CountRows(rows[1..], v)
  }

  function Count(b: Grid, v: Cell): nat {
    CountRows(b, v)
  }

  lemma {:induction false} CountRowUpdate(row: seq<Cell>, i: nat, x: Cell, v: Cell)
    requires i < |row|
    ensures CountRow(row[i := x], v) ==
            CountRow(row, v) - (if row[i] == v then 1 else 0) + (if x == v then 1 else 0)
  {
    if i == 0 {
      assert row[i := x][1..] == row[1..];
    } else {
      assert row[i := x][1..] == row[1..][i - 1 := x];
      CountRowUpdate(row[1..], i - 1, x, v);
    }
  }

  lemma {:induction false} CountRowsUpdate(rows: seq<seq<Cell>>, i: nat, row: seq<Cell>, v: Cell)
    requires i < |rows|
    ensures CountRows(rows[i := row], v) == CountRows(rows, v) - CountRow(rows[i], v) + CountRow(row, v)
  {
    if i == 0 {
      assert rows[i := row][1..] == rows[1..];
    } else {
      assert rows[i := row][1..] == rows[1..][i - 1 := row];
      CountRowsUpdate(rows[1..], i - 1, row, v);
    }
  }

  lemma CountPut(b: Grid, r: int, c: int, x: Cell, v: Cell)
    requires InBounds(r, c)
    ensures Count(Put(b, r, c, x), v) ==
            Count(b, v) - (if b[r][c] == v then 1 else 0) + (if x == v then 1 else 0)
  {
    CountRowUpdate(b[r], c, x, v);
    CountRowsUpdate(b, r, b[r][c := x], v);
  }

  lemma {:induction false} CountRowTotal(row: seq<Cell>)
    ensures CountRow(row, Empty) + CountRow(row, Red) + CountRow(row, Yellow) == |row|
    ensures CountRow(row, Empty) == 0 <==> Empty !in row
  {
    if row != [] {
      CountRowTotal(row[1..]);
      assert row == [row[0]] + row[1..];
    }
  }

  lemma {:induction false} CountRowsTotal(rows: seq<seq<Cell>>)
    requires forall r :: 0 <= r < |rows| ==> |rows[r]| == COLS
    ensures CountRows(rows, Empty) + CountRows(rows, Red) + CountRows(rows, Yellow) == COLS * |rows|
    ensures CountRows(rows, Empty) == 0 <==> forall r :: 0 <= r < |rows| ==> Empty !in rows[r]
  {
    if rows != [] {
      CountRowTotal(rows[0]);
      CountRowsTotal(rows[1..]);
      assert rows == [rows[0]] + rows[1..];
    }
  }

  /** The program's draw test: the whole top row is taken. */
  predicate TopRowFull(b: Grid) {
    forall c :: 0 <= c < COLS ==> b[0][c] != Empty
  }

  /** The three counts add up to the number of cells, and on a stacked board
      a full top row means a full board. */
  lemma CountTotal(b: Grid)
    ensures Count(b, Empty) + Count(b, Red) + Count(b, Yellow) == ROWS * COLS
    ensures Stacked(b) ==> (TopRowFull(b) <==> Count(b, Empty) == 0)
  {
    CountRowsTotal(b);
    if Stacked(b) && TopRowFull(b) {
      forall r | 0 <= r < ROWS
        ensures Empty !in b[r]
      {
        forall c | 0 <= c < COLS
          ensures b[r][c] != Empty
        {
          assert b[0][c] != Empty;
        }
      }
    }
    if Count(b, Empty) == 0 {
      assert Empty !in b[0];
      forall c | 0 <= c < COLS
        ensures b[0][c] != Empty
      {
        assert b[0][c] in b[0];
      }
    }
  }

  lemma BlankFacts(p: Player)
    ensures Stacked(Blank()) && !HasFour(Blank(), p) && Open(Blank(), 0)
    ensures Count(Blank(), Empty) == ROWS * COLS && Count(Blank(), p) == 0
  {
    var b := Blank();
    CountTotal(b);
    forall v: Cell | v != Empty
      ensures Count(b, v) == 0
    {
      NoneInRows(b, v);
    }
    assert Count(b, Red) == 0 && Count(b, Yellow) == 0;
    assert forall w: Window :: !Four(b, w, p);
  }

  lemma {:induction false} NoneInRow(row: seq<Cell>, v: Cell)
    requires v !in row
    ensures CountRow(row, v) == 0
  {
    if row != [] {
      NoneInRow(row[1..], v);
    }
  }

  lemma {:induction false} NoneInRows(rows: seq<seq<Cell>>, v: Cell)
    requires forall r :: 0 <= r < |rows| ==> v !in rows[r]
    ensures CountRows(rows, v) == 0
  {
    if rows != [] {
      NoneInRow(rows[0], v);
      NoneInRows(rows[1..], v);
    }
  }

  // ---------- The two symmetries ----------

  function Mirror(b: Grid): (m: Grid)
    ensures forall r, c :: InBounds(r, c) ==> m[r][c] == b[r][COLS - 1 - c]
  {
    seq(ROWS, r requires 0 <= r < ROWS => seq(COLS, c requires 0 <= c < COLS => b[r][COLS - 1 - c]))
  }

  function SwapCell(v: Cell): Cell {
    match v
    case Empty => Empty
    case Red => Yellow
    case Yellow => Red
  }

  function Swap(b: Grid): (s: Grid)
    ensures forall r, c :: InBounds(r, c) ==> s[r][c] == SwapCell(b[r][c])
  {
    seq(ROWS, r requires 0 <= r < ROWS => seq(COLS, c requires 0 <= c < COLS => SwapCell(b[r][c])))
  }

  lemma SwapDrop(b: Grid, c: int, p: Player)
    requires 0 <= c < COLS && Open(b, c)
    ensures Open(Swap(b), c) && Drop(Swap(b), c, Other(p)) == Swap(Drop(b, c, p))
  {
    assert InBounds(0, c);
    var row := DropRow(b, c);
    assert forall k :: 0 <= k < ROWS ==> InBounds(k, c);
    DropRowUnique(Swap(b), c, row);
    GridsEqual(Drop(Swap(b), c, Other(p)), Swap(Drop(b, c, p)));
  }

  lemma MirrorDrop(b: Grid, c: int, p: Player)
    requires 0 <= c < COLS && Open(b, c)
    ensures Open(Mirror(b), COLS - 1 - c) && Drop(Mirror(b), COLS - 1 - c, p) == Mirror(Drop(b, c, p))
  {
    var mc := COLS - 1 - c;
    assert forall k :: 0 <= k < ROWS ==> InBounds(k, mc);
    DropRowUnique(Mirror(b), mc, DropRow(b, c));
    GridsEqual(Drop(Mirror(b), mc, p), Mirror(Drop(b, c, p)));
  }
}
