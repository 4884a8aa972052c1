/** The computer player, working in place on one shared grid. Every method is tied to the
    board functions of Board, WinCheck, Evaluation and Search through `Snap`. */
module Engine {
  import opened Wrappers
  import opened Board
  import opened WinCheck
  import opened Evaluation
  import opened Search
  import opened Strategy

  predicate IsGrid(grid: array2<Cell>) {
    grid.Length0 == ROWS && grid.Length1 == COLS
  }

  /** The contents of the grid as a value. */
  ghost function Snap(grid: array2<Cell>): (b: Grid)
    requires IsGrid(grid)
    reads grid
    ensures forall r, c :: InBounds(r, c) ==> b[r][c] == grid[r, c]
  {
    seq(ROWS, r requires 0 <= r < ROWS reads grid =>
      seq(COLS, c requires 0 <= c < COLS reads grid => grid[r, c]))
  }

  // ---------- Moves ----------

  method DropRowOf(grid: array2<Cell>, c: int) returns (row: int)
    requires IsGrid(grid) && 0 <= c < COLS
    ensures row == DropRow(Snap(grid), c)
  {
    row := ROWS - 1;
    while row >= 0
      invariant -1 <= row < ROWS
      invariant forall k :: row < k < ROWS ==> Snap(grid)[k][c] != Empty
    {
      assert InBounds(row, c);
      if grid[row, c] == Empty {
        break;
      }
      row := row - 1;
    }
    DropRowUnique(Snap(grid), c, row);
  }

  method Simulate(grid: array2<Cell>, c: int, player: Player) returns (row: int)
    requires IsGrid(grid) && 0 <= c < COLS
    modifies grid
    ensures row == DropRow(old(Snap(grid)), c)
    ensures Snap(grid) == if row >= 0 then Put(old(Snap(grid)), row, c, player) else old(Snap(grid))
  {
    row := ROWS - 1;
    while row >= 0
      invariant -1 <= row < ROWS
      invariant Snap(grid) == old(Snap(grid))
      invariant forall k :: row < k < ROWS ==> Snap(grid)[k][c] != Empty
    {
      assert InBounds(row, c);
      if grid[row, c] == Empty {
        DropRowUnique(Snap(grid), c, row);
        SetCell(grid, row, c, player);
        return;
      }
      row := row - 1;
    }
    DropRowUnique(Snap(grid), c, -1);
  }

  method SetCell(grid: array2<Cell>, r: int, c: int, v: Cell)
    requires IsGrid(grid) && InBounds(r, c)
    modifies grid
    ensures Snap(grid) == Put(old(Snap(grid)), r, c, v)
  {
    ghost var before := Snap(grid);
    grid[r, c] := v;
    GridsEqual(Snap(grid), Put(before, r, c, v));
  }

  method ValidMoves(grid: array2<Cell>) returns (moves: seq<int>)
    requires IsGrid(grid)
    ensures moves == OpenColumns(Snap(grid))
  {
    moves := [];
    for c := 0 to COLS
      invariant moves == OpenAmong(Snap(grid), c)
    {
      assert InBounds(0, c);
      if grid[0, c] == Empty {
        moves := moves + [c];
      }
    }
  }

  // ---------- Win check ----------

  method WalkCount(grid: array2<Cell>, r: int, c: int, dr: int, dc: int, player: Player) returns (count: nat)
    requires IsGrid(grid)
    ensures count == RunLength(Snap(grid), r, c, dr, dc, player)
  {
    ghost var b := Snap(grid);
    count := 0;
    var i := 1;
    while i < WIN_IN_A_ROW
      invariant 1 <= i <= WIN_IN_A_ROW && count == i - 1
      invariant i > 1 ==> Is(b, r + dr, c + dc, player)
      invariant i > 2 ==> Is(b, r + 2 * dr, c + 2 * dc, player)
      invariant i > 3 ==> Is(b, r + 3 * dr, c + 3 * dc, player)
    {
      assert i == 1 || i == 2 || i == 3;
      var nr, nc := r + dr * i, c + dc * i;
      assert InBounds(nr, nc) ==> b[nr][nc] == grid[nr, nc];
      if nr < 0 || nr >= ROWS || nc < 0 || nc >= COLS || grid[nr, nc] != player {
        break;
      }
      count := count + 1;
      i := i + 1;
    }
  }

  method WalkCells(grid: array2<Cell>, r: int, c: int, dr: int, dc: int, player: Player)
      returns (cells: seq<(int, int)>)
    requires IsGrid(grid)
    ensures cells == CellsAlong(r, c, dr, dc, RunLength(Snap(grid), r, c, dr, dc, player))
  {
    hide Snap;
    ghost var b := Snap(grid);
    cells := [];
    var i := 1;
    while i < WIN_IN_A_ROW
      invariant 1 <= i <= WIN_IN_A_ROW && cells == CellsAlong(r, c, dr, dc, i - 1)
      invariant i > 1 ==> Is(b, r + dr, c + dc, player)
      invariant i > 2 ==> Is(b, r + 2 * dr, c + 2 * dc, player)
      invariant i > 3 ==> Is(b, r + 3 * dr, c + 3 * dc, player)
    {
      assert i == 1 || i == 2 || i == 3;
      var nr, nc := r + dr * i, c + dc * i;
      assert InBounds(nr, nc) ==> b[nr][nc] == grid[nr, nc];
      if nr < 0 || nr >= ROWS || nc < 0 || nc >= COLS || grid[nr, nc] != player {
        break;
      }
      cells := cells + [(nr, nc)];
      i := i + 1;
    }
    hide CellsAlong;
  }

  /** The win check after a real move: the winning line, for highlighting. */
  method CheckWin(grid: array2<Cell>, r: int, c: int, player: Player) returns (line: Option<seq<(int, int)>>)
    requires IsGrid(grid)
    ensures line == Win(Snap(grid), r, c, player)
  {
    hide RunLength, CellsAlong;
    ghost var b := Snap(grid);
    for k := 0 to 4
      invariant Win(b, r, c, player) == WinFrom(b, r, c, player, k)
    {
      var (dr, dc) := DIRECTIONS[k];
      var forward := WalkCells(grid, r, c, dr, dc, player);
      var backward := WalkCells(grid, r, c, -dr, -dc, player);
      var cells := [(r, c)] + forward + backward;
      if |cells| >= WIN_IN_A_ROW {
        return Some(cells);
      }
    }
    line := None;
  }

  /** The win check inside the search. */
  method CheckWinOn(grid: array2<Cell>, r: int, c: int, player: Player) returns (wins: bool)
    requires IsGrid(grid)
    ensures wins == LineThrough(Snap(grid), r, c, player)
  {
    hide RunLength;
    ghost var b := Snap(grid);
    for k := 0 to 4
      invariant forall j :: 0 <= j < k ==> !LineInDirection(b, r, c, DIRECTIONS[j].0, DIRECTIONS[j].1, player)
    {
      var (dr, dc) := DIRECTIONS[k];
      var forward := WalkCount(grid, r, c, dr, dc, player);
      var backward := WalkCount(grid, r, c, -dr, -dc, player);
      if 1 + forward + backward >= WIN_IN_A_ROW {
        return true;
      }
    }
    wins := false;
  }

  // ---------- Evaluation ----------

  /** The windows starting at (r, c): the innermost of the three collecting loops. */
  method CollectFrom(r: int, c: int) returns (windows: seq<Line>)
    requires InBounds(r, c)
    ensures windows == CellWindows(r, c, 4)
  {
    windows := [];
    for k := 0 to 4
      invariant windows == CellWindows(r, c, k)
    {
      var (dr, dc) := DIRECTIONS[k];
      var er, ec := r + dr * 3, c + dc * 3;
      if !(er < 0 || er >= ROWS || ec < 0 || ec >= COLS) {
        windows := windows + [Window(r, c, dr, dc)];
      }
    }
  }

  method CollectRow(r: int) returns (windows: seq<Line>)
    requires 0 <= r < ROWS
    ensures windows == RowWindows(r, COLS)
  {
    hide CellWindows;
    windows := [];
    for c := 0 to COLS
      invariant windows == RowWindows(r, c)
    {
      var found := CollectFrom(r, c);
      windows := windows + found;
    }
  }

  method CollectWindows() returns (windows: seq<Line>)
    ensures windows == Windows()
  {
    hide RowWindows;
    windows := [];
    for r := 0 to ROWS
      invariant windows == WindowsAbove(r)
    {
      var found := CollectRow(r);
      windows := windows + found;
    }
  }

  method EvaluateGrid(grid: array2<Cell>) returns (score: int)
    requires IsGrid(grid)
    ensures score == Evaluate(Snap(grid))
  {
    hide Windows, Evaluate, WindowScore;
    ghost var b := Snap(grid);
    var windows := CollectWindows();
    score := 0;
    for i := 0 to |windows|
      invariant score == SumOver(Points(b), windows[..i])
    {
      score := ScoreWindow(grid, windows[i], score);
      assert windows[..i + 1][..i] == windows[..i];
    }
    assert windows[..|windows|] == windows;
    SumsOverWindows(b, AI);
  }

  /** One round of the scoring loop: the pattern first, then the four centre bonuses. */
  method ScoreWindow(grid: array2<Cell>, w: Line, before: int) returns (score: int)
    requires IsGrid(grid)
    ensures score == before + WindowScore(Snap(grid), w)
  {
    assert InBounds(w.r, w.c) && InBounds(w.r + w.dr, w.c + w.dc);
    assert InBounds(w.r + w.dr * 2, w.c + w.dc * 2) && InBounds(w.r + w.dr * 3, w.c + w.dc * 3);
    var vals := [grid[w.r, w.c], grid[w.r + w.dr, w.c + w.dc],
                 grid[w.r + w.dr * 2, w.c + w.dc * 2], grid[w.r + w.dr * 3, w.c + w.dc * 3]];
    var cols := [w.c, w.c + w.dc, w.c + w.dc * 2, w.c + w.dc * 3];
    assert vals == Values(Snap(grid), w);
    var aiCount, huCount, emptyCount := Tally(vals, AI), Tally(vals, HUMAN), Tally(vals, Empty);
    score := before;
    if aiCount == 4 {
      score := score + 100000;
    } else if huCount == 4 {
      score := score - 100000;
    } else if aiCount == 3 && emptyCount == 1 {
      score := score + 100;
    } else if huCount == 3 && emptyCount == 1 {
      score := score - 100;
    } else if aiCount == 2 && emptyCount == 2 {
      score := score + 10;
    } else if huCount == 2 && emptyCount == 2 {
      score := score - 10;
    }
    assert score == before + PatternOf(vals);
    hide Tally, PatternOf;
    score := AddCentre(vals, cols, score);
  }

  /** The four centre bonuses of one window. */
  method AddCentre(vals: seq<Cell>, cols: seq<int>, before: int) returns (score: int)
    requires |vals| == 4 && |cols| == 4
    ensures score == before + CentreBonus(vals[0], cols[0]) + CentreBonus(vals[1], cols[1]) +
                     CentreBonus(vals[2], cols[2]) + CentreBonus(vals[3], cols[3])
  {
    score := before;
    for i := 0 to 4
      invariant score == before + (if i > 0 then CentreBonus(vals[0], cols[0]) else 0) +
                         (if i > 1 then CentreBonus(vals[1], cols[1]) else 0) +
                         (if i > 2 then CentreBonus(vals[2], cols[2]) else 0) +
                         (if i > 3 then CentreBonus(vals[3], cols[3]) else 0)
    {
      if vals[i] == AI {
        score := score + if cols[i] == CENTER then 6 else 0;
      }
      if vals[i] == HUMAN {
        score := score - if cols[i] == CENTER then 6 else 0;
      }
    }
  }

  // ---------- Search ----------

  /** Depth-limited alpha-beta on the shared grid. The result is the fail-soft value of
      `Search.AlphaBeta`, stands to the plain minimax value as `FailSoft` says, is finite
      whatever the window, and the grid is left as it was found. */
  method Minimax(grid: array2<Cell>, depth: nat, alpha0: Num, beta0: Num, maximizing: bool) returns (value: Num)
    requires IsGrid(grid)
    modifies grid
    ensures Snap(grid) == old(Snap(grid))
    ensures value == SearchValue(old(Snap(grid)), depth, alpha0, beta0, maximizing)
    ensures Lt(alpha0, beta0) ==> FailSoft(alpha0, beta0, value, Plain(Evaluate, old(Snap(grid)), depth, maximizing))
    ensures Bounded(WINDOW_COUNT * WINDOW_LIMIT, value)
    decreases depth, 0
  {
    hide Evaluate, SortByCentre, Drop, Plain, FailSoft, Bounded;
    CentreFirstIsValid();
    ghost var b := Snap(grid);
    SearchRefinesPlain(b, depth, alpha0, beta0, maximizing);
    var score := EvaluateGrid(grid);
    if score >= 100000 || score <= -100000 {
      return Fin(score);
    }
    if depth == 0 {
      return Fin(score);
    }
    assert !Terminal(Evaluate, b);
    var moves := ValidMoves(grid);
    if |moves| == 0 {
      return Fin(0);
    }
    var ordered := SortByCentre(moves);
    assert ListsMoves(b, CentreFirst(b));
    assert ordered == CentreFirst(b);
    if maximizing {
      value := MaximizeOver(grid, ordered, depth - 1, alpha0, beta0);
    } else {
      value := MinimizeOver(grid, ordered, depth - 1, alpha0, beta0);
    }
  }

  /** The maximizing loop of the search over the ordered moves. */
  method MaximizeOver(grid: array2<Cell>, ordered: seq<int>, depth: nat, alpha0: Num, beta: Num) returns (best: Num)
    requires IsGrid(grid) && Playable(Snap(grid), ordered) && ValidOrder(CentreFirst)
    modifies grid
    ensures Snap(grid) == old(Snap(grid))
    ensures best == Try(Evaluate, CentreFirst, old(Snap(grid)), ordered, depth, alpha0, beta, NegInf, true)
    decreases depth, 1
  {
    hide AlphaBeta, Plain, FailSoft, Bounded;
    ghost var b := Snap(grid);
    best := NegInf;
    var alpha := alpha0;
    for i := 0 to |ordered|
      invariant Snap(grid) == b
      invariant Try(Evaluate, CentreFirst, b, ordered, depth, alpha0, beta, NegInf, true) ==
                Try(Evaluate, CentreFirst, b, ordered[i..], depth, alpha, beta, best, true)
    {
      var c := ordered[i];
      assert ordered[i..][1..] == ordered[i + 1..];
      var r := Simulate(grid, c, AI);
      var value := Minimax(grid, depth, alpha, beta, false);
      SetCell(grid, r, c, Empty);
      PutBack(b, r, c, AI);
      best := Max(best, value);
      alpha := Max(alpha, value);
      if Le(beta, alpha) {
        break;
      }
    }
  }

  /** The minimizing loop of the search over the ordered moves. */
  method MinimizeOver(grid: array2<Cell>, ordered: seq<int>, depth: nat, alpha: Num, beta0: Num) returns (best: Num)
    requires IsGrid(grid) && Playable(Snap(grid), ordered) && ValidOrder(CentreFirst)
    modifies grid
    ensures Snap(grid) == old(Snap(grid))
    ensures best == Try(Evaluate, CentreFirst, old(Snap(grid)), ordered, depth, alpha, beta0, PosInf, false)
    decreases depth, 1
  {
    hide AlphaBeta, Plain, FailSoft, Bounded;
    ghost var b := Snap(grid);
    best := PosInf;
    var beta := beta0;
    for i := 0 to |ordered|
      invariant Snap(grid) == b
      invariant Try(Evaluate, CentreFirst, b, ordered, depth, alpha, beta0, PosInf, false) ==
                Try(Evaluate, CentreFirst, b, ordered[i..], depth, alpha, beta, best, false)
    {
      var c := ordered[i];
      assert ordered[i..][1..] == ordered[i + 1..];
      var r := Simulate(grid, c, HUMAN);
      var value := Minimax(grid, depth, alpha, beta, true);
      SetCell(grid, r, c, Empty);
      PutBack(b, r, c, HUMAN);
      best := Min(best, value);
      beta := Min(beta, value);
      if Le(beta, alpha) {
        break;
      }
    }
  }

  /** The computer's choice of column; the grid is left as it was found on every path. */
  method ChooseColumn(grid: array2<Cell>) returns (choice: int)
    requires IsGrid(grid)
    modifies grid
    ensures Snap(grid) == old(Snap(grid))
    ensures choice == BestMove(old(Snap(grid)))
  {
    hide Evaluate, SortByCentre, LineThrough, FirstWin, Plain, FailSoft, Bounded, SearchValue;
    ghost var b := Snap(grid);
    CentreFirstIsValid();
    assert ListsMoves(b, CentreFirst(b));
    var moves := ValidMoves(grid);
    if |moves| == 0 {
      return -1;
    }
    if |moves| == COLS {
      return 3;
    }
    choice := FindWin(grid, moves, AI);
    if choice != -1 {
      return;
    }
    choice := FindWin(grid, moves, HUMAN);
    if choice != -1 {
      return;
    }
    var best := NegInf;
    choice := moves[0];
    var ordered := SortByCentre(moves);
    for i := 0 to |ordered|
      invariant Snap(grid) == b
      invariant BestMove(b) == Scan(b, ordered[i..], best, choice)
    {
      var c := ordered[i];
      assert ordered[i..][1..] == ordered[i + 1..];
      var r := Simulate(grid, c, AI);
      var v := Minimax(grid, REPLY_DEPTH, NegInf, PosInf, false);
      SearchRefinesPlain(Snap(grid), REPLY_DEPTH, NegInf, PosInf, false);
      SetCell(grid, r, c, Empty);
      PutBack(b, r, c, AI);
      if Lt(best, v) {
        best := v;
        choice := c;
      }
    }
  }

  /** One of the two scans for a line in one move: for the AI's win, and for the human's. */
  method FindWin(grid: array2<Cell>, moves: seq<int>, player: Player) returns (found: int)
    requires IsGrid(grid) && Playable(Snap(grid), moves)
    modifies grid
    ensures Snap(grid) == old(Snap(grid))
    ensures found == FirstWin(old(Snap(grid)), moves, player)
  {
    hide LineThrough;
    ghost var b := Snap(grid);
    for i := 0 to |moves|
      invariant Snap(grid) == b
      invariant FirstWin(b, moves, player) == FirstWin(b, moves[i..], player)
    {
      var c := moves[i];
      assert moves[i..][1..] == moves[i + 1..];
      var r := Simulate(grid, c, player);
      if r >= 0 {
        var wins := CheckWinOn(grid, r, c, player);
        if wins {
          SetCell(grid, r, c, Empty);
          PutBack(b, r, c, player);
          return c;
        }
      }
      SetCell(grid, r, c, Empty);
      PutBack(b, r, c, player);
    }
    found := -1;
  }
}
