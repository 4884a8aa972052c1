/** The static evaluation: the sum, over every line of four cells on the board,
    of a pattern score and a bonus for the centre column. */
module Evaluation {
  import opened Board

  const CENTER := 3
  const WIN_SCORE := 100000
  const WINDOW_COUNT := 69
  // the largest pattern-plus-centre score of a window that is not four alike
  const QUIET_LIMIT := 118
  // the largest score of any window: four alike in the centre column
  const WINDOW_LIMIT := 100024

  /** A window that lies wholly on the board. */
  type Line = w: Window | OnBoard(w) witness Window(0, 0, 0, 1)

  function One(v: Cell, of: Cell): nat {
    if v == of then 1 else 0
  }

  function Tally(vals: seq<Cell>, v: Cell): nat
    requires |vals| == 4
  {
    One(vals[0], v) + One(vals[1], v) + One(vals[2], v) + One(vals[3], v)
  }

  /** The value of a line holding `ai` yellow, `hu` red and `empty` free cells. */
  function Pattern(ai: nat, hu: nat, empty: nat): int {
    if ai == 4 then WIN_SCORE
    else if hu == 4 then -WIN_SCORE
    else if ai == 3 && empty == 1 then 100
    else if hu == 3 && empty == 1 then -100
    else if ai == 2 && empty == 2 then 10
    else if hu == 2 && empty == 2 then -10
    else 0
  }

  function CentreBonus(v: Cell, c: int): int {
    if c != CENTER then 0 else if v == AI then 6 else if v == HUMAN then -6 else 0
  }

  function Values(b: Grid, w: Line): seq<Cell>
  {
    [b[w.r][w.c], b[w.r + w.dr][w.c + w.dc],
     b[w.r + 2 * w.dr][w.c + 2 * w.dc], b[w.r + 3 * w.dr][w.c + 3 * w.dc]]
  }

  function CentreSum(vals: seq<Cell>, c: int, dc: int): int
    requires |vals| == 4
  {
    CentreBonus(vals[0], c) + CentreBonus(vals[1], c + dc) +
    CentreBonus(vals[2], c + 2 * dc) + CentreBonus(vals[3], c + 3 * dc)
  }

  function PatternOf(vals: seq<Cell>): int
    requires |vals| == 4
  {
    Pattern(Tally(vals, AI), Tally(vals, HUMAN), Tally(vals, Empty))
  }

  function WindowScore(b: Grid, w: Line): int
  {
    var vals := Values(b, w);
    PatternOf(vals) + CentreSum(vals, w.c, w.dc)
  }

  // ---------- The list of windows, in the order the program builds it ----------

  function WindowAt(r: int, c: int, k: nat): seq<Line>
    requires k < 4
  {
    var w := Window(r, c, DIRECTIONS[k].0, DIRECTIONS[k].1);
    if OnBoard(w) then [w] else []
  }

  function CellWindows(r: int, c: int, k: nat): seq<Line>
    requires k <= 4
  {
    if k == 0 then [] else CellWindows(r, c, k - 1) + WindowAt(r, c, k - 1)
  }

  function RowWindows(r: int, c: nat): seq<Line> {
    if c == 0 then [] else RowWindows(r, c - 1) + CellWindows(r, c - 1, 4)
  }

  function WindowsAbove(r: nat): seq<Line> {
    if r == 0 then [] else WindowsAbove(r - 1) + RowWindows(r - 1, COLS)
  }

  function Windows(): seq<Line> {
    WindowsAbove(ROWS)
  }

  // ---------- Sums over all windows ----------

  /** The points of a window without the +-100000 for four alike. */
  function QuietScore(b: Grid, w: Line): int
  {
    var vals := Values(b, w);
    (if Tally(vals, AI) == 4 || Tally(vals, HUMAN) == 4 then 0 else PatternOf(vals)) + CentreSum(vals, w.c, w.dc)
  }

  /** What is summed over the windows: their points, how many are four of `p`, or the points without those of
      the fours. */
  datatype Measure = Points(b: Grid) | FourCount(b: Grid, p: Player) | Quiet(b: Grid)

  function Of(m: Measure, w: Line): int {
    match m
    case Points(b) => WindowScore(b, w)
    case FourCount(b, p) => if Four(b, w, p) then 1 else 0
    case Quiet(b) => QuietScore(b, w)
  }

  function SumOver(m: Measure, ws: seq<Line>): int {
    if ws == [] then 0 else SumOver(m, ws[..|ws| - 1]) + Of(m, ws[|ws| - 1])
  }

  /** The measure of one window, or 0 when the line leaves the board. */
  function Term(m: Measure, r: int, c: int, k: nat): int
    requires k < 4
  {
    var w := Window(r, c, DIRECTIONS[k].0, DIRECTIONS[k].1);
    if OnBoard(w) then Of(m, w) else 0
  }

  function CellSum(m: Measure, r: int, c: int): int {
    Term(m, r, c, 0) + Term(m, r, c, 1) + Term(m, r, c, 2) + Term(m, r, c, 3)
  }

  function RowSum(m: Measure, r: int, c: nat): int {
    if c == 0 then 0 else RowSum(m, r, c - 1) + CellSum(m, r, c - 1)
  }

  function SumAbove(m: Measure, r: nat): int {
    if r == 0 then 0 else SumAbove(m, r - 1) + RowSum(m, r - 1, COLS)
  }

  /** The evaluation of the whole board, from the AI's side. */
  function Evaluate(b: Grid): int {
    SumAbove(Points(b), ROWS)
  }

  /** How many lines of four `p` holds. */
  function Fours(b: Grid, p: Player): int {
    SumAbove(FourCount(b, p), ROWS)
  }

  lemma SumStep(m: Measure, ws: seq<Line>, w: Line)
    ensures SumOver(m, ws + [w]) == SumOver(m, ws) + Of(m, w)
  {
    assert (ws + [w])[..|ws|] == ws;
  }

  lemma {:induction false} SumConcat(m: Measure, xs: seq<Line>, ys: seq<Line>)
    ensures SumOver(m, xs + ys) == SumOver(m, xs) + SumOver(m, ys)
  {
    hide SumOver, Of;
    if ys == [] {
      SumOverNothing(m);
      assert xs + ys == xs;
    } else {
      var front, last := ys[..|ys| - 1], ys[|ys| - 1];
      SumConcat(m, xs, front);
      SumStep(m, front, last);
      SumStep(m, xs + front, last);
      assert ys == front + [last];
      assert xs + ys == xs + front + [last];
    }
  }

  lemma SumOverNothing(m: Measure)
    ensures SumOver(m, []) == 0
  {
  }

  lemma TermIsSum(m: Measure, r: int, c: int, k: nat)
    requires k < 4
    ensures SumOver(m, WindowAt(r, c, k)) == Term(m, r, c, k)
  {
  }

  lemma CellSumIsSum(m: Measure, r: int, c: int)
    ensures SumOver(m, CellWindows(r, c, 4)) == CellSum(m, r, c)
  {
    var sum := 0;
    for k := 0 to 4
      invariant sum == SumOver(m, CellWindows(r, c, k))
      invariant sum == (if k > 0 then Term(m, r, c, 0) else 0) + (if k > 1 then Term(m, r, c, 1) else 0) +
                       (if k > 2 then Term(m, r, c, 2) else 0) + (if k > 3 then Term(m, r, c, 3) else 0)
    {
      TermIsSum(m, r, c, k);
      SumConcat(m, CellWindows(r, c, k), WindowAt(r, c, k));
      sum := sum + Term(m, r, c, k);
    }
  }

  lemma {:induction false} RowSumIsSum(m: Measure, r: int, c: nat)
    ensures SumOver(m, RowWindows(r, c)) == RowSum(m, r, c)
  {
    hide CellWindows, CellSum, SumOver;
    SumOverNothing(m);
    if c > 0 {
      RowSumIsSum(m, r, c - 1);
      CellSumIsSum(m, r, c - 1);
      SumConcat(m, RowWindows(r, c - 1), CellWindows(r, c - 1, 4));
    }
  }

  /** Adding up cell by cell is adding up over the list of windows. */
  lemma {:induction false} SumAboveIsSum(m: Measure, r: nat)
    ensures SumOver(m, WindowsAbove(r)) == SumAbove(m, r)
  {
    hide RowWindows, RowSum, SumOver;
    SumOverNothing(m);
    if r > 0 {
      SumAboveIsSum(m, r - 1);
      RowSumIsSum(m, r - 1, COLS);
      SumConcat(m, WindowsAbove(r - 1), RowWindows(r - 1, COLS));
    }
  }

  // ---------- The list holds every window, sixty-nine in all ----------

  lemma {:induction false} CellWindowsComplete(r: int, c: int, k: nat, w: Window)
    requires k <= 4
    ensures w in CellWindows(r, c, k) <==>
            w.r == r && w.c == c && OnBoard(w) &&
            exists i :: 0 <= i < k && DIRECTIONS[i] == (w.dr, w.dc)
  {
    if k > 0 {
      CellWindowsComplete(r, c, k - 1, w);
    }
  }

  lemma {:induction false} RowWindowsComplete(r: int, c: nat, w: Window)
    ensures w in RowWindows(r, c) <==> w.r == r && 0 <= w.c < c && OnBoard(w)
  {
    if c > 0 {
      RowWindowsComplete(r, c - 1, w);
      CellWindowsComplete(r, c - 1, 4, w);
      assert IsDirection(w.dr, w.dc) ==>
          DIRECTIONS[0] == (w.dr, w.dc) || DIRECTIONS[1] == (w.dr, w.dc) ||
          DIRECTIONS[2] == (w.dr, w.dc) || DIRECTIONS[3] == (w.dr, w.dc);
    }
  }

  lemma {:induction false} WindowsComplete(r: nat, w: Window)
    ensures w in WindowsAbove(r) <==> 0 <= w.r < r && OnBoard(w)
  {
    hide RowWindows;
    if r > 0 {
      WindowsComplete(r - 1, w);
      RowWindowsComplete(r - 1, COLS, w);
    }
  }

  lemma CellWindowCount(r: int, c: int)
    requires InBounds(r, c)
    ensures |CellWindows(r, c, 4)| ==
            (if c <= 3 then 1 else 0) + (if r > 2 then 0 else if c == 3 then 3 else 2)
  {
    assert |CellWindows(r, c, 1)| == if c <= 3 then 1 else 0;
    assert |CellWindows(r, c, 2)| == |CellWindows(r, c, 1)| + if r <= 2 then 1 else 0;
    assert |CellWindows(r, c, 3)| == |CellWindows(r, c, 2)| + if r <= 2 && c <= 3 then 1 else 0;
  }

  lemma RowWindowCount(r: int)
    requires 0 <= r < ROWS
    ensures |RowWindows(r, COLS)| == if r <= 2 then 19 else 4
  {
    hide CellWindows;
    for c := 0 to COLS
      invariant |RowWindows(r, c)| == (if c <= 4 then c else 4) +
                                      (if r > 2 then 0 else if c <= 3 then 2 * c else 2 * c + 1)
    {
      CellWindowCount(r, c);
    }
  }

  lemma WindowCount()
    ensures |Windows()| == WINDOW_COUNT
  {
    for r := 0 to ROWS
      invariant |WindowsAbove(r)| == if r <= 3 then 19 * r else 57 + 4 * (r - 3)
    {
      RowWindowCount(r);
    }
  }

  lemma EveryWindowListed(w: Line)
    ensures w in Windows()
  {
    WindowsComplete(ROWS, w);
  }

  // ---------- Bounds, and when the score proves a win ----------

  /** The terms of the score that are not for a four: open threes, open twos and the centre column. */
  function Heuristic(b: Grid): int {
    SumAbove(Quiet(b), ROWS)
  }

  lemma WindowScoreBound(b: Grid, w: Line)
    ensures Four(b, w, AI) ==> WIN_SCORE <= WindowScore(b, w) <= WINDOW_LIMIT
    ensures Four(b, w, HUMAN) ==> -WINDOW_LIMIT <= WindowScore(b, w) <= -WIN_SCORE
    ensures !Four(b, w, AI) && !Four(b, w, HUMAN) ==> -QUIET_LIMIT <= WindowScore(b, w) <= QUIET_LIMIT
    ensures -QUIET_LIMIT <= QuietScore(b, w) <= QUIET_LIMIT
    ensures WindowScore(b, w) - QuietScore(b, w) ==
            if Four(b, w, AI) then WIN_SCORE else if Four(b, w, HUMAN) then -WIN_SCORE else 0
  {
    var vals := Values(b, w);
    TallyBound(vals, w.c, w.dc);
    assert Four(b, w, AI) <==> vals == [AI, AI, AI, AI];
    assert Four(b, w, HUMAN) <==> vals == [HUMAN, HUMAN, HUMAN, HUMAN];
  }

  lemma TallyBound(vals: seq<Cell>, c: int, dc: int)
    requires |vals| == 4
    ensures vals == [AI, AI, AI, AI] ==> PatternOf(vals) == WIN_SCORE && 0 <= CentreSum(vals, c, dc) <= 24
    ensures vals == [HUMAN, HUMAN, HUMAN, HUMAN] ==> PatternOf(vals) == -WIN_SCORE && -24 <= CentreSum(vals, c, dc) <= 0
    ensures vals != [AI, AI, AI, AI] && vals != [HUMAN, HUMAN, HUMAN, HUMAN] ==>
              -QUIET_LIMIT <= PatternOf(vals) + CentreSum(vals, c, dc) <= QUIET_LIMIT
  {
    assert forall v, k :: -6 * One(v, HUMAN) <= CentreBonus(v, k) <= 6 * One(v, AI);
    assert -6 * Tally(vals, HUMAN) <= CentreSum(vals, c, dc) <= 6 * Tally(vals, AI);
    assert Tally(vals, AI) == 4 <==> vals == [AI, AI, AI, AI];
    assert Tally(vals, HUMAN) == 4 <==> vals == [HUMAN, HUMAN, HUMAN, HUMAN];
    assert Tally(vals, AI) + Tally(vals, HUMAN) + Tally(vals, Empty) == 4;
  }

  lemma {:induction false} SumBound(b: Grid, ws: seq<Line>)
    ensures var a, h := SumOver(FourCount(b, AI), ws), SumOver(FourCount(b, HUMAN), ws);
            var score := SumOver(Points(b), ws);
            && 0 <= a && 0 <= h && a + h <= |ws|
            && WIN_SCORE * a - WINDOW_LIMIT * h - QUIET_LIMIT * (|ws| - a - h) <= score
            && score <= WINDOW_LIMIT * a - WIN_SCORE * h + QUIET_LIMIT * (|ws| - a - h)
            && score == WIN_SCORE * (a - h) + SumOver(Quiet(b), ws)
            && -QUIET_LIMIT * |ws| <= SumOver(Quiet(b), ws) <= QUIET_LIMIT * |ws|
  {
    hide WindowScore, QuietScore;
    if ws != [] {
      SumBound(b, ws[..|ws| - 1]);
      WindowScoreBound(b, ws[|ws| - 1]);
    }
  }

  lemma {:induction false} FoursPositive(b: Grid, ws: seq<Line>, p: Player)
    ensures SumOver(FourCount(b, p), ws) >= 0
    ensures SumOver(FourCount(b, p), ws) > 0 <==> exists i :: 0 <= i < |ws| && Four(b, ws[i], p)
  {
    if ws != [] {
      FoursPositive(b, ws[..|ws| - 1], p);
    }
  }

  lemma FoursIffHasFour(b: Grid, p: Player)
    ensures Fours(b, p) >= 0
    ensures Fours(b, p) > 0 <==> HasFour(b, p)
  {
    hide Windows, SumAbove;
    FoursPositive(b, Windows(), p);
    SumsOverWindows(b, p);
    if HasFour(b, p) {
      var w: Window :| Four(b, w, p);
      EveryWindowListed(w);
    }
  }

  lemma SumsOverWindows(b: Grid, p: Player)
    ensures Evaluate(b) == SumOver(Points(b), Windows()) && Fours(b, p) == SumOver(FourCount(b, p), Windows())
    ensures Heuristic(b) == SumOver(Quiet(b), Windows())
  {
    hide SumOver, SumAbove, WindowsAbove;
    SumAboveIsSum(Points(b), ROWS);
    SumAboveIsSum(FourCount(b, p), ROWS);
    SumAboveIsSum(Quiet(b), ROWS);
  }

  lemma WholeBoardBound(b: Grid)
    ensures var a, h := Fours(b, AI), Fours(b, HUMAN);
            && 0 <= a && 0 <= h && a + h <= WINDOW_COUNT
            && WIN_SCORE * a - WINDOW_LIMIT * h - QUIET_LIMIT * (WINDOW_COUNT - a - h) <= Evaluate(b)
            && Evaluate(b) <= WINDOW_LIMIT * a - WIN_SCORE * h + QUIET_LIMIT * (WINDOW_COUNT - a - h)
            && Evaluate(b) == WIN_SCORE * (a - h) + Heuristic(b)
            && -QUIET_LIMIT * WINDOW_COUNT <= Heuristic(b) <= QUIET_LIMIT * WINDOW_COUNT
  {
    hide Windows, Evaluate, Fours, Heuristic;
    WindowCount();
    SumsOverWindows(b, AI);
    SumsOverWindows(b, HUMAN);
    SumBound(b, Windows());
  }

  /** The score always stays within 69 * 100024; without a four it stays within 69 * 118;
      when only one player has fours, it has that player's sign and is at least
      100000 - 68 * 118 in size; and reaching +-100000 proves that player has a four. */
  lemma EvaluationBounds(b: Grid)
    ensures -WINDOW_COUNT * WINDOW_LIMIT <= Evaluate(b) <= WINDOW_COUNT * WINDOW_LIMIT
    ensures !HasFour(b, AI) && !HasFour(b, HUMAN) ==>
              -WINDOW_COUNT * QUIET_LIMIT <= Evaluate(b) <= WINDOW_COUNT * QUIET_LIMIT < WIN_SCORE
    ensures HasFour(b, AI) && !HasFour(b, HUMAN) ==> Evaluate(b) >= WIN_SCORE - 68 * QUIET_LIMIT > 0
    ensures HasFour(b, HUMAN) && !HasFour(b, AI) ==> Evaluate(b) <= -(WIN_SCORE - 68 * QUIET_LIMIT) < 0
    ensures Evaluate(b) >= WIN_SCORE ==> HasFour(b, AI)
    ensures Evaluate(b) <= -WIN_SCORE ==> HasFour(b, HUMAN)
  {
    hide Evaluate, Fours, Heuristic;
    WholeBoardBound(b);
    FoursIffHasFour(b, AI);
    FoursIffHasFour(b, HUMAN);
  }

  // ---------- The search's terminal test ----------

  type Evaluator = Grid -> int

  /** The search stops at a position whose static score reaches +-100000. */
  predicate Terminal(eval: Evaluator, b: Grid) {
    eval(b) >= WIN_SCORE || eval(b) <= -WIN_SCORE
  }

  /** The score is 100000 for every four the AI is ahead by, plus the sum of the other terms; so the terminal test
      fires exactly when one side has two more fours than the other, or has one more and the open
      threes, open twos and centre cells together do not speak against it. */
  lemma TerminalExactly(b: Grid)
    ensures var lead := Fours(b, AI) - Fours(b, HUMAN);
            && Evaluate(b) == WIN_SCORE * lead + Heuristic(b)
            && (Terminal(Evaluate, b) <==>
                lead >= 2 || lead <= -2 || (lead == 1 && Heuristic(b) >= 0) || (lead == -1 && Heuristic(b) <= 0))
  {
    hide Evaluate, Fours, Heuristic;
    WholeBoardBound(b);
  }

  // ---------- Symmetry 1: exchanging the colours negates the score ----------

  predicate Swapped(vals: seq<Cell>, svals: seq<Cell>) {
    |vals| == 4 && |svals| == 4 &&
    svals[0] == SwapCell(vals[0]) && svals[1] == SwapCell(vals[1]) &&
    svals[2] == SwapCell(vals[2]) && svals[3] == SwapCell(vals[3])
  }

  lemma SwapTally(vals: seq<Cell>, svals: seq<Cell>, v: Cell)
    requires Swapped(vals, svals)
    ensures Tally(svals, v) == Tally(vals, SwapCell(v))
  {
  }

  lemma SwapPattern(vals: seq<Cell>, svals: seq<Cell>)
    requires Swapped(vals, svals)
    ensures PatternOf(svals) == -PatternOf(vals)
  {
    SwapTally(vals, svals, AI);
    SwapTally(vals, svals, HUMAN);
    SwapTally(vals, svals, Empty);
    assert Tally(vals, AI) + Tally(vals, HUMAN) <= 4;
    hide Tally;
  }

  lemma SwapCentre(vals: seq<Cell>, svals: seq<Cell>, c: int, dc: int)
    requires Swapped(vals, svals)
    ensures CentreSum(svals, c, dc) == -CentreSum(vals, c, dc)
  {
  }

  lemma SwapWindow(b: Grid, w: Line)
    ensures WindowScore(Swap(b), w) == -WindowScore(b, w)
  {
    hide PatternOf, CentreSum;
    assert InBounds(w.r + w.dr, w.c + w.dc) && InBounds(w.r + 2 * w.dr, w.c + 2 * w.dc);
    SwapPattern(Values(b, w), Values(Swap(b), w));
    SwapCentre(Values(b, w), Values(Swap(b), w), w.c, w.dc);
  }

  lemma {:induction false} SwapSum(b: Grid, ws: seq<Line>)
    ensures SumOver(Points(Swap(b)), ws) == -SumOver(Points(b), ws)
  {
    hide WindowScore;
    if ws != [] {
      SwapSum(b, ws[..|ws| - 1]);
      SwapWindow(b, ws[|ws| - 1]);
    }
  }

  lemma EvaluateSwap(b: Grid)
    ensures Evaluate(Swap(b)) == -Evaluate(b)
  {
    hide Windows, Evaluate;
    SumsOverWindows(b, AI);
    SumsOverWindows(Swap(b), AI);
    SwapSum(b, Windows());
  }

  // ---------- Symmetry 2: reflecting the board keeps the score ----------

  /** The windows of one row of starting cells, regrouped by direction so that each
      group is a plain sum over columns. */
  function ByDirection(m: Measure, r: int, k: nat): int
    requires k < 4
  {
    Term(m, r, 0, k) + Term(m, r, 1, k) + Term(m, r, 2, k) + Term(m, r, 3, k) +
    Term(m, r, 4, k) + Term(m, r, 5, k) + Term(m, r, 6, k)
  }

  lemma RowSumByDirection(m: Measure, r: int)
    ensures RowSum(m, r, COLS) ==
            ByDirection(m, r, 0) + ByDirection(m, r, 1) + ByDirection(m, r, 2) + ByDirection(m, r, 3)
  {
    hide Term;
    assert RowSum(m, r, 1) == CellSum(m, r, 0);
    assert RowSum(m, r, 3) == RowSum(m, r, 1) + CellSum(m, r, 1) + CellSum(m, r, 2);
    assert RowSum(m, r, 5) == RowSum(m, r, 3) + CellSum(m, r, 3) + CellSum(m, r, 4);
  }

  /** Reflection maps a line to the line with the same cells, read in the same order for the
      vertical and the two diagonal directions (which change places) and in reverse for the horizontal one. */
  lemma MirrorTerms(b: Grid, r: int, c: int)
    requires InBounds(r, c)
    ensures Term(Points(Mirror(b)), r, c, 1) == Term(Points(b), r, COLS - 1 - c, 1)
    ensures Term(Points(Mirror(b)), r, c, 2) == Term(Points(b), r, COLS - 1 - c, 3)
    ensures Term(Points(Mirror(b)), r, c, 3) == Term(Points(b), r, COLS - 1 - c, 2)
    ensures Term(Points(Mirror(b)), r, c, 0) == if c <= 3 then Term(Points(b), r, 3 - c, 0) else 0
  {
    MirrorWindow(b, r, c, 1, 0);
    MirrorWindow(b, r, c, 1, 1);
    MirrorWindow(b, r, c, 1, -1);
    if c <= 3 {
      MirrorHorizontal(b, r, c);
    }
  }

  lemma MirrorWindow(b: Grid, r: int, c: int, dr: int, dc: int)
    requires IsDirection(dr, dc) && dr == 1 && InBounds(r, c)
    ensures OnBoard(Window(r, c, dr, dc)) <==> OnBoard(Window(r, COLS - 1 - c, dr, -dc))
    ensures OnBoard(Window(r, c, dr, dc)) ==>
              WindowScore(Mirror(b), Window(r, c, dr, dc)) == WindowScore(b, Window(r, COLS - 1 - c, dr, -dc))
  {
    var w, v := Window(r, c, dr, dc), Window(r, COLS - 1 - c, dr, -dc);
    if OnBoard(w) {
      assert InBounds(r + 1, c + dc) && InBounds(r + 2, c + 2 * dc);
      assert Values(Mirror(b), w) == Values(b, v);
      assert forall u, k :: CentreBonus(u, k) == CentreBonus(u, COLS - 1 - k);
    }
  }

  lemma MirrorHorizontal(b: Grid, r: int, c: int)
    requires InBounds(r, c) && c <= 3
    ensures WindowScore(Mirror(b), Window(r, c, 0, 1)) == WindowScore(b, Window(r, 3 - c, 0, 1))
  {
    var w, v := Window(r, c, 0, 1), Window(r, 3 - c, 0, 1);
    var mvals, vals := Values(Mirror(b), w), Values(b, v);
    assert InBounds(r, c + 1) && InBounds(r, c + 2) && InBounds(r, c + 3);
    assert mvals == [vals[3], vals[2], vals[1], vals[0]];
    assert forall u, k :: CentreBonus(u, k) == CentreBonus(u, COLS - 1 - k);
  }

  lemma MirrorRow(b: Grid, r: int)
    requires 0 <= r < ROWS
    ensures RowSum(Points(Mirror(b)), r, COLS) == RowSum(Points(b), r, COLS)
  {
    RowSumByDirection(Points(b), r);
    RowSumByDirection(Points(Mirror(b)), r);
    forall c | 0 <= c < COLS
      ensures Term(Points(Mirror(b)), r, c, 1) == Term(Points(b), r, COLS - 1 - c, 1)
      ensures Term(Points(Mirror(b)), r, c, 2) == Term(Points(b), r, COLS - 1 - c, 3)
      ensures Term(Points(Mirror(b)), r, c, 3) == Term(Points(b), r, COLS - 1 - c, 2)
      ensures Term(Points(Mirror(b)), r, c, 0) == if c <= 3 then Term(Points(b), r, 3 - c, 0) else 0
    {
      MirrorTerms(b, r, c);
    }
  }

  lemma {:induction false} MirrorAbove(b: Grid, r: nat)
    requires r <= ROWS
    ensures SumAbove(Points(Mirror(b)), r) == SumAbove(Points(b), r)
  {
    hide RowSum, Mirror;
    if r > 0 {
      MirrorAbove(b, r - 1);
      MirrorRow(b, r - 1);
    }
  }

  lemma EvaluateMirror(b: Grid)
    ensures Evaluate(Mirror(b)) == Evaluate(b)
  {
    MirrorAbove(b, ROWS);
  }
}
