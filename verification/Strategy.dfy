/** The computer player's choice of column: what it plays, and the rules that follow. */
module Strategy {
  import opened Board
  import opened WinCheck
  import opened Evaluation
  import opened Search

  // ---------- Centre-first move ordering ----------

  function Abs(x: int): nat {
    if x < 0 then -x else x
  }

  function FromCentre(c: int): nat {
    Abs(c - CENTER)
  }

  /** `c` is put after every column at most as far from the centre: the sort is stable. */
  function InsertByCentre(ms: seq<int>, c: int): (s: seq<int>)
    ensures |s| == |ms| + 1
    ensures forall x :: x in s <==> x == c || x in ms
  {
    if ms == [] || FromCentre(ms[|ms| - 1]) <= FromCentre(c) then ms + [c]
    else
      assert ms == ms[..|ms| - 1] + [ms[|ms| - 1]];
      InsertByCentre(ms[..|ms| - 1], c) + [ms[|ms| - 1]]
  }

  /** The stable sort by distance from the centre column. */
  function SortByCentre(ms: seq<int>): (s: seq<int>)
    ensures |s| == |ms|
    ensures forall x :: x in s <==> x in ms
  {
    if ms == [] then []
    else
      assert ms == ms[..|ms| - 1] + [ms[|ms| - 1]];
      InsertByCentre(SortByCentre(ms[..|ms| - 1]), ms[|ms| - 1])
  }

  /** Nearer the centre, and among equally near columns the lower one. */
  predicate Before(a: int, b: int) {
    FromCentre(a) < FromCentre(b) || (FromCentre(a) == FromCentre(b) && a < b)
  }

  ghost predicate InOrder(s: seq<int>) {
    forall i, j :: 0 <= i < j < |s| ==> Before(s[i], s[j])
  }

  lemma {:induction false} InsertKeepsOrder(ms: seq<int>, c: int)
    requires InOrder(ms) && forall x :: x in ms ==> x < c
    ensures InOrder(InsertByCentre(ms, c))
  {
    if ms != [] && FromCentre(ms[|ms| - 1]) > FromCentre(c) {
      var front, last := ms[..|ms| - 1], ms[|ms| - 1];
      assert ms == front + [last];
      forall x | x in front
        ensures x < c
      {
        assert x in ms;
      }
      InsertKeepsOrder(front, c);
      var s := InsertByCentre(front, c);
      forall i | 0 <= i < |s|
        ensures Before(s[i], last)
      {
        assert s[i] in s;
      }
    } else if ms != [] {
      forall i | 0 <= i < |ms|
        ensures Before(ms[i], c)
      {
        assert ms[i] in ms;
        assert i < |ms| - 1 ==> Before(ms[i], ms[|ms| - 1]);
      }
    }
  }

  lemma {:induction false} SortInOrder(ms: seq<int>)
    requires forall i, j :: 0 <= i < j < |ms| ==> ms[i] < ms[j]
    ensures InOrder(SortByCentre(ms))
  {
    if ms != [] {
      var front := ms[..|ms| - 1];
      SortInOrder(front);
      InsertKeepsOrder(SortByCentre(front), ms[|ms| - 1]);
    }
  }

  /** Ascending columns are listed by their distance from column 3, equally distant ones by lower index. */
  lemma SortOrdersAscending(ms: seq<int>)
    requires forall i, j :: 0 <= i < j < |ms| ==> ms[i] < ms[j]
    ensures |SortByCentre(ms)| == |ms| && forall m :: m in SortByCentre(ms) <==> m in ms
    ensures forall i, j :: 0 <= i < |ms| && 0 <= j < |ms| ==>
              var m, c := SortByCentre(ms)[i], SortByCentre(ms)[j];
              (i < j <==> Abs(m - 3) < Abs(c - 3) || (Abs(m - 3) == Abs(c - 3) && m < c))
  {
    hide SortByCentre;
    SortInOrder(ms);
  }

  /** The order on the empty board. */
  lemma CentreOrder()
    ensures SortByCentre([0, 1, 2, 3, 4, 5, 6]) == [3, 2, 4, 1, 5, 0, 6]
  {
    hide SortByCentre;
    var ms := [0, 1, 2, 3, 4, 5, 6];
    SortOrdersAscending(ms);
    SameOrder(SortByCentre(ms), [3, 2, 4, 1, 5, 0, 6]);
  }

  /** Two listings of the same columns in this order are the same. */
  lemma {:induction false} SameOrder(s: seq<int>, t: seq<int>)
    requires InOrder(s) && InOrder(t) && |s| == |t| && forall m :: m in s <==> m in t
    ensures s == t
  {
    if s != [] {
      assert s[0] in t && t[0] in s;
      var i :| 0 <= i < |t| && t[i] == s[0];
      var j :| 0 <= j < |s| && s[j] == t[0];
      forall m
        ensures m in s[1..] <==> m in t[1..]
      {
        TailOf(s, m);
        TailOf(t, m);
      }
      SameOrder(s[1..], t[1..]);
    }
  }

  lemma TailOf(s: seq<int>, m: int)
    requires InOrder(s) && s != []
    ensures m in s[1..] <==> m in s && m != s[0]
  {
    assert s == [s[0]] + s[1..];
    if m in s[1..] {
      var k :| 0 <= k < |s| - 1 && s[1..][k] == m;
      assert Before(s[0], s[k + 1]);
    }
  }

  function CentreFirst(b: Grid): seq<int> {
    SortByCentre(OpenColumns(b))
  }

  lemma CentreFirstIsValid()
    ensures ValidOrder(CentreFirst)
  {
    forall b: Grid
      ensures ListsMoves(b, CentreFirst(b))
    {
      var ms, s := OpenColumns(b), CentreFirst(b);
      forall i | 0 <= i < |s|
        ensures 0 <= s[i] < COLS && Open(b, s[i])
      {
        assert s[i] in s;
        assert s[i] in ms;
      }
    }
  }

  lemma {:induction false} SameOpenColumns(b: Grid, b': Grid, n: nat)
    requires n <= COLS && forall c :: 0 <= c < COLS ==> (Open(b, c) <==> Open(b', c))
    ensures OpenAmong(b, n) == OpenAmong(b', n)
  {
    hide Open;
    if n > 0 {
      SameOpenColumns(b, b', n - 1);
    }
  }

  lemma CentreFirstIsColourBlind()
    ensures ColourBlind(CentreFirst)
  {
    forall b: Grid
      ensures CentreFirst(Swap(b)) == CentreFirst(b)
    {
      assert forall c :: 0 <= c < COLS ==> InBounds(0, c);
      SameOpenColumns(Swap(b), b, COLS);
    }
  }

  // ---------- The program's own search: its evaluation with its move order ----------

  lemma EvaluateFacts()
    ensures BoundedBy(Evaluate, WINDOW_COUNT * WINDOW_LIMIT)
    ensures Antisymmetric(Evaluate) && MirrorInvariant(Evaluate)
  {
    hide Evaluate;
    forall b: Grid
      ensures -(WINDOW_COUNT * WINDOW_LIMIT) <= Evaluate(b) <= WINDOW_COUNT * WINDOW_LIMIT
      ensures Evaluate(Swap(b)) == -Evaluate(b) && Evaluate(Mirror(b)) == Evaluate(b)
    {
      EvaluationBounds(b);
      EvaluateSwap(b);
      EvaluateMirror(b);
    }
  }

  ghost function SearchValue(b: Grid, depth: nat, alpha: Num, beta: Num, maximizing: bool): Num {
    CentreFirstIsValid();
    AlphaBeta(Evaluate, CentreFirst, b, depth, alpha, beta, maximizing)
  }

  /** With any non-empty window the program's search is a fail-soft approximation of the plain
      minimax value, exact for the full window; with any window at all it is finite. */
  lemma SearchRefinesPlain(b: Grid, depth: nat, alpha: Num, beta: Num, maximizing: bool)
    ensures Lt(alpha, beta) ==>
              FailSoft(alpha, beta, SearchValue(b, depth, alpha, beta, maximizing),
                       Plain(Evaluate, b, depth, maximizing))
    ensures SearchValue(b, depth, NegInf, PosInf, maximizing) == Plain(Evaluate, b, depth, maximizing)
    ensures Bounded(WINDOW_COUNT * WINDOW_LIMIT, SearchValue(b, depth, alpha, beta, maximizing))
  {
    hide AlphaBeta, Plain;
    EvaluateFacts();
    CentreFirstIsValid();
    if Lt(alpha, beta) {
      AlphaBetaRefinesPlain(Evaluate, CentreFirst, b, depth, alpha, beta, maximizing);
    }
    FullWindowIsExact(Evaluate, CentreFirst, b, depth, maximizing);
    AlphaBetaBounded(Evaluate, WINDOW_COUNT * WINDOW_LIMIT, CentreFirst, b, depth, alpha, beta, maximizing);
  }

  /** The program's search is dual under exchange of colours and, with the full window,
      invariant under reflection. */
  lemma SearchSymmetries(b: Grid, depth: nat, alpha: Num, beta: Num, maximizing: bool)
    ensures SearchValue(Swap(b), depth, Neg(beta), Neg(alpha), !maximizing) ==
            Neg(SearchValue(b, depth, alpha, beta, maximizing))
    ensures SearchValue(Mirror(b), depth, NegInf, PosInf, maximizing) ==
            SearchValue(b, depth, NegInf, PosInf, maximizing)
  {
    hide AlphaBeta, Plain;
    EvaluateFacts();
    CentreFirstIsValid();
    CentreFirstIsColourBlind();
    SwapDuality(Evaluate, CentreFirst, b, depth, alpha, beta, maximizing);
    SearchMirror(Evaluate, CentreFirst, CentreFirst, b, depth, maximizing);
  }

  // ---------- The choice ----------

  const REPLY_DEPTH := 5

  predicate WinsAt(b: Grid, c: int, p: Player)
    requires 0 <= c < COLS && Open(b, c)
  {
    LineThrough(Drop(b, c, p), DropRow(b, c), c, p)
  }

  /** The first move in `ms` that makes a line for `p`, or -1. */
  function FirstWin(b: Grid, ms: seq<int>, p: Player): (c: int)
    requires Playable(b, ms)
    ensures c != -1 ==> c in ms && WinsAt(b, c, p)
    ensures c == -1 ==> forall i :: 0 <= i < |ms| ==> !WinsAt(b, ms[i], p)
  {
    if ms == [] then -1
    else if WinsAt(b, ms[0], p) then ms[0]
    else
      assert forall i :: 0 < i < |ms| ==> ms[i] == ms[1..][i - 1];
      FirstWin(b, ms[1..], p)
  }

  /** The plain value of the AI dropping in column `c`, the human replying, to the program's depth. */
  ghost function MoveValue(b: Grid, c: int): (v: Num)
    requires 0 <= c < COLS && Open(b, c)
    ensures v.Fin?
  {
    Plain(Evaluate, Drop(b, c, AI), REPLY_DEPTH, false)
  }

  /** Scanning `ms` for a value strictly above `best`, starting from `choice`. */
  ghost function Scan(b: Grid, ms: seq<int>, best: Num, choice: int): int
    requires Playable(b, ms)
  {
    if ms == [] then choice
    else if Lt(best, MoveValue(b, ms[0])) then Scan(b, ms[1..], MoveValue(b, ms[0]), ms[0])
    else Scan(b, ms[1..], best, choice)
  }

  ghost function BestMove(b: Grid): int {
    var ms := OpenColumns(b);
    if ms == [] then -1
    else if |ms| == COLS then 3
    else if FirstWin(b, ms, AI) != -1 then FirstWin(b, ms, AI)
    else if FirstWin(b, ms, HUMAN) != -1 then FirstWin(b, ms, HUMAN)
    else
      CentreFirstIsValid();
      assert ListsMoves(b, CentreFirst(b));
      Scan(b, CentreFirst(b), NegInf, ms[0])
  }

  // ---------- The rules it follows ----------

  ghost predicate CanWin(b: Grid, p: Player) {
    exists c :: 0 <= c < COLS && Open(b, c) && WinsAt(b, c, p)
  }

  ghost predicate IsLowestWin(b: Grid, m: int, p: Player) {
    && 0 <= m < COLS && Open(b, m) && WinsAt(b, m, p)
    && forall c :: 0 <= c < m && Open(b, c) ==> !WinsAt(b, c, p)
  }

  /** No open column has a higher value, and every other column of the same value is further from column 3, or as far
      and of a higher index. */
  ghost predicate IsPreferred(b: Grid, m: int) {
    && 0 <= m < COLS && Open(b, m)
    && forall c :: 0 <= c < COLS && Open(b, c) && c != m ==>
         Le(MoveValue(b, c), MoveValue(b, m)) &&
         (MoveValue(b, c) == MoveValue(b, m) ==> Abs(m - 3) < Abs(c - 3) || (Abs(m - 3) == Abs(c - 3) && m < c))
  }

  lemma {:induction false} FirstWinIsLowest(b: Grid, ms: seq<int>, p: Player)
    requires Playable(b, ms) && forall i, j :: 0 <= i < j < |ms| ==> ms[i] < ms[j]
    ensures var m := FirstWin(b, ms, p);
            m != -1 ==> m in ms && WinsAt(b, m, p) && forall i :: 0 <= i < |ms| && ms[i] < m ==> !WinsAt(b, ms[i], p)
  {
    hide WinsAt;
    if ms != [] && !WinsAt(b, ms[0], p) {
      FirstWinIsLowest(b, ms[1..], p);
      assert forall i :: 0 < i < |ms| ==> ms[i] == ms[1..][i - 1];
    }
  }

  lemma FirstWinRule(b: Grid, p: Player)
    ensures var m := FirstWin(b, OpenColumns(b), p);
            if CanWin(b, p) then IsLowestWin(b, m, p) else m == -1
  {
    hide WinsAt, FirstWin, OpenColumns;
    var ms := OpenColumns(b);
    var m := FirstWin(b, ms, p);
    FirstWinIsLowest(b, ms, p);
    if m == -1 {
      forall c | 0 <= c < COLS && Open(b, c)
        ensures !WinsAt(b, c, p)
      {
        assert c in ms;
      }
    } else {
      forall c | 0 <= c < m && Open(b, c)
        ensures !WinsAt(b, c, p)
      {
        assert c in ms;
      }
    }
  }

  /** The scan ends on the first of the best moves, unless none beats the value it started with. */
  lemma {:induction false} ScanFindsBest(b: Grid, ms: seq<int>, best: Num, choice: int) returns (k: int)
    requires Playable(b, ms)
    ensures -1 <= k < |ms|
    ensures k == -1 ==> Scan(b, ms, best, choice) == choice &&
                        forall i :: 0 <= i < |ms| ==> Le(MoveValue(b, ms[i]), best)
    ensures k >= 0 ==>
              && Scan(b, ms, best, choice) == ms[k] && Lt(best, MoveValue(b, ms[k]))
              && (forall i :: 0 <= i < |ms| ==> Le(MoveValue(b, ms[i]), MoveValue(b, ms[k])))
              && (forall i :: 0 <= i < k ==> Lt(MoveValue(b, ms[i]), MoveValue(b, ms[k])))
  {
    hide MoveValue;
    if ms == [] {
      return -1;
    }
    assert forall i :: 0 < i < |ms| ==> ms[i] == ms[1..][i - 1];
    var v := MoveValue(b, ms[0]);
    if Lt(best, v) {
      if |ms| == 1 {
        assert Scan(b, ms[1..], v, ms[0]) == ms[0];
        return 0;
      }
      k := ScanFindsBest(b, ms[1..], v, ms[0]);
      k := if k == -1 then 0 else k + 1;
    } else {
      k := ScanFindsBest(b, ms[1..], best, choice);
      k := if k == -1 then -1 else k + 1;
    }
  }

  lemma ScanIsPreferred(b: Grid, choice: int)
    requires OpenColumns(b) != []
    ensures ListsMoves(b, CentreFirst(b)) && IsPreferred(b, Scan(b, CentreFirst(b), NegInf, choice))
  {
    hide MoveValue, Scan, OpenColumns, SortByCentre, Abs;
    CentreFirstIsValid();
    var s := CentreFirst(b);
    assert ListsMoves(b, s);
    SortInOrder(OpenColumns(b));
    var k := ScanFindsBest(b, s, NegInf, choice);
    assert k != -1 by {
      assert Lt(NegInf, MoveValue(b, s[0]));
    }
    forall c | 0 <= c < COLS && Open(b, c) && c != s[k]
      ensures Le(MoveValue(b, c), MoveValue(b, s[k])) && (MoveValue(b, c) == MoveValue(b, s[k]) ==> Before(s[k], c))
    {
      assert c in s;
      var i :| 0 <= i < |s| && s[i] == c;
    }
  }

  /** What the AI plays: nothing on a full top row; the centre column while all seven are open;
      otherwise the lowest winning column, else the lowest column where the human would win,
      else the column of the best value, ties going to the centre and then to the lower index. */
  lemma BestMoveRules(b: Grid)
    ensures var m, ms := BestMove(b), OpenColumns(b);
            && (ms == [] ==> m == -1)
            && (ms != [] ==> 0 <= m < COLS && Open(b, m))
            && (|ms| == COLS ==> m == 3)
            && (0 < |ms| < COLS ==>
                  if CanWin(b, AI) then IsLowestWin(b, m, AI)
                  else if CanWin(b, HUMAN) then IsLowestWin(b, m, HUMAN)
                  else IsPreferred(b, m))
  {
    hide WinsAt, Scan, FirstWin, OpenColumns;
    FirstWinRule(b, AI);
    FirstWinRule(b, HUMAN);
    if OpenColumns(b) != [] {
      ScanIsPreferred(b, OpenColumns(b)[0]);
    }
  }

  /** On a board where `p` has no four, winning at once means having a four on the board after the drop. */
  lemma WinsAtIsGlobal(b: Grid, c: int, p: Player)
    requires 0 <= c < COLS && Open(b, c) && !HasFour(b, p)
    ensures WinsAt(b, c, p) <==> HasFour(Drop(b, c, p), p)
  {
    LocalEqualsGlobal(b, DropRow(b, c), c, p);
  }

  /** The AI takes a win that is on offer exactly when some column is full or the centre column itself wins. */
  lemma TakesWinExactly(b: Grid)
    requires CanWin(b, AI)
    ensures BestMove(b) in OpenColumns(b)
    ensures WinsAt(b, BestMove(b), AI) <==> |OpenColumns(b)| < COLS || WinsAt(b, 3, AI)
  {
    hide WinsAt, OpenColumns, BestMove;
    BestMoveRules(b);
    var c :| 0 <= c < COLS && Open(b, c) && WinsAt(b, c, AI);
    assert c in OpenColumns(b);
  }

  /** Where the AI cannot win itself, it blocks an immediate win of the human, by playing that column or the lowest such
      column, exactly when some column is full or the centre column is what it would have to play anyway. */
  lemma BlocksExactly(b: Grid)
    requires CanWin(b, HUMAN) && !CanWin(b, AI)
    ensures BestMove(b) in OpenColumns(b)
    ensures WinsAt(b, BestMove(b), HUMAN) <==> |OpenColumns(b)| < COLS || WinsAt(b, 3, HUMAN)
    ensures IsLowestWin(b, BestMove(b), HUMAN) <==> |OpenColumns(b)| < COLS || IsLowestWin(b, 3, HUMAN)
  {
    hide WinsAt, OpenColumns, BestMove;
    BestMoveRules(b);
    var c :| 0 <= c < COLS && Open(b, c) && WinsAt(b, c, HUMAN);
    assert c in OpenColumns(b);
  }

  // ---------- What the choice secures ----------

  /** Where the program's search stops at once: no move left to look ahead, a decided board, a full one. */
  lemma LeafValues(b: Grid, depth: nat, alpha: Num, beta: Num, maximizing: bool)
    ensures depth == 0 || Evaluate(b) >= 100000 || Evaluate(b) <= -100000 ==>
              SearchValue(b, depth, alpha, beta, maximizing) == Fin(Evaluate(b))
    ensures depth > 0 && -100000 < Evaluate(b) < 100000 && TopRowFull(b) ==>
              SearchValue(b, depth, alpha, beta, maximizing) == Fin(0)
  {
    hide Evaluate, OpenColumns, TopRowFull;
    NoOpenColumn(b);
  }

  /** The full-window search returns the greatest worth of the last board that the AI can secure. */
  lemma SearchExactly(b: Grid, depth: nat, maximizing: bool, t: int)
    ensures Le(Fin(t), SearchValue(b, depth, NegInf, PosInf, maximizing)) <==>
            Secures(Evaluate, b, depth, maximizing, t)
  {
    hide AlphaBeta, Plain, Secures, Evaluate;
    SearchRefinesPlain(b, depth, NegInf, PosInf, maximizing);
    ValueExactly(Evaluate, b, depth, maximizing, t);
  }

  /** After the AI's drop in column `c`, with the human to reply, the AI can secure a last board worth at least `t`
      within five more moves. */
  ghost predicate SecuresAfter(b: Grid, c: int, t: int)
    requires 0 <= c < COLS && Open(b, c)
  {
    Secures(Evaluate, Drop(b, c, Yellow), 5, false, t)
  }

  lemma MoveValueExactly(b: Grid, c: int, t: int)
    requires 0 <= c < COLS && Open(b, c)
    ensures Le(Fin(t), MoveValue(b, c)) <==> SecuresAfter(b, c, t)
  {
    hide Plain, Secures, Evaluate;
    ValueExactly(Evaluate, Drop(b, c, AI), REPLY_DEPTH, false, t);
  }

  lemma SameSecured(b: Grid, m: int, c: int)
    requires 0 <= m < COLS && Open(b, m) && 0 <= c < COLS && Open(b, c)
    requires forall t: int :: SecuresAfter(b, m, t) ==> SecuresAfter(b, c, t)
    ensures Le(MoveValue(b, m), MoveValue(b, c))
  {
    hide MoveValue, SecuresAfter;
    MoveValueExactly(b, m, MoveValue(b, m).n);
    MoveValueExactly(b, c, MoveValue(b, m).n);
  }

  /** Where the AI searches, it plays a column after which it can secure as much as after any other; and of the columns
      after which it can secure just as much, the one nearest to column 3, and of two equally near the lower. */
  lemma BestMoveSecures(b: Grid)
    requires 0 < |OpenColumns(b)| < COLS && !CanWin(b, AI) && !CanWin(b, HUMAN)
    ensures 0 <= BestMove(b) < COLS && Open(b, BestMove(b))
    ensures forall c, t: int :: 0 <= c < COLS && Open(b, c) && SecuresAfter(b, c, t) ==> SecuresAfter(b, BestMove(b), t)
    ensures forall c ::
              0 <= c < COLS && Open(b, c) && c != BestMove(b) &&
              (forall t: int :: SecuresAfter(b, BestMove(b), t) ==> SecuresAfter(b, c, t)) ==>
                Abs(BestMove(b) - 3) < Abs(c - 3) || (Abs(BestMove(b) - 3) == Abs(c - 3) && BestMove(b) < c)
  {
    hide BestMove, OpenColumns, MoveValue, SecuresAfter, CanWin, Open;
    BestMoveRules(b);
    var m := BestMove(b);
    forall c, t: int | 0 <= c < COLS && Open(b, c) && SecuresAfter(b, c, t)
      ensures SecuresAfter(b, m, t)
    {
      MoveValueExactly(b, c, t);
      MoveValueExactly(b, m, t);
    }
    forall c | 0 <= c < COLS && Open(b, c) && c != m && forall t: int :: SecuresAfter(b, m, t) ==> SecuresAfter(b, c, t)
      ensures Abs(m - 3) < Abs(c - 3) || (Abs(m - 3) == Abs(c - 3) && m < c)
    {
      SameSecured(b, m, c);
    }
  }

  // ---------- Forced wins ----------

  /** After the AI's drop in column `c`, `p` can force a board decided for `p` within the search depth. */
  ghost predicate ForcesAfter(b: Grid, c: int, p: Player)
    requires 0 <= c < COLS && Open(b, c)
  {
    Forces(Evaluate, Drop(b, c, AI), REPLY_DEPTH, false, p)
  }

  /** A decided board holds a four of that player. */
  lemma DecidedHasFour(b: Grid, p: Player)
    requires Decided(Evaluate, b, p)
    ensures HasFour(b, p)
  {
    hide Evaluate, HasFour;
    EvaluationBounds(b);
  }

  lemma ForcesAfterExactly(b: Grid, c: int, p: Player)
    requires 0 <= c < COLS && Open(b, c)
    ensures ValueDecides(MoveValue(b, c), p) <==> ForcesAfter(b, c, p)
  {
    hide Forces, Plain, ValueDecides;
    ForcesExactly(Evaluate, Drop(b, c, AI), REPLY_DEPTH, false, p);
  }

  /** Where the AI searches, it plays a column after which it can force a decided board whenever there is one, and
      a column after which the human cannot force one whenever there is one. */
  lemma PlaysForcedWins(b: Grid)
    requires 0 < |OpenColumns(b)| < COLS && !CanWin(b, AI) && !CanWin(b, HUMAN)
    ensures 0 <= BestMove(b) < COLS && Open(b, BestMove(b))
    ensures ForcesAfter(b, BestMove(b), AI) <==> exists c :: 0 <= c < COLS && Open(b, c) && ForcesAfter(b, c, AI)
    ensures ForcesAfter(b, BestMove(b), HUMAN) <==> forall c :: 0 <= c < COLS && Open(b, c) ==> ForcesAfter(b, c, HUMAN)
  {
    hide BestMove, OpenColumns, MoveValue, ForcesAfter, CanWin, Open;
    BestMoveRules(b);
    var m := BestMove(b);
    forall c | 0 <= c < COLS && Open(b, c)
      ensures ForcesAfter(b, c, AI) ==> ForcesAfter(b, m, AI)
      ensures ForcesAfter(b, m, HUMAN) ==> ForcesAfter(b, c, HUMAN)
    {
      ForcesAfterExactly(b, c, AI);
      ForcesAfterExactly(b, m, AI);
      ForcesAfterExactly(b, c, HUMAN);
      ForcesAfterExactly(b, m, HUMAN);
    }
  }
}
