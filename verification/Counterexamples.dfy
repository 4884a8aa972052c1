/** Two positions of the running program: one in which the computer player does not block, and one below which
    its search does not recognise a won board. The exact conditions are Strategy.BlocksExactly and
    Evaluation.TerminalExactly. */
module Counterexamples {
  import opened Board
  import opened Evaluation
  import opened Search
  import opened Strategy
  import opened Positions

  // ---------- A win of the human that is not blocked ----------

  const UNBLOCKED: Columns := ["RRR", "", "", "YY", "", "", ""]

  const UNBLOCKED_MOVES := [0, 3, 0, 3, 0]

  function UnblockedGame(): seq<Columns> {
    [NO_DISCS,
     ["R", "", "", "", "", "", ""],
     ["R", "", "", "Y", "", "", ""],
     ["RR", "", "", "Y", "", "", ""],
     ["RR", "", "", "YY", "", "", ""],
     UNBLOCKED]
  }

  lemma UnblockedFirstMoves()
    ensures var g, m := UnblockedGame(), UNBLOCKED_MOVES;
            IsMove(g[0], g[1], m[0], HUMAN) && IsMove(g[1], g[2], m[1], AI) && IsMove(g[2], g[3], m[2], HUMAN)
  {
  }

  lemma UnblockedLastMoves()
    ensures var g, m := UnblockedGame(), UNBLOCKED_MOVES;
            IsMove(g[3], g[4], m[3], AI) && IsMove(g[4], g[5], m[4], HUMAN)
  {
  }

  lemma UnblockedIsGame()
    ensures IsGame(HUMAN, UnblockedGame(), UNBLOCKED_MOVES)
  {
    hide IsMove;
    UnblockedFirstMoves();
    UnblockedLastMoves();
  }

  lemma UnblockedHasRoom(k: nat, c: int)
    requires k <= 5 && 0 <= c < COLS
    ensures HasRoom(UnblockedGame()[k], c)
  {
  }

  lemma UnblockedFours(c: int)
    requires 0 <= c < COLS
    ensures HasFour(FromColumns(Add(UNBLOCKED, c, HUMAN)), HUMAN) <==> c == 0
  {
    var b := FromColumns(Add(UNBLOCKED, c, HUMAN));
    assert c == 0 ==> Four(b, Window(2, 0, 1, 0), HUMAN);
    assert c != 0 ==> forall w: Window :: !Four(b, w, HUMAN);
  }

  lemma UnblockedAIFours(c: int)
    requires 0 <= c < COLS
    ensures !HasFour(FromColumns(Add(UNBLOCKED, c, AI)), AI)
  {
  }

  lemma UnblockedHasNoFours()
    ensures NoFours(UNBLOCKED)
  {
  }

  /** After the human has dropped three discs in the left column, with the AI answering in the centre, the human
      threatens a fourth. The AI, on move and without a win of its own, plays the centre again. */
  lemma WinNotBlocked()
    ensures ComesUp(UNBLOCKED, AI)
    ensures var b := FromColumns(UNBLOCKED);
            && Open(b, 0) && WinsAt(b, 0, HUMAN) && !CanWin(b, AI)
            && BestMove(b) == 3 && Open(b, 3) && !WinsAt(b, 3, HUMAN)
  {
    hide FromColumns, HasFour, UNBLOCKED, UnblockedGame, BestMove, WinsAt, NoFours, IsGame, ComesUp;
    UnblockedIsGame();
    UnblockedHasNoFours();
    var g := UnblockedGame();
    UnblockedEnds();
    forall k, c | 0 <= k <= 5 && 0 <= c < COLS
      ensures HasRoom(g[k], c)
    {
      UnblockedHasRoom(k, c);
    }
    forall k | 0 <= k <= 5
      ensures BestMove(FromColumns(g[k])) == 3
    {
      CentreWhileOpen(g[k]);
    }
    assert HasRoom(g[5], 6);
    GameComesUp(HUMAN, g, UNBLOCKED_MOVES, 5);
    assert FromColumns(g[5]) == FromColumns(UNBLOCKED);
    UnblockedWins(0, HUMAN);
    UnblockedWins(3, HUMAN);
    forall c | 0 <= c < COLS && Open(FromColumns(UNBLOCKED), c)
      ensures !WinsAt(FromColumns(UNBLOCKED), c, AI)
    {
      UnblockedWins(c, AI);
    }
  }

  lemma UnblockedEnds()
    ensures |UnblockedGame()| == 6 && UnblockedGame()[5] == UNBLOCKED
    ensures |UNBLOCKED_MOVES| == 5 && UNBLOCKED_MOVES[1] == 3 && UNBLOCKED_MOVES[3] == 3
  {
  }

  lemma UnblockedWins(c: int, p: Player)
    requires 0 <= c < COLS
    ensures Open(FromColumns(UNBLOCKED), c)
    ensures WinsAt(FromColumns(UNBLOCKED), c, p) <==> p == HUMAN && c == 0
  {
    hide FromColumns, HasFour, WinsAt;
    UnblockedHasNoFours();
    WinsOnColumns(UNBLOCKED, c, p);
    if p == HUMAN {
      UnblockedFours(c);
    } else {
      UnblockedAIFours(c);
    }
  }

  // ---------- A won board that the search does not recognise ----------

  const ROOT: Columns := ["", "", "R", "YRYRYY", "RRRY", "", ""]

  // below ROOT in the search: the AI in column 2, the human there, the AI in column 1
  const REPLY_TO: Columns := ["", "", "RY", "YRYRYY", "RRRY", "", ""]
  const REPLIED: Columns := ["", "", "RYR", "YRYRYY", "RRRY", "", ""]
  const MISJUDGED: Columns := ["", "Y", "RYR", "YRYRYY", "RRRY", "", ""]

  const ROOT_MOVES := [4, 3, 3, 3, 3, 3, 4, 3, 4, 4, 2]

  // the position before the AI's fifth move: the human threatens four in column 4, and column 3 is full
  const BLOCKING: Columns := ["", "", "", "YRYRYY", "RRR", "", ""]

  function RootGame(): seq<Columns> {
    [NO_DISCS,
     ["", "", "", "", "R", "", ""],
     ["", "", "", "Y", "R", "", ""],
     ["", "", "", "YR", "R", "", ""],
     ["", "", "", "YRY", "R", "", ""],
     ["", "", "", "YRYR", "R", "", ""],
     ["", "", "", "YRYRY", "R", "", ""],
     ["", "", "", "YRYRY", "RR", "", ""],
     ["", "", "", "YRYRYY", "RR", "", ""],
     BLOCKING,
     ["", "", "", "YRYRYY", "RRRY", "", ""],
     ROOT]
  }

  lemma FirstMoves()
    ensures var g, m := RootGame(), ROOT_MOVES;
            IsMove(g[0], g[1], m[0], HUMAN) && IsMove(g[1], g[2], m[1], AI) && IsMove(g[2], g[3], m[2], HUMAN) &&
            IsMove(g[3], g[4], m[3], AI)
  {
  }

  lemma MiddleMoves()
    ensures var g, m := RootGame(), ROOT_MOVES;
            IsMove(g[4], g[5], m[4], HUMAN) && IsMove(g[5], g[6], m[5], AI) && IsMove(g[6], g[7], m[6], HUMAN) &&
            IsMove(g[7], g[8], m[7], AI)
  {
  }

  lemma LastMoves()
    ensures var g, m := RootGame(), ROOT_MOVES;
            IsMove(g[8], g[9], m[8], HUMAN) && IsMove(g[9], g[10], m[9], AI) && IsMove(g[10], g[11], m[10], HUMAN)
  {
  }

  lemma RootIsGame()
    ensures IsGame(HUMAN, RootGame(), ROOT_MOVES)
  {
    hide IsMove;
    FirstMoves();
    MiddleMoves();
    LastMoves();
  }

  lemma RootHasRoom(k: nat, c: int)
    requires k <= 11 && 0 <= c < COLS
    ensures HasRoom(RootGame()[k], c) <==> c != 3 || k < 8
  {
  }

  lemma BlockingFours(c: int)
    requires 0 <= c < COLS && c != 3
    ensures HasFour(FromColumns(Add(BLOCKING, c, HUMAN)), HUMAN) <==> c == 4
  {
    var b := FromColumns(Add(BLOCKING, c, HUMAN));
    assert c == 4 ==> Four(b, Window(2, 4, 1, 0), HUMAN);
    assert c != 4 ==> forall w: Window :: !Four(b, w, HUMAN);
  }

  lemma BlockingAIFours(c: int)
    requires 0 <= c < COLS && c != 3
    ensures !HasFour(FromColumns(Add(BLOCKING, c, AI)), AI)
  {
  }

  lemma RootFours(c: int, p: Player)
    requires 0 <= c < COLS && c != 3
    ensures !HasFour(FromColumns(Add(ROOT, c, p)), p)
  {
  }

  lemma RepliedHasNoFour(p: Player)
    ensures !HasFour(FromColumns(REPLIED), p)
  {
  }

  lemma RootHasNoFours()
    ensures NoFours(ROOT) && NoFours(REPLY_TO) && NoFours(REPLIED)
  {
    hide FromColumns, HasFour;
    RepliedHasNoFour(HUMAN);
    RepliedHasNoFour(AI);
    SearchPath();
    NoFoursBefore(REPLY_TO, 2, HUMAN);
    NoFoursBefore(ROOT, 2, AI);
  }

  lemma SearchPath()
    ensures HasRoom(ROOT, 2) && Add(ROOT, 2, AI) == REPLY_TO
    ensures HasRoom(REPLY_TO, 2) && Add(REPLY_TO, 2, HUMAN) == REPLIED
    ensures HasRoom(REPLIED, 1) && Add(REPLIED, 1, AI) == MISJUDGED
  {
    assert Extends(ROOT, REPLY_TO, 2, AI) && Extends(REPLY_TO, REPLIED, 2, HUMAN) && Extends(REPLIED, MISJUDGED, 1, AI);
    ExtendsIsAdd(ROOT, REPLY_TO, 2, AI);
    ExtendsIsAdd(REPLY_TO, REPLIED, 2, HUMAN);
    ExtendsIsAdd(REPLIED, MISJUDGED, 1, AI);
  }

  /** What the lines from (r, c) in the k-th direction are worth. */
  function ExpectedTerm(r: int, c: int, k: nat): int
    requires InBounds(r, c)
  {
    if k == 0 then
      (if c > 3 then 0 else if r == 2 then -6 else if r == 4 then (if c == 3 then -16 else -6) else 6)
    else if r > 2 then 0
    else if k == 1 then (if r == 0 && c == 3 then 12 else 0)
    else if k == 2 && c <= 3 then
      (if r == 0 then [6, -16, 16, 6][c] else if r == 1 then [-16, 6, -16, 16][c] else [16, -106, 6, -16][c])
    else if k == 3 && 3 <= c <= 6 then
      (if r == 0 then [6, 6, -16, 16][c - 3] else if r == 1 then [6, -16, 106, -16][c - 3]
       else [-16, 100006, -106, 6][c - 3])
    else 0
  }

  function Score4(v0: Cell, v1: Cell, v2: Cell, v3: Cell, c: int, dc: int): int {
    PatternOf([v0, v1, v2, v3]) + CentreSum([v0, v1, v2, v3], c, dc)
  }

  function At(r: int, c: int): Cell
    requires InBounds(r, c)
  {
    CellIn(MISJUDGED, r, c)
  }

  lemma WindowCells(w: Line)
    ensures InBounds(w.r + w.dr, w.c + w.dc) && InBounds(w.r + 2 * w.dr, w.c + 2 * w.dc)
    ensures WindowScore(FromColumns(MISJUDGED), w) ==
            Score4(At(w.r, w.c), At(w.r + w.dr, w.c + w.dc), At(w.r + 2 * w.dr, w.c + 2 * w.dc),
                   At(w.r + 3 * w.dr, w.c + 3 * w.dc), w.c, w.dc)
  {
    hide FromColumns, PatternOf, CentreSum, CellIn, MISJUDGED;
    assert InBounds(w.r + w.dr, w.c + w.dc) && InBounds(w.r + 2 * w.dr, w.c + 2 * w.dc);
  }

  lemma HorizontalScore(r: int, c: int)
    requires InBounds(r, c) && c <= 3
    ensures Score4(At(r, c), At(r, c + 1), At(r, c + 2), At(r, c + 3), c, 1) == ExpectedTerm(r, c, 0)
  {
  }

  lemma VerticalScore(r: int, c: int)
    requires InBounds(r, c) && r <= 2
    ensures Score4(At(r, c), At(r + 1, c), At(r + 2, c), At(r + 3, c), c, 0) == ExpectedTerm(r, c, 1)
  {
    hide At;
    ColumnCells(r, c);
    ColumnCells(r + 1, c);
    ColumnCells(r + 2, c);
    ColumnCells(r + 3, c);
  }

  lemma DiagonalScore(r: int, c: int)
    requires InBounds(r, c) && r <= 2 && c <= 3
    ensures Score4(At(r, c), At(r + 1, c + 1), At(r + 2, c + 2), At(r + 3, c + 3), c, 1) == ExpectedTerm(r, c, 2)
  {
    hide At;
    ColumnCells(r, c);
    ColumnCells(r + 1, c + 1);
    ColumnCells(r + 2, c + 2);
    ColumnCells(r + 3, c + 3);
  }

  lemma AntidiagonalScore(r: int, c: int)
    requires InBounds(r, c) && r <= 2 && c >= 3
    ensures Score4(At(r, c), At(r + 1, c - 1), At(r + 2, c - 2), At(r + 3, c - 3), c, -1) == ExpectedTerm(r, c, 3)
  {
    hide At;
    ColumnCells(r, c);
    ColumnCells(r + 1, c - 1);
    ColumnCells(r + 2, c - 2);
    ColumnCells(r + 3, c - 3);
  }

  lemma ColumnCells(r: int, c: int)
    requires InBounds(r, c)
    ensures At(r, c) ==
            if c == 1 then (if r == 5 then Yellow else Empty)
            else if c == 2 then (if r == 4 then Yellow else if r >= 3 then Red else Empty)
            else if c == 3 then (if r == 4 || r == 2 then Red else Yellow)
            else if c == 4 then (if r == 2 then Yellow else if r >= 3 then Red else Empty)
            else Empty
  {
  }

  lemma TermScore(r: int, c: int, k: nat)
    requires InBounds(r, c) && k < 4
    ensures Term(Points(FromColumns(MISJUDGED)), r, c, k) == ExpectedTerm(r, c, k)
  {
    hide FromColumns, WindowScore, Score4, At;
    var w := Window(r, c, DIRECTIONS[k].0, DIRECTIONS[k].1);
    if OnBoard(w) {
      WindowCells(w);
      if k == 0 {
        HorizontalScore(r, c);
      } else if k == 1 {
        VerticalScore(r, c);
      } else if k == 2 {
        DiagonalScore(r, c);
      } else {
        AntidiagonalScore(r, c);
      }
    }
  }

  function ExpectedRow(r: int): int {
    if r == 0 then 60 else if r == 1 then 94 else if r == 2 then 99766
    else if r == 3 then 24 else if r == 4 then -34 else 24
  }

  lemma RowScore(r: int)
    requires 0 <= r < ROWS
    ensures RowSum(Points(FromColumns(MISJUDGED)), r, COLS) == ExpectedRow(r)
  {
    hide FromColumns, Term, MISJUDGED;
    RowSumByDirection(Points(FromColumns(MISJUDGED)), r);
    forall c, k | 0 <= c < COLS && 0 <= k < 4
      ensures Term(Points(FromColumns(MISJUDGED)), r, c, k) == ExpectedTerm(r, c, k)
    {
      TermScore(r, c, k);
    }
  }

  lemma MisjudgedScore()
    ensures Evaluate(FromColumns(MISJUDGED)) == 99934
  {
    hide FromColumns, RowSum, MISJUDGED;
    var m := Points(FromColumns(MISJUDGED));
    for r := 0 to ROWS
      invariant SumAbove(m, r) == if r == 0 then 0 else if r == 1 then 60 else if r == 2 then 154
                                  else if r == 3 then 99920 else if r == 4 then 99944
                                  else if r == 5 then 99910 else 99934
    {
      RowScore(r);
    }
  }

  lemma MisjudgedFours()
    ensures HasFour(FromColumns(MISJUDGED), AI) && !HasFour(FromColumns(MISJUDGED), HUMAN)
  {
    assert Four(FromColumns(MISJUDGED), Window(2, 4, 1, -1), AI);
    assert forall w: Window :: !Four(FromColumns(MISJUDGED), w, HUMAN);
  }

  // ---------- The AI's choices on the way there ----------

  lemma BlockingOpen()
    ensures var ms := OpenColumns(FromColumns(BLOCKING)); 0 < |ms| < COLS
  {
    hide FromColumns, OpenColumns, BLOCKING;
    RootEnds();
    RootHasRoom(9, 3);
    RootHasRoom(9, 6);
    OpenColumn(BLOCKING, 3);
    OpenColumn(BLOCKING, 6);
    assert 6 in OpenColumns(FromColumns(BLOCKING));
  }

  lemma RootEnds()
    ensures |RootGame()| == 12 && RootGame()[9] == BLOCKING && RootGame()[11] == ROOT
    ensures |ROOT_MOVES| == 11 && ROOT_MOVES[1] == ROOT_MOVES[3] == ROOT_MOVES[5] == ROOT_MOVES[7] == 3
    ensures ROOT_MOVES[9] == 4
  {
  }

  lemma BlockingWins(c: int, p: Player)
    requires 0 <= c < COLS
    ensures Open(FromColumns(BLOCKING), c) <==> c != 3
    ensures c != 3 ==> (WinsAt(FromColumns(BLOCKING), c, p) <==> p == HUMAN && c == 4)
  {
    hide FromColumns, HasFour, WinsAt, BLOCKING, RootGame, ROOT_MOVES;
    RootEnds();
    RootHasRoom(9, c);
    OpenColumn(BLOCKING, c);
    if c != 3 {
      RootIsGame();
      RootHasNoFours();
      RootHasRoom(11, 6);
      EarlierPositions(HUMAN, RootGame(), ROOT_MOVES, 9);
      WinsOnColumns(BLOCKING, c, p);
      if p == HUMAN {
        BlockingFours(c);
      } else {
        BlockingAIFours(c);
      }
    }
  }

  /** With column 3 full the AI looks for wins and blocks the only one the human has. */
  lemma BlockingChoice()
    ensures BestMove(FromColumns(BLOCKING)) == 4
  {
    hide FromColumns, WinsAt, BestMove, OpenColumns;
    var b := FromColumns(BLOCKING);
    BlockingOpen();
    BestMoveRules(b);
    BlockingWins(4, HUMAN);
    forall c | 0 <= c < COLS && Open(b, c)
      ensures !WinsAt(b, c, AI)
    {
      BlockingWins(c, AI);
    }
    BlockingWins(BestMove(b), HUMAN);
  }

  lemma RootChoices(k: nat)
    requires k < 11 && MoverAt(HUMAN, k) == AI
    ensures BestMove(FromColumns(RootGame()[k])) == ROOT_MOVES[k]
  {
    hide FromColumns, BestMove, BLOCKING, RootGame, ROOT_MOVES;
    RootEnds();
    if k == 9 {
      BlockingChoice();
    } else {
      forall c | 0 <= c < COLS
        ensures HasRoom(RootGame()[k], c)
      {
        RootHasRoom(k, c);
      }
      CentreWhileOpen(RootGame()[k]);
      assert k == 1 || k == 3 || k == 5 || k == 7;
    }
  }

  lemma RootComesUp()
    ensures ComesUp(ROOT, AI)
  {
    hide FromColumns, BestMove, RootGame, ROOT_MOVES, NoFours, IsGame, ComesUp;
    RootEnds();
    RootIsGame();
    RootHasNoFours();
    RootHasRoom(11, 6);
    forall k | 0 <= k < 11 && MoverAt(HUMAN, k) == AI
      ensures BestMove(FromColumns(RootGame()[k])) == ROOT_MOVES[k]
    {
      RootChoices(k);
    }
    GameComesUp(HUMAN, RootGame(), ROOT_MOVES, 11);
  }

  lemma RootWins(c: int, p: Player)
    requires 0 <= c < COLS
    ensures Open(FromColumns(ROOT), c) <==> c != 3
    ensures c != 3 ==> !WinsAt(FromColumns(ROOT), c, p)
  {
    hide FromColumns, HasFour, WinsAt, ROOT, RootGame;
    RootEnds();
    RootHasRoom(11, c);
    OpenColumn(ROOT, c);
    if c != 3 {
      RootHasNoFours();
      WinsOnColumns(ROOT, c, p);
      RootFours(c, p);
    }
  }

  /** Here the AI neither has nor has to stop a win at once, and not all columns are open: it searches. */
  lemma RootIsSearched()
    ensures var b := FromColumns(ROOT); 0 < |OpenColumns(b)| < COLS && !CanWin(b, AI) && !CanWin(b, HUMAN)
  {
    hide FromColumns, WinsAt, OpenColumns;
    var b := FromColumns(ROOT);
    RootWins(3, AI);
    RootWins(6, AI);
    assert 6 in OpenColumns(b);
    forall c, p: Player | 0 <= c < COLS && Open(b, c)
      ensures !WinsAt(b, c, p)
    {
      RootWins(c, p);
    }
  }

  // ---------- The search comes to the won board ----------

  lemma QuietBoard(cols: Columns)
    requires NoFours(cols)
    ensures !Terminal(Evaluate, FromColumns(cols))
  {
    hide Evaluate, FromColumns, HasFour;
    EvaluationBounds(FromColumns(cols));
  }

  /** With the centre full, column 2 is tried first. */
  lemma SecondColumnFirst(b: Grid)
    requires !Open(b, 3) && Open(b, 2)
    ensures ListsMoves(b, CentreFirst(b)) && CentreFirst(b) != [] && CentreFirst(b)[0] == 2
  {
    hide OpenColumns, SortByCentre;
    CentreFirstIsValid();
    SortInOrder(OpenColumns(b));
    var s := CentreFirst(b);
    assert ListsMoves(b, s);
    var i :| 0 <= i < |s| && s[i] == 2;
    assert s[0] in s;
    assert i > 0 ==> Before(s[0], 2);
  }

  lemma BelowRoot(c: int)
    requires 0 <= c < COLS
    ensures Open(FromColumns(REPLY_TO), c) <==> c != 3
    ensures Open(FromColumns(REPLIED), c) <==> c != 3
  {
    hide FromColumns;
    OpenColumn(REPLY_TO, c);
    OpenColumn(REPLIED, c);
  }

  /** The human's reply in column 2 comes first, and the AI's search below it leaves out no move. */
  lemma MisjudgedIsVisited()
    ensures ValidOrder(CentreFirst)
    ensures Visits(Evaluate, CentreFirst, FromColumns(REPLY_TO), REPLY_DEPTH, NegInf, PosInf, false, [2, 1])
  {
    hide FromColumns, Evaluate, NoFours, CentreFirst, AlphaBeta, REPLY_TO, REPLIED;
    CentreFirstIsValid();
    EvaluateFacts();
    RootHasNoFours();
    QuietBoard(REPLY_TO);
    QuietBoard(REPLIED);
    SearchPath();
    DropOnColumns(REPLY_TO, 2, HUMAN);
    BelowRoot(1);
    BelowRoot(2);
    BelowRoot(3);
    var b, b' := FromColumns(REPLY_TO), FromColumns(REPLIED);
    assert 2 in OpenColumns(b) && 2 in OpenColumns(b');
    SecondColumnFirst(b);
    assert ListsMoves(b', CentreFirst(b'));
    UnboundedTriesAll(Evaluate, WINDOW_COUNT * WINDOW_LIMIT, CentreFirst, b', CentreFirst(b'),
                      REPLY_DEPTH - 2, NegInf, 1);
    assert [2, 1][1..] == [1];
    assert Visits(Evaluate, CentreFirst, b', REPLY_DEPTH - 1, NegInf, PosInf, true, [1]);
  }

  /** In a position of the running program in which the AI searches, the search comes to a board on which the
      AI has a four and the human has none, and does not take it for the end: its score is below the threshold. */
  lemma WonBoardNotSeen()
    ensures ComesUp(ROOT, AI)
    ensures var b := FromColumns(ROOT);
            && 0 < |OpenColumns(b)| < COLS && !CanWin(b, AI) && !CanWin(b, HUMAN)
            && Open(b, 2) && Drop(b, 2, AI) == FromColumns(REPLY_TO)
    ensures ValidOrder(CentreFirst)
    ensures Visits(Evaluate, CentreFirst, FromColumns(REPLY_TO), REPLY_DEPTH, NegInf, PosInf, false, [2, 1])
    ensures Open(FromColumns(REPLY_TO), 2) && Drop(FromColumns(REPLY_TO), 2, HUMAN) == FromColumns(REPLIED)
    ensures Open(FromColumns(REPLIED), 1) && Drop(FromColumns(REPLIED), 1, AI) == FromColumns(MISJUDGED)
    ensures HasFour(FromColumns(MISJUDGED), AI) && !HasFour(FromColumns(MISJUDGED), HUMAN)
    ensures Fours(FromColumns(MISJUDGED), AI) == 1 && Heuristic(FromColumns(MISJUDGED)) == -66
    ensures Evaluate(FromColumns(MISJUDGED)) == 99934 && !Terminal(Evaluate, FromColumns(MISJUDGED))
  {
    hide FromColumns, Evaluate, HasFour, Visits, OpenColumns, ComesUp, Drop, WinsAt;
    RootComesUp();
    RootIsSearched();
    SearchPath();
    DropOnColumns(ROOT, 2, AI);
    DropOnColumns(REPLY_TO, 2, HUMAN);
    DropOnColumns(REPLIED, 1, AI);
    MisjudgedIsVisited();
    MisjudgedFours();
    MisjudgedScore();
    MisjudgedTerms();
  }

  lemma MisjudgedTerms()
    ensures Fours(FromColumns(MISJUDGED), AI) == 1 && Heuristic(FromColumns(MISJUDGED)) == -66
  {
    hide FromColumns, Evaluate, HasFour, Fours, Heuristic;
    MisjudgedFours();
    MisjudgedScore();
    FoursIffHasFour(FromColumns(MISJUDGED), HUMAN);
    WholeBoardBound(FromColumns(MISJUDGED));
  }
}
