/** What holds over whole runs of the game. */
module GameTheorems {
  import opened Board
  import opened WinCheck
  import opened Search
  import opened Strategy
  import opened GameModel

  function Discs(b: Grid): int {
    Count(b, HUMAN) + Count(b, AI)
  }

  // ---------- Reachable states ----------

  /** Some sequence of events leads from a new page to this state. */
  ghost predicate Reachable(s: State) {
    exists es: seq<Event> :: s == Run(Init(), es)
  }

  lemma ReachableInv(s: State)
    requires Reachable(s)
    ensures Inv(s)
  {
    hide Run, Init, Inv;
    var es: seq<Event> :| s == Run(Init(), es);
    InitInv();
    RunKeepsInv(Init(), es);
  }

  /** While play goes on nobody has four and some column is open. At most one player ever has a
      four, and then the game is over and that player moved last. The game is over exactly when
      there is a four or the top row is full. */
  lemma OutcomeReachable(s: State)
    requires Reachable(s)
    ensures !s.gameOver ==> !HasFour(s.grid, HUMAN) && !HasFour(s.grid, AI) && OpenColumns(s.grid) != []
    ensures !(HasFour(s.grid, HUMAN) && HasFour(s.grid, AI))
    ensures forall p: Player :: HasFour(s.grid, p) ==> s.gameOver && s.current == p
    ensures s.gameOver <==> HasFour(s.grid, HUMAN) || HasFour(s.grid, AI) || TopRowFull(s.grid)
  {
    hide HasFour, TopRowFull, OpenColumns, Count, Stacked, Reachable;
    ReachableInv(s);
    NoOpenColumn(s.grid);
  }

  /** The AI is thinking exactly on its own turn of a running game, and exactly when one pending
      callback carries the current token; every other pending token is older, and its callback changes
      nothing but the set of pending callbacks. */
  lemma ProtocolReachable(s: State)
    requires Reachable(s)
    ensures s.aiThinking <==> s.current == AI && !s.gameOver
    ensures s.pending[s.aiToken] == if s.aiThinking then 1 else 0
    ensures forall t :: t in s.pending && t != s.aiToken ==>
                          t < s.aiToken && Step(s, Timer(t)) == s.(pending := s.pending - multiset{t})
  {
    hide HasFour, TopRowFull, Count, Stacked, Reachable;
    ReachableInv(s);
  }

  /** Columns are gap-free stacks on which the landing-row scan, the open-column test and the draw test
      agree with heights and fullness; the disc counts differ by at most one, and the side to
      move follows from the starter and the parity of the number of discs. */
  lemma BoardReachable(s: State)
    requires Reachable(s)
    ensures Stacked(s.grid)
    ensures forall c :: 0 <= c < COLS ==> DropRow(s.grid, c) == ROWS - 1 - Height(s.grid, c)
    ensures forall c :: 0 <= c < COLS ==> (Open(s.grid, c) <==> Height(s.grid, c) < ROWS)
    ensures TopRowFull(s.grid) <==> Discs(s.grid) == ROWS * COLS
    ensures -1 <= Count(s.grid, HUMAN) - Count(s.grid, AI) <= 1
    ensures !s.gameOver ==> s.current == if Discs(s.grid) % 2 == 0 then s.starter else Other(s.starter)
    ensures s.gameOver ==> s.current == if Discs(s.grid) % 2 == 1 then s.starter else Other(s.starter)
  {
    hide HasFour, TopRowFull, Count, Stacked, Reachable, Open, DropRow, Height;
    ReachableInv(s);
    CountTotal(s.grid);
    forall c | 0 <= c < COLS
      ensures DropRow(s.grid, c) == ROWS - 1 - Height(s.grid, c) && (Open(s.grid, c) <==> Height(s.grid, c) < ROWS)
    {
      StackHeights(s.grid, c);
    }
  }

  // ---------- Single steps ----------

  /** A step other than a new game leaves the board alone or drops one disc of the player to move
      into an open column of a running game: the human by clicking that column, the AI by the
      live callback, in the column it chose. */
  lemma StepBoard(s: State, e: Event)
    requires Inv(s) && !e.NewGame?
    ensures Step(s, e).grid == s.grid ||
            (!s.gameOver &&
             exists c :: 0 <= c < COLS && Open(s.grid, c) && Step(s, e).grid == Drop(s.grid, c, s.current) &&
                         if s.current == HUMAN then e == Click(c) else e == Timer(s.aiToken) && c == BestMove(s.grid))
    ensures Step(s, e).starter == s.starter
  {
    hide BestMove, HasFour, LineThrough, TopRowFull, Count, Stacked, Put, DropRow;
    if e.Timer? && e.token in s.pending && e.token == s.aiToken {
      LiveCallbackPlays(s);
    }
  }

  /** The live callback finds a column, ends the thinking and uses up its token. */
  lemma LiveCallbackOnce(s: State)
    requires Inv(s) && s.aiThinking
    ensures 0 <= BestMove(s.grid) < COLS && Open(s.grid, BestMove(s.grid))
    ensures var t := Step(s, Timer(s.aiToken));
            && t.grid == Drop(s.grid, BestMove(s.grid), AI)
            && !t.aiThinking && s.aiToken !in t.pending && t.aiToken == s.aiToken
            && (t.gameOver || t.current == HUMAN)
  {
    hide BestMove, HasFour, LineThrough, TopRowFull, Count, Stacked, Put, DropRow;
    LiveCallbackPlays(s);
  }

  /** However many callbacks fire in a row, in whatever order, the AI drops at most one disc. */
  lemma {:induction false} CallbacksPlaceAtMostOne(s: State, es: seq<Event>)
    requires Inv(s) && forall i :: 0 <= i < |es| ==> es[i].Timer?
    ensures var t := Run(s, es);
            t.grid == s.grid || (s.aiThinking && t.grid == Step(s, Timer(s.aiToken)).grid && !t.aiThinking)
    ensures Run(s, es).grid == s.grid ==> Run(s, es) == s.(pending := Run(s, es).pending)
  {
    hide Inv, Step, Drop;
    if es != [] {
      var front, e := es[..|es| - 1], es[|es| - 1];
      CallbacksPlaceAtMostOne(s, front);
      RunKeepsInv(s, front);
      var m := Run(s, front);
      TimerStep(m, e.token);
      if m.grid == s.grid {
        SameChoice(s, m);
        TimerStep(s, s.aiToken);
      }
    }
  }

  lemma TimerStep(s: State, token: int)
    requires Inv(s)
    ensures var t := Step(s, Timer(token));
            if s.aiThinking && token == s.aiToken then
              t.grid == Drop(s.grid, LiveColumn(s), AI) && t.grid != s.grid && !t.aiThinking
            else t == s.(pending := t.pending)
  {
    hide BestMove, HasFour, LineThrough, TopRowFull, Count, Stacked;
    if s.aiThinking && token == s.aiToken {
      LiveCallbackOnce(s);
      DropChanges(s.grid, LiveColumn(s), AI);
    }
  }

  ghost function LiveColumn(s: State): (c: int)
    ensures 0 <= c < COLS
    ensures Inv(s) && s.aiThinking ==> Open(s.grid, c) && c == BestMove(s.grid)
  {
    hide BestMove, HasFour, LineThrough, TopRowFull, Count, Stacked;
    if Inv(s) && s.aiThinking then LiveCallbackOnce(s); BestMove(s.grid) else 0
  }

  lemma SameChoice(s: State, m: State)
    requires Inv(s) && Inv(m) && m == s.(pending := m.pending)
    ensures LiveColumn(m) == LiveColumn(s)
  {
  }

  lemma DropChanges(b: Grid, c: int, p: Player)
    requires 0 <= c < COLS && Open(b, c)
    ensures Drop(b, c, p) != b && Count(Drop(b, c, p), Empty) == Count(b, Empty) - 1
  {
    CountPut(b, DropRow(b, c), c, p, Empty);
    assert Drop(b, c, p)[DropRow(b, c)][c] == p;
  }

  /** On the human's turn a click on a column with room drops a red disc there. */
  lemma ClickPlays(s: State, c: int)
    requires Inv(s) && !s.gameOver && s.current == HUMAN && 0 <= c < COLS && Open(s.grid, c)
    ensures Step(s, Click(c)).grid == Drop(s.grid, c, Red)
  {
    hide HasFour, LineThrough, TopRowFull, Count, Stacked, Put, DropRow;
  }

  /** A new game starts on an empty board with the starter to move and the scores as they were. */
  lemma NewGameStarts(s: State, starter: Player)
    ensures var t := Step(s, NewGame(starter));
            && (forall r, c :: InBounds(r, c) ==> t.grid[r][c] == Empty)
            && t.current == starter && t.starter == starter && !t.gameOver && t.scores == s.scores
            && (t.aiThinking <==> starter == AI)
            && (t.aiThinking ==> t.aiToken in t.pending) && (forall k :: k in s.pending ==> k in t.pending)
  {
  }

  // ---------- What the AI takes and what it misses ----------

  /** While all columns are open, every disc of the AI is in the centre column. */
  ghost predicate AIInCentre(b: Grid) {
    (forall c :: 0 <= c < COLS ==> Open(b, c)) ==> forall r, c :: Is(b, r, c, AI) ==> c == 3
  }

  lemma DropCell(b: Grid, c: int, p: Player, i: int, k: int, q: Player)
    requires 0 <= c < COLS && Open(b, c)
    ensures Is(Drop(b, c, p), i, k, q) <==> if i == DropRow(b, c) && k == c then q == p else Is(b, i, k, q)
  {
  }

  /** A drop keeps this: with all columns open after it they were open before, and then the AI plays the centre. */
  lemma DropKeepsCentre(b: Grid, c: int, p: Player)
    requires AIInCentre(b) && 0 <= c < COLS && Open(b, c) && (p == AI ==> c == BestMove(b))
    ensures AIInCentre(Drop(b, c, p))
  {
    hide BestMove, OpenColumns, Drop, Is;
    BestMoveRules(b);
    var g := Drop(b, c, p);
    if forall k :: 0 <= k < COLS ==> Open(g, k) {
      forall k | 0 <= k < COLS
        ensures Open(b, k)
      {
        assert Open(g, k);
        OpenBefore(b, c, p, k);
      }
      forall i, k | Is(g, i, k, AI)
        ensures k == 3
      {
        DropCell(b, c, p, i, k, AI);
      }
    }
  }

  lemma OpenBefore(b: Grid, c: int, p: Player, k: int)
    requires 0 <= c < COLS && Open(b, c) && 0 <= k < COLS && Open(Drop(b, c, p), k)
    ensures Open(b, k)
  {
  }

  lemma StepKeepsCentre(s: State, e: Event)
    requires Inv(s) && AIInCentre(s.grid)
    ensures AIInCentre(Step(s, e).grid)
  {
    if e.NewGame? {
      return;
    }
    hide Step, Inv, BestMove, Drop, AIInCentre;
    StepBoard(s, e);
    if Step(s, e).grid != s.grid {
      var c :| 0 <= c < COLS && Open(s.grid, c) && Step(s, e).grid == Drop(s.grid, c, s.current) &&
               if s.current == HUMAN then e == Click(c) else e == Timer(s.aiToken) && c == BestMove(s.grid);
      DropKeepsCentre(s.grid, c, s.current);
    }
  }

  lemma {:induction false} RunKeepsCentre(s: State, es: seq<Event>)
    requires Inv(s) && AIInCentre(s.grid)
    ensures AIInCentre(Run(s, es).grid)
  {
    hide Inv, Step, AIInCentre;
    if es != [] {
      RunKeepsCentre(s, es[..|es| - 1]);
      RunKeepsInv(s, es[..|es| - 1]);
      StepKeepsCentre(Run(s, es[..|es| - 1]), es[|es| - 1]);
    }
  }

  lemma ReachableCentre(s: State)
    requires Reachable(s)
    ensures AIInCentre(s.grid)
  {
    var es: seq<Event> :| s == Run(Init(), es);
    InitInv();
    hide Run, Inv;
    RunKeepsCentre(Init(), es);
  }

  /** No line of the AI's goes through a new disc beside the centre column while its others are all in it. */
  lemma OnlyCentreWins(b: Grid, c: int)
    requires (forall r, k :: Is(b, r, k, AI) ==> k == 3) && 0 <= c < COLS && Open(b, c) && WinsAt(b, c, AI)
    ensures c == 3
  {
    var r := DropRow(b, c);
    var g := Drop(b, c, AI);
    forall i, k | Is(g, i, k, AI)
      ensures k == 3 || (i == r && k == c)
    {
      DropCell(b, c, AI, i, k, AI);
    }
  }

  /** In the game as it is played, the AI takes every win that is on offer. */
  lemma TakesEveryWin(s: State)
    requires Reachable(s) && CanWin(s.grid, AI)
    ensures 0 <= BestMove(s.grid) < COLS && Open(s.grid, BestMove(s.grid)) && WinsAt(s.grid, BestMove(s.grid), AI)
  {
    hide Reachable, BestMove, WinsAt, OpenColumns;
    ReachableCentre(s);
    TakesWinExactly(s.grid);
    var c :| 0 <= c < COLS && Open(s.grid, c) && WinsAt(s.grid, c, AI);
    if |OpenColumns(s.grid)| == COLS {
      OnlyCentreWins(s.grid, c);
    }
  }

  // ---------- Termination ----------

  /** How many steps of the run put a disc on the board. */
  ghost function Placements(s: State, es: seq<Event>): nat {
    if es == [] then 0
    else
      var before := Run(s, es[..|es| - 1]);
      Placements(s, es[..|es| - 1]) + if Step(before, es[|es| - 1]).grid != before.grid then 1 else 0
  }

  /** Within one game every placement takes one empty cell, so there are at most ROWS * COLS of them. */
  lemma {:induction false} PlacementsBounded(s: State, es: seq<Event>)
    requires Inv(s) && forall i :: 0 <= i < |es| ==> !es[i].NewGame?
    ensures Placements(s, es) + Count(Run(s, es).grid, Empty) == Count(s.grid, Empty)
    ensures Placements(s, es) <= ROWS * COLS
  {
    hide Inv, Step, Drop, Count;
    if es != [] {
      var front, e := es[..|es| - 1], es[|es| - 1];
      PlacementsBounded(s, front);
      RunKeepsInv(s, front);
      var m := Run(s, front);
      StepBoard(m, e);
      if Step(m, e).grid != m.grid {
        var c :| 0 <= c < COLS && Open(m.grid, c) && Step(m, e).grid == Drop(m.grid, c, m.current);
        DropChanges(m.grid, c, m.current);
      }
    }
    CountTotal(s.grid);
  }

  /** A running game is never stuck: a click on some open column, or the live callback,
      puts the next disc on the board. */
  lemma NeverStuck(s: State)
    requires Inv(s) && !s.gameOver
    ensures exists e: Event :: (e.Click? || (e.Timer? && e.token in s.pending)) && Step(s, e).grid != s.grid
  {
    hide BestMove, HasFour, LineThrough, Count, Stacked;
    if s.current == HUMAN {
      NoOpenColumn(s.grid);
      var c := OpenColumns(s.grid)[0];
      assert c in OpenColumns(s.grid);
      DropChanges(s.grid, c, HUMAN);
      assert Step(s, Click(c)).grid != s.grid;
    } else {
      LiveCallbackOnce(s);
      DropChanges(s.grid, BestMove(s.grid), AI);
      assert Step(s, Timer(s.aiToken)).grid != s.grid;
    }
  }

  // ---------- Scores ----------

  /** The step completes a four for `p` where there was none. */
  ghost predicate Wins(s: State, e: Event, p: Player) {
    !HasFour(s.grid, p) && HasFour(Step(s, e).grid, p)
  }

  ghost function WinsIn(s: State, es: seq<Event>, p: Player): nat {
    if es == [] then 0
    else WinsIn(s, es[..|es| - 1], p) + if Wins(Run(s, es[..|es| - 1]), es[|es| - 1], p) then 1 else 0
  }

  lemma ScoreStep(s: State, e: Event, p: Player)
    requires Inv(s) && !e.ResetScores?
    ensures Step(s, e).scores.Of(p) == s.scores.Of(p) + if Wins(s, e, p) then 1 else 0
    ensures Wins(s, e, p) ==> !s.gameOver && s.current == p && Step(s, e).gameOver
  {
    hide BestMove, HasFour, LineThrough, TopRowFull, Count, Stacked, Put, DropRow, Blank;
    match e
    case Click(c) =>
      if 0 <= c < COLS && !s.gameOver && !s.aiThinking && s.current == HUMAN && Open(s.grid, c) {
        LocalEqualsGlobal(s.grid, DropRow(s.grid, c), c, HUMAN);
        OtherFourUnchanged(s.grid, DropRow(s.grid, c), c, HUMAN, AI);
      }
    case Timer(token) =>
      if token in s.pending && token == s.aiToken {
        LiveCallbackPlays(s);
        var c := BestMove(s.grid);
        LocalEqualsGlobal(s.grid, DropRow(s.grid, c), c, AI);
        OtherFourUnchanged(s.grid, DropRow(s.grid, c), c, AI, HUMAN);
      }
    case NewGame(starter) =>
      BlankFacts(p);
  }

  /** Between resets each player's score is exactly the number of games that player won. */
  lemma {:induction false} ScoresCountWins(s: State, es: seq<Event>, p: Player)
    requires Inv(s) && forall i :: 0 <= i < |es| ==> !es[i].ResetScores?
    ensures Run(s, es).scores.Of(p) == s.scores.Of(p) + WinsIn(s, es, p)
  {
    hide Inv, Step, Wins;
    if es != [] {
      var front := es[..|es| - 1];
      ScoresCountWins(s, front, p);
      RunKeepsInv(s, front);
      ScoreStep(Run(s, front), es[|es| - 1], p);
    }
  }

  /** After a reset each player's score is the number of games won since. */
  lemma ScoresSinceReset(s: State, es: seq<Event>, p: Player)
    requires Inv(s) && forall i :: 0 <= i < |es| ==> !es[i].ResetScores?
    ensures Run(Step(s, ResetScores), es).scores.Of(p) == WinsIn(Step(s, ResetScores), es, p)
  {
    hide Inv, WinsIn, Run;
    StepKeepsInv(s, ResetScores);
    ScoresCountWins(Step(s, ResetScores), es, p);
  }

  /** On a new page the human is to move on an empty board, and each score is the number of games won since. */
  lemma NewPage(es: seq<Event>, p: Player)
    ensures var s := Init();
            && (forall r, c :: InBounds(r, c) ==> s.grid[r][c] == Empty)
            && s.current == Red && !s.gameOver && !s.aiThinking && s.pending == multiset{}
    ensures (forall i :: 0 <= i < |es| ==> !es[i].ResetScores?) ==>
              Run(Init(), es).scores.Of(p) == WinsIn(Init(), es, p)
  {
    InitInv();
    if forall i :: 0 <= i < |es| ==> !es[i].ResetScores? {
      ScoresCountWins(Init(), es, p);
    }
  }
}
