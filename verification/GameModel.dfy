/** The game as a state machine over its events: clicks, timer callbacks (which may be stale),
    new games and score resets, interleaved in any order. */
module GameModel {
  import opened Board
  import opened WinCheck
  import opened Search
  import opened Strategy

  datatype Scores = Scores(human: nat, ai: nat) {
    function Of(p: Player): nat {
      if p == HUMAN then human else ai
    }

    function Win(p: Player): Scores {
      if p == HUMAN then this.(human := human + 1) else this.(ai := ai + 1)
    }
  }

  /** `pending` holds the tokens of the timer callbacks that have not fired yet; `starter` is
      history: who began the current game. */
  datatype State = State(grid: Grid, current: Player, gameOver: bool, aiThinking: bool, aiToken: int,
                         pending: multiset<int>, scores: Scores, starter: Player)

  datatype Event = Click(c: int) | Timer(token: int) | NewGame(starter: Player) | ResetScores

  function Init(): State {
    State(Blank(), HUMAN, false, false, 0, multiset{}, Scores(0, 0), HUMAN)
  }

  function StartThinking(s: State): State {
    s.(aiThinking := true, aiToken := s.aiToken + 1, pending := s.pending + multiset{s.aiToken + 1})
  }

  function EndTurn(s: State, player: Player, won: bool): State {
    if won then s.(gameOver := true, scores := s.scores.Win(player))
    else if TopRowFull(s.grid) then s.(gameOver := true)
    else
      var next := s.(current := Other(s.current));
      if next.current == AI then StartThinking(next) else next
  }

  function Play(s: State, c: int, player: Player): State
    requires 0 <= c < COLS && Open(s.grid, c)
  {
    var r := DropRow(s.grid, c);
    var g := Put(s.grid, r, c, player);
    EndTurn(s.(grid := g), player, LineThrough(g, r, c, player))
  }

  function OnClick(s: State, c: int): State
    requires 0 <= c < COLS
  {
    if s.gameOver || s.aiThinking || s.current != HUMAN || !Open(s.grid, c) then s
    else Play(s, c, HUMAN)
  }

  /** The callback with this token fires, if one is pending. */
  ghost function OnTimer(s: State, token: int): State {
    if token !in s.pending then s
    else
      var fired := s.(pending := s.pending - multiset{token});
      if token != s.aiToken then fired
      else
        BestMoveRules(s.grid);
        var c := BestMove(s.grid);
        if c < 0 then fired.(aiThinking := false)
        else Play(fired.(aiThinking := false), c, AI)
  }

  function OnNewGame(s: State, starter: Player): State {
    var begun := s.(gameOver := false, aiThinking := false, aiToken := s.aiToken + 1,
                    current := starter, grid := Blank(), starter := starter);
    if starter == AI then StartThinking(begun) else begun
  }

  ghost function Step(s: State, e: Event): State {
    match e
    case Click(c) => if 0 <= c < COLS then OnClick(s, c) else s
    case Timer(token) => OnTimer(s, token)
    case NewGame(starter) => OnNewGame(s, starter)
    case ResetScores => s.(scores := Scores(0, 0))
  }

  ghost function Run(s: State, es: seq<Event>): State {
    if es == [] then s else Step(Run(s, es[..|es| - 1]), es[|es| - 1])
  }

  // ---------- The invariant ----------

  /** Between events, thinking is the same as being the AI's turn in a running game, and the same as
      exactly one pending callback carrying the current token. */
  ghost predicate Protocol(s: State) {
    && (s.aiThinking <==> s.current == AI && !s.gameOver)
    && s.pending[s.aiToken] == (if s.aiThinking then 1 else 0)
    && Stale(s)
  }

  /** No pending callback carries a token from the future. */
  ghost predicate Stale(s: State) {
    forall t :: t in s.pending ==> t <= s.aiToken
  }

  /** Discs alternate from the starter on; when the game is over the last mover stays `current`. */
  ghost predicate Turns(s: State) {
    var ahead := Count(s.grid, s.starter) - Count(s.grid, Other(s.starter));
    if s.gameOver then ahead == if s.current == s.starter then 1 else 0
    else ahead == if s.current == s.starter then 0 else 1
  }

  ghost predicate Outcome(s: State) {
    if s.gameOver then
      && !HasFour(s.grid, Other(s.current))
      && (HasFour(s.grid, s.current) || TopRowFull(s.grid))
    else
      && !HasFour(s.grid, HUMAN) && !HasFour(s.grid, AI)
      && !TopRowFull(s.grid)
  }

  ghost predicate Inv(s: State) {
    Stacked(s.grid) && Turns(s) && Outcome(s) && Protocol(s)
  }

  /** One disc of the player to move, in an open column of a running game. */
  lemma PlayKeepsInv(s: State, c: int)
    requires Stacked(s.grid) && Turns(s) && Outcome(s) && !s.gameOver && !s.aiThinking
    requires Stale(s) && s.pending[s.aiToken] == 0
    requires 0 <= c < COLS && Open(s.grid, c)
    ensures Inv(Play(s, c, s.current))
  {
    hide LineThrough, HasFour, Stacked, TopRowFull;
    var p := s.current;
    var r := DropRow(s.grid, c);
    DropKeepsStacked(s.grid, c, p);
    LocalEqualsGlobal(s.grid, r, c, p);
    OtherFourUnchanged(s.grid, r, c, p, Other(p));
    CountPut(s.grid, r, c, p, p);
    CountPut(s.grid, r, c, p, Other(p));
    hide Put, Count;
    var t := Play(s, c, p);
    assert Protocol(t);
    assert Turns(t);
  }

  /** Firing the callback with the live token: the AI has a column to play and plays it. */
  lemma LiveCallbackPlays(s: State)
    requires Inv(s) && s.aiToken in s.pending
    ensures var c := BestMove(s.grid);
            && 0 <= c < COLS && Open(s.grid, c)
            && Step(s, Timer(s.aiToken)) ==
               Play(s.(pending := s.pending - multiset{s.aiToken}, aiThinking := false), c, AI)
  {
    hide BestMove, LineThrough, HasFour, TopRowFull, OpenColumns;
    NoOpenColumn(s.grid);
    BestMoveRules(s.grid);
  }

  lemma ClickKeepsInv(s: State, c: int)
    requires Inv(s) && 0 <= c < COLS
    ensures Inv(OnClick(s, c))
  {
    hide HasFour, Play, Stacked, TopRowFull, Count;
    if OnClick(s, c) != s {
      PlayKeepsInv(s, c);
    }
  }

  lemma TimerKeepsInv(s: State, token: int)
    requires Inv(s)
    ensures Inv(OnTimer(s, token))
  {
    hide BestMove, HasFour, Play, Stacked, TopRowFull, Count;
    if token in s.pending && token == s.aiToken {
      LiveCallbackPlays(s);
      var ready := s.(pending := s.pending - multiset{token}, aiThinking := false);
      PlayKeepsInv(ready, BestMove(s.grid));
    }
  }

  lemma NewGameKeepsInv(s: State, starter: Player)
    requires Inv(s)
    ensures Inv(OnNewGame(s, starter))
  {
    hide HasFour, Stacked, TopRowFull, Count, Blank;
    BlankFacts(HUMAN);
    BlankFacts(AI);
    BlankIsOpen();
  }

  lemma StepKeepsInv(s: State, e: Event)
    requires Inv(s)
    ensures Inv(Step(s, e))
  {
    match e
    case Click(c) =>
      if 0 <= c < COLS {
        ClickKeepsInv(s, c);
      }
    case Timer(token) => TimerKeepsInv(s, token);
    case NewGame(starter) => NewGameKeepsInv(s, starter);
    case ResetScores =>
  }

  lemma BlankIsOpen()
    ensures !TopRowFull(Blank())
  {
    assert Blank()[0][0] == Empty;
  }

  lemma InitInv()
    ensures Inv(Init())
  {
    BlankFacts(HUMAN);
    BlankFacts(AI);
    BlankIsOpen();
  }

  /** Every state of every run satisfies the invariant. */
  lemma {:induction false} RunKeepsInv(s: State, es: seq<Event>)
    requires Inv(s)
    ensures Inv(Run(s, es))
  {
    hide Inv;
    if es != [] {
      RunKeepsInv(s, es[..|es| - 1]);
      StepKeepsInv(Run(s, es[..|es| - 1]), es[|es| - 1]);
    }
  }
}
