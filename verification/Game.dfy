/** The game object: the page's variables and its event handlers, each proved to take the step
    of the state machine in GameModel. */
module Game {
  import opened Wrappers
  import opened Board
  import opened WinCheck
  import opened Strategy
  import opened Engine
  import opened GameModel

  lemma BlankCells()
    ensures forall r, c :: InBounds(r, c) ==> Blank()[r][c] == Empty
  {
  }

  class ConnectFour {
    var grid: array2<Cell>
    var current: Player
    var gameOver: bool
    var aiThinking: bool
    var aiToken: int
    var scores: Scores
    // the browser's side: callbacks that are set and have not fired
    ghost var pending: multiset<int>
    // history: who began the current game
    ghost var starter: Player

    /** The state-machine state this object stands for. */
    ghost function Abs(): State
      requires IsGrid(grid)
      reads this, grid
    {
      State(Snap(grid), current, gameOver, aiThinking, aiToken, pending, scores, starter)
    }

    /** What holds between events. */
    ghost predicate Valid()
      reads this, grid
    {
      IsGrid(grid) && Inv(Abs())
    }

    constructor ()
      ensures Valid() && fresh(grid)
      ensures Abs() == Init()
    {
      grid := new Cell[ROWS, COLS]((_, _) => Empty);
      current, gameOver, aiThinking, aiToken, scores := HUMAN, false, false, 0, Scores(0, 0);
      pending, starter := multiset{}, HUMAN;
      new;
      hide Inv, Blank;
      BlankCells();
      GridsEqual(Snap(grid), Blank());
      assert Abs() == Init();
      InitInv();
    }

    method CreateBoard()
      modifies this`grid
      ensures IsGrid(grid) && fresh(grid) && Snap(grid) == Blank()
    {
      grid := new Cell[ROWS, COLS]((_, _) => Empty);
      GridsEqual(Snap(grid), Blank());
    }

    method IsDraw() returns (full: bool)
      requires IsGrid(grid)
      ensures full == TopRowFull(Snap(grid))
    {
      for c := 0 to COLS
        invariant forall k :: 0 <= k < c ==> Snap(grid)[0][k] != Empty
      {
        assert InBounds(0, c);
        if grid[0, c] == Empty {
          return false;
        }
      }
      full := true;
    }

    /** The AI starts thinking: a new token, and a callback that carries it. */
    method AiMove()
      requires IsGrid(grid)
      modifies this`aiThinking, this`aiToken, this`pending
      ensures Abs() == StartThinking(old(Abs()))
    {
      aiThinking := true;
      aiToken := aiToken + 1;
      pending := pending + multiset{aiToken};
    }

    method FinishTurn(player: Player, line: Option<seq<(int, int)>>)
      requires IsGrid(grid)
      modifies this`gameOver, this`scores, this`current, this`aiThinking, this`aiToken, this`pending
      ensures Abs() == EndTurn(old(Abs()), player, line.Some?)
    {
      if line.Some? {
        gameOver := true;
        scores := scores.Win(player);
      } else {
        var draw := IsDraw();
        if draw {
          gameOver := true;
        } else {
          current := if current == HUMAN then AI else HUMAN;
          if current == AI {
            AiMove();
          }
        }
      }
    }

    /** The shared tail of a human and a computer move: the disc lands, the lines through it are checked,
        and the turn ends. */
    method PlaceAndFinish(c: int, player: Player)
      requires IsGrid(grid) && 0 <= c < COLS && Open(Snap(grid), c)
      modifies this`gameOver, this`scores, this`current, this`aiThinking, this`aiToken, this`pending, grid
      ensures Abs() == Play(old(Abs()), c, player)
    {
      hide LineThrough, DropRow, TopRowFull;
      var r := DropRowOf(grid, c);
      SetCell(grid, r, c, player);
      var line := CheckWin(grid, r, c, player);
      FinishTurn(player, line);
    }

    method OnColumnClick(c: int)
      requires Valid() && 0 <= c < COLS
      modifies this, grid
      ensures Valid() && grid == old(grid)
      ensures Abs() == Step(old(Abs()), Click(c))
    {
      hide Inv, Play;
      StepKeepsInv(Abs(), Click(c));
      assert InBounds(0, c);
      if gameOver || aiThinking || current != HUMAN || grid[0, c] != Empty {
        return;
      }
      PlaceAndFinish(c, HUMAN);
    }

    /** A pending callback fires. */
    method OnTimer(token: int)
      requires Valid() && token in pending
      modifies this, grid
      ensures Valid() && grid == old(grid)
      ensures Abs() == Step(old(Abs()), Timer(token))
    {
      hide Inv, Play, BestMove;
      StepKeepsInv(Abs(), Timer(token));
      pending := pending - multiset{token};
      if token != aiToken {
        return;
      }
      BestMoveRules(Snap(grid));
      var c := ChooseColumn(grid);
      if c < 0 {
        aiThinking := false;
        return;
      }
      aiThinking := false;
      PlaceAndFinish(c, AI);
    }

    /** A new game; `first` is the outcome of the coin toss. */
    method OnNewGame(first: Player)
      requires Valid()
      modifies this
      ensures Valid() && fresh(grid)
      ensures Abs() == Step(old(Abs()), NewGame(first))
    {
      hide Inv;
      StepKeepsInv(Abs(), NewGame(first));
      gameOver := false;
      aiThinking := false;
      aiToken := aiToken + 1;
      current := first;
      starter := first;
      CreateBoard();
      if current == AI {
        AiMove();
      }
    }

    method OnResetScores()
      requires Valid()
      modifies this`scores
      ensures Valid()
      ensures Abs() == Step(old(Abs()), ResetScores)
    {
      hide Inv;
      StepKeepsInv(Abs(), ResetScores);
      scores := Scores(0, 0);
    }
  }
}
