/** Boards written down column by column, and games replayed on them. */
module Positions {
  import opened Board
  import opened WinCheck
  import opened Search
  import opened Strategy
  import opened GameModel
  import opened GameTheorems

  /** The discs of each column from the bottom up, 'R' for red and 'Y' for yellow. */
  type Columns = s: seq<string> | |s| == COLS && forall c :: 0 <= c < COLS ==> |s[c]| <= ROWS
    witness ["", "", "", "", "", "", ""]

  const NO_DISCS: Columns := ["", "", "", "", "", "", ""]

  function Letter(p: Player): char {
    if p == Red then 'R' else 'Y'
  }

  function CellIn(cols: Columns, r: int, c: int): Cell
    requires InBounds(r, c)
  {
    if ROWS - 1 - r >= |cols[c]| then Empty
    else if cols[c][ROWS - 1 - r] == 'R' then Red else Yellow
  }

  function FromColumns(cols: Columns): (b: Grid)
    ensures forall r, c :: InBounds(r, c) ==> b[r][c] == CellIn(cols, r, c)
  {
    seq(ROWS, r requires 0 <= r < ROWS => seq(COLS, c requires 0 <= c < COLS => CellIn(cols, r, c)))
  }

  predicate HasRoom(cols: Columns, c: int) {
    0 <= c < COLS && |cols[c]| < ROWS
  }

  function Add(cols: Columns, c: int, p: Player): Columns
    requires HasRoom(cols, c)
  {
    cols[c := cols[c] + [Letter(p)]]
  }

  /** `next` is `cols` with one more disc of `p` on column `c`. */
  predicate Extends(cols: Columns, next: Columns, c: int, p: Player)
    requires 0 <= c < COLS
  {
    && |next[c]| == |cols[c]| + 1
    && next[c][|cols[c]|] == Letter(p)
    && (forall i :: 0 <= i < |cols[c]| ==> next[c][i] == cols[c][i])
    && (forall k :: 0 <= k < COLS && k != c ==> next[k] == cols[k])
  }

  lemma ExtendsIsAdd(cols: Columns, next: Columns, c: int, p: Player)
    requires 0 <= c < COLS && Extends(cols, next, c, p)
    ensures HasRoom(cols, c) && next == Add(cols, c, p)
  {
    assert next[c] == cols[c] + [Letter(p)];
  }

  lemma OpenColumn(cols: Columns, c: int)
    requires 0 <= c < COLS
    ensures Open(FromColumns(cols), c) <==> HasRoom(cols, c)
    ensures HasRoom(cols, c) ==> DropRow(FromColumns(cols), c) == ROWS - 1 - |cols[c]|
  {
    var b := FromColumns(cols);
    assert forall k :: 0 <= k < ROWS ==> InBounds(k, c) && b[k][c] == CellIn(cols, k, c);
    if HasRoom(cols, c) {
      DropRowUnique(b, c, ROWS - 1 - |cols[c]|);
    }
  }

  lemma DropOnColumns(cols: Columns, c: int, p: Player)
    requires HasRoom(cols, c)
    ensures Open(FromColumns(cols), c) && Drop(FromColumns(cols), c, p) == FromColumns(Add(cols, c, p))
  {
    OpenColumn(cols, c);
    var g, h := Drop(FromColumns(cols), c, p), FromColumns(Add(cols, c, p));
    hide DropRow;
    forall i, k | InBounds(i, k)
      ensures g[i][k] == h[i][k]
    {
      assert h[i][k] == CellIn(Add(cols, c, p), i, k);
    }
    GridsEqual(g, h);
  }

  /** While `p` has no four, a column wins exactly when the disc in it makes one. */
  lemma WinsOnColumns(cols: Columns, c: int, p: Player)
    requires HasRoom(cols, c) && !HasFour(FromColumns(cols), p)
    ensures Open(FromColumns(cols), c)
    ensures WinsAt(FromColumns(cols), c, p) <==> HasFour(FromColumns(Add(cols, c, p)), p)
  {
    OpenColumn(cols, c);
    DropOnColumns(cols, c, p);
    hide HasFour, FromColumns, Drop, WinsAt;
    WinsAtIsGlobal(FromColumns(cols), c, p);
  }

  // ---------- Replaying a game ----------

  ghost predicate NoFours(cols: Columns) {
    !HasFour(FromColumns(cols), HUMAN) && !HasFour(FromColumns(cols), AI)
  }

  /** Discs are only added, so a board without a four had none before. */
  lemma NoFoursBefore(cols: Columns, c: int, p: Player)
    requires HasRoom(cols, c) && NoFours(Add(cols, c, p))
    ensures NoFours(cols)
  {
    DropOnColumns(cols, c, p);
    var b, g := FromColumns(cols), FromColumns(Add(cols, c, p));
    hide FromColumns;
    forall w: Window, q: Player | Four(b, w, q)
      ensures Four(g, w, q)
    {
    }
  }

  /** In some run of the program this position comes up, with `who` to move. */
  ghost predicate ComesUp(cols: Columns, who: Player) {
    exists s :: Reachable(s) && !s.gameOver && s.current == who && s.grid == FromColumns(cols)
  }

  lemma StepIsReachable(s: State, e: Event)
    requires Reachable(s)
    ensures Reachable(Step(s, e))
  {
    hide Step, Init;
    var es: seq<Event> :| s == Run(Init(), es);
    assert (es + [e])[..|es|] == es;
    assert Run(Init(), es + [e]) == Step(s, e);
  }

  /** A click of the human, or the live callback with the AI's choice, leads to the next position. */
  lemma NextComesUp(cols: Columns, c: int, p: Player)
    requires ComesUp(cols, p) && HasRoom(cols, c) && (p == AI ==> BestMove(FromColumns(cols)) == c)
    requires NoFours(Add(cols, c, p)) && exists k :: HasRoom(Add(cols, c, p), k)
    ensures ComesUp(Add(cols, c, p), Other(p))
  {
    hide LineThrough, HasFour, FromColumns, Stacked, Count, BestMove, Reachable, DropRow;
    var s :| Reachable(s) && !s.gameOver && s.current == p && s.grid == FromColumns(cols);
    ReachableInv(s);
    var e := if p == HUMAN then Click(c) else Timer(s.aiToken);
    OpenColumn(cols, c);
    DropOnColumns(cols, c, p);
    var k :| HasRoom(Add(cols, c, p), k);
    OpenColumn(Add(cols, c, p), k);
    if p == AI {
      LiveCallbackPlays(s);
    }
    StepIsReachable(s, e);
    var t := Step(s, e);
    assert t.grid == FromColumns(Add(cols, c, p));
    OutcomeReachable(t);
  }

  /** Who makes the k-th move of a game that `starter` begins. */
  function MoverAt(starter: Player, k: nat): Player {
    if k % 2 == 0 then starter else Other(starter)
  }

  /** The positions of a game, one after each move. */
  ghost predicate IsGame(starter: Player, game: seq<Columns>, moves: seq<int>) {
    && |game| == |moves| + 1 && game[0] == NO_DISCS
    && forall k :: 0 <= k < |moves| ==> IsMove(game[k], game[k + 1], moves[k], MoverAt(starter, k))
  }

  ghost predicate IsMove(cols: Columns, next: Columns, c: int, p: Player) {
    0 <= c < COLS && Extends(cols, next, c, p)
  }

  ghost predicate SomeRoom(cols: Columns) {
    exists c :: HasRoom(cols, c)
  }

  lemma NoDiscsComesUp(starter: Player)
    ensures ComesUp(NO_DISCS, starter)
  {
    var b := FromColumns(NO_DISCS);
    GridsEqual(Blank(), b);
    assert Run(Init(), []) == Init();
    if starter == AI {
      StepIsReachable(Init(), NewGame(AI));
    }
  }

  /** A position without a four and with room in it comes only after such positions. */
  lemma {:induction false} EarlierPositions(starter: Player, game: seq<Columns>, moves: seq<int>, n: nat)
    requires IsGame(starter, game, moves) && n <= |moves| && NoFours(game[|moves|]) && SomeRoom(game[|moves|])
    ensures NoFours(game[n]) && SomeRoom(game[n])
    decreases |moves| - n
  {
    hide FromColumns, NoFours, NO_DISCS;
    if n < |moves| {
      EarlierPositions(starter, game, moves, n + 1);
      assert IsMove(game[n], game[n + 1], moves[n], MoverAt(starter, n));
      ExtendsIsAdd(game[n], game[n + 1], moves[n], MoverAt(starter, n));
      NoFoursBefore(game[n], moves[n], MoverAt(starter, n));
    }
  }

  /** A game that has not ended, in which the AI's moves are its choices, can be played. */
  lemma {:induction false} GameComesUp(starter: Player, game: seq<Columns>, moves: seq<int>, n: nat)
    requires IsGame(starter, game, moves) && n <= |moves| && NoFours(game[|moves|]) && SomeRoom(game[|moves|])
    requires forall k :: 0 <= k < |moves| && MoverAt(starter, k) == AI ==> BestMove(FromColumns(game[k])) == moves[k]
    ensures ComesUp(game[n], MoverAt(starter, n))
  {
    hide ComesUp, BestMove, FromColumns, NoFours, NO_DISCS;
    if n == 0 {
      NoDiscsComesUp(starter);
    } else {
      GameComesUp(starter, game, moves, n - 1);
      assert IsMove(game[n - 1], game[n], moves[n - 1], MoverAt(starter, n - 1));
      ExtendsIsAdd(game[n - 1], game[n], moves[n - 1], MoverAt(starter, n - 1));
      EarlierPositions(starter, game, moves, n);
      NextComesUp(game[n - 1], moves[n - 1], MoverAt(starter, n - 1));
    }
  }

  /** While every column has room the AI plays the centre. */
  lemma CentreWhileOpen(cols: Columns)
    requires forall c :: 0 <= c < COLS ==> HasRoom(cols, c)
    ensures BestMove(FromColumns(cols)) == 3 && |OpenColumns(FromColumns(cols))| == COLS
  {
    hide BestMove, FromColumns, OpenColumns;
    forall c | 0 <= c < COLS
      ensures Open(FromColumns(cols), c)
    {
      OpenColumn(cols, c);
    }
    BestMoveRules(FromColumns(cols));
  }
}
