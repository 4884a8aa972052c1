/** The depth-limited search as mathematics: the plain minimax value of a position, and the
    fail-soft alpha-beta search with an arbitrary order of moves. */
module Search {
  import opened Board
  import opened Evaluation

  // ---------- Numbers with the two infinities the program starts from ----------

  datatype Num = NegInf | Fin(n: int) | PosInf

  predicate Le(a: Num, b: Num) {
    a == NegInf || b == PosInf || (a.Fin? && b.Fin? && a.n <= b.n)
  }

  predicate Lt(a: Num, b: Num) {
    !Le(b, a)
  }

  function Max(a: Num, b: Num): Num {
    if Le(a, b) then b else a
  }

  function Min(a: Num, b: Num): Num {
    if Le(a, b) then a else b
  }

  function Neg(a: Num): Num {
    match a
    case NegInf => PosInf
    case Fin(n) => Fin(-n)
    case PosInf => NegInf
  }

  function Better(maximizing: bool, a: Num, b: Num): Num {
    if maximizing then Max(a, b) else Min(a, b)
  }

  /** The window after a move of value `v`: the maximizer raises alpha, the minimizer lowers beta. */
  function Narrow(maximizing: bool, alpha: Num, beta: Num, v: Num): (Num, Num) {
    if maximizing then (Max(alpha, v), beta) else (alpha, Min(beta, v))
  }

  function Worst(maximizing: bool): Num {
    if maximizing then NegInf else PosInf
  }

  function Mover(maximizing: bool): Player {
    if maximizing then AI else HUMAN
  }

  // ---------- Moves ----------

  predicate Playable(b: Grid, ms: seq<int>) {
    forall i :: 0 <= i < |ms| ==> 0 <= ms[i] < COLS && Open(b, ms[i])
  }

  /** The open columns among the first `n`, in ascending order. */
  function OpenAmong(b: Grid, n: nat): (ms: seq<int>)
    requires n <= COLS
    ensures Playable(b, ms)
    ensures forall m :: m in ms <==> 0 <= m < n && Open(b, m)
    ensures forall i, j :: 0 <= i < j < |ms| ==> ms[i] < ms[j]
    ensures |ms| <= n
    ensures |ms| == n <==> forall m :: 0 <= m < n ==> Open(b, m)
  {
    if n == 0 then []
    else if Open(b, n - 1) then OpenAmong(b, n - 1) + [n - 1]
    else OpenAmong(b, n - 1)
  }

  function OpenColumns(b: Grid): (ms: seq<int>)
    ensures Playable(b, ms)
    ensures forall m :: m in ms <==> 0 <= m < COLS && Open(b, m)
    ensures forall i, j :: 0 <= i < j < |ms| ==> ms[i] < ms[j]
    ensures |ms| <= COLS
    ensures |ms| == COLS <==> forall m :: 0 <= m < COLS ==> Open(b, m)
  {
    OpenAmong(b, COLS)
  }

  /** `ms` lists exactly the open columns, in any order. */
  ghost predicate ListsMoves(b: Grid, ms: seq<int>) {
    Playable(b, ms) && forall m :: 0 <= m < COLS && Open(b, m) ==> m in ms
  }

  type MoveOrder = Grid -> seq<int>

  ghost predicate ValidOrder(order: MoveOrder) {
    forall b: Grid :: ListsMoves(b, order(b))
  }

  // ---------- The plain minimax value ----------

  /** The unpruned value of a position: the same terminal test, depth cut and
      no-move rule as the search, over all open columns. */
  ghost function Plain(eval: Evaluator, b: Grid, depth: nat, maximizing: bool): (v: Num)
    ensures v.Fin?
    decreases depth, 0
  {
    if Terminal(eval, b) || depth == 0 then Fin(eval(b))
    else if OpenColumns(b) == [] then Fin(0)
    else PlainBest(eval, b, OpenColumns(b), depth - 1, maximizing)
  }

  /** The best plain value among the positions after the moves in `ms`. */
  ghost function PlainBest(eval: Evaluator, b: Grid, ms: seq<int>, depth: nat, maximizing: bool): (v: Num)
    requires Playable(b, ms)
    ensures ms != [] ==> v.Fin?
    decreases depth, 1 + |ms|
  {
    if ms == [] then Worst(maximizing)
    else Better(maximizing, Child(eval, b, ms[0], depth, maximizing), PlainBest(eval, b, ms[1..], depth, maximizing))
  }

  ghost function Child(eval: Evaluator, b: Grid, c: int, depth: nat, maximizing: bool): (v: Num)
    requires 0 <= c < COLS && Open(b, c)
    ensures v.Fin?
    decreases depth, 1
  {
    Plain(eval, Drop(b, c, Mover(maximizing)), depth, !maximizing)
  }

  predicate NotBetter(maximizing: bool, v: Num, best: Num) {
    if maximizing then Le(v, best) else Le(best, v)
  }

  /** `v` is attained by some move in `ms`, and no move in `ms` betters it. */
  ghost predicate IsBest(eval: Evaluator, b: Grid, ms: seq<int>, depth: nat, maximizing: bool, v: Num)
    requires Playable(b, ms)
  {
    && v.Fin?
    && (exists i :: 0 <= i < |ms| && Child(eval, b, ms[i], depth, maximizing) == v)
    && (forall i :: 0 <= i < |ms| ==> NotBetter(maximizing, Child(eval, b, ms[i], depth, maximizing), v))
  }

  lemma {:induction false} PlainBestIsBest(eval: Evaluator, b: Grid, ms: seq<int>, depth: nat, maximizing: bool)
    requires Playable(b, ms) && ms != []
    ensures IsBest(eval, b, ms, depth, maximizing, PlainBest(eval, b, ms, depth, maximizing))
  {
    hide Child;
    var rest := ms[1..];
    var v0 := Child(eval, b, ms[0], depth, maximizing);
    if rest == [] {
      assert PlainBest(eval, b, rest, depth, maximizing) == Worst(maximizing);
    } else {
      PlainBestIsBest(eval, b, rest, depth, maximizing);
      var v := PlainBest(eval, b, rest, depth, maximizing);
      var i :| 0 <= i < |rest| && Child(eval, b, rest[i], depth, maximizing) == v;
      assert ms[i + 1] == rest[i];
      forall j | 0 <= j < |ms|
        ensures NotBetter(maximizing, Child(eval, b, ms[j], depth, maximizing), Better(maximizing, v0, v))
      {
        if j > 0 {
          assert ms[j] == rest[j - 1];
        }
      }
    }
  }

  lemma BestIsUnique(eval: Evaluator, b: Grid, ms: seq<int>, ms': seq<int>, depth: nat, maximizing: bool, v: Num,
                     v': Num)
    requires Playable(b, ms) && Playable(b, ms') && forall c :: c in ms <==> c in ms'
    requires IsBest(eval, b, ms, depth, maximizing, v) && IsBest(eval, b, ms', depth, maximizing, v')
    ensures v == v'
  {
    hide Child;
    var i :| 0 <= i < |ms| && Child(eval, b, ms[i], depth, maximizing) == v;
    var j :| 0 <= j < |ms'| && Child(eval, b, ms'[j], depth, maximizing) == v';
    assert ms[i] in ms' && ms'[j] in ms;
    assert NotBetter(maximizing, v, v') && NotBetter(maximizing, v', v);
  }

  lemma PlainAnyOrder(eval: Evaluator, b: Grid, ms: seq<int>, depth: nat, maximizing: bool)
    requires ListsMoves(b, ms) && !Terminal(eval, b) && depth > 0 && OpenColumns(b) != []
    ensures ms != [] && Plain(eval, b, depth, maximizing) == PlainBest(eval, b, ms, depth - 1, maximizing)
  {
    hide Child, PlainBest, IsBest;
    var open := OpenColumns(b);
    assert open[0] in open;
    assert open[0] in ms;
    PlainBestIsBest(eval, b, ms, depth - 1, maximizing);
    PlainBestIsBest(eval, b, open, depth - 1, maximizing);
    BestIsUnique(eval, b, ms, open, depth - 1, maximizing, PlainBest(eval, b, ms, depth - 1, maximizing),
                 PlainBest(eval, b, open, depth - 1, maximizing));
  }

  // ---------- The pruned search ----------

  /** What the search returns from `b` with window (alpha, beta), trying moves in the given order. */
  ghost function AlphaBeta(eval: Evaluator, order: MoveOrder, b: Grid, depth: nat, alpha: Num, beta: Num,
                           maximizing: bool): Num
    requires ValidOrder(order)
    decreases depth, 0
  {
    if Terminal(eval, b) || depth == 0 then Fin(eval(b))
    else if OpenColumns(b) == [] then Fin(0)
    else Try(eval, order, b, order(b), depth - 1, alpha, beta, Worst(maximizing), maximizing)
  }

  /** The search's loop: `ms` are the moves still to try and `best` the best value so far. */
  ghost function Try(eval: Evaluator, order: MoveOrder, b: Grid, ms: seq<int>, depth: nat, alpha: Num, beta: Num,
                     best: Num, maximizing: bool): Num
    requires ValidOrder(order) && Playable(b, ms)
    decreases depth, 1 + |ms|
  {
    if ms == [] then best
    else
      var v := AlphaBeta(eval, order, Drop(b, ms[0], Mover(maximizing)), depth, alpha, beta, !maximizing);
      var best' := Better(maximizing, best, v);
      var (alpha', beta') := Narrow(maximizing, alpha, beta, v);
      if Le(beta', alpha') then best'
      else Try(eval, order, b, ms[1..], depth, alpha', beta', best', maximizing)
  }

  /** What a fail-soft result `r` found with window (alpha, beta) says about the true value `m`. */
  predicate FailSoft(alpha: Num, beta: Num, r: Num, m: Num) {
    && (Le(r, alpha) ==> Le(m, r))
    && (Lt(alpha, r) && Lt(r, beta) ==> r == m)
    && (Le(beta, r) ==> Le(r, m))
  }

  lemma NextMoves(b: Grid, ms: seq<int>)
    requires Playable(b, ms) && ms != []
    ensures Playable(b, ms[1..]) && 0 <= ms[0] < COLS && Open(b, ms[0])
  {
  }

  /** Alpha-beta refines plain minimax, for every grid, depth, window and order of moves. */
  lemma {:induction false} AlphaBetaRefinesPlain(eval: Evaluator, order: MoveOrder, b: Grid,
                                                 depth: nat, alpha: Num, beta: Num, maximizing: bool)
    requires ValidOrder(order) && Lt(alpha, beta)
    ensures FailSoft(alpha, beta, AlphaBeta(eval, order, b, depth, alpha, beta, maximizing),
                     Plain(eval, b, depth, maximizing))
    decreases depth, 0
  {
    if !Terminal(eval, b) && depth > 0 && OpenColumns(b) != [] {
      var ms := order(b);
      assert ListsMoves(b, ms);
      PlainAnyOrder(eval, b, ms, depth, maximizing);
      if maximizing {
        TryMax(eval, order, b, ms, depth - 1, alpha, beta, NegInf);
      } else {
        TryMin(eval, order, b, ms, depth - 1, alpha, beta, PosInf);
      }
    }
  }

  lemma {:induction false} TryMax(eval: Evaluator, order: MoveOrder, b: Grid, ms: seq<int>,
                                  depth: nat, alpha: Num, beta: Num, best: Num)
    requires ValidOrder(order) && Playable(b, ms) && Lt(alpha, beta) && Le(best, alpha)
    ensures var r := Try(eval, order, b, ms, depth, alpha, beta, best, true);
            Le(best, r) && FailSoft(alpha, beta, r, Max(best, PlainBest(eval, b, ms, depth, true)))
    decreases depth, 1 + |ms|
  {
    if ms != [] {
      NextMoves(b, ms);
      var next := Drop(b, ms[0], AI);
      AlphaBetaRefinesPlain(eval, order, next, depth, alpha, beta, false);
      var v := AlphaBeta(eval, order, next, depth, alpha, beta, false);
      if Lt(Max(alpha, v), beta) {
        TryMax(eval, order, b, ms[1..], depth, Max(alpha, v), beta, Max(best, v));
      }
    }
  }

  lemma {:induction false} TryMin(eval: Evaluator, order: MoveOrder, b: Grid, ms: seq<int>,
                                  depth: nat, alpha: Num, beta: Num, best: Num)
    requires ValidOrder(order) && Playable(b, ms) && Lt(alpha, beta) && Le(beta, best)
    ensures var r := Try(eval, order, b, ms, depth, alpha, beta, best, false);
            Le(r, best) && FailSoft(alpha, beta, r, Min(best, PlainBest(eval, b, ms, depth, false)))
    decreases depth, 1 + |ms|
  {
    if ms != [] {
      NextMoves(b, ms);
      var next := Drop(b, ms[0], HUMAN);
      AlphaBetaRefinesPlain(eval, order, next, depth, alpha, beta, true);
      var v := AlphaBeta(eval, order, next, depth, alpha, beta, true);
      if Lt(alpha, Min(beta, v)) {
        TryMin(eval, order, b, ms[1..], depth, alpha, Min(beta, v), Min(best, v));
      }
    }
  }

  /** After a cut-off no further move is tried: a first move whose value closes the window decides alone. */
  lemma LaterMovesIgnored(eval: Evaluator, order: MoveOrder, b: Grid, ms: seq<int>, depth: nat, alpha: Num, beta: Num,
                          best: Num, maximizing: bool)
    requires ValidOrder(order) && Playable(b, ms) && ms != []
    requires var v := AlphaBeta(eval, order, Drop(b, ms[0], Mover(maximizing)), depth, alpha, beta, !maximizing);
             if maximizing then Le(beta, Max(alpha, v)) else Le(Min(beta, v), alpha)
    ensures Try(eval, order, b, ms, depth, alpha, beta, best, maximizing) ==
            Try(eval, order, b, [ms[0]], depth, alpha, beta, best, maximizing)
  {
    hide AlphaBeta, Drop;
  }

  /** With the full window the search returns the plain value, whatever order the moves are tried in. */
  lemma FullWindowIsExact(eval: Evaluator, order: MoveOrder, b: Grid, depth: nat, maximizing: bool)
    requires ValidOrder(order)
    ensures AlphaBeta(eval, order, b, depth, NegInf, PosInf, maximizing) == Plain(eval, b, depth, maximizing)
  {
    AlphaBetaRefinesPlain(eval, order, b, depth, NegInf, PosInf, maximizing);
  }

  // ---------- Finite results ----------

  predicate Bounded(limit: int, v: Num) {
    v.Fin? && -limit <= v.n <= limit
  }

  ghost predicate BoundedBy(eval: Evaluator, limit: nat) {
    forall b: Grid :: -(limit as int) <= eval(b) <= limit
  }

  /** The infinite starting values never escape, whatever window the search is called with. */
  lemma {:induction false} AlphaBetaBounded(eval: Evaluator, limit: nat, order: MoveOrder, b: Grid,
                                            depth: nat, alpha: Num, beta: Num, maximizing: bool)
    requires BoundedBy(eval, limit) && ValidOrder(order)
    ensures Bounded(limit, AlphaBeta(eval, order, b, depth, alpha, beta, maximizing))
    decreases depth, 0
  {
    if !Terminal(eval, b) && depth > 0 && OpenColumns(b) != [] {
      assert ListsMoves(b, order(b));
      assert OpenColumns(b)[0] in OpenColumns(b);
      TryBounded(eval, limit, order, b, order(b), depth - 1, alpha, beta, Worst(maximizing), maximizing);
    }
  }

  lemma {:induction false} TryBounded(eval: Evaluator, limit: nat, order: MoveOrder, b: Grid, ms: seq<int>,
                                      depth: nat, alpha: Num, beta: Num,
                                      best: Num, maximizing: bool)
    requires BoundedBy(eval, limit) && ValidOrder(order) && Playable(b, ms)
    requires Bounded(limit, best) || (best == Worst(maximizing) && ms != [])
    ensures Bounded(limit, Try(eval, order, b, ms, depth, alpha, beta, best, maximizing))
    decreases depth, 1 + |ms|
  {
    if ms != [] {
      NextMoves(b, ms);
      var next := Drop(b, ms[0], Mover(maximizing));
      AlphaBetaBounded(eval, limit, order, next, depth, alpha, beta, !maximizing);
      var v := AlphaBeta(eval, order, next, depth, alpha, beta, !maximizing);
      var (alpha', beta') := Narrow(maximizing, alpha, beta, v);
      TryBounded(eval, limit, order, b, ms[1..], depth, alpha', beta', Better(maximizing, best, v), maximizing);
    }
  }

  // ---------- What the value means ----------

  /** Play ends on a board whose score has reached +-100000, after the last move looked ahead, or on a full board. */
  predicate PlayEnds(eval: Evaluator, b: Grid, depth: nat) {
    eval(b) >= 100000 || eval(b) <= -100000 || depth == 0 || TopRowFull(b)
  }

  /** What the last board of a play is worth: 0 when it is full, undecided and moves were left to look ahead, and
      its score otherwise. */
  function EndWorth(eval: Evaluator, b: Grid, depth: nat): int {
    if depth > 0 && -100000 < eval(b) < 100000 then 0 else eval(b)
  }

  /** Whatever the human does, the AI can see to it that play ends on a board worth at least `t`. */
  ghost predicate Secures(eval: Evaluator, b: Grid, depth: nat, aiMoves: bool, t: int)
    decreases depth, b
  {
    if PlayEnds(eval, b, depth) then EndWorth(eval, b, depth) >= t
    else if aiMoves then
      exists c :: 0 <= c < COLS && Open(b, c) && Secures(eval, Drop(b, c, Yellow), depth - 1, false, t)
    else
      forall c :: 0 <= c < COLS && Open(b, c) ==> Secures(eval, Drop(b, c, Red), depth - 1, true, t)
  }

  /** The plain value is the greatest worth of the last board that the AI can secure. */
  lemma {:induction false} ValueExactly(eval: Evaluator, b: Grid, depth: nat, maximizing: bool, t: int)
    ensures Le(Fin(t), Plain(eval, b, depth, maximizing)) <==> Secures(eval, b, depth, maximizing, t)
    decreases depth, b
  {
    hide IsBest, PlainBest, Child, Drop, Open, TopRowFull, OpenColumns, Le;
    PlainAtEnd(eval, b, depth, maximizing, t);
    if !PlayEnds(eval, b, depth) {
      var ms := OpenColumns(b);
      PlainBestIsBest(eval, b, ms, depth - 1, maximizing);
      forall c | 0 <= c < COLS && Open(b, c)
        ensures Le(Fin(t), Child(eval, b, c, depth - 1, maximizing)) <==>
                Secures(eval, Drop(b, c, Mover(maximizing)), depth - 1, !maximizing, t)
      {
        ChildIsPlain(eval, b, c, depth - 1, maximizing);
        ValueExactly(eval, Drop(b, c, Mover(maximizing)), depth - 1, !maximizing, t);
      }
      BestAtLeast(eval, b, ms, depth - 1, maximizing, Plain(eval, b, depth, maximizing), t);
    }
  }

  lemma PlainAtEnd(eval: Evaluator, b: Grid, depth: nat, maximizing: bool, t: int)
    ensures PlayEnds(eval, b, depth) <==> Terminal(eval, b) || depth == 0 || OpenColumns(b) == []
    ensures PlayEnds(eval, b, depth) ==> Plain(eval, b, depth, maximizing) == Fin(EndWorth(eval, b, depth))
    ensures forall w: int :: Le(Fin(t), Fin(w)) <==> w >= t
  {
    NoOpenColumn(b);
  }

  lemma NoOpenColumn(b: Grid)
    ensures TopRowFull(b) <==> OpenColumns(b) == []
  {
    if OpenColumns(b) != [] {
      assert OpenColumns(b)[0] in OpenColumns(b);
    }
    if !TopRowFull(b) {
      var c :| 0 <= c < COLS && b[0][c] == Empty;
      assert Open(b, c);
      assert c in OpenColumns(b);
    }
  }

  /** The best value is at least `t` when some move's is, for the AI, and when every move's is, for the human. */
  lemma BestAtLeast(eval: Evaluator, b: Grid, ms: seq<int>, depth: nat, maximizing: bool, v: Num, t: int)
    requires ListsMoves(b, ms) && IsBest(eval, b, ms, depth, maximizing, v)
    ensures maximizing ==>
              (Le(Fin(t), v) <==>
               exists c :: 0 <= c < COLS && Open(b, c) && Le(Fin(t), Child(eval, b, c, depth, maximizing)))
    ensures !maximizing ==>
              (Le(Fin(t), v) <==>
               forall c :: 0 <= c < COLS && Open(b, c) ==> Le(Fin(t), Child(eval, b, c, depth, maximizing)))
  {
    hide Child;
    var i :| 0 <= i < |ms| && Child(eval, b, ms[i], depth, maximizing) == v;
    forall c | 0 <= c < COLS && Open(b, c)
      ensures NotBetter(maximizing, Child(eval, b, c, depth, maximizing), v)
    {
      assert c in ms;
    }
  }

  // ---------- What a decided value means ----------

  /** The board's score has reached the threshold on the side of `p`. */
  predicate Decided(eval: Evaluator, b: Grid, p: Player) {
    if p == AI then eval(b) >= WIN_SCORE else eval(b) <= -WIN_SCORE
  }

  /** `p` can see to it, whatever the other player does, that within `depth` moves a board is reached that is
      decided for `p`. */
  ghost predicate Forces(eval: Evaluator, b: Grid, depth: nat, maximizing: bool, p: Player)
    decreases depth, b
  {
    Decided(eval, b, p) ||
    (!Terminal(eval, b) && depth > 0 && OpenColumns(b) != [] &&
     if Mover(maximizing) == p then
       exists c :: 0 <= c < COLS && Open(b, c) && Forces(eval, Drop(b, c, p), depth - 1, !maximizing, p)
     else
       forall c :: 0 <= c < COLS && Open(b, c) ==> Forces(eval, Drop(b, c, Other(p)), depth - 1, !maximizing, p))
  }

  /** The value has reached the threshold on the side of `p`. */
  predicate ValueDecides(v: Num, p: Player) {
    if p == AI then Le(Fin(WIN_SCORE), v) else Le(v, Fin(-WIN_SCORE))
  }

  /** The plain value reaches the threshold on a player's side exactly when that player can force a decided board
      within the depth. */
  lemma {:induction false} ForcesExactly(eval: Evaluator, b: Grid, depth: nat, maximizing: bool, p: Player)
    ensures ValueDecides(Plain(eval, b, depth, maximizing), p) <==> Forces(eval, b, depth, maximizing, p)
    decreases depth, b
  {
    hide IsBest, PlainBest, Child, Drop, Open, ValueDecides;
    PlainDecidesHere(eval, b, depth, maximizing, p);
    if !Terminal(eval, b) && depth > 0 && OpenColumns(b) != [] {
      var ms := OpenColumns(b);
      PlainBestIsBest(eval, b, ms, depth - 1, maximizing);
      forall c | 0 <= c < COLS && Open(b, c)
        ensures ValueDecides(Child(eval, b, c, depth - 1, maximizing), p) <==>
                Forces(eval, Drop(b, c, Mover(maximizing)), depth - 1, !maximizing, p)
      {
        ChildIsPlain(eval, b, c, depth - 1, maximizing);
        ForcesExactly(eval, Drop(b, c, Mover(maximizing)), depth - 1, !maximizing, p);
      }
      BestDecides(eval, b, ms, depth - 1, maximizing, Plain(eval, b, depth, maximizing), p);
    }
  }

  lemma ChildIsPlain(eval: Evaluator, b: Grid, c: int, depth: nat, maximizing: bool)
    requires 0 <= c < COLS && Open(b, c)
    ensures Child(eval, b, c, depth, maximizing) == Plain(eval, Drop(b, c, Mover(maximizing)), depth, !maximizing)
  {
  }

  /** Where the search stops, the value decides as the board does. */
  lemma PlainDecidesHere(eval: Evaluator, b: Grid, depth: nat, maximizing: bool, p: Player)
    ensures Terminal(eval, b) || depth == 0 || OpenColumns(b) == [] ==>
              (ValueDecides(Plain(eval, b, depth, maximizing), p) <==> Decided(eval, b, p))
    ensures Decided(eval, b, p) ==> Terminal(eval, b)
  {
  }

  /** The best value decides for the mover when some move's does, and for the other player when every move's does. */
  lemma BestDecides(eval: Evaluator, b: Grid, ms: seq<int>, depth: nat, maximizing: bool, v: Num, p: Player)
    requires ListsMoves(b, ms) && IsBest(eval, b, ms, depth, maximizing, v)
    ensures Mover(maximizing) == p ==>
              (ValueDecides(v, p) <==>
               exists c :: 0 <= c < COLS && Open(b, c) && ValueDecides(Child(eval, b, c, depth, maximizing), p))
    ensures Mover(maximizing) != p ==>
              (ValueDecides(v, p) <==>
               forall c :: 0 <= c < COLS && Open(b, c) ==> ValueDecides(Child(eval, b, c, depth, maximizing), p))
  {
    hide Child;
    var i :| 0 <= i < |ms| && Child(eval, b, ms[i], depth, maximizing) == v;
    forall c | 0 <= c < COLS && Open(b, c)
      ensures NotBetter(maximizing, Child(eval, b, c, depth, maximizing), v)
    {
      assert c in ms;
    }
  }

  // ---------- Which positions the search looks at ----------

  /** The search from `b` with this window comes to the position after the moves in `path`: no position before
      it ends the search, and no cut-off comes before the move that leads there. */
  ghost predicate Visits(eval: Evaluator, order: MoveOrder, b: Grid, depth: nat, alpha: Num, beta: Num,
                         maximizing: bool, path: seq<int>)
    requires ValidOrder(order)
    decreases 2 * |path|, 0
  {
    path == [] ||
    (!Terminal(eval, b) && depth > 0 && OpenColumns(b) != [] &&
     VisitsAmong(eval, order, b, order(b), depth - 1, alpha, beta, maximizing, path))
  }

  /** The same for the search's loop, with the moves `ms` still to try. */
  ghost predicate VisitsAmong(eval: Evaluator, order: MoveOrder, b: Grid, ms: seq<int>, depth: nat, alpha: Num,
                              beta: Num,
                              maximizing: bool, path: seq<int>)
    requires ValidOrder(order) && Playable(b, ms) && path != []
    decreases 2 * |path| - 1, |ms|
  {
    ms != [] &&
    if ms[0] == path[0] then
      Visits(eval, order, Drop(b, ms[0], Mover(maximizing)), depth, alpha, beta, !maximizing, path[1..])
    else
      var v := AlphaBeta(eval, order, Drop(b, ms[0], Mover(maximizing)), depth, alpha, beta, !maximizing);
      var (alpha', beta') := Narrow(maximizing, alpha, beta, v);
      !Le(beta', alpha') && VisitsAmong(eval, order, b, ms[1..], depth, alpha', beta', maximizing, path)
  }

  /** The maximizer tries every move as long as nothing bounds it from above. */
  lemma {:induction false} UnboundedTriesAll(eval: Evaluator, limit: nat, order: MoveOrder, b: Grid, ms: seq<int>,
                                             depth: nat,
                                             alpha: Num, m: int)
    requires BoundedBy(eval, limit) && ValidOrder(order) && Playable(b, ms) && m in ms && alpha != PosInf
    ensures VisitsAmong(eval, order, b, ms, depth, alpha, PosInf, true, [m])
    decreases ms
  {
    if ms[0] != m {
      NextMoves(b, ms);
      AlphaBetaBounded(eval, limit, order, Drop(b, ms[0], AI), depth, alpha, PosInf, false);
      var v := AlphaBeta(eval, order, Drop(b, ms[0], AI), depth, alpha, PosInf, false);
      assert m in ms[1..];
      UnboundedTriesAll(eval, limit, order, b, ms[1..], depth, Max(alpha, v), m);
    }
  }

  // ---------- Colour-swap duality ----------

  ghost predicate ColourBlind(order: MoveOrder) {
    forall b: Grid :: order(Swap(b)) == order(b)
  }

  ghost predicate Antisymmetric(eval: Evaluator) {
    forall b: Grid :: eval(Swap(b)) == -eval(b)
  }

  lemma SwapOpen(b: Grid)
    ensures OpenColumns(Swap(b)) == [] <==> OpenColumns(b) == []
  {
    var s := Swap(b);
    assert forall c :: 0 <= c < COLS ==> InBounds(0, c);
    assert forall c :: 0 <= c < COLS ==> (Open(s, c) <==> Open(b, c));
    if OpenColumns(s) != [] {
      assert OpenColumns(s)[0] in OpenColumns(s);
      assert OpenColumns(s)[0] in OpenColumns(b);
    }
    if OpenColumns(b) != [] {
      assert OpenColumns(b)[0] in OpenColumns(b);
      assert OpenColumns(b)[0] in OpenColumns(s);
    }
  }

  /** Searching the colour-swapped board with the negated window for the other side
      gives exactly the negated result, cut-offs included. */
  lemma {:induction false} SwapDuality(eval: Evaluator, order: MoveOrder, b: Grid,
                                       depth: nat, alpha: Num, beta: Num, maximizing: bool)
    requires Antisymmetric(eval) && ValidOrder(order) && ColourBlind(order)
    ensures AlphaBeta(eval, order, Swap(b), depth, Neg(beta), Neg(alpha), !maximizing) ==
            Neg(AlphaBeta(eval, order, b, depth, alpha, beta, maximizing))
    decreases depth, 0
  {
    hide Try, Swap, OpenColumns;
    SwapOpen(b);
    if !Terminal(eval, b) && depth > 0 && OpenColumns(b) != [] {
      assert ListsMoves(b, order(b));
      assert ListsMoves(Swap(b), order(Swap(b)));
      TrySwap(eval, order, b, order(b), depth - 1, alpha, beta, Worst(maximizing), maximizing);
    }
  }

  lemma {:induction false} TrySwap(eval: Evaluator, order: MoveOrder, b: Grid, ms: seq<int>,
                                   depth: nat, alpha: Num, beta: Num,
                                   best: Num, maximizing: bool)
    requires Antisymmetric(eval) && ValidOrder(order) && ColourBlind(order) && Playable(b, ms) && Playable(Swap(b), ms)
    ensures Try(eval, order, Swap(b), ms, depth, Neg(beta), Neg(alpha), Neg(best), !maximizing) ==
            Neg(Try(eval, order, b, ms, depth, alpha, beta, best, maximizing))
    decreases depth, 1 + |ms|
  {
    hide Drop, Swap, AlphaBeta, Narrow, Better, Neg, Le;
    if ms != [] {
      NextMoves(b, ms);
      NextMoves(Swap(b), ms);
      var c, p := ms[0], Mover(maximizing);
      SwapDrop(b, c, p);
      assert Mover(!maximizing) == Other(p);
      SwapDuality(eval, order, Drop(b, c, p), depth, alpha, beta, !maximizing);
      var v := AlphaBeta(eval, order, Drop(b, c, p), depth, alpha, beta, !maximizing);
      NarrowSwap(maximizing, alpha, beta, best, v);
      var (alpha', beta') := Narrow(maximizing, alpha, beta, v);
      TrySwap(eval, order, b, ms[1..], depth, alpha', beta', Better(maximizing, best, v), maximizing);
    }
  }

  lemma NarrowSwap(maximizing: bool, alpha: Num, beta: Num, best: Num, v: Num)
    ensures Better(!maximizing, Neg(best), Neg(v)) == Neg(Better(maximizing, best, v))
    ensures var (alpha', beta') := Narrow(maximizing, alpha, beta, v);
            Narrow(!maximizing, Neg(beta), Neg(alpha), Neg(v)) == (Neg(beta'), Neg(alpha')) &&
            (Le(beta', alpha') <==> Le(Neg(alpha'), Neg(beta')))
  {
    NegOrder(alpha, v);
    NegOrder(beta, v);
    NegOrder(best, v);
    var (alpha', beta') := Narrow(maximizing, alpha, beta, v);
    NegOrder(beta', alpha');
    hide Le, Neg, Max, Min;
  }

  lemma NegOrder(a: Num, b: Num)
    ensures Neg(Max(a, b)) == Min(Neg(a), Neg(b)) && Neg(Min(a, b)) == Max(Neg(a), Neg(b))
    ensures Le(a, b) <==> Le(Neg(b), Neg(a))
  {
  }

  // ---------- Mirror invariance ----------

  ghost predicate MirrorInvariant(eval: Evaluator) {
    forall b: Grid :: eval(Mirror(b)) == eval(b)
  }

  lemma MirrorOpen(b: Grid)
    ensures forall c :: 0 <= c < COLS ==> (Open(Mirror(b), c) <==> Open(b, COLS - 1 - c))
    ensures OpenColumns(Mirror(b)) == [] <==> OpenColumns(b) == []
  {
    var mb := Mirror(b);
    assert forall c :: 0 <= c < COLS ==> InBounds(0, c);
    assert forall c :: 0 <= c < COLS ==> (Open(mb, c) <==> Open(b, COLS - 1 - c));
    if OpenColumns(b) != [] {
      assert OpenColumns(b)[0] in OpenColumns(b);
      assert COLS - 1 - OpenColumns(b)[0] in OpenColumns(mb);
    }
    if OpenColumns(mb) != [] {
      assert OpenColumns(mb)[0] in OpenColumns(mb);
      assert COLS - 1 - OpenColumns(mb)[0] in OpenColumns(b);
    }
  }

  /** Reflecting the board keeps the plain value at every depth. */
  lemma {:induction false} PlainMirror(eval: Evaluator, b: Grid, depth: nat, maximizing: bool)
    requires MirrorInvariant(eval)
    ensures Plain(eval, Mirror(b), depth, maximizing) == Plain(eval, b, depth, maximizing)
    decreases depth, 0
  {
    hide PlainBest, OpenColumns, Mirror;
    MirrorOpen(b);
    if !Terminal(eval, b) && depth > 0 && OpenColumns(b) != [] {
      MirrorBest(eval, b, depth - 1, maximizing);
    }
  }

  lemma {:induction false} MirrorBest(eval: Evaluator, b: Grid, depth: nat, maximizing: bool)
    requires MirrorInvariant(eval) && OpenColumns(b) != []
    ensures PlainBest(eval, Mirror(b), OpenColumns(Mirror(b)), depth, maximizing) ==
            PlainBest(eval, b, OpenColumns(b), depth, maximizing)
    decreases depth, 3
  {
    hide IsBest, PlainBest, OpenColumns, Mirror;
    MirrorOpen(b);
    var mb, ms, mms := Mirror(b), OpenColumns(b), OpenColumns(Mirror(b));
    var v := PlainBest(eval, b, ms, depth, maximizing);
    PlainBestIsBest(eval, b, ms, depth, maximizing);
    MirrorIsBest(eval, b, depth, maximizing, v);
    PlainBestIsBest(eval, mb, mms, depth, maximizing);
    BestIsUnique(eval, mb, mms, mms, depth, maximizing, v, PlainBest(eval, mb, mms, depth, maximizing));
  }

  lemma {:induction false} MirrorIsBest(eval: Evaluator, b: Grid, depth: nat, maximizing: bool, v: Num)
    requires MirrorInvariant(eval) && IsBest(eval, b, OpenColumns(b), depth, maximizing, v)
    ensures IsBest(eval, Mirror(b), OpenColumns(Mirror(b)), depth, maximizing, v)
    decreases depth, 2
  {
    hide Child, OpenColumns, Open, Mirror, NotBetter;
    MirrorOpen(b);
    var mb, ms, mms := Mirror(b), OpenColumns(b), OpenColumns(Mirror(b));
    var i :| 0 <= i < |ms| && Child(eval, b, ms[i], depth, maximizing) == v;
    assert ms[i] in ms;
    MirrorChild(eval, b, ms[i], depth, maximizing);
    assert COLS - 1 - ms[i] in mms;
    var k :| 0 <= k < |mms| && mms[k] == COLS - 1 - ms[i];
    forall j | 0 <= j < |mms|
      ensures NotBetter(maximizing, Child(eval, mb, mms[j], depth, maximizing), v)
    {
      assert mms[j] in mms;
      var c := COLS - 1 - mms[j];
      assert c in ms;
      var l :| 0 <= l < |ms| && ms[l] == c;
      MirrorChild(eval, b, c, depth, maximizing);
    }
  }

  lemma {:induction false} MirrorChild(eval: Evaluator, b: Grid, c: int, depth: nat, maximizing: bool)
    requires MirrorInvariant(eval) && 0 <= c < COLS && Open(b, c)
    ensures Open(Mirror(b), COLS - 1 - c)
    ensures Child(eval, Mirror(b), COLS - 1 - c, depth, maximizing) == Child(eval, b, c, depth, maximizing)
    decreases depth, 1
  {
    MirrorDrop(b, c, Mover(maximizing));
    PlainMirror(eval, Drop(b, c, Mover(maximizing)), depth, !maximizing);
  }

  /** ... and so the full-window search value, for any orders of moves on the two boards. */
  lemma SearchMirror(eval: Evaluator, order: MoveOrder, order': MoveOrder, b: Grid, depth: nat, maximizing: bool)
    requires MirrorInvariant(eval) && ValidOrder(order) && ValidOrder(order')
    ensures AlphaBeta(eval, order, Mirror(b), depth, NegInf, PosInf, maximizing) ==
            AlphaBeta(eval, order', b, depth, NegInf, PosInf, maximizing)
  {
    FullWindowIsExact(eval, order, Mirror(b), depth, maximizing);
    FullWindowIsExact(eval, order', b, depth, maximizing);
    PlainMirror(eval, b, depth, maximizing);
  }
}
