# Connect Four engine and Synology CSI controller: a Dafny model

Two programs of the repository are modelled and their properties proved.

**The Connect Four game** (`game.js`). The board is a value (`Board`), on which the win check (`WinCheck`), the static
evaluation (`Evaluation`), the plain minimax value and the fail-soft alpha-beta search (`Search`) and the choice of a
column (`Strategy`) are functions with their theorems. `Engine` is the program's own code: loops and a recursive
search that drop and remove discs on one shared two-dimensional array, each tied to those functions and proved to
leave the array as it was. `GameModel` is the game as a state machine over clicks, timer callbacks, new games and
score resets in any order; `Game` is the object with the page's variables, whose handlers take exactly those steps;
`GameTheorems` says what holds over whole runs, among it that the AI takes every win on offer. `Positions` replays
recorded games, and `Counterexamples` holds two positions that such games lead to: in one the AI does not block, in
the other its search does not recognise a won board. The exact conditions are `Strategy.BlocksExactly` and
`Evaluation.TerminalExactly`. `Search` is proved for any static evaluation and any order of moves; `Strategy` and
`Engine` use the program's own.

**The Synology CSI controller** (Go). `Paging` is the token protocol of ListVolumes and ListSnapshots; `DeviceForest`
the rebuilding of lsblk's device tree by value; `Controllers` the search for the other controller's address;
`Capacity` the 64-bit byte and MiB arithmetic. `Nas` is one DSM as a class whose API calls may each fail before or
after taking effect; `Volumes` the lookups on it; `Provisioning` the six creation paths, the expansion and the
controller's checks; `Retries` and `ShareRetries` the relation between the NAS before and after an attempt, for iSCSI
and for SMB, and the convergence of runs of calls; `Repeating` is the client that sends one request again and again,
and `SharedNames` two clients whose names lead to one volume. The calls follow the Container Storage Interface
specification, section "Controller Service RPC".

Assumptions about the NAS: which calls fail, and which share clones lose their quota, is a schedule fixed in advance
and arbitrary; it refuses a second LUN, target or share of the same name with the duplicate-name error, get-by-name
returns the named object, new objects get ids that no other object has, mapping a mapped LUN changes nothing, shares
have names, a clone has the size of its source, a share clone has its source's quota or none, and nobody else works on
the request's own LUN, target and share; what others do to other objects between two calls is arbitrary. Id 0 stands
for the empty id. A number stands for the contents of a LUN, share or snapshot, and a clone has those of its source.
Whether the copying of a LUN is done at a given time belongs to the schedule. A field counts failed calls, so that
contracts can say what happens when none fails; with no failed call a cloned LUN may still not finish copying in time.
The iSCSI retry theorem starts from a NAS that holds nothing of the request (`Retries.UntouchedIsTidy`) or what
identical attempts have left there, and needs that no other object answers to the volume's name; for names of at most
24 bytes that excludes only a share of that name, and for longer names `Volumes.LunAliasExactly` says which other
volume's LUN a lookup mistakes for its own. The SMB retry theorem starts from any NAS without such aliases; for SMB,
retries that begin with a failure need not converge (`ShareRetries.CleanRetries`, and `Repeating.CloneNeverMade` for
an input): a clone that arrives without a quota, and whose quota is not set because that call fails, is found by name
from then on and refused for its size.

Where the code and its comments or the expectation differ, the code is modelled: `bestMove` takes the centre whenever
all seven columns are open, not only on the first move, so a threat of the human's is not blocked then; the +-100000
test is sound but misses some won boards; a column list of five or six entries makes lsblk's parser read past its end.

## Model

| member | source | states |
|---|---|---|
| `Board.DropRow` | Raspberry Pi/Invisible Internet Protocol (i2pd) - Serving an Application/app/game.js:55-60 | the row a disc lands in is the lowest empty cell of the column; it is -1 only if no cell of the column is empty, and never for a column whose top cell is empty |
| `Board.StackHeights` | Raspberry Pi/Invisible Internet Protocol (i2pd) - Serving an Application/app/game.js:51-60 | on a board of gap-free stacks the landing row, the test on the top cell and the stack height of a column agree |
| `Board.CountTotal` | Raspberry Pi/Invisible Internet Protocol (i2pd) - Serving an Application/app/game.js:98-100 | red, yellow and empty cells add up to 42, and on a board of gap-free stacks the draw test on the top row means that no cell is empty |
| `WinCheck.Win` | Raspberry Pi/Invisible Internet Protocol (i2pd) - Serving an Application/app/game.js:78-96 | the check returns a line exactly when one of the four lines through the cell holds four in a row of the player |
| `WinCheck.WinIsWinningLine` | Raspberry Pi/Invisible Internet Protocol (i2pd) - Serving an Application/app/game.js:78-96 | the returned line is a gap-free straight segment of at least four distinct cells, all of the winner, containing the last disc and every cell within three steps of it that the winner holds without a gap |
| `WinCheck.LocalEqualsGlobal` | Raspberry Pi/Invisible Internet Protocol (i2pd) - Serving an Application/app/game.js:78-96 | after a disc lands on a board where its player had no four, the check along the lines through that disc succeeds exactly when the player has a four anywhere |
| `WinCheck.OtherFourUnchanged` | Raspberry Pi/Invisible Internet Protocol (i2pd) - Serving an Application/app/game.js:62-63 | a disc neither gives the other player a four nor takes one away |
| `Evaluation.WindowCount` | Raspberry Pi/Invisible Internet Protocol (i2pd) - Serving an Application/app/game.js:151-166 | the loops collect sixty-nine windows |
| `Evaluation.EveryWindowListed` | Raspberry Pi/Invisible Internet Protocol (i2pd) - Serving an Application/app/game.js:151-166 | every straight line of four cells on the board is among the collected windows |
| `Evaluation.SumAboveIsSum` | Raspberry Pi/Invisible Internet Protocol (i2pd) - Serving an Application/app/game.js:147-185 | summing over the collected list, in the order of the loops, gives the cell-by-cell sum that defines the evaluation |
| `Evaluation.EvaluationBounds` | Raspberry Pi/Invisible Internet Protocol (i2pd) - Serving an Application/app/game.js:147-208 | the score stays within 69 * 100024; without a four within 69 * 118; with fours of one player only it has that player's sign and is at least 100000 - 68 * 118 in size; and a score of +-100000 or more proves a four of that side |
| `Evaluation.TerminalExactly` | Raspberry Pi/Invisible Internet Protocol (i2pd) - Serving an Application/app/game.js:207-208 | the score is 100000 for every four the AI is ahead by plus the separately summed terms for open threes, open twos and centre cells; so the terminal test fires exactly when one side leads by two fours, or by one with those terms not speaking against it |
| `Evaluation.EvaluateSwap` | Raspberry Pi/Invisible Internet Protocol (i2pd) - Serving an Application/app/game.js:147-185 | exchanging the colours negates the score |
| `Evaluation.EvaluateMirror` | Raspberry Pi/Invisible Internet Protocol (i2pd) - Serving an Application/app/game.js:147-185 | reflecting the board left-right keeps the score |
| `Search.PlainAnyOrder` | Raspberry Pi/Invisible Internet Protocol (i2pd) - Serving an Application/app/game.js:211-240 | the plain minimax value is the best over any listing of the open columns, in whatever order |
| `Search.AlphaBetaRefinesPlain` | Raspberry Pi/Invisible Internet Protocol (i2pd) - Serving an Application/app/game.js:205-240 | for every grid, depth, window alpha < beta, order of moves and static evaluation, the pruned result is a fail-soft bound on the unpruned value: an upper bound at or below alpha, exact between, a lower bound at or above beta |
| `Search.FullWindowIsExact` | Raspberry Pi/Invisible Internet Protocol (i2pd) - Serving an Application/app/game.js:205-240 | with the full window the pruned search returns the unpruned value, whatever order the moves are tried in |
| `Search.LaterMovesIgnored` | Raspberry Pi/Invisible Internet Protocol (i2pd) - Serving an Application/app/game.js:214-239 | after a cut-off no further move is tried: a first move whose value closes the window decides the result alone |
| `Search.AlphaBetaBounded` | Raspberry Pi/Invisible Internet Protocol (i2pd) - Serving an Application/app/game.js:205-240 | the search returns a finite value within the bounds of the evaluation for any window, so the infinite starting values never escape |
| `Search.UnboundedTriesAll` | Raspberry Pi/Invisible Internet Protocol (i2pd) - Serving an Application/app/game.js:214-226 | while no finite bound comes from above, the maximizing loop tries every move it lists, whatever the order |
| `Search.ValueExactly` | Raspberry Pi/Invisible Internet Protocol (i2pd) - Serving an Application/app/game.js:205-240 | the unpruned value is at least t exactly when the AI can secure, against any replies, that play ends on a board worth at least t; play ends on a decided board, after the moves looked ahead, or on a full board, which is worth its score, or 0 if full, undecided and reached early |
| `Search.ForcesExactly` | Raspberry Pi/Invisible Internet Protocol (i2pd) - Serving an Application/app/game.js:205-240 | the unpruned value reaches the threshold on a side exactly when that player can force, against any replies, a board scored at the threshold for that side within the search depth |
| `Search.SwapDuality` | Raspberry Pi/Invisible Internet Protocol (i2pd) - Serving an Application/app/game.js:205-240 | searching the colour-swapped board for the other side with the window (-beta, -alpha) returns exactly the negated result, cut-offs included |
| `Search.PlainMirror` | Raspberry Pi/Invisible Internet Protocol (i2pd) - Serving an Application/app/game.js:205-240 | reflection keeps the unpruned value at every depth |
| `Search.SearchMirror` | Raspberry Pi/Invisible Internet Protocol (i2pd) - Serving an Application/app/game.js:205-240 | reflection keeps the full-window search value, for any two orders of moves |
| `Strategy.SortOrdersAscending` | Raspberry Pi/Invisible Internet Protocol (i2pd) - Serving an Application/app/game.js:217 | the stable sort puts ascending columns in order of their distance from column 3, equal distances by lower index, and loses none |
| `Strategy.CentreOrder` | Raspberry Pi/Invisible Internet Protocol (i2pd) - Serving an Application/app/game.js:217 | on seven open columns the order is 3, 2, 4, 1, 5, 0, 6 |
| `Strategy.CentreFirstIsValid` | Raspberry Pi/Invisible Internet Protocol (i2pd) - Serving an Application/app/game.js:211-217 | the program's move order lists exactly the open columns |
| `Strategy.SearchRefinesPlain` | Raspberry Pi/Invisible Internet Protocol (i2pd) - Serving an Application/app/game.js:205-240 | the three search results above for the program's own evaluation and move order, with the bound 69 * 100024 |
| `Strategy.SearchSymmetries` | Raspberry Pi/Invisible Internet Protocol (i2pd) - Serving an Application/app/game.js:147-240 | the program's own search is dual under exchange of colours and, with the full window, invariant under reflection |
| `Strategy.BestMoveRules` | Raspberry Pi/Invisible Internet Protocol (i2pd) - Serving an Application/app/game.js:242-279 | the choice is -1 on a full top row and 3 with seven columns open; otherwise the lowest column that wins at once, else the lowest where the human would, else the column of greatest plain value, ties to the one nearer to column 3 and then to the lower index; a choice is always an open column |
| `Strategy.WinsAtIsGlobal` | Raspberry Pi/Invisible Internet Protocol (i2pd) - Serving an Application/app/game.js:247-264 | on a board without a four of the player, the one-move win test is true exactly when the drop gives a four anywhere |
| `Strategy.TakesWinExactly` | Raspberry Pi/Invisible Internet Protocol (i2pd) - Serving an Application/app/game.js:245-255 | on any grid on which a win at once is on offer it is taken exactly if some column is full or the centre column itself wins (in the game as played that is always so: GameTheorems.TakesEveryWin) |
| `Strategy.BlocksExactly` | Raspberry Pi/Invisible Internet Protocol (i2pd) - Serving an Application/app/game.js:245-264 | when the human could win at once and the AI cannot, the AI plays a column where the human would win, and the lowest such column, exactly if some column is full or the centre column is one, or is that lowest one |
| `Strategy.LeafValues` | Raspberry Pi/Invisible Internet Protocol (i2pd) - Serving an Application/app/game.js:206-212 | where the search stops at once its result is the score of the board, and 0 on a full undecided board with moves left to look ahead |
| `Strategy.SearchExactly` | Raspberry Pi/Invisible Internet Protocol (i2pd) - Serving an Application/app/game.js:205-240 | the full-window search returns the greatest worth of the last board that the AI can secure |
| `Strategy.BestMoveSecures` | Raspberry Pi/Invisible Internet Protocol (i2pd) - Serving an Application/app/game.js:266-278 | where the AI searches, it plays a column after which it can secure, in five more moves, as much as after any other, and among those just as good the nearest to column 3, then the lower |
| `Strategy.DecidedHasFour` | Raspberry Pi/Invisible Internet Protocol (i2pd) - Serving an Application/app/game.js:207-208 | a board scored at the threshold for a player holds a four of that player |
| `Strategy.PlaysForcedWins` | Raspberry Pi/Invisible Internet Protocol (i2pd) - Serving an Application/app/game.js:266-278 | where the AI searches, it plays a column after which it can force a decided board exactly when there is one, and a column after which the human can force one only when all are such |
| `Counterexamples.WonBoardNotSeen` | Raspberry Pi/Invisible Internet Protocol (i2pd) - Serving an Application/app/game.js:207-279 | a position of the running program in which the AI searches, and a board the search comes to below it on which the AI has a four and the human none, which scores 99934, so that the terminal test misses the win |
| `Counterexamples.WinNotBlocked` | Raspberry Pi/Invisible Internet Protocol (i2pd) - Serving an Application/app/game.js:245-264 | a position of the running program in which the human threatens to win in the left column and the AI, on move and without a win of its own, plays the centre |
| `Engine.DropRowOf` | Raspberry Pi/Invisible Internet Protocol (i2pd) - Serving an Application/app/game.js:55-60 | the scan of the grid finds the landing row |
| `Engine.Simulate` | Raspberry Pi/Invisible Internet Protocol (i2pd) - Serving an Application/app/game.js:195-203 | a disc is put in the landing row, which is returned; a full column is left alone and gives -1 |
| `Engine.ValidMoves` | Raspberry Pi/Invisible Internet Protocol (i2pd) - Serving an Application/app/game.js:187-193 | the open columns, ascending |
| `Engine.CheckWin` | Raspberry Pi/Invisible Internet Protocol (i2pd) - Serving an Application/app/game.js:78-96 | the loops over the grid compute the winning line of WinCheck.Win |
| `Engine.CheckWinOn` | Raspberry Pi/Invisible Internet Protocol (i2pd) - Serving an Application/app/game.js:282-295 | the counting loops decide whether a line through the cell wins |
| `Engine.CollectWindows` | Raspberry Pi/Invisible Internet Protocol (i2pd) - Serving an Application/app/game.js:151-166 | the nested loops build the list of windows in order |
| `Engine.EvaluateGrid` | Raspberry Pi/Invisible Internet Protocol (i2pd) - Serving an Application/app/game.js:147-185 | the scoring loop over the collected windows computes the evaluation of the board |
| `Engine.Minimax` | Raspberry Pi/Invisible Internet Protocol (i2pd) - Serving an Application/app/game.js:205-240 | the recursive search that drops and removes discs on one shared grid leaves the grid as it was, returns the fail-soft value, stands to the plain value as a fail-soft bound and is finite |
| `Engine.MaximizeOver` | Raspberry Pi/Invisible Internet Protocol (i2pd) - Serving an Application/app/game.js:214-226 | the maximizing loop with its cut-off computes the pruned best value and restores the grid |
| `Engine.MinimizeOver` | Raspberry Pi/Invisible Internet Protocol (i2pd) - Serving an Application/app/game.js:227-239 | the minimizing loop with its cut-off computes the pruned best value and restores the grid |
| `Engine.FindWin` | Raspberry Pi/Invisible Internet Protocol (i2pd) - Serving an Application/app/game.js:247-264 | the scan for a line in one move finds the first such column and restores the grid |
| `Engine.ChooseColumn` | Raspberry Pi/Invisible Internet Protocol (i2pd) - Serving an Application/app/game.js:242-279 | the choice on the shared grid is the one described by the rules, and the grid is left as it was on every path |
| `Game.ConnectFour.constructor` | Raspberry Pi/Invisible Internet Protocol (i2pd) - Serving an Application/app/game.js:19-45 | a new page starts in the initial state, with the human to move on an empty board |
| `Game.ConnectFour.IsDraw` | Raspberry Pi/Invisible Internet Protocol (i2pd) - Serving an Application/app/game.js:98-100 | true exactly when the top row is full |
| `Game.ConnectFour.AiMove` | Raspberry Pi/Invisible Internet Protocol (i2pd) - Serving an Application/app/game.js:297-302 | a new token is handed out, and one callback carrying it is pending |
| `Game.ConnectFour.FinishTurn` | Raspberry Pi/Invisible Internet Protocol (i2pd) - Serving an Application/app/game.js:110-127 | a win ends the game and scores, a full board ends it, otherwise the turn passes and the AI may start thinking |
| `Game.ConnectFour.OnColumnClick` | Raspberry Pi/Invisible Internet Protocol (i2pd) - Serving an Application/app/game.js:129-135 | the click handler takes the click step of the state machine and keeps its invariant |
| `Game.ConnectFour.OnTimer` | Raspberry Pi/Invisible Internet Protocol (i2pd) - Serving an Application/app/game.js:302-314 | the timer callback takes the timer step of the state machine and keeps its invariant |
| `Game.ConnectFour.OnNewGame` | Raspberry Pi/Invisible Internet Protocol (i2pd) - Serving an Application/app/game.js:317-325 | a new game takes the new-game step, on a fresh empty grid, and keeps the invariant |
| `Game.ConnectFour.OnResetScores` | Raspberry Pi/Invisible Internet Protocol (i2pd) - Serving an Application/app/game.js:328-332 | a reset takes the reset step and keeps the invariant |
| `GameModel.LiveCallbackPlays` | Raspberry Pi/Invisible Internet Protocol (i2pd) - Serving an Application/app/game.js:302-313 | the callback with the live token always finds a column to play, so the branch for no column is never taken, and plays it |
| `GameModel.StepKeepsInv` | Raspberry Pi/Invisible Internet Protocol (i2pd) - Serving an Application/app/game.js:98-135 | gravity, turns, outcome and the token protocol are kept by every event |
| `GameModel.RunKeepsInv` | Raspberry Pi/Invisible Internet Protocol (i2pd) - Serving an Application/app/game.js:98-135 | they hold after every sequence of clicks, callbacks, new games and resets |
| `GameTheorems.OutcomeReachable` | Raspberry Pi/Invisible Internet Protocol (i2pd) - Serving an Application/app/game.js:78-135 | in every reachable state: while play goes on nobody has four and a column is open; at most one player has a four, and then the game is over and that player moved last; the game is over exactly on a four or a full top row |
| `GameTheorems.ProtocolReachable` | Raspberry Pi/Invisible Internet Protocol (i2pd) - Serving an Application/app/game.js:297-325 | in every reachable state the AI is thinking exactly on its turn of a running game, and exactly when one pending callback carries the current token; all others are older, and their firing changes nothing but the set of pending callbacks |
| `GameTheorems.BoardReachable` | Raspberry Pi/Invisible Internet Protocol (i2pd) - Serving an Application/app/game.js:30-69 | in every reachable state columns are gap-free stacks, the scans agree with heights and fullness, disc counts differ by at most one, and the side to move follows from the starter and the number of discs |
| `GameTheorems.StepBoard` | Raspberry Pi/Invisible Internet Protocol (i2pd) - Serving an Application/app/game.js:98-135 | apart from a new game, a step leaves the board alone or drops one disc of the player to move into an open column of a running game |
| `GameTheorems.ClickPlays` | Raspberry Pi/Invisible Internet Protocol (i2pd) - Serving an Application/app/game.js:129-135 | on the human's turn a click on a column with room drops a red disc there |
| `GameTheorems.NewGameStarts` | Raspberry Pi/Invisible Internet Protocol (i2pd) - Serving an Application/app/game.js:317-325 | a new game starts on an empty board with the starter to move, the AI thinking exactly if it starts, and the scores as they were |
| `GameTheorems.StepKeepsCentre` | Raspberry Pi/Invisible Internet Protocol (i2pd) - Serving an Application/app/game.js:242-245 | every event keeps this: while all seven columns are open, every disc of the AI is in the centre column |
| `GameTheorems.TakesEveryWin` | Raspberry Pi/Invisible Internet Protocol (i2pd) - Serving an Application/app/game.js:242-255 | in every reachable state in which a win at once is on offer to the AI, its choice wins |
| `GameTheorems.LiveCallbackOnce` | Raspberry Pi/Invisible Internet Protocol (i2pd) - Serving an Application/app/game.js:302-313 | the live callback drops exactly one disc, in the chosen column, and ends the thinking |
| `GameTheorems.CallbacksPlaceAtMostOne` | Raspberry Pi/Invisible Internet Protocol (i2pd) - Serving an Application/app/game.js:297-315 | however many callbacks fire in a row, the AI drops at most one disc |
| `GameTheorems.PlacementsBounded` | Raspberry Pi/Invisible Internet Protocol (i2pd) - Serving an Application/app/game.js:55-69 | within one game every placement uses up one empty cell, so there are at most 42 |
| `GameTheorems.NeverStuck` | Raspberry Pi/Invisible Internet Protocol (i2pd) - Serving an Application/app/game.js:129-135 | a running game always has a click or a pending callback that puts the next disc on the board |
| `Positions.GameComesUp` | Raspberry Pi/Invisible Internet Protocol (i2pd) - Serving an Application/app/game.js:98-135 | the record of a game that either player begins and that has not ended, with the AI's moves its own choices, is reached by some run of the program |
| `GameTheorems.ScoreStep` | Raspberry Pi/Invisible Internet Protocol (i2pd) - Serving an Application/app/game.js:110-118 | a score goes up by one exactly when the step completes that player's four, which ends the game |
| `GameTheorems.ScoresCountWins` | Raspberry Pi/Invisible Internet Protocol (i2pd) - Serving an Application/app/game.js:110-118 | between resets each score is the number of games that player won |
| `GameTheorems.ScoresSinceReset` | Raspberry Pi/Invisible Internet Protocol (i2pd) - Serving an Application/app/game.js:328-332 | after a reset each score is the number of games won since |
| `GameTheorems.NewPage` | Raspberry Pi/Invisible Internet Protocol (i2pd) - Serving an Application/app/game.js:19-45 | on a new page the human is to move on an empty board, and each score is the number of games won since |
| `Paging.SortIsUnique` | K3S/Installing the Synology CSI Driver with the Snapshot feature in k3s/02 - synology-csi/pkg/driver/controllerserver.go:253 | when keys identify the items, any two sorted orders of them are the same |
| `Paging.LessExactly` | K3S/Installing the Synology CSI Driver with the Snapshot feature in k3s/02 - synology-csi/pkg/driver/controllerserver.go:253 | the order of keys is that of the first place at which they differ, a proper beginning coming before the whole |
| `Paging.ListFrom` | K3S/Installing the Synology CSI Driver with the Snapshot feature in k3s/02 - synology-csi/pkg/driver/controllerserver.go:250-294 | the paging loop gives the page of the sorted listing that starts at the token, keeps the wanted items, stops at the limit and names the next item; an unknown token is refused |
| `Paging.ListVolumes` | K3S/Installing the Synology CSI Driver with the Snapshot feature in k3s/02 - synology-csi/pkg/driver/controllerserver.go:239-295 | a listing call pages through some sorted order of the volumes: a negative limit and a token that names none are refused, a page holds no more entries than the limit and fewer only at the end, and without token and limit every volume is there as often as in the list |
| `Paging.ListSnapshots` | K3S/Installing the Synology CSI Driver with the Snapshot feature in k3s/02 - synology-csi/pkg/driver/controllerserver.go:408-471 | the same for snapshots, of which exactly those with the given id are wanted, or all for the empty id |
| `Paging.SessionIsExact` | K3S/Installing the Synology CSI Driver with the Snapshot feature in k3s/02 - synology-csi/pkg/driver/controllerserver.go:239-295 | where ids and sort keys tell the kept items apart: following the tokens with any limits, and with the items in any order each time, no request is refused, the pages together are a beginning of the sorted filtered listing, the page without a token completes it, and the number of pages is bounded |
| `Paging.SessionPageSize` | K3S/Installing the Synology CSI Driver with the Snapshot feature in k3s/02 - synology-csi/pkg/driver/controllerserver.go:239-295 | each page of such a session holds as many entries as its limit allows, or all that are left |
| `Paging.PagingIsExactExactly` | K3S/Installing the Synology CSI Driver with the Snapshot feature in k3s/02 - synology-csi/pkg/driver/controllerserver.go:239-295 | for items with non-empty ids, which may repeat, and a filter that looks at the id: every client that follows the tokens to the end gets every kept item exactly as often as it is there, if and only if no two places in the kept listing share an id or a sort key |
| `Paging.VolumePagingExactly` | K3S/Installing the Synology CSI Driver with the Snapshot feature in k3s/02 - synology-csi/pkg/driver/controllerserver.go:239-295 | paging through the volumes is exact if and only if no id is listed twice |
| `Paging.RepeatedIdSession` | K3S/Installing the Synology CSI Driver with the Snapshot feature in k3s/02 - synology-csi/pkg/driver/controllerserver.go:239-295 | a volume that is listed twice, as a LUN mapped by two targets is, keeps a client that asks for one entry at a time going for any number of pages |
| `Paging.SnapshotSessionIsExact` | K3S/Installing the Synology CSI Driver with the Snapshot feature in k3s/02 - synology-csi/pkg/driver/controllerserver.go:408-471 | a finished session over snapshots whose ids are distinct and not empty among those wanted, with a snapshot id or, for ids free of slashes, without, gives the filtered listing, in which every snapshot with the given id, or every one for the empty id, is as often as it is there, and no other |
| `Paging.RefusedExactly` | K3S/Installing the Synology CSI Driver with the Snapshot feature in k3s/02 - synology-csi/pkg/driver/controllerserver.go:257-289 | a non-empty token is refused exactly when it names no item |
| `Paging.SnapshotKeysIdentify` | K3S/Installing the Synology CSI Driver with the Snapshot feature in k3s/02 - synology-csi/pkg/models/dsm_req_spec.go:77-82 | distinct slash-free snapshot ids give distinct sort keys, whatever the parents |
| `Paging.SlashSession` | K3S/Installing the Synology CSI Driver with the Snapshot feature in k3s/02 - synology-csi/pkg/driver/controllerserver.go:425-471 | with a slash in their ids two snapshots can share a sort key, and sessions of any length exist in which the two are delivered in turn, over and over |
| `DeviceForest.Lsblk` | K3S/Installing the Synology CSI Driver with the Snapshot feature in k3s/02 - synology-csi/pkg/driver/multipath.go:160-208 | parsing and tree building return what the row-by-row description says: the report of a short row, the panic on five or six columns, the unknown parent, or the roots |
| `DeviceForest.ShortRows` | K3S/Installing the Synology CSI Driver with the Snapshot feature in k3s/02 - synology-csi/pkg/driver/multipath.go:160-182 | the first row with fewer than seven columns decides: with fewer than five it is reported, with five or six the parser reads past its end |
| `DeviceForest.Attach` | K3S/Installing the Synology CSI Driver with the Snapshot feature in k3s/02 - synology-csi/pkg/driver/multipath.go:183-208 | copying each device into its parent through the map of kernel names leaves every device with the copies attached so far |
| `DeviceForest.ForestIsExact` | K3S/Installing the Synology CSI Driver with the Snapshot feature in k3s/02 - synology-csi/pkg/driver/multipath.go:183-208 | for complete rows with unique root names the call fails exactly when some parent is unknown, and otherwise returns the parentless rows in order, each with exactly the rows naming it as parent, in order |
| `DeviceForest.UnknownParent` | K3S/Installing the Synology CSI Driver with the Snapshot feature in k3s/02 - synology-csi/pkg/driver/multipath.go:190-198 | the parent reported as unknown is that of the first row whose parent is |
| `DeviceForest.CopyIsWholeExactly` | K3S/Installing the Synology CSI Driver with the Snapshot feature in k3s/02 - synology-csi/pkg/driver/multipath.go:183-208 | because children are copies and go to the last row of a kernel name: the copy of that row holds the rows before it that name it as parent, and so all of its children exactly when none of them comes later; the copy of an earlier row of the name holds none |
| `DeviceForest.GrandchildIsLost` | K3S/Installing the Synology CSI Driver with the Snapshot feature in k3s/02 - synology-csi/pkg/driver/multipath.go:183-208 | for a disk, its multipath device and a partition of that, in lsblk's order, the forest returned lacks the partition |
| `DeviceForest.PartitionUnderLastPath` | K3S/Installing the Synology CSI Driver with the Snapshot feature in k3s/02 - synology-csi/pkg/driver/multipath.go:183-208 | with two disks sharing the multipath device, the partition hangs under the second disk's copy of the device and is missing from the first disk's |
| `DeviceForest.GetMultipathDevice` | K3S/Installing the Synology CSI Driver with the Snapshot feature in k3s/02 - synology-csi/pkg/driver/multipath.go:119-141 | succeeds exactly when there is a root, every root has one child, all children share a name and the last is of type mpath, and returns that one; and what each failure means |
| `Controllers.GetAnotherController` | K3S/Installing the Synology CSI Driver with the Snapshot feature in k3s/02 - synology-csi/pkg/dsm/webapi/utils.go:24-82 | which half the address belongs to and the order of the failures; with the fewest dotted parts, from one to four, cut off the address that leave a beginning of some connected, answering interface of the other half, the first such interface in the list is found; it fails only if none answers on what four cuts leave |
| `Controllers.BestPrefix` | K3S/Installing the Synology CSI Driver with the Snapshot feature in k3s/02 - synology-csi/pkg/dsm/webapi/utils.go:59-81 | for a dotted address of at most four parts the search fails exactly when no interface of the other half is connected and reachable, and otherwise finds the first, in list order, of those matching the longest dotted prefix |
| `Controllers.FourthPrefixIsEmpty` | K3S/Installing the Synology CSI Driver with the Snapshot feature in k3s/02 - synology-csi/pkg/dsm/webapi/utils.go:59-67 | four strips leave nothing of an address with at most three dots |
| `Capacity.SizeByCapacityRange` | K3S/Installing the Synology CSI Driver with the Snapshot feature in k3s/02 - synology-csi/pkg/driver/controllerserver.go:45-60 | without a range the size is 1 GiB; with one it is the required size exactly if that is at least 1 GiB and within a positive limit, and refused otherwise |
| `Capacity.CeilExactly` | K3S/Installing the Synology CSI Driver with the Snapshot feature in k3s/02 - synology-csi/pkg/utils/utils.go:43-46 | rounding up to MiB is right exactly for sizes up to 2^63 - 2^20 |
| `Capacity.CeilToBytes` | K3S/Installing the Synology CSI Driver with the Snapshot feature in k3s/02 - synology-csi/pkg/utils/utils.go:35-46 | up to that size rounding up and converting back gives the least multiple of 1 MiB not below it, without overflow |
| `Capacity.QuotaCheckIsExact` | K3S/Installing the Synology CSI Driver with the Snapshot feature in k3s/02 - synology-csi/pkg/driver/controllerserver.go:174-177 | a share quota that passes the comparison in MiB, even one that wraps around, reports exactly the size rounded up |
| `Capacity.ExpandRaisesQuota` | K3S/Installing the Synology CSI Driver with the Snapshot feature in k3s/02 - synology-csi/pkg/dsm/service/dsm.go:608-627 | an expansion that is not refused keeps a quota from sinking exactly for quotas below 2^43 MiB, if the new size rounds without wrapping around; with one that wraps around the quota becomes negative |
| `Capacity.ExpandRaisesLun` | K3S/Installing the Synology CSI Driver with the Snapshot feature in k3s/02 - synology-csi/pkg/dsm/service/dsm.go:608-640 | an expansion that is not refused lowers a LUN exactly when its size is beyond the signed range and the new one is not negative |
| `Capacity.OwnQuotaPasses` | K3S/Installing the Synology CSI Driver with the Snapshot feature in k3s/02 - synology-csi/pkg/driver/controllerserver.go:174-177 | a quota made by rounding a size up passes the comparison with that size, even where the rounding wraps around |
| `Capacity.CeilNotZero` | K3S/Installing the Synology CSI Driver with the Snapshot feature in k3s/02 - synology-csi/pkg/dsm/service/share_volume.go:83-88 | a positive size never rounds to the zero quota of another protocol's record or of a share without quota |
| `Nas.Dsm.LunCreate` | K3S/Installing the Synology CSI Driver with the Snapshot feature in k3s/02 - synology-csi/pkg/dsm/webapi/iscsi.go:160-192 | a LUN comes into being at most once per name, also when the call reports a failure |
| `Nas.Dsm.TargetCreate` | K3S/Installing the Synology CSI Driver with the Snapshot feature in k3s/02 - synology-csi/pkg/dsm/webapi/iscsi.go:318-342 | a target comes into being at most once per name, also when the call reports a failure |
| `Volumes.ListISCSIVolumes` | K3S/Installing the Synology CSI Driver with the Snapshot feature in k3s/02 - synology-csi/pkg/dsm/service/dsm.go:530-560 | only LUNs of the driver that some target maps are listed, and if no call fails each of them as many times as targets map it |
| `Volumes.ListSMBVolumes` | K3S/Installing the Synology CSI Driver with the Snapshot feature in k3s/02 - synology-csi/pkg/dsm/service/share_volume.go:181-206 | only shares of the driver are listed, and all of them if no call fails |
| `Volumes.GetVolumeByName` | K3S/Installing the Synology CSI Driver with the Snapshot feature in k3s/02 - synology-csi/pkg/dsm/service/dsm.go:580-590 | what is found is visible and has one of the two backing names; nothing is missed if no call fails, and a share is found only where no LUN has either name |
| `Volumes.GetVolume` | K3S/Installing the Synology CSI Driver with the Snapshot feature in k3s/02 - synology-csi/pkg/dsm/service/dsm.go:569-578 | what is found is visible and has the id; nothing is missed if no call fails |
| `Volumes.LunAliasExactly` | K3S/Installing the Synology CSI Driver with the Snapshot feature in k3s/02 - synology-csi/pkg/models/dsm.go:38-48 | a lookup takes another volume's LUN for its own exactly when the name is longer than 24 bytes and the other volume is named by its first 24 |
| `Volumes.ShareAliasExactly` | K3S/Installing the Synology CSI Driver with the Snapshot feature in k3s/02 - synology-csi/pkg/models/dsm.go:38-48 | two volumes get the same share name exactly when their names are equal or both at least 24 bytes long with the same first 24 |
| `Volumes.ShortNames` | K3S/Installing the Synology CSI Driver with the Snapshot feature in k3s/02 - synology-csi/pkg/models/dsm.go:38-48 | for names of at most 24 bytes the two backing names are the same |
| `Retries.RetriesConverge` | K3S/Installing the Synology CSI Driver with the Snapshot feature in k3s/02 - synology-csi/pkg/dsm/service/dsm.go:152-373 | over any number of identical calls, each failing anywhere, with others at work on the NAS and clones finishing in between: a success leaves the one LUN of that name mapped to its target, unlocked and with its sessions set, and returns its id and the requested size; no later call changes anything, LUN and target stay as they are, every further success returns the same, and a later call in which nothing fails does succeed; no call touches LUNs, targets or shares of other names |
| `Retries.EveryCallIsAttempt` | K3S/Installing the Synology CSI Driver with the Snapshot feature in k3s/02 - synology-csi/pkg/dsm/service/dsm.go:152-373 | every call of such a run, whatever the calls before ended in, meets the request's own objects in order and only lets them grow |
| `Retries.OnceCopiedSucceeds` | K3S/Installing the Synology CSI Driver with the Snapshot feature in k3s/02 - synology-csi/pkg/dsm/service/dsm.go:263-373 | once the clone has been unlocked, every later call in which nothing fails succeeds, as long as its source is there |
| `Retries.VisibleIsReady` | K3S/Installing the Synology CSI Driver with the Snapshot feature in k3s/02 - synology-csi/pkg/dsm/service/dsm.go:188-196 | a volume shows up in lookups only after its clone is unlocked and its session setting applied |
| `Retries.UntouchedIsTidy` | K3S/Installing the Synology CSI Driver with the Snapshot feature in k3s/02 - synology-csi/pkg/dsm/service/dsm.go:201-261 | a name without LUN and target on the NAS is a fit start for a run of attempts |
| `Retries.ShortNamesHaveNoAlias` | K3S/Installing the Synology CSI Driver with the Snapshot feature in k3s/02 - synology-csi/pkg/models/dsm.go:38-48 | for names of at most 24 bytes the only alias to exclude is a share of that very name |
| `ShareRetries.SmbRetriesConverge` | K3S/Installing the Synology CSI Driver with the Snapshot feature in k3s/02 - synology-csi/pkg/dsm/service/share_volume.go:30-179 | the same for SMB: after a success no later call changes anything, every further success returns the same id and capacity, and a later call in which nothing fails does succeed |
| `ShareRetries.CleanRetries` | K3S/Installing the Synology CSI Driver with the Snapshot feature in k3s/02 - synology-csi/pkg/driver/controllerserver.go:161-177 | once the share is there, calls in which nothing fails never change it and succeed exactly when its quota passes the comparison in MiB; a share left with quota 0 makes every such call end in AlreadyExists |
| `Repeating.Repeat` | K3S/Installing the Synology CSI Driver with the Snapshot feature in k3s/02 - synology-csi/pkg/driver/controllerserver.go:161-191 | sending one request any number of times, iSCSI or SMB, with clones finishing in between, gives a run of the retry theorems, so that all successes are the same; where no quota can be set, a request that clones a share is answered with an internal error the first time and with AlreadyExists for ever after |
| `Repeating.CloneNeverMade` | K3S/Installing the Synology CSI Driver with the Snapshot feature in k3s/02 - synology-csi/pkg/dsm/service/share_volume.go:102-121 | the same on one concrete NAS holding a share of 1 GiB: a clone that arrives without a quota, which then cannot be set, is found by name and refused on every later attempt, though nothing fails in it |
| `Provisioning.CreateMappingTarget` | K3S/Installing the Synology CSI Driver with the Snapshot feature in k3s/02 - synology-csi/pkg/dsm/service/dsm.go:152-199 | the target is created or found, its sessions set for a request that asks for several and otherwise left alone, and the LUN mapped last; whatever fails, nothing but the request's own objects grows, and tidy ones stay tidy |
| `Provisioning.CreateVolumeByDsm` | K3S/Installing the Synology CSI Driver with the Snapshot feature in k3s/02 - synology-csi/pkg/dsm/service/dsm.go:201-261 | an empty LUN of that name, size and location, or the one found, with its target; whatever fails, nothing but the request's own objects grows, and tidy ones stay tidy; if nothing fails and the size is not negative it succeeds |
| `Provisioning.WaitCloneFinished` | K3S/Installing the Synology CSI Driver with the Snapshot feature in k3s/02 - synology-csi/pkg/dsm/service/dsm.go:263-293 | success means that the LUN was seen unlocked, and a LUN that is unlocked at the start is, if no call fails |
| `Provisioning.CreateVolumeBySnapshot` | K3S/Installing the Synology CSI Driver with the Snapshot feature in k3s/02 - synology-csi/pkg/dsm/service/dsm.go:295-331 | a requested size other than zero and the snapshot's is refused with nothing changed; otherwise a new LUN has the size, contents and place of the snapshot, nothing but the request's own objects grows, and success leaves a LUN of that name mapped; if nothing fails and the LUN is unlocked, or copying takes no time, it succeeds |
| `Provisioning.CreateVolumeByVolume` | K3S/Installing the Synology CSI Driver with the Snapshot feature in k3s/02 - synology-csi/pkg/dsm/service/dsm.go:333-373 | a requested size other than zero and the source's is refused with nothing changed; otherwise a new LUN has the size and contents of the source, at the place asked for or else the source's, nothing but the request's own objects grows, and success leaves a LUN of that name mapped; if nothing fails and the LUN is unlocked, or copying takes no time, it succeeds |
| `Provisioning.CreateSMBVolumeByDsm` | K3S/Installing the Synology CSI Driver with the Snapshot feature in k3s/02 - synology-csi/pkg/dsm/service/share_volume.go:130-179 | at most the one share comes into being, and a new one has the rounded size; a share with a quota is not changed; if nothing fails it succeeds |
| `Provisioning.CreateSMBVolumeByVolume` | K3S/Installing the Synology CSI Driver with the Snapshot feature in k3s/02 - synology-csi/pkg/dsm/service/share_volume.go:83-128 | a requested size other than zero that does not round to the source's quota is refused with nothing changed; otherwise the clone is made if nothing fails, with the source's contents and place and with the rounded size as its quota; a share with a quota is not changed |
| `Provisioning.CreateSMBVolumeBySnapshot` | K3S/Installing the Synology CSI Driver with the Snapshot feature in k3s/02 - synology-csi/pkg/dsm/service/share_volume.go:30-81 | success means that the share has the rounded size as its quota; a new one has the contents of the snapshot; if nothing fails a new clone is made when the parent has that quota or none, one that is there is accepted exactly when it has that quota or none, and a refusal is out of range |
| `Provisioning.CreateFromSnapshot` | K3S/Installing the Synology CSI Driver with the Snapshot feature in k3s/02 - synology-csi/pkg/dsm/service/dsm.go:423-459 | a snapshot that is not there is not found, and one of the other protocol or at another place than asked for is a bad argument, with nothing changed; if nothing fails, the clone of one of the size asked for is made |
| `Provisioning.CreateVolume` | K3S/Installing the Synology CSI Driver with the Snapshot feature in k3s/02 - synology-csi/pkg/dsm/service/dsm.go:402-483 | the path is chosen by source and protocol; a clone of a volume of the other protocol with a positive size, or of a snapshot that is missing, of the other protocol or at another place, is refused with nothing changed; if nothing fails, a blank volume of a size that is not negative is made, and so is the clone of a share, LUN or snapshot of the size asked for, for iSCSI once the copy is unlocked |
| `Provisioning.ControllerCreateVolume` | K3S/Installing the Synology CSI Driver with the Snapshot feature in k3s/02 - synology-csi/pkg/driver/controllerserver.go:161-191 | for a request whose own objects are in order and that has no alias the call is one attempt of the retry theorems, iSCSI or SMB; so if nothing fails it succeeds when there is no source, the LUN is complete already, or the source is of the size asked for and, for iSCSI, the clone is unlocked or copying takes no time; on any NAS a success reports exactly the required bytes for iSCSI and the least multiple of 1 MiB for SMB (for sizes up to 2^63 - 2^20); a name that is taken is answered, if nothing fails, for a volume found under it with nothing changed; a clone of a volume across protocols, or of a snapshot that is missing, of the other protocol or at another place, never changes the NAS, and where the name is free it fails with the error of its kind |
| `Provisioning.AdmitCapacity` | K3S/Installing the Synology CSI Driver with the Snapshot feature in k3s/02 - synology-csi/pkg/driver/controllerserver.go:174-191 | a record that passes the size check reports exactly the required bytes, or their least multiple of 1 MiB |
| `Provisioning.AdmitOwn` | K3S/Installing the Synology CSI Driver with the Snapshot feature in k3s/02 - synology-csi/pkg/driver/controllerserver.go:174-177 | re-creating with the same request passes the size check: for the request's own LUN always, for its share exactly when the quota passes the comparison, as a quota made from the request does |
| `Provisioning.AttemptCanBeRepeated` | K3S/Installing the Synology CSI Driver with the Snapshot feature in k3s/02 - synology-csi/pkg/dsm/service/dsm.go:152-373 | what one create call, iSCSI or SMB, asks of the NAS holds again after it, however it ended, so runs of calls are runs of attempts |
| `Provisioning.ExpandVolume` | K3S/Installing the Synology CSI Driver with the Snapshot feature in k3s/02 - synology-csi/pkg/dsm/service/dsm.go:602-640 | if no call fails it succeeds exactly when a visible volume has the id and at most the new size, and it changes nothing when there is none; a success reports the new size, rounded for shares, and the NAS holds it; only that volume changes; its size or quota is not lowered if it and the new size are in the range in which nothing wraps around, and a success lowers it if not |
| `Provisioning.ControllerExpandVolume` | K3S/Installing the Synology CSI Driver with the Snapshot feature in k3s/02 - synology-csi/pkg/driver/controllerserver.go:473-496 | a missing or invalid range is refused with nothing changed; if the range is valid and no call fails it succeeds exactly when a visible volume has the id and at most the required size; a success reports the required size, rounded for shares; no size is lowered as long as the volume is in range |
| `SharedNames.OneShareExactly` | K3S/Installing the Synology CSI Driver with the Snapshot feature in k3s/02 - synology-csi/pkg/driver/controllerserver.go:161-177 | after a success for one SMB request, a call for another in which nothing fails returns the same id exactly when the names lead to one share and the sizes round to the same MiB |
| `SharedNames.CreateTwo` | K3S/Installing the Synology CSI Driver with the Snapshot feature in k3s/02 - synology-csi/pkg/driver/controllerserver.go:161-191 | of two calls with different names: for SMB as above, by the names alone; for iSCSI a name of more than 24 bytes whose first 24 are the other name, with nothing else in its way, gets the other volume if the sizes are the same, and AlreadyExists otherwise |
| `Provisioning.ExpansionRaises` | K3S/Installing the Synology CSI Driver with the Snapshot feature in k3s/02 - synology-csi/pkg/dsm/service/dsm.go:608-640 | an expansion that is not refused raises or keeps the LUN's size or the share's quota exactly in that range |

## Left out

- DOM work, status texts, highlighting and the length of the timer delay: a callback is pending and may fire once, at any time.
- A drop into a full column, which would index row -1: the handlers and the search never make one, which is proved.
- `moves.sort` and `sort.Sort` are library sorts: the first is the stable sort by distance, the second any sorted order.
- Evaluation.Evaluate: scores are unbounded integers; the bounds proved keep them far below the range in which the program's numbers are exact.
- DeviceForest.Lsblk: running the command and splitting its output at newlines and spaces are not modelled; the rows arrive as lists of columns.
- Controllers.GetAnotherController: name lookup, interface lists and reachability are parameters fixed during the call; the labels A and B are returned instead of being stored in two objects.
- Provisioning.CreateMappingTarget: the target's IQN and its cut at 128 bytes; targets are told apart by name.
- Nas.Dsm.LunCreate: LUN type, description, device attributes and free space are not modelled; choosing a storage location is one call that works or fails.
- Provisioning.CreateVolume: finding a snapshot by id is one call that works or fails, not the walk through all volumes; with a single DSM the comparison of hosts and the loop over hosts fall away.
- Provisioning.WaitCloneFinished: the backoff times; the number of polls is arbitrary but at least one, and the clone may finish between any two.
- Provisioning.ExpandVolume: that nothing is lowered is promised for sizes and quotas in the range where byte counts and rounding do not wrap around; outside it is false, and a success does lower the volume's own size or quota.
- Provisioning.ControllerCreateVolume: access modes, parameter parsing and the volume context of the reply; the request arrives unpacked, with a size that `Capacity.SizeByCapacityRange` has accepted.
- Volumes.ListSMBVolumes: the test for DSM UC, which has no shares to list.
- Volumes.LunAliasExactly: names are sequences of one-byte characters.
- Creating a volume on one of several DSMs without naming one: a failed attempt may leave objects on one host and go on to the next, so no uniqueness holds across hosts.
- DeleteVolume, snapshot creation and deletion, GetCapacity and capability queries.
- HTTP, JSON, login, mounting, iscsiadm, gRPC plumbing, flags and the command line tools: calls into systems outside the model.
- Guides, compose files, Kubernetes manifests and i2pd configurations: no algorithm.
