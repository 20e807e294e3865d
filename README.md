# International draughts player: per-turn move search

This project models the move search of two international-draughts players,
`MyDraughtsPlayer` and `VeselinTopalov`. Each turn the host framework asks
the player for a move. The player runs alpha-beta search with iterative
deepening. White maximises, black minimises, and positions are scored by a
static evaluator. The host may ask the player to stop thinking at any time.

The two Java classes contain the same driver and engine; the copy in
`VeselinTopalov.java` (lines 29-178) matches `MyDraughtsPlayer.java`
statement for statement, apart from the commented-out alternative search. They differ only
in `evaluate`. So one class, `Search.Player`, models both. It has one named
constructor per Java class, and a `const evaluator` selects the evaluator.

Modules:

- `Game` (game.dfy): the rules engine as an opaque game tree. A `Position`
  has a side to move, a 51-entry piece array (entry 0 unused) and its legal
  moves in enumeration order, each with the position it leads to.
- `Material` (material.dfy): the evaluator of `MyDraughtsPlayer`. A man is
  worth 1 and a king 3, white positive.
- `Tables` (tables.dfy): the evaluator of `VeselinTopalov`. A piece is worth
  its square's entry in its colour's table, and a king 20 more.
- `SearchSpec` (minimax.dfy): the reference definitions. These are
  depth-limited minimax, the first best move in enumeration order, and the
  value a fail-hard window reports. They come with the lemmas relating them.
- `Search` (search.dfy): the imperative player. It has the search node
  (`DraughtsNode`: a position and a best-move slot), the stop flag, the
  engine methods `AlphaBeta`, `AlphaBetaMax` and `AlphaBetaMin`, and the
  driver `GetMove`.

The engine is proved against the unpruned minimax. A call aborts exactly
when a stop is pending on entry; otherwise it completes, and its value is the leaf's evaluation unchanged at depth 0 or when there are no
moves. Otherwise, for alpha < beta, it is the minimax value clamped into [alpha, beta]; when alpha >= beta the maximiser reports beta and the minimiser alpha. The
driver's window is the full 32-bit range, and every evaluation lies within
±1500. So the root value is exactly the minimax value. Its best move is the
first move, in enumeration order, that attains that value.

`AIStoppedException` is modelled as the `Aborted` outcome. `getValue` is the
function `Player.GetValue`, a plain getter of `bestValue`.

Behaviour of the code worth knowing:

- A stop request that arrives while no search runs is latched. It aborts the
  next search at its first flag check (`GetMove`: `completed == 0` when a stop
  was pending, `completed == maxSearchDepth` otherwise).
  It is not dropped.
- On a cutoff the engine returns before undoing the move it applied. It can
  do so because every child is searched on a clone. Positions here are
  values, so nothing is restored or claimed restored.
- The table evaluator reads a table only for an occupied square, so it fails
  exactly when a piece stands beyond square 50 (`Tables.WithinTables`).

## Model

| member | source | states |
|---|---|---|
| `Search.DraughtsNode.constructor` | src/nl/tue/s2id90/group92/MyDraughtsPlayer.java:32 | a new search node holds the given position and no best move yet |
| `Search.DraughtsNode.SetBestMove` | src/nl/tue/s2id90/group92/MyDraughtsPlayer.java:231-234 | the node's best-move slot holds the given move and nothing else of the node changes |
| `Search.Player.MyDraughtsPlayer` | src/nl/tue/s2id90/group92/MyDraughtsPlayer.java:18-27 | a new player uses material counting, has the given maximum depth, value 0 and no pending stop |
| `Search.Player.VeselinTopalov` | src/nl/tue/s2id90/group92/VeselinTopalov.java:18-27 | a new player uses the square tables, has the given maximum depth, value 0 and no pending stop |
| `Search.Player.GetMove` | src/nl/tue/s2id90/group92/MyDraughtsPlayer.java:29-57 | with no stop pending every iteration 1..maxSearchDepth completes (`completed == maxSearchDepth`); a stop pending on entry aborts the first one (`completed == 0`). `bestValue` is reset to 0 and then is the minimax value at that depth. The move is the first best root move at that depth. With no finished iteration it is some legal move. It is none exactly when the root has no moves. The flag is clear afterwards when maxSearchDepth >= 1; otherwise it is unchanged |
| `Search.Player.GetValue` | src/nl/tue/s2id90/group92/MyDraughtsPlayer.java:63-65 | reports the value of the last search, as stored in `bestValue` |
| `Search.Player.Stop` | src/nl/tue/s2id90/group92/MyDraughtsPlayer.java:70-72 | only raises the stop flag |
| `Search.Player.GetRandomValidMove` | src/nl/tue/s2id90/group92/MyDraughtsPlayer.java:74-79 | returns some legal move of the position, or none exactly when it has no legal moves |
| `Search.Player.AlphaBeta` | src/nl/tue/s2id90/group92/MyDraughtsPlayer.java:81-159 | runs the maximiser when white is to move and the minimiser otherwise. The result and best move are those of that role; it aborts exactly when a stop is pending on entry |
| `Search.Player.AlphaBetaMax` | src/nl/tue/s2id90/group92/MyDraughtsPlayer.java:209-239 | the call aborts exactly when the flag is raised on entry; the flag is then cleared and the node left alone. Otherwise the call completes. Its value is the evaluation at a leaf, else max(alpha, minimax) or beta once that reaches beta. The node keeps its old move at a leaf or when minimax <= alpha. Strictly inside the window it holds the first move reaching the value. Any move it holds is legal there. The flag is clear afterwards |
| `Search.Player.AlphaBetaMin` | src/nl/tue/s2id90/group92/MyDraughtsPlayer.java:178-207 | the mirror image of the maximiser: min(beta, minimax), or alpha once that reaches alpha. The old move is kept when minimax >= beta. Otherwise the same abort, completion, best-move and flag guarantees hold |
| `Search.Player.Evaluate` | src/nl/tue/s2id90/group92/VeselinTopalov.java:153-156 | a leaf is scored by the player's own evaluator |
| `Material.Evaluate` | src/nl/tue/s2id90/group92/MyDraughtsPlayer.java:243-261 | the four counters over squares 1..length-1 give white men + 3 white kings - black men - 3 black kings |
| `Material.Place` | src/nl/tue/s2id90/group92/MyDraughtsPlayer.java:248-258 | putting a piece on square i changes the score by the difference in worth (man 1, king 3, black negative). Square 0 never changes it |
| `Material.EmptyBoardScoresZero` | src/nl/tue/s2id90/group92/MyDraughtsPlayer.java:246-260 | a board with every square empty scores 0 |
| `Material.SwapNegates` | src/nl/tue/s2id90/group92/MyDraughtsPlayer.java:250-260 | swapping the colour of every piece negates the score |
| `Material.ScoreBounded` | src/nl/tue/s2id90/group92/MyDraughtsPlayer.java:248-260 | the score is at most 3 per square in either direction |
| `Tables.Evaluate` | src/nl/tue/s2id90/group92/VeselinTopalov.java:181-221 | the two accumulators give white's table sum (+20 per king) minus black's, over squares 1..length-1. Requires no piece beyond the tables |
| `Tables.TableEntries` | src/nl/tue/s2id90/group92/VeselinTopalov.java:187-208 | each table has 51 entries; entries 1..50 lie between 2 and 10 |
| `Tables.MirrorElsewhere` | src/nl/tue/s2id90/group92/VeselinTopalov.java:187-208 | white's entry for square j equals black's for square 51-j, except on squares 46 and 50 |
| `Tables.NotColourSymmetric` | src/nl/tue/s2id90/group92/VeselinTopalov.java:187-220 | a lone white man on 46 scores +5 but the rotated and colour-swapped board (black man on 5) scores -4, so colour swap does not negate |
| `Tables.Place` | src/nl/tue/s2id90/group92/VeselinTopalov.java:209-219 | putting a piece on square i changes the score by the difference of the two occupants' table worth there. Square 0 never changes it |
| `Tables.PlaceWhiteRaises` | src/nl/tue/s2id90/group92/VeselinTopalov.java:215-218 | a white man or king put on an empty square raises the score by at least 2 |
| `Tables.PlaceBlackLowers` | src/nl/tue/s2id90/group92/VeselinTopalov.java:211-214 | a black man or king put on an empty square lowers the score by at least 2 |
| `Tables.Promotion` | src/nl/tue/s2id90/group92/VeselinTopalov.java:211-218 | crowning a man moves the score by exactly 20 toward its colour |
| `Tables.EmptyBoardScoresZero` | src/nl/tue/s2id90/group92/VeselinTopalov.java:184-220 | a board with every square empty scores 0 |
| `Tables.ScoreBounded` | src/nl/tue/s2id90/group92/VeselinTopalov.java:209-220 | on a 50-square board the score lies within ±1500 |
| `SearchSpec.Score` | src/nl/tue/s2id90/group92/VeselinTopalov.java:181-221 | every static evaluation of a board lies within ±1500 |
| `SearchSpec.AlphaBetaValue` | src/nl/tue/s2id90/group92/VeselinTopalov.java:148-178 | fail-hard meaning for alpha < beta. An internal node's report lies in [alpha, beta]. It equals minimax when minimax is strictly inside, alpha when minimax <= alpha, and beta when minimax >= beta |
| `SearchSpec.FirstBestIn` | src/nl/tue/s2id90/group92/VeselinTopalov.java:170-173 | the recorded index is one of the moves examined |
| `SearchSpec.BestOfDominates` | src/nl/tue/s2id90/group92/VeselinTopalov.java:162-168 | no examined child beats the running best; this is why a cutoff child bounds the whole node |
| `SearchSpec.FirstBestInCorrect` | src/nl/tue/s2id90/group92/MyDraughtsPlayer.java:231-234 | the move kept by strict improvement attains the best value, and every earlier move is strictly worse (ties keep the first) |
| `SearchSpec.BestMoveAttainsValue` | src/nl/tue/s2id90/group92/MyDraughtsPlayer.java:197-201 | the node's best move has the node's minimax value, every earlier move is strictly worse and no move is better |
| `SearchSpec.MinimaxBounded` | src/nl/tue/s2id90/group92/VeselinTopalov.java:122-125 | every minimax value lies within ±1500, since it is some leaf's evaluation |
| `SearchSpec.FullWindowIsMinimax` | src/nl/tue/s2id90/group92/MyDraughtsPlayer.java:36-37 | with the full 32-bit window the reported value is exactly the minimax value: pruning changes only the work done |
| `SearchSpec.AlternatingIsWhiteMinimax` | src/nl/tue/s2id90/group92/VeselinTopalov.java:90-98 | when every move passes the turn, the engine's alternating roles give the minimax value where white maximises and black minimises |

## Left out

- Applying and undoing moves in place (`doMove`/`undoMove`), and cloning positions. Positions are immutable values, so restoring a position at a cutoff or on an abort is neither modelled nor claimed.
- The rules engine itself (`DraughtsState`, `Move`, move generation) is not part of this model. A position is a finite game tree with its legal moves in enumeration order.
- The piece array of a position always has 51 entries, as the rules engine's 10x10 board supplies it. The evaluators themselves accept any length.
- Search.Player.AlphaBetaMax, Search.Player.AlphaBetaMin, Search.Player.AlphaBeta, Search.Player.GetMove: stop requests that arrive while a search runs (another thread calling `stop`) are not modelled. `Stop` is a plain field update between calls, so the flag can be raised only before a search; such a stop aborts the first flag check, and otherwise every call completes. An abort in the middle of an iteration, after which the driver keeps the previous iteration's move and value, is not covered.
- The random shuffle in `getRandomValidMove` is modelled as a nondeterministic choice of a legal move.
- 32-bit overflow is not modelled. `Integer.MIN_VALUE` and `Integer.MAX_VALUE` appear only as window bounds, and every value is within ±1500.
- `Tables.Evaluate`: the `ArrayIndexOutOfBoundsException` for a piece beyond square 50 is a precondition, not an error path.
- Logging to `System.err`, the image name passed to the superclass, and the commented-out alternative search in `MyDraughtsPlayer.alphaBeta`.
