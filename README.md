# Verified model of four tic-tac-toe negamax solvers

The repository holds four console tic-tac-toe programs. In each, a human plays
against an engine. This project models the engine's search and proves what
that search computes:

- `3x3.cpp`: the classic game. Negamax with alpha-beta pruning and a
  transposition table, with no cache limit.
- `3x3-moveable.cpp`: the 3x3 variant where each side keeps at most three
  stones; a fourth placement removes that side's oldest stone. Negamax uses a
  null-window probe and re-searches, with no table.
- `4x4.cpp`: the 4x4 board, with lines of four and 2x2 squares. Negamax
  with a transposition table, plus an opening book looked up by board string.
- `5x5.cpp`: four in a row on 5x5. Principal-variation negamax, a static
  positional evaluation at the horizon, an iterative-deepening root under a
  time budget, and a bounded transposition table with recency-list eviction.

A board is a `seq<int>` of cells holding `1`, `-1` or `0`. The C++ vectors
are passed by value, so Dafny sequence values model them exactly.

For each program the central fact is proved about a reference game value
`Value(board, player, depth)`. `Value` is defined by plain recursion,
exactly as the C++ terminal tests and child loop would compute it with no
pruning and no table:

- `Negamax` returns a fail-soft alpha-beta result for that value
  (`Window.FailSoft`). That is:
  - a result at or below alpha is an upper bound;
  - a result at or above beta is a lower bound;
  - a result strictly inside the window is the value itself.
- This holds in spite of pruning, the null-window searches and the cache.
- `Solve` returns the move the C++ root loop picks: the first empty cell with
  the largest child value (`Root.Best`, `Root.BestIsArgmax`).

The transposition tables are proved sound by an invariant (`Consistent`):
every cached entry is right about the board whose string key it is filed
under. The invariant needs the following facts:

- The board string is injective (`Grid.DecodeKey`).
- A board's side to move and depth are fixed by its stone count relative to
  the solve root (`Tt.Origin`).
- Storing a fail-soft result under its classification gives a sound entry
  (`Tt.ClassifySound`).

In `5x5.cpp` the table is a map from key to entry plus a global recency list
(`LruCache`). The invariant also keeps every map key in the list, so eviction
always finds a back node. The five-by-five design intends the table never to
exceed `max_cache_size`. The code does not keep that promise:

- Storing a key that is already present pushes a second list node.
- The list survives from one `solve` call to the next while the map is
  created afresh.

Evicting a stale node erases nothing, so the map can grow past its bound.
The model follows the code. `LruCache.DuplicateOverflow` and
`LruCache.LeftoverOverflow` exhibit the overflow. `LruCache.FreshRun` proves
the bound holds when every stored key is new and the list is exact, and
`LruCache.FreshEviction` proves the eviction order: the earliest keys go first.

## Model

| member | source | states |
|---|---|---|
| Grid.CheckWin | 5x5.cpp:42-50 | true exactly when some line of the win table is wholly the player's |
| Grid.PossibleMoves | 5x5.cpp:67-75 | the empty cells in ascending order: a cell is listed iff it is on the board and empty |
| Grid.EmptyCellsAscending | 3x3.cpp:40-48 | the move list is strictly ascending, so the root tie-break prefers the lowest cell |
| Grid.EmptyCellsNonEmpty | 3x3.cpp:106-108 | a board that still has a zero cell has at least one move |
| Grid.StonesPlace | 3x3.cpp:118-120 | playing on an empty cell adds exactly one stone |
| Grid.UndoPlace | 3x3.cpp:118-120 | resetting the played cell to 0 restores the board the move was made on |
| Grid.BoardString | 3x3.cpp:69-72 | the loop that concatenates the cells' decimal texts builds the cache key of the board |
| Grid.KeyAppend | 5x5.cpp:103-106 | one more cell appends its text to the key |
| Grid.DecodeKey | 5x5.cpp:103-106 | the key can be parsed back to the board, so distinct boards never share a cache entry |
| Grid.KeyInjective | 4x4.cpp:92-95 | equal keys mean equal boards |
| Window.Negated | 3x3.cpp:118-119 | negating a child result searched on (-beta, -alpha) gives a fail-soft result for the parent's window |
| Window.ScanStep | 3x3.cpp:117-131 | one child of the best-score loop keeps the running best, alpha and true maximum aligned, or cuts off with a lower bound |
| Window.ScanDone | 3x3.cpp:114-135 | when the loop ends without a cutoff, best_score is fail-soft for the original window |
| Window.NullWindow | 5x5.cpp:155 | a null-window search at -alpha-1, -alpha tells whether the child's value is at most or above alpha, with the score as bound |
| Window.Principal | 5x5.cpp:155-160 | the null-window score, or the re-search on (-beta, -score) when it lands strictly inside the window, is fail-soft for (alpha, beta) |
| Window.Widen | 5x5.cpp:108-129 | a result fail-soft for the window narrowed by sound table bounds is fail-soft for the original window |
| Tt.Classify | 5x5.cpp:79-87 | UPPER iff the score is at most the original alpha; LOWER iff above it and at least beta; EXACT iff strictly inside |
| Tt.ClassifySound | 3x3.cpp:50-63 | a fail-soft result stored under its classification is a sound entry for the true value |
| Tt.ProbeEntry | 3x3.cpp:74-95 | an entry shallower than the request is ignored; an exact entry answers; bounds only narrow the window; a cut returns the stored score |
| Tt.ProbeSound | 5x5.cpp:108-129 | probing a sound entry either cuts off with a fail-soft result or narrows the window only by bounds the true value obeys |
| Tt.ChildAtOrigin | 3x3.cpp:118-119 | the child searched with -player and depth-1 is at the position the root fixes for its stone count |
| Tt.Table.constructor | 3x3.cpp:144 | a fresh table is empty |
| Tt.Table.Store | 3x3.cpp:50-63 | the key now maps to [best_score, depth, flag of the classification]; every other key is unchanged |
| Root.PickStep | 3x3.cpp:146-155 | one iteration of the root loop replaces the running choice only on a strictly larger score |
| Root.RaisedAlpha | 5x5.cpp:194-205 | with alpha raised to the best score so far, a fail-soft child score changes the choice exactly as the true score would |
| Root.PickArgmax | 3x3.cpp:146-155 | the final choice is the initial one or the first move whose score reaches the maximum over all moves |
| Root.BestIsArgmax | 3x3.cpp:138-158 | from the -10000 sentinel with scores above it, the choice is a listed move with the maximum score, before which every move scores strictly less |
| ThreeByThree.LinesValid | 3x3.cpp:13 | every index of the eight winning lines is a cell of the 3x3 board |
| ThreeByThree.MaxChildAtLeast | 3x3.cpp:114-126 | the running best of the child loop never falls below its start |
| ThreeByThree.MaxChildStep | 3x3.cpp:117-126 | the reference maximum over moves[i..] is the maximum over moves[i+1..] after one more child |
| ThreeByThree.ValueBound | 3x3.cpp:97-136 | the game value at depth d lies within -d..d: a win scores the depth left, a loss its negation |
| ThreeByThree.MaxChildBound | 3x3.cpp:114-127 | the child maximum stays within -d..d once one move is scored |
| ThreeByThree.ConsistentStore | 3x3.cpp:133 | writing a sound, well-placed entry under a board's key keeps every entry of the table sound |
| ThreeByThree.ProbeOk | 3x3.cpp:74-95 | with a consistent table the lookup's cutoff is fail-soft and in range, and the narrowed window holds the true value |
| ThreeByThree.StoreKeeps | 3x3.cpp:133 | storing negamax's fail-soft result keeps the table consistent |
| ThreeByThree.Negamax | 3x3.cpp:65-136 | the result is fail-soft for the game value and within -depth..depth; the table stays consistent |
| ThreeByThree.Children | 3x3.cpp:114-131 | the child loop with cutoff returns a fail-soft best score for the game value |
| ThreeByThree.SearchMove | 3x3.cpp:118-120 | playing a move, searching with the negated window and undoing yields a fail-soft score for that move |
| ThreeByThree.BestMove | 3x3.cpp:146-155 | the root choice is an empty cell whose score is the maximum over all empty cells, and the first such cell |
| ThreeByThree.RootMoves | 3x3.cpp:146-157 | the root loop, with alpha left at -10000 and no cutoff, returns the choice Root.Best makes over the true move scores |
| ThreeByThree.Solve | 3x3.cpp:138-158 | Solve returns the first empty cell of maximum true value, with that value as its score |
| Moveable.Place | 3x3-moveable.cpp:89-94 | the move is appended to the mover's cells; with a fourth cell the oldest is dropped and the rest kept in order |
| Moveable.PlaceOwns | 3x3-moveable.cpp:89-97 | after a placement the opponent is to move with both cell lists describing the new board |
| Moveable.PlaceCells | 3x3-moveable.cpp:89-94 | the placed board is the old board with the move set and, when three stones were held, the oldest cell cleared |
| Moveable.PlaceMine | 3x3-moveable.cpp:89-94 | the mover's list still names exactly their stones after a placement |
| Moveable.DropOldest | 3x3-moveable.cpp:91-94 | removing the oldest of three stones keeps the list exact and at three |
| Moveable.PlaceTheirs | 3x3-moveable.cpp:89-94 | a placement leaves the opponent's stones and list untouched |
| Moveable.ElementsBound | 3x3-moveable.cpp:91 | a cell list holds no more distinct cells than its length |
| Moveable.BelowSize | 3x3-moveable.cpp:55-63 | the cell indices 0..n-1 form a set of n elements |
| Moveable.SubsetSize | 3x3-moveable.cpp:55-63 | a subset has no more elements than its superset |
| Moveable.MoveExists | 3x3-moveable.cpp:87 | with at most three stones per side, a reachable board always has an empty cell, so the loop without a full-board test always has a move |
| Moveable.MaxChildAtLeast | 3x3-moveable.cpp:87-117 | the running best of the child loop never falls below its start |
| Moveable.MaxChildStep | 3x3-moveable.cpp:87-112 | the reference maximum over moves[i..] is the maximum over moves[i+1..] after one more child |
| Moveable.ValueBound | 3x3-moveable.cpp:65-120 | on a reachable board the game value at depth d lies within -d..d |
| Moveable.MaxChildBound | 3x3-moveable.cpp:87-117 | the child maximum stays within -d..d once one move is scored |
| Moveable.ScoreBound | 3x3-moveable.cpp:97-102 | a child's score lies strictly within -d..d |
| Moveable.MakeMove | 3x3-moveable.cpp:89-94 | the in-place placement on the board copy and the list equals Place, and keeps the list on the board |
| Moveable.Negamax | 3x3-moveable.cpp:65-120 | on a position play can reach, the result is fail-soft for the game value, both lists included, and lies within -depth..depth |
| Moveable.Children | 3x3-moveable.cpp:84-117 | the loop that places, searches, restores the board and list copies, and cuts off returns a fail-soft best score strictly within -depth..depth |
| Moveable.SearchMove | 3x3-moveable.cpp:89-106 | the null-window search plus the re-search inside the window yields a fail-soft score for that move, strictly within -depth..depth |
| Moveable.RootMove | 3x3-moveable.cpp:134-146 | the root's single search on (-beta, -alpha) yields a fail-soft score for that move, strictly within -depth..depth |
| Moveable.BestMove | 3x3-moveable.cpp:132-155 | the root choice is an empty cell of maximum score, the first such cell |
| Moveable.RootMoves | 3x3-moveable.cpp:132-155 | the root loop raising alpha to the best score returns the choice Root.Best makes over the true move scores |
| Moveable.Solve | 3x3-moveable.cpp:122-158 | Solve returns the first empty cell of maximum true value, with that value as its score |
| FourByFour.LinesValid | 4x4.cpp:13 | every index of the twenty winning lines is a cell of the 4x4 board |
| FourByFour.LinesShape | 4x4.cpp:13 | the table has four rows, four columns, both diagonals, the corner quadruple and the nine 2x2 squares |
| FourByFour.MaxChildAtLeast | 4x4.cpp:134-151 | the running best of the child loop never falls below its start |
| FourByFour.MaxChildStep | 4x4.cpp:137-146 | the reference maximum over moves[i..] is the maximum over moves[i+1..] after one more child |
| FourByFour.ValueBound | 4x4.cpp:117-156 | the game value lies within -(100+d)..100+d: a win scores 100 plus the depth left |
| FourByFour.MaxChildBound | 4x4.cpp:134-151 | the child maximum stays within -(100+d)..100+d once one move is scored |
| FourByFour.ProbeAsWritten | 4x4.cpp:97-115 | the lookup as written answers exact entries with their score; a lower bound raises alpha to the stored depth and cuts off iff beta is at most that depth; an upper bound lowers beta to the stored score; any other window is kept |
| FourByFour.ProbesAgree | 4x4.cpp:104-110 | the probe as written and the corrected probe differ only on lower-bound entries |
| FourByFour.ProbeAsWrittenUnsound | 4x4.cpp:106-107 | a sound lower-bound entry makes the probe as written return a score that is not fail-soft |
| FourByFour.ProbeIgnoresDepth | 4x4.cpp:97-115 | without a depth check the probe agrees with the depth-checked probe whenever the entry is at least as deep |
| FourByFour.ConsistentStore | 4x4.cpp:153 | writing a well-placed sound entry keeps the table consistent |
| FourByFour.ProbeOk | 4x4.cpp:97-115 | with a consistent table the corrected lookup's cutoff is fail-soft and in range, and the narrowed window holds the true value |
| FourByFour.StoreKeeps | 4x4.cpp:73-86 | storing negamax's fail-soft result keeps the table consistent |
| FourByFour.Negamax | 4x4.cpp:88-156 | the result is fail-soft for the game value and within -(100+depth)..100+depth; the table stays consistent |
| FourByFour.Children | 4x4.cpp:134-151 | the child loop with cutoff returns a fail-soft best score |
| FourByFour.SearchMove | 4x4.cpp:138-140 | playing, searching with the negated window and undoing yields a fail-soft score for that move |
| FourByFour.BestMove | 4x4.cpp:166-181 | the root choice is an empty cell of maximum score, the first such cell |
| FourByFour.RootMoves | 4x4.cpp:166-181 | the root loop with its alpha raise and never-taken cutoff returns the choice Root.Best makes from -1000 |
| FourByFour.Solve | 4x4.cpp:158-184 | Solve returns the first empty cell of maximum true value, with that value as its score |
| FourByFour.ConsistentInRange | 4x4.cpp:73-86 | a consistent table has every entry at the depth of its board and within that depth's score range |
| FourByFour.ProbeInRange | 4x4.cpp:97-115 | on a table in range, the lookup as written cuts off with a score within -(100+depth)..100+depth or leaves a non-empty window inside the original |
| FourByFour.StoreInRange | 4x4.cpp:153 | storing a score in range at the board's depth keeps the table in range |
| FourByFour.NegamaxAsWritten | 4x4.cpp:88-156 | negamax with the lookup as written returns a score within -(100+depth)..100+depth and keeps every entry at its board's depth and in range |
| FourByFour.ChildrenAsWritten | 4x4.cpp:134-151 | the child loop as written searches at least one move and returns a best score in range |
| FourByFour.SearchMoveAsWritten | 4x4.cpp:138-140 | playing, searching as written and undoing yields a score strictly within -(100+depth)..100+depth |
| FourByFour.RootMovesAsWritten | 4x4.cpp:166-181 | the root loop as written returns a free cell and a score strictly within the depth's range |
| FourByFour.SolveAsWritten | 4x4.cpp:158-184 | solve as written returns a free cell of the board, with a score strictly within -(100+depth)..100+depth |
| FourByFour.FirstMatch | 4x4.cpp:263-270 | no index iff no row carries the key; otherwise the first row that does |
| FourByFour.BookMove | 4x4.cpp:257-277 | a book hit iff some row carries the board's string, with the move and score of the first such row |
| LruCache.Insert | 5x5.cpp:89-96 | the key is newest with the new entry; below capacity nothing is lost; at capacity the back key is popped, and erased unless it is the key just stored |
| LruCache.TrackedInsert | 5x5.cpp:89-96 | every key of the map still has a node in the list after a store |
| LruCache.VictimExists | 5x5.cpp:89-90 | with a positive capacity, a full map whose keys all have nodes has a back node to read |
| LruCache.InsertSize | 5x5.cpp:89-96 | a store adds at most one entry, and none at capacity when the back node names a live key |
| LruCache.FreshInsert | 5x5.cpp:89-96 | storing a new key into an exact list and map keeps them exact and the map within capacity |
| LruCache.InsertAll | 5x5.cpp:77-97 | a run of stores keeps every map key in the list |
| LruCache.FreshRun | 5x5.cpp:77-97 | distinct new keys never take the map past capacity |
| LruCache.Reversed | 5x5.cpp:94 | pushing each key at the front lists a run newest first, as long as the run |
| LruCache.ReversedIndex | 5x5.cpp:94 | position i of the newest-first list holds the key i places from the run's end |
| LruCache.ListAfter | 5x5.cpp:89-94 | the list after a run of pushes, each cut at capacity, has the length of the run plus the old list, at most capacity |
| LruCache.RunList | 5x5.cpp:77-97 | distinct new keys move the list as ListAfter says and keep as many map keys as list nodes |
| LruCache.RunStep | 5x5.cpp:89-96 | the first store of such a run leaves an exact ledger the rest of the run is new to, with the key in front |
| LruCache.RunJoin | 5x5.cpp:77-97 | the rest of the run joined to its first store gives the list of the whole run |
| LruCache.FreshDistinct | 5x5.cpp:94 | a new key in front of distinct keys keeps the list distinct |
| LruCache.FreshCovered | 5x5.cpp:89-91 | popping the back of a distinct list keeps every other node's key in the map |
| LruCache.InsertFront | 5x5.cpp:89-96 | one store of a new key puts it in front, cuts the list at capacity and keeps the ledger exact |
| LruCache.FrontKeys | 5x5.cpp:89-96 | after one store of a new key the list and map have equal sizes, one more up to capacity |
| LruCache.EvictSize | 5x5.cpp:91-96 | erasing a present key and writing a new one keeps the map's size |
| LruCache.TailFresh | 5x5.cpp:89-96 | the rest of a run of distinct new keys is still new after its first store |
| LruCache.EvictOrder | 5x5.cpp:89-94 | the list after a run holds the run newest first followed by the old list, cut at capacity |
| LruCache.KeysAfter | 5x5.cpp:89-94 | the newest-first list of a run follows from the list after its first push |
| LruCache.ReversedSplit | 5x5.cpp:94 | the newest-first run before an older list splits at its first key |
| LruCache.NewestCut | 5x5.cpp:89-94 | the first n keys of a newest-first run of distinct keys are exactly its last n |
| LruCache.FreshEviction | 5x5.cpp:89-96 | from an empty ledger, after distinct stores the map holds key i of the run iff i is among the last capacity: the earliest keys are evicted first |
| LruCache.LeftoverOverflow | 5x5.cpp:23-25 | a node left by an earlier solve makes a capacity-1 map hold two entries |
| LruCache.DuplicateOverflow | 5x5.cpp:95-96 | re-storing a key leaves a stale node, and a capacity-2 map ends with three entries |
| LruCache.Recency.constructor | 5x5.cpp:23 | the recency list starts empty |
| LruCache.Table.constructor | 5x5.cpp:183 | each solve starts with an empty map |
| LruCache.Table.Store | 5x5.cpp:77-97 | the map and the list afterwards are exactly Insert of the classified entry |
| FiveByFive.LinesValid | 5x5.cpp:13 | every index of the 28 winning lines is a cell of the 5x5 board |
| FiveByFive.Evaluate | 5x5.cpp:52-65 | the loop sums plus the weight of own cells and minus the weight of opponent cells |
| FiveByFive.EvalAntisymmetric | 5x5.cpp:52-65 | the evaluation for the opponent is the negation of the evaluation for the player |
| FiveByFive.EvalEmpty | 5x5.cpp:52-65 | an empty board evaluates to 0 |
| FiveByFive.EvalBelowBound | 5x5.cpp:52-65 | the partial sum is bounded by the total weight of the cells scanned |
| FiveByFive.EvalBound | 5x5.cpp:14 | any evaluation lies within -31..31, the total weight of the position map, so it never reaches a win score |
| FiveByFive.WeightTotal | 5x5.cpp:14 | the position map's weights total 31 |
| FiveByFive.MaxChildAtLeast | 5x5.cpp:148-173 | the running best of the child loop never falls below its start |
| FiveByFive.MaxChildStep | 5x5.cpp:151-166 | the reference maximum over moves[i..] is the maximum over moves[i+1..] after one more child |
| FiveByFive.ValueBound | 5x5.cpp:131-178 | the game value lies within -(100+d)..100+d, evaluation at the horizon included |
| FiveByFive.MaxChildBound | 5x5.cpp:148-173 | the child maximum stays within -(100+d)..100+d once one move is scored |
| FiveByFive.ConsistentDeeper | 5x5.cpp:189 | entries stored at shallower iterations stay sound when the next iteration deepens the horizon |
| FiveByFive.ReadyDeeper | 5x5.cpp:189-198 | the table and list stay ready for the next deepening iteration |
| FiveByFive.ProbeOk | 5x5.cpp:108-129 | with a consistent table the depth-checked lookup's cutoff is fail-soft and in range, and the narrowed window holds the true value |
| FiveByFive.StoreKeeps | 5x5.cpp:175 | storing negamax's fail-soft result through the recency list finds a back node when full, keeps the table consistent and keeps every key in the list |
| FiveByFive.Terminal | 5x5.cpp:131-146 | settled iff the side to move or the opponent has won, the board is full or the depth is 0, and then the score is the game value |
| FiveByFive.Negamax | 5x5.cpp:99-178 | the result is fail-soft for the game value and within -(100+depth)..100+depth; the table stays consistent and tracked |
| FiveByFive.Children | 5x5.cpp:148-173 | the principal-variation child loop with cutoff returns a fail-soft best score |
| FiveByFive.SearchMove | 5x5.cpp:152-162 | the null-window search plus the re-search inside the window yields a fail-soft score for that move |
| FiveByFive.RootMove | 5x5.cpp:195-197 | the root's search on (-beta, -alpha) yields a fail-soft score for that move |
| FiveByFive.BestMove | 5x5.cpp:194-205 | the root choice is an empty cell of maximum score, the first such cell |
| FiveByFive.RootMoves | 5x5.cpp:190-205 | one deepening iteration returns the choice Root.Best makes over the true move scores at that depth |
| FiveByFive.LastFrom | 5x5.cpp:189-214 | the last depth searched is the first depth from d at which time is up, or max_depth |
| FiveByFive.LastFromIs | 5x5.cpp:207-214 | any depth at which time is first up, or max_depth when it never is, is the last depth searched |
| FiveByFive.Deepen | 5x5.cpp:189-215 | iterative deepening returns the root choice at the last depth searched |
| FiveByFive.Solve | 5x5.cpp:180-218 | Solve returns the first empty cell of maximum true value at the last depth the time budget allowed |

## Left out

- `main` in each file is not modelled: the game loop, reading the human's move, and the win and draw messages. Neither is `display_board` with its ANSI colours.
- `load_dictionary` in `4x4.cpp` reads `dictionary.txt` from disk. The file and its parsing are not modelled; the book is the input sequence `BookRow` of `FourByFour.BookMove`. The `exit(1)` on a missing board becomes `found == false`.
- The `chrono` clock and the one-second budget of `5x5.cpp` are not modelled. The budget is the parameter `timeUp(depth)` of `FiveByFive.Solve`, read after each depth completes. The progress line printed to `cout` is left out.
- C++ `int` is 32-bit. The model uses unbounded integers. Every score stays within ±10100, as `ValueBound` shows, so no wrap-around can occur.
- C++ `list<int>` and `vector<int>` copies are modelled by sequence values. Restoring `gameboard_orig` and `player_positions_orig` is modelled by local variables that keep their entry values.
- The iterator half of each 5x5 table value is not modelled, because nothing reads it.
- `LruCache.Table.Store`: the capacity is a parameter instead of the constant `max_cache_size` (3000000), so that overflow can be shown on small tables. The global `lru_list` is an object passed to `FiveByFive.Solve`.
- FourByFour.NegamaxAsWritten: models the search with the lookup as written, and promises only the score range and the table range, not fail-soft results, since that lookup can cut off unsoundly (see "Findings"). `FourByFour.Negamax` and `FourByFour.Solve` use the corrected lookup `FourByFour.Probe` and carry the fail-soft and argmax contracts.
- FiveByFive.Solve: requires an empty cell, as the other `Solve` members do. With a full board the C++ returns `best_move` uninitialised; `main` never calls `solve` then.
- FourByFour.Solve: requires depth at most 900, and the other solvers at most 10000 (9900 for `5x5.cpp`), so every true score stays above the root sentinel. `main` calls with 9, 16, 20 and 25.
- Negamax members: require alpha < beta and depth >= 0, which every caller in the source meets.
- Moveable.Negamax: requires a reachable position (`Moveable.Reachable`): a legal board whose stones are exactly the two position lists, at most three each. `main` only ever builds such positions, and the search keeps them (`Moveable.PlaceOwns`).
- `3x3-moveable.cpp`'s root comment calls its search a null window, though it passes (-beta, -alpha). The model follows the code.

## Findings

| source | as written | input that shows it | evidently intended | confidence | as-written member | corrected member |
|---|---|---|---|---|---|---|
| 4x4.cpp:106-107 | a LOWER entry raises alpha to `tt_entry[1]`, the stored depth | entry (score -103, depth 5, LOWER) for a position of true value 0, probed with window (-1000, 0): alpha becomes 5 >= beta, and -103 is returned as if exact | raise alpha to the stored score `tt_entry[0]`, as 3x3.cpp and 5x5.cpp do | not executed | FourByFour.ProbeAsWrittenUnsound | FourByFour.ProbeOk |
