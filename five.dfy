/**
  The 5x5 solver (5x5.cpp): four in a row wins; negamax with fail-soft
  alpha-beta, principal-variation re-search and the capacity-bounded
  table of LruCache; a positional evaluation where depth runs out; and
  iterative deepening that checks a time budget after each completed depth.
*/
module FiveByFive {
  import Grid
  import Tt
  import Window
  import Root
  import LruCache

  const Cells: nat := 25

  /** win_conditions: every run of four cells in a row, column or diagonal. */
  const Lines: seq<seq<int>> :=
    [[0, 6, 12, 18], [6, 12, 18, 24], [4, 8, 12, 16], [8, 12, 16, 20], [9, 13, 17, 21], [3, 7, 11, 15],
     [1, 7, 13, 19], [5, 11, 17, 23], [0, 5, 10, 15], [5, 10, 15, 20], [1, 6, 11, 16], [6, 11, 16, 21],
     [2, 7, 12, 17], [7, 12, 17, 22], [3, 8, 13, 18], [8, 13, 18, 23], [4, 9, 14, 19], [9, 14, 19, 24],
     [0, 1, 2, 3], [1, 2, 3, 4], [5, 6, 7, 8], [6, 7, 8, 9], [10, 11, 12, 13], [11, 12, 13, 14],
     [15, 16, 17, 18], [16, 17, 18, 19], [20, 21, 22, 23], [21, 22, 23, 24]]

  lemma LinesValid()
    ensures Grid.ValidLines(Lines, Cells)
  {
  }

  predicate Won(b: seq<int>, p: int) {
    Grid.HasLine(b, Lines, p)
  }

  /** position_map: the weight of each cell, highest in the centre. */
  const PositionMap: seq<int> :=
    [0, 0, 0, 0, 0,
     0, 3, 3, 3, 0,
     0, 3, 7, 3, 0,
     0, 3, 3, 3, 0,
     0, 0, 0, 0, 0]

  /** The weights of the first n cells added up. */
  function WeightSum(n: nat): int
    requires n <= |PositionMap|
  {
    if n == 0 then 0 else WeightSum(n - 1) + PositionMap[n - 1]
  }

  /** What one cell adds to the evaluation for p. */
  function CellValue(c: int, p: int, w: int): int {
    if c == p then w else if c == -p then -w else 0
  }

  /** The evaluation of the first n cells for p. */
  function EvalBelow(b: seq<int>, p: int, n: nat): int
    requires n <= |b| && n <= |PositionMap|
  {
    if n == 0 then 0 else EvalBelow(b, p, n - 1) + CellValue(b[n - 1], p, PositionMap[n - 1])
  }

  /** The positional evaluation: p's weights minus the opponent's. */
  function Eval(b: seq<int>, p: int): int
    requires |b| == Cells
  {
    EvalBelow(b, p, Cells)
  }

  /** evaluate: adds the weight of each of p's cells and subtracts each opponent cell's. */
  method Evaluate(b: seq<int>, p: int) returns (score: int)
    requires |b| == Cells
    ensures score == Eval(b, p)
  {
    score := 0;
    var index := 0;
    while index < |b|
      invariant 0 <= index <= |b|
      invariant score == EvalBelow(b, p, index)
    {
      var cell := b[index];
      if cell == p {
        score := score + PositionMap[index];
      } else if cell == -p {
        score := score - PositionMap[index];
      }
      index := index + 1;
    }
  }

  /** The evaluation for one side is the negated evaluation for the other. */
  lemma {:induction false} EvalAntisymmetric(b: seq<int>, p: int, n: nat)
    requires p != 0 && n <= |b| && n <= |PositionMap|
    ensures EvalBelow(b, -p, n) == -EvalBelow(b, p, n)
  {
    if n > 0 {
      EvalAntisymmetric(b, p, n - 1);
    }
  }

  /** An empty board evaluates to 0 for either side. */
  lemma {:induction false} EvalEmpty(b: seq<int>, p: int, n: nat)
    requires p != 0 && n <= |b| && n <= |PositionMap|
    requires forall i :: 0 <= i < |b| ==> b[i] == 0
    ensures EvalBelow(b, p, n) == 0
  {
    if n > 0 {
      EvalEmpty(b, p, n - 1);
    }
  }

  /** The evaluation never exceeds the weights it has seen, in either direction. */
  lemma {:induction false} EvalBelowBound(b: seq<int>, p: int, n: nat)
    requires n <= |b| && n <= |PositionMap|
    ensures -WeightSum(n) <= EvalBelow(b, p, n) <= WeightSum(n)
  {
    if n > 0 {
      EvalBelowBound(b, p, n - 1);
    }
  }

  /** |evaluate| is at most 31, the sum of position_map. */
  lemma EvalBound(b: seq<int>, p: int)
    requires |b| == Cells
    ensures -31 <= Eval(b, p) <= 31
  {
    EvalBelowBound(b, p, Cells);
    WeightTotal();
  }

  /** The weights add up to 31, row by row: 0, 9, 13, 9 and 0. */
  lemma WeightTotal()
    ensures WeightSum(25) == 31
  {
    assert WeightSum(5) == 0;
    assert WeightSum(10) == 9;
    assert WeightSum(15) == 22;
    assert WeightSum(20) == 31;
  }

  /**
    The game value negamax searches for, without pruning or cache: 100 plus
    the depth left for a line of the side to move, minus that for a line of
    the opponent, 0 on a full board, the evaluation when depth runs out,
    otherwise the best negated value of a child in move order, starting from
    -10000.
  */
  function Value(b: seq<int>, p: int, d: nat): int
    requires |b| == Cells
    decreases d, 1
  {
    if Won(b, p) then 100 + d
    else if Won(b, -p) then -100 - (d as int)
    else if 0 !in b then 0
    else if d == 0 then Eval(b, p)
    else MaxChild(b, p, d, Grid.EmptyCells(b), Root.Floor)
  }

  function MaxChild(b: seq<int>, p: int, d: nat, moves: seq<int>, acc: int): int
    requires |b| == Cells && d >= 1
    decreases d, 0, |moves|
  {
    if moves == [] then acc
    else MaxChild(b, p, d, moves[1..], Window.Max(acc, Score(b, p, d, moves[0])))
  }

  /**
    The score of playing m, seen from the side that plays it; only cells of
    the board are ever played, and any other index scores 0.
  */
  function Score(b: seq<int>, p: int, d: nat, m: int): int
    requires |b| == Cells && d >= 1
    decreases d, 0, 0
  {
    if 0 <= m < |b| then -Value(b[m := p], -p, d - 1) else 0
  }

  lemma {:induction false} MaxChildAtLeast(b: seq<int>, p: int, d: nat, moves: seq<int>, acc: int)
    requires |b| == Cells && d >= 1
    ensures MaxChild(b, p, d, moves, acc) >= acc
    decreases |moves|
  {
    if moves != [] {
      MaxChildAtLeast(b, p, d, moves[1..], Window.Max(acc, Score(b, p, d, moves[0])));
    }
  }

  /** One step of the fold: the value of the first move joins the accumulator. */
  lemma MaxChildStep(b: seq<int>, p: int, d: nat, moves: seq<int>, i: int, acc: int)
    requires |b| == Cells && d >= 1 && 0 <= i < |moves|
    ensures MaxChild(b, p, d, moves[i..], acc)
         == MaxChild(b, p, d, moves[i + 1..], Window.Max(acc, Score(b, p, d, moves[i])))
  {
    assert moves[i..][1..] == moves[i + 1..];
  }

  /** Scores never leave [-100 - depth, 100 + depth]; the evaluation stays within 31. */
  lemma {:induction false} ValueBound(b: seq<int>, p: int, d: nat)
    requires |b| == Cells
    ensures -100 - (d as int) <= Value(b, p, d) <= 100 + d
    decreases d, 1
  {
    if !Won(b, p) && !Won(b, -p) && 0 in b {
      if d == 0 {
        EvalBound(b, p);
      } else {
        Grid.EmptyCellsNonEmpty(b);
        MaxChildBound(b, p, d, Grid.EmptyCells(b), Root.Floor);
      }
    }
  }

  lemma {:induction false} MaxChildBound(b: seq<int>, p: int, d: nat, moves: seq<int>, acc: int)
    requires |b| == Cells && d >= 1
    requires acc <= 100 + d && (moves == [] ==> -100 - (d as int) <= acc)
    ensures -100 - (d as int) <= MaxChild(b, p, d, moves, acc) <= 100 + d
    decreases d, 0, |moves|
  {
    if moves != [] {
      if 0 <= moves[0] < |b| {
        ValueBound(b[moves[0] := p], -p, d - 1);
      }
      MaxChildBound(b, p, d, moves[1..], Window.Max(acc, Score(b, p, d, moves[0])));
    }
  }

  /**
    A cached entry of board b is sound for the depth it was stored at, and
    that depth is no more than the current root gives b: entries of earlier
    iterations are shallower and the depth check of the probe skips them.
  */
  ghost predicate EntryOk(e: Tt.Entry, b: seq<int>, o: Tt.Origin)
    requires |b| == Cells
  {
    && 0 <= e.depth
    && e.depth + Grid.Stones(b) <= o.horizon
    && -100 - e.depth <= e.score <= 100 + e.depth
    && Tt.Sound(e, Value(b, Tt.SideToMove(o, Grid.Stones(b)), e.depth))
  }

  /** Every entry of the table is right about the board whose key it sits under. */
  ghost predicate Consistent(entries: map<string, Tt.Entry>, o: Tt.Origin) {
    forall b {:trigger Grid.Key(b)} :: Grid.ValidBoard(b, Cells) && Grid.Key(b) in entries ==> EntryOk(entries[Grid.Key(b)], b, o)
  }

  /** The table and the list the search runs over. */
  ghost predicate Ready(tt: LruCache.Table, lru: LruCache.Recency, capacity: int, o: Tt.Origin)
    reads tt, lru
  {
    capacity >= 1 && LruCache.Tracked(LruCache.Ledger(tt.entries, lru.keys)) && Consistent(tt.entries, o)
  }

  /** A deeper iteration from the same root keeps every entry well placed. */
  lemma ConsistentDeeper(entries: map<string, Tt.Entry>, o: Tt.Origin, o': Tt.Origin)
    requires Consistent(entries, o) && o.horizon <= o'.horizon
    requires o'.rootStones == o.rootStones && o'.rootPlayer == o.rootPlayer
    ensures Consistent(entries, o')
  {
    forall b | Grid.ValidBoard(b, Cells) && Grid.Key(b) in entries
      ensures EntryOk(entries[Grid.Key(b)], b, o')
    {
      assert EntryOk(entries[Grid.Key(b)], b, o);
      assert Tt.SideToMove(o', Grid.Stones(b)) == Tt.SideToMove(o, Grid.Stones(b));
    }
  }

  lemma ReadyDeeper(tt: LruCache.Table, lru: LruCache.Recency, capacity: int, o: Tt.Origin, o': Tt.Origin)
    requires Ready(tt, lru, capacity, o) && o.horizon <= o'.horizon
    requires o'.rootStones == o.rootStones && o'.rootPlayer == o.rootPlayer
    ensures Ready(tt, lru, capacity, o')
  {
    ConsistentDeeper(tt.entries, o, o');
  }

  /**
    The probe is sound: a cutoff returns a fail-soft score within the
    bounds, and a narrowed window only moves an edge to a proven bound.
  */
  lemma ProbeOk(entries: map<string, Tt.Entry>, o: Tt.Origin, board: seq<int>, player: int,
                depth: int, alpha: int, beta: int, e: Tt.Entry)
    requires Consistent(entries, o) && Grid.ValidBoard(board, Cells)
    requires Grid.Key(board) in entries && e == entries[Grid.Key(board)]
    requires Tt.AtOrigin(board, player, depth, o) && 0 <= depth && alpha < beta
    ensures var r := Tt.ProbeEntry(e, depth, alpha, beta);
      var v := Value(board, player, depth);
      && (r.Cut? ==> Window.FailSoft(r.score, alpha, beta, v) && -100 - depth <= r.score <= 100 + depth)
      && (r.Search? ==> alpha <= r.alpha < r.beta <= beta
                        && (r.alpha == alpha || r.alpha <= v) && (r.beta == beta || v <= r.beta))
  {
    assert EntryOk(e, board, o);
    Tt.ProbeSound(e, depth, alpha, beta, Value(board, player, depth));
  }

  /**
    Storing a fail-soft result keeps the table consistent and every map key
    on the list, whatever the eviction removes.
  */
  lemma StoreKeeps(l: LruCache.Ledger, capacity: int, o: Tt.Origin, board: seq<int>, key: string, player: int,
                   depth: int, alphaOrg: int, beta: int, score: int)
    requires Consistent(l.entries, o) && LruCache.Tracked(l) && capacity >= 1
    requires Grid.ValidBoard(board, Cells) && key == Grid.Key(board)
    requires Tt.AtOrigin(board, player, depth, o) && 0 <= depth && -100 - depth <= score <= 100 + depth
    requires Window.FailSoft(score, alphaOrg, beta, Value(board, player, depth))
    ensures |l.entries| >= capacity ==> l.keys != []
    ensures var r := LruCache.Insert(l, capacity, key, Tt.Entry(score, depth, Tt.Classify(alphaOrg, beta, score)));
      Consistent(r.entries, o) && LruCache.Tracked(r)
  {
    LruCache.VictimExists(l, capacity);
    var e := Tt.Entry(score, depth, Tt.Classify(alphaOrg, beta, score));
    Tt.ClassifySound(alphaOrg, beta, score, depth, Value(board, player, depth));
    LruCache.TrackedInsert(l, capacity, key, e);
    var r := LruCache.Insert(l, capacity, key, e);
    forall bb | Grid.ValidBoard(bb, Cells) && Grid.Key(bb) in r.entries
      ensures EntryOk(r.entries[Grid.Key(bb)], bb, o)
    {
      Grid.KeyInjective(bb, board);
    }
  }

  /**
    negamax: probe the table when the entry is deep enough, check for
    terminal positions, evaluate when depth runs out, then search the
    children with a null window and a re-search, stopping once alpha
    reaches beta; finally store the result classified against the original
    alpha, evicting from the list when the table is full.
  */
  method Negamax(board: seq<int>, player: int, depth: int, alpha: int, beta: int,
                 tt: LruCache.Table, lru: LruCache.Recency, capacity: int, ghost o: Tt.Origin)
    returns (result: int)
    requires Grid.ValidBoard(board, Cells) && (player == 1 || player == -1)
    requires 0 <= depth && alpha < beta
    requires Tt.AtOrigin(board, player, depth, o)
    requires Ready(tt, lru, capacity, o)
    modifies tt, lru
    ensures Ready(tt, lru, capacity, o)
    ensures Window.FailSoft(result, alpha, beta, Value(board, player, depth))
    ensures -100 - depth <= result <= 100 + depth
    decreases depth, 1
  {
    ghost var v := Value(board, player, depth);
    var alphaOrg := alpha;
    var gameboard := board;
    var boardStr := Grid.BoardString(gameboard);
    var a, b := alpha, beta;

    if boardStr in tt.entries {
      var entry := tt.entries[boardStr];
      ProbeOk(tt.entries, o, board, player, depth, alpha, beta, entry);
      var probe := Tt.ProbeEntry(entry, depth, alpha, beta);
      if probe.Cut? {
        return probe.score;
      }
      a, b := probe.alpha, probe.beta;
    }

    var done, score := Terminal(gameboard, player, depth);
    if done {
      return score;
    }

    var bestScore := Children(board, player, depth, a, b, tt, lru, capacity, o);
    Window.Widen(bestScore, alpha, beta, a, b, v);
    StoreKeeps(LruCache.Ledger(tt.entries, lru.keys), capacity, o, board, boardStr, player, depth, alphaOrg, b, bestScore);
    tt.Store(lru, capacity, boardStr, alphaOrg, b, bestScore, depth);
    return bestScore;
  }

  /**
    The terminal checks of negamax, in order: a line for the side to move
    scores 100 plus the depth left, a line for the opponent minus that, a
    full board 0, and with no depth left the positional evaluation.
  */
  method Terminal(board: seq<int>, player: int, depth: int) returns (done: bool, score: int)
    requires Grid.ValidBoard(board, Cells) && (player == 1 || player == -1) && 0 <= depth
    ensures done <==> Won(board, player) || Won(board, -player) || 0 !in board || depth == 0
    ensures done ==> score == Value(board, player, depth) && -100 - depth <= score <= 100 + depth
  {
    LinesValid();
    done := true;
    var won := Grid.CheckWin(board, Lines, player);
    if won {
      return done, 100 + depth;
    }
    won := Grid.CheckWin(board, Lines, -player);
    if won {
      return done, -100 - depth;
    }
    if 0 !in board {
      return done, 0;
    }
    if depth == 0 {
      score := Evaluate(board, player);
      EvalBound(board, player);
      return;
    }
    done, score := false, 0;
  }

  /**
    The move loop of negamax on a board that is neither won nor full: each
    empty cell in index order is searched by principal variation, alpha
    rises with the scores, and the loop stops once alpha reaches beta.
  */
  method Children(board: seq<int>, player: int, depth: int, alpha: int, beta: int,
                  tt: LruCache.Table, lru: LruCache.Recency, capacity: int, ghost o: Tt.Origin)
    returns (bestScore: int)
    requires Grid.ValidBoard(board, Cells) && (player == 1 || player == -1)
    requires 1 <= depth && alpha < beta && 0 in board
    requires !Won(board, player) && !Won(board, -player)
    requires Tt.AtOrigin(board, player, depth, o)
    requires Ready(tt, lru, capacity, o)
    modifies tt, lru
    ensures Ready(tt, lru, capacity, o)
    ensures Window.FailSoft(bestScore, alpha, beta, Value(board, player, depth))
    ensures -100 - depth <= bestScore <= 100 + depth
    decreases depth, 0, 1
  {
    ghost var v := Value(board, player, depth);
    var a := alpha;
    bestScore := Root.Floor;
    var moves := Grid.PossibleMoves(board);
    assert v == MaxChild(board, player, depth, moves, Root.Floor);
    ghost var top := Root.Floor;
    var i := 0;
    while i < |moves|
      invariant 0 <= i <= |moves|
      invariant Ready(tt, lru, capacity, o)
      invariant Window.Scan(alpha, a, bestScore, top) && a < beta
      invariant MaxChild(board, player, depth, moves[i..], top) == v
      invariant i == 0 ==> bestScore == Root.Floor
      invariant i > 0 ==> -100 - depth <= bestScore <= 100 + depth
    {
      var move := moves[i];
      var score := SearchMove(board, player, depth, move, a, beta, tt, lru, capacity, o);
      Window.ScanStep(alpha, a, beta, bestScore, top, score, Score(board, player, depth, move));
      MaxChildStep(board, player, depth, moves, i, top);
      top := Window.Max(top, Score(board, player, depth, move));
      bestScore := Window.Max(bestScore, score);
      a := Window.Max(a, score);
      if a >= beta {
        MaxChildAtLeast(board, player, depth, moves[i + 1..], top);
        return;
      }
      i := i + 1;
    }
    Window.ScanDone(alpha, a, beta, bestScore, top);
  }

  /**
    One iteration's search of a move: play it, search the child with the
    null window (-alpha - 1, -alpha), search again with (-beta, -score)
    when the score lands strictly inside (alpha, beta), and clear the cell.
  */
  method SearchMove(board: seq<int>, player: int, depth: int, move: int, alpha: int, beta: int,
                    tt: LruCache.Table, lru: LruCache.Recency, capacity: int, ghost o: Tt.Origin)
    returns (score: int)
    requires Grid.ValidBoard(board, Cells) && (player == 1 || player == -1)
    requires 1 <= depth && alpha < beta
    requires 0 <= move < |board| && board[move] == 0
    requires Tt.AtOrigin(board, player, depth, o)
    requires Ready(tt, lru, capacity, o)
    modifies tt, lru
    ensures Ready(tt, lru, capacity, o)
    ensures Window.FailSoft(score, alpha, beta, Score(board, player, depth, move))
    ensures -100 - depth < score < 100 + depth
    decreases depth, 0, 0
  {
    var gameboard := board[move := player];
    Tt.ChildAtOrigin(board, player, depth, o, move);
    ghost var w := Score(board, player, depth, move);
    var r1 := Negamax(gameboard, -player, depth - 1, -alpha - 1, -alpha, tt, lru, capacity, o);
    score := -r1;
    var researched := alpha < score && score < beta;
    var s2 := score;
    if researched {
      var r2 := Negamax(gameboard, -player, depth - 1, -beta, -score, tt, lru, capacity, o);
      s2 := -r2;
    }
    Window.Principal(alpha, beta, score, s2, w, researched);
    score := s2;
    gameboard := gameboard[move := 0];
    Grid.UndoPlace(board, move, player);
    assert gameboard == board;
  }

  /** One root move: a single search with the window (-beta, -alpha). */
  method RootMove(board: seq<int>, player: int, depth: int, move: int, alpha: int, beta: int,
                  tt: LruCache.Table, lru: LruCache.Recency, capacity: int, ghost o: Tt.Origin)
    returns (score: int)
    requires Grid.ValidBoard(board, Cells) && (player == 1 || player == -1)
    requires 1 <= depth && alpha < beta
    requires 0 <= move < |board| && board[move] == 0
    requires Tt.AtOrigin(board, player, depth, o)
    requires Ready(tt, lru, capacity, o)
    modifies tt, lru
    ensures Ready(tt, lru, capacity, o)
    ensures Window.FailSoft(score, alpha, beta, Score(board, player, depth, move))
  {
    var gameboard := board[move := player];
    Tt.ChildAtOrigin(board, player, depth, o, move);
    var s := Negamax(gameboard, -player, depth - 1, -beta, -alpha, tt, lru, capacity, o);
    Window.Negated(s, alpha, beta, Value(gameboard, -player, depth - 1));
    score := -s;
    gameboard := gameboard[move := 0];
    Grid.UndoPlace(board, move, player);
    assert gameboard == board;
  }

  /** The score solve sees for each root move at the given depth. */
  function MoveScores(b: seq<int>, p: int, d: nat): int -> int
    requires |b| == Cells && d >= 1
  {
    m => Score(b, p, d, m)
  }

  /**
    The move one depth of solve settles on is a free cell, carries that
    cell's score, no free cell scores more, and every free cell before it
    scores less.
  */
  lemma BestMove(board: seq<int>, player: int, depth: int)
    requires Grid.ValidBoard(board, Cells)
    requires 1 <= depth <= 9900 && 0 in board
    ensures var c := Root.Best(Grid.EmptyCells(board), MoveScores(board, player, depth), Root.Floor);
      && 0 <= c.move < |board| && board[c.move] == 0
      && c.score == Score(board, player, depth, c.move)
      && (forall m :: 0 <= m < |board| && board[m] == 0 ==> Score(board, player, depth, m) <= c.score)
      && (forall m :: 0 <= m < c.move && board[m] == 0 ==> Score(board, player, depth, m) < c.score)
  {
    var moves, f := Grid.EmptyCells(board), MoveScores(board, player, depth);
    forall m | m in moves
      ensures f(m) > Root.Floor
    {
      ValueBound(board[m := player], -player, depth - 1);
    }
    Grid.EmptyCellsNonEmpty(board);
    Grid.EmptyCellsAscending(board);
    Root.BestIsArgmax(moves, f, Root.Floor);
  }

  /**
    One depth of solve: alpha and beta start again from -10000 and 10000,
    every free cell is searched once with (-beta, -alpha) where alpha rises
    to the best score so far, and the root never cuts off.
  */
  method RootMoves(board: seq<int>, player: int, depth: int, moves: seq<int>,
                   tt: LruCache.Table, lru: LruCache.Recency, capacity: int, ghost o: Tt.Origin)
    returns (bestMove: int, bestScore: int)
    requires Grid.ValidBoard(board, Cells) && (player == 1 || player == -1)
    requires 1 <= depth <= 9900 && moves == Grid.EmptyCells(board)
    requires Tt.AtOrigin(board, player, depth, o)
    requires Ready(tt, lru, capacity, o)
    modifies tt, lru
    ensures Ready(tt, lru, capacity, o)
    ensures Root.Choice(bestMove, bestScore) == Root.Best(moves, MoveScores(board, player, depth), Root.Floor)
  {
    bestMove, bestScore := -1, Root.Floor;
    var alpha, beta := Root.Floor, -Root.Floor;
    ghost var f := MoveScores(board, player, depth);
    var i := 0;
    while i < |moves|
      invariant 0 <= i <= |moves|
      invariant Ready(tt, lru, capacity, o)
      invariant alpha == bestScore && Root.Floor <= bestScore < -Root.Floor
      invariant Root.Pick(moves[i..], f, Root.Choice(bestMove, bestScore)) == Root.Best(moves, f, Root.Floor)
    {
      var move := moves[i];
      var score := RootMove(board, player, depth, move, alpha, beta, tt, lru, capacity, o);
      ValueBound(board[move := player], -player, depth - 1);
      Root.RaisedAlpha(Root.Choice(bestMove, bestScore), move, score, f(move), beta);
      Root.PickStep(moves, f, i, Root.Choice(bestMove, bestScore));
      if score > bestScore {
        bestScore := score;
        bestMove := move;
      }
      alpha := Window.Max(alpha, score);
      i := i + 1;
    }
  }

  /**
    The depth whose result iterative deepening returns, for depths from d
    on: the first depth after which the time budget is found spent, or the
    last depth.
  */
  function LastFrom(timeUp: int -> bool, maxDepth: int, d: int): (r: int)
    requires 1 <= d <= maxDepth
    ensures d <= r <= maxDepth
    ensures timeUp(r) || r == maxDepth
    ensures forall k :: d <= k < r ==> !timeUp(k)
    decreases maxDepth - d
  {
    if timeUp(d) || d == maxDepth then d else LastFrom(timeUp, maxDepth, d + 1)
  }

  /** The depth solve's answer comes from. */
  function LastDepth(timeUp: int -> bool, maxDepth: int): int
    requires 1 <= maxDepth
  {
    LastFrom(timeUp, maxDepth, 1)
  }

  /** Any depth that completes with the budget unspent before it is the last depth. */
  lemma {:induction false} LastFromIs(timeUp: int -> bool, maxDepth: int, d: int, last: int)
    requires 1 <= d <= last <= maxDepth
    requires timeUp(last) || last == maxDepth
    requires forall k :: d <= k < last ==> !timeUp(k)
    ensures LastFrom(timeUp, maxDepth, d) == last
    decreases last - d
  {
    if d < last {
      LastFromIs(timeUp, maxDepth, d + 1, last);
    }
  }

  /**
    solve: iterative deepening from depth 1 to maxDepth over one fresh
    table and the global list; the answer is the last completed depth's.
    main searches up to 25 plies with a table of max_cache_size (3000000) entries.
  */
  method Solve(board: seq<int>, player: int, maxDepth: int, timeUp: int -> bool,
               lru: LruCache.Recency, capacity: int) returns (bestMove: int, bestScore: int)
    requires Grid.ValidBoard(board, Cells) && (player == 1 || player == -1)
    requires 1 <= maxDepth <= 9900 && 0 in board && capacity >= 1
    modifies lru
    ensures var d := LastDepth(timeUp, maxDepth);
      && Root.Choice(bestMove, bestScore) == Root.Best(Grid.EmptyCells(board), MoveScores(board, player, d), Root.Floor)
      && 0 <= bestMove < |board| && board[bestMove] == 0
      && bestScore == Score(board, player, d, bestMove)
      && (forall m :: 0 <= m < |board| && board[m] == 0 ==> Score(board, player, d, m) <= bestScore)
      && (forall m :: 0 <= m < bestMove && board[m] == 0 ==> Score(board, player, d, m) < bestScore)
  {
    var tt := new LruCache.Table();
    var moves := Grid.PossibleMoves(board);
    bestMove, bestScore := Deepen(board, player, maxDepth, timeUp, moves, tt, lru, capacity);
    BestMove(board, player, LastDepth(timeUp, maxDepth));
  }

  /**
    The deepening loop of solve. Each completed depth replaces the answer;
    timeUp(d) is the wall-clock check made after depth d completes, and a
    spent budget ends the loop only then.
  */
  method Deepen(board: seq<int>, player: int, maxDepth: int, timeUp: int -> bool, moves: seq<int>,
                tt: LruCache.Table, lru: LruCache.Recency, capacity: int) returns (bestMove: int, bestScore: int)
    requires Grid.ValidBoard(board, Cells) && (player == 1 || player == -1)
    requires 1 <= maxDepth <= 9900 && moves == Grid.EmptyCells(board)
    requires Ready(tt, lru, capacity, Tt.Origin(Grid.Stones(board), Grid.Stones(board), player))
    modifies tt, lru
    ensures Root.Choice(bestMove, bestScore) == Root.Best(moves, MoveScores(board, player, LastDepth(timeUp, maxDepth)), Root.Floor)
  {
    ghost var s0 := Grid.Stones(board);
    ghost var o := Tt.Origin(s0, s0, player);
    bestMove, bestScore := -1, Root.Floor;
    ghost var last := 0;
    var depth := 1;
    while depth <= maxDepth
      invariant 1 <= depth <= maxDepth + 1
      invariant last == depth - 1 && o == Tt.Origin(last + s0, s0, player)
      invariant Ready(tt, lru, capacity, o)
      invariant forall k :: 1 <= k < depth ==> !timeUp(k)
      invariant last >= 1 ==> Root.Choice(bestMove, bestScore) == Root.Best(moves, MoveScores(board, player, last), Root.Floor)
    {
      ghost var o' := Tt.Origin(depth + s0, s0, player);
      ReadyDeeper(tt, lru, capacity, o, o');
      o := o';
      bestMove, bestScore := RootMoves(board, player, depth, moves, tt, lru, capacity, o);
      last := depth;
      if timeUp(depth) {
        break;
      }
      depth := depth + 1;
    }
    LastFromIs(timeUp, maxDepth, 1, last);
  }
}
