/**
  The standard 3x3 solver (3x3.cpp): negamax with fail-soft alpha-beta and a
  depth-checked transposition table, run once at full depth by solve.
*/
module ThreeByThree {
  import Grid
  import Tt
  import Window
  import Root

  const Cells: nat := 9

  /** win_conditions: three rows, three columns, two diagonals. */
  const Lines: seq<seq<int>> :=
    [[0, 1, 2], [3, 4, 5], [6, 7, 8], [0, 3, 6], [1, 4, 7], [2, 5, 8], [0, 4, 8], [2, 4, 6]]

  lemma LinesValid()
    ensures Grid.ValidLines(Lines, Cells)
  {
  }

  predicate Won(b: seq<int>, p: int) {
    Grid.HasLine(b, Lines, p)
  }

  /**
    The game value negamax searches for, without pruning or cache: depth
    for a line of the side to move, -depth for a line of the opponent, 0 on
    a full board or when depth runs out, otherwise the best negated value of
    a child in move order, starting from the -10000 sentinel.
  */
  function Value(b: seq<int>, p: int, d: nat): int
    decreases d, 1
  {
    if Won(b, p) then d
    else if Won(b, -p) then -(d as int)
    else if 0 !in b then 0
    else if d == 0 then 0
    else MaxChild(b, p, d, Grid.EmptyCells(b), Root.Floor)
  }

  function MaxChild(b: seq<int>, p: int, d: nat, moves: seq<int>, acc: int): int
    requires d >= 1
    decreases d, 0, |moves|
  {
    if moves == [] then acc
    else MaxChild(b, p, d, moves[1..], Window.Max(acc, Score(b, p, d, moves[0])))
  }

  /**
    The score of playing m, seen from the side that plays it; only cells of
    the board are ever played, and any other index scores 0.
  */
  function Score(b: seq<int>, p: int, d: nat, m: int): int
    requires d >= 1
    decreases d, 0, 0
  {
    if 0 <= m < |b| then -Value(b[m := p], -p, d - 1) else 0
  }

  lemma {:induction false} MaxChildAtLeast(b: seq<int>, p: int, d: nat, moves: seq<int>, acc: int)
    requires d >= 1
    ensures MaxChild(b, p, d, moves, acc) >= acc
    decreases |moves|
  {
    if moves != [] {
      MaxChildAtLeast(b, p, d, moves[1..], Window.Max(acc, Score(b, p, d, moves[0])));
    }
  }

  /** One step of the fold: the value of the first move joins the accumulator. */
  lemma MaxChildStep(b: seq<int>, p: int, d: nat, moves: seq<int>, i: int, acc: int)
    requires d >= 1 && 0 <= i < |moves|
    ensures MaxChild(b, p, d, moves[i..], acc)
         == MaxChild(b, p, d, moves[i + 1..], Window.Max(acc, Score(b, p, d, moves[i])))
  {
    assert moves[i..][1..] == moves[i + 1..];
  }

  /** Scores never leave [-depth, depth]. */
  lemma {:induction false} ValueBound(b: seq<int>, p: int, d: nat)
    ensures -(d as int) <= Value(b, p, d) <= d
    decreases d, 1
  {
    if !Won(b, p) && !Won(b, -p) && 0 in b && d > 0 {
      Grid.EmptyCellsNonEmpty(b);
      MaxChildBound(b, p, d, Grid.EmptyCells(b), Root.Floor);
    }
  }

  lemma {:induction false} MaxChildBound(b: seq<int>, p: int, d: nat, moves: seq<int>, acc: int)
    requires d >= 1
    requires acc <= d && (moves == [] ==> -(d as int) <= acc)
    ensures -(d as int) <= MaxChild(b, p, d, moves, acc) <= d
    decreases d, 0, |moves|
  {
    if moves != [] {
      if 0 <= moves[0] < |b| {
        ValueBound(b[moves[0] := p], -p, d - 1);
      }
      MaxChildBound(b, p, d, moves[1..], Window.Max(acc, Score(b, p, d, moves[0])));
    }
  }

  /** A cached entry of board b is well placed, in range and sound. */
  ghost predicate EntryOk(e: Tt.Entry, b: seq<int>, o: Tt.Origin) {
    && 0 <= e.depth
    && e.depth + Grid.Stones(b) <= o.horizon
    && -e.depth <= e.score <= e.depth
    && Tt.Sound(e, Value(b, Tt.SideToMove(o, Grid.Stones(b)), e.depth))
  }

  /** Every entry of the table is right about the board whose key it sits under. */
  ghost predicate Consistent(entries: map<string, Tt.Entry>, o: Tt.Origin) {
    forall b {:trigger Grid.Key(b)} :: Grid.ValidBoard(b, Cells) && Grid.Key(b) in entries ==> EntryOk(entries[Grid.Key(b)], b, o)
  }

  lemma ConsistentStore(entries: map<string, Tt.Entry>, o: Tt.Origin, b: seq<int>, e: Tt.Entry)
    requires Consistent(entries, o) && Grid.ValidBoard(b, Cells) && EntryOk(e, b, o)
    ensures Consistent(entries[Grid.Key(b) := e], o)
  {
    forall bb | Grid.ValidBoard(bb, Cells) && Grid.Key(bb) in entries[Grid.Key(b) := e]
      ensures EntryOk(entries[Grid.Key(b) := e][Grid.Key(bb)], bb, o)
    {
      Grid.KeyInjective(bb, b);
    }
  }

  /**
    The probe is sound: a cutoff returns a fail-soft score within the depth
    bounds, and a narrowed window only moves an edge to a proven bound.
  */
  lemma ProbeOk(entries: map<string, Tt.Entry>, o: Tt.Origin, board: seq<int>, player: int,
                depth: int, alpha: int, beta: int)
    requires Consistent(entries, o) && Grid.ValidBoard(board, Cells) && Grid.Key(board) in entries
    requires Tt.AtOrigin(board, player, depth, o) && 0 <= depth && alpha < beta
    ensures var r := Tt.ProbeEntry(entries[Grid.Key(board)], depth, alpha, beta);
      var v := Value(board, player, depth);
      && (r.Cut? ==> Window.FailSoft(r.score, alpha, beta, v) && -depth <= r.score <= depth)
      && (r.Search? ==> alpha <= r.alpha < r.beta <= beta
                        && (r.alpha == alpha || r.alpha <= v) && (r.beta == beta || v <= r.beta))
  {
    var e := entries[Grid.Key(board)];
    assert EntryOk(e, board, o);
    Tt.ProbeSound(e, depth, alpha, beta, Value(board, player, depth));
  }

  /** Storing a fail-soft result keeps the table consistent. */
  lemma StoreKeeps(entries: map<string, Tt.Entry>, o: Tt.Origin, board: seq<int>, player: int,
                   depth: int, alphaOrg: int, beta: int, score: int)
    requires Consistent(entries, o) && Grid.ValidBoard(board, Cells)
    requires Tt.AtOrigin(board, player, depth, o) && 0 <= depth && -depth <= score <= depth
    requires Window.FailSoft(score, alphaOrg, beta, Value(board, player, depth))
    ensures Consistent(entries[Grid.Key(board) := Tt.Entry(score, depth, Tt.Classify(alphaOrg, beta, score))], o)
  {
    Tt.ClassifySound(alphaOrg, beta, score, depth, Value(board, player, depth));
    ConsistentStore(entries, o, board, Tt.Entry(score, depth, Tt.Classify(alphaOrg, beta, score)));
  }

  /**
    negamax: probe the table, check for terminal positions, then search the
    children in index order with the window (-beta, -alpha), undoing each
    move before the next and stopping once alpha reaches beta; finally store
    the result classified against the original alpha.
  */
  method Negamax(board: seq<int>, player: int, depth: int, alpha: int, beta: int,
                 tt: Tt.Table, ghost o: Tt.Origin) returns (result: int)
    requires Grid.ValidBoard(board, Cells) && (player == 1 || player == -1)
    requires 0 <= depth && alpha < beta
    requires Tt.AtOrigin(board, player, depth, o)
    requires Consistent(tt.entries, o)
    modifies tt
    ensures Consistent(tt.entries, o)
    ensures Window.FailSoft(result, alpha, beta, Value(board, player, depth))
    ensures -depth <= result <= depth
    decreases depth, 1
  {
    ghost var v := Value(board, player, depth);
    var alphaOrg := alpha;
    var gameboard := board;
    var boardStr := Grid.BoardString(gameboard);
    var a, b := alpha, beta;

    if boardStr in tt.entries {
      var entry := tt.entries[boardStr];
      ProbeOk(tt.entries, o, board, player, depth, alpha, beta);
      match Tt.ProbeEntry(entry, depth, alpha, beta)
      case Cut(s) =>
        return s;
      case Search(a', b') =>
        a, b := a', b';
    }

    LinesValid();
    var won := Grid.CheckWin(gameboard, Lines, player);
    if won {
      return depth;
    }
    won := Grid.CheckWin(gameboard, Lines, -player);
    if won {
      return -depth;
    }
    if 0 !in gameboard {
      return 0;
    }
    if depth == 0 {
      return 0;
    }

    var bestScore := Children(board, player, depth, a, b, tt, o);
    Window.Widen(bestScore, alpha, beta, a, b, v);
    StoreKeeps(tt.entries, o, board, player, depth, alphaOrg, b, bestScore);
    tt.Store(boardStr, alphaOrg, b, bestScore, depth);
    return bestScore;
  }

  /**
    The move loop of negamax on a board that is neither won nor full: each
    empty cell in index order is searched with the negated window, alpha
    rises with the scores, and the loop stops once alpha reaches beta.
  */
  method Children(board: seq<int>, player: int, depth: int, alpha: int, beta: int,
                  tt: Tt.Table, ghost o: Tt.Origin) returns (bestScore: int)
    requires Grid.ValidBoard(board, Cells) && (player == 1 || player == -1)
    requires 1 <= depth && alpha < beta && 0 in board
    requires !Won(board, player) && !Won(board, -player)
    requires Tt.AtOrigin(board, player, depth, o)
    requires Consistent(tt.entries, o)
    modifies tt
    ensures Consistent(tt.entries, o)
    ensures Window.FailSoft(bestScore, alpha, beta, Value(board, player, depth))
    ensures -depth <= bestScore <= depth
    decreases depth, 0, 1
  {
    ghost var v := Value(board, player, depth);
    var a := alpha;
    bestScore := Root.Floor;
    var moves := Grid.PossibleMoves(board);
    assert v == MaxChild(board, player, depth, moves, Root.Floor);
    ghost var top := Root.Floor;
    var i := 0;
    while i < |moves|
      invariant 0 <= i <= |moves|
      invariant Consistent(tt.entries, o)
      invariant Window.Scan(alpha, a, bestScore, top) && a < beta
      invariant MaxChild(board, player, depth, moves[i..], top) == v
      invariant i == 0 ==> bestScore == Root.Floor
      invariant i > 0 ==> -depth <= bestScore <= depth
    {
      var move := moves[i];
      var score := SearchMove(board, player, depth, move, a, beta, tt, o);
      Window.ScanStep(alpha, a, beta, bestScore, top, score, Score(board, player, depth, move));
      MaxChildStep(board, player, depth, moves, i, top);
      top := Window.Max(top, Score(board, player, depth, move));
      bestScore := Window.Max(bestScore, score);
      a := Window.Max(a, score);
      if a >= beta {
        MaxChildAtLeast(board, player, depth, moves[i + 1..], top);
        return;
      }
      i := i + 1;
    }
    Window.ScanDone(alpha, a, beta, bestScore, top);
  }

  /**
    One iteration's search of a move: play it on the board, search the
    child with the negated window, negate the result, and clear the cell.
  */
  method SearchMove(board: seq<int>, player: int, depth: int, move: int, alpha: int, beta: int,
                    tt: Tt.Table, ghost o: Tt.Origin) returns (score: int)
    requires Grid.ValidBoard(board, Cells) && (player == 1 || player == -1)
    requires 1 <= depth && alpha < beta
    requires 0 <= move < |board| && board[move] == 0
    requires Tt.AtOrigin(board, player, depth, o)
    requires Consistent(tt.entries, o)
    modifies tt
    ensures Consistent(tt.entries, o)
    ensures Window.FailSoft(score, alpha, beta, Score(board, player, depth, move))
    ensures -depth < score < depth
    decreases depth, 0, 0
  {
    var gameboard := board[move := player];
    Tt.ChildAtOrigin(board, player, depth, o, move);
    var s := Negamax(gameboard, -player, depth - 1, -beta, -alpha, tt, o);
    Window.Negated(s, alpha, beta, Value(gameboard, -player, depth - 1));
    score := -s;
    gameboard := gameboard[move := 0];
    Grid.UndoPlace(board, move, player);
    assert gameboard == board;
  }

  /** The score solve sees for each root move. */
  function MoveScores(b: seq<int>, p: int, d: nat): int -> int
    requires d >= 1
  {
    m => Score(b, p, d, m)
  }

  /**
    The move solve settles on is a free cell, carries that cell's score, no
    free cell scores more, and every free cell before it scores less.
  */
  lemma BestMove(board: seq<int>, player: int, depth: int)
    requires Grid.ValidBoard(board, Cells)
    requires 1 <= depth <= 10000 && 0 in board
    ensures var c := Root.Best(Grid.EmptyCells(board), MoveScores(board, player, depth), Root.Floor);
      && 0 <= c.move < |board| && board[c.move] == 0
      && c.score == Score(board, player, depth, c.move)
      && (forall m :: 0 <= m < |board| && board[m] == 0 ==> Score(board, player, depth, m) <= c.score)
      && (forall m :: 0 <= m < c.move && board[m] == 0 ==> Score(board, player, depth, m) < c.score)
  {
    var moves, f := Grid.EmptyCells(board), MoveScores(board, player, depth);
    forall m | m in moves
      ensures f(m) > Root.Floor
    {
      ValueBound(board[m := player], -player, depth - 1);
    }
    Grid.EmptyCellsNonEmpty(board);
    Grid.EmptyCellsAscending(board);
    Root.BestIsArgmax(moves, f, Root.Floor);
  }

  /**
    solve: a fresh table, the full window (-10000, 10000) for every legal
    move, and the first move of highest score. Only called with a free cell
    left and the full depth of 9 plies.
  */
  method Solve(board: seq<int>, player: int, depth: int) returns (bestMove: int, bestScore: int)
    requires Grid.ValidBoard(board, Cells) && (player == 1 || player == -1)
    requires 1 <= depth <= 10000 && 0 in board
    ensures Root.Choice(bestMove, bestScore) == Root.Best(Grid.EmptyCells(board), MoveScores(board, player, depth), Root.Floor)
    ensures 0 <= bestMove < |board| && board[bestMove] == 0
    ensures bestScore == Score(board, player, depth, bestMove)
    ensures forall m :: 0 <= m < |board| && board[m] == 0 ==> Score(board, player, depth, m) <= bestScore
    ensures forall m :: 0 <= m < bestMove && board[m] == 0 ==> Score(board, player, depth, m) < bestScore
  {
    var tt := new Tt.Table();
    ghost var s0 := Grid.Stones(board);
    ghost var o := Tt.Origin(depth + s0, s0, player);
    var moves := Grid.PossibleMoves(board);
    bestMove, bestScore := RootMoves(board, player, depth, moves, tt, o);
    BestMove(board, player, depth);
  }

  /**
    The move loop of solve: each move searched with the full window, and
    the running best replaced only by a strictly greater score.
  */
  method RootMoves(board: seq<int>, player: int, depth: int, moves: seq<int>,
                   tt: Tt.Table, ghost o: Tt.Origin) returns (bestMove: int, bestScore: int)
    requires Grid.ValidBoard(board, Cells) && (player == 1 || player == -1)
    requires 1 <= depth <= 10000 && moves == Grid.EmptyCells(board)
    requires Tt.AtOrigin(board, player, depth, o)
    requires Consistent(tt.entries, o)
    modifies tt
    ensures Root.Choice(bestMove, bestScore) == Root.Best(moves, MoveScores(board, player, depth), Root.Floor)
  {
    bestMove, bestScore := -1, Root.Floor;
    var alpha, beta := Root.Floor, -Root.Floor;
    ghost var f := MoveScores(board, player, depth);
    var i := 0;
    while i < |moves|
      invariant 0 <= i <= |moves|
      invariant Consistent(tt.entries, o)
      invariant Root.Pick(moves[i..], f, Root.Choice(bestMove, bestScore)) == Root.Best(moves, f, Root.Floor)
    {
      var move := moves[i];
      var score := SearchMove(board, player, depth, move, alpha, beta, tt, o);
      ValueBound(board[move := player], -player, depth - 1);
      Root.PickStep(moves, f, i, Root.Choice(bestMove, bestScore));
      if score > bestScore {
        bestScore := score;
        bestMove := move;
      }
      i := i + 1;
    }
  }
}
