/**
  The 4x4 solver (4x4.cpp): negamax with fail-soft alpha-beta and a
  transposition table whose probe has no depth check, a root that raises
  alpha as it goes, and an opening book consulted instead of a search in
  the first moves of the game.
*/
module FourByFour {
  import opened Wrappers
  import Grid
  import Tt
  import Window
  import Root

  const Cells: nat := 16

  /** The sentinel best_score and alpha start from; the root's beta is its negation. */
  const Floor: int := -1000

  /**
    win_conditions: four rows, four columns, the two diagonals, the four
    corners and the nine 2x2 squares.
  */
  const Lines: seq<seq<int>> :=
    [[0, 1, 2, 3], [4, 5, 6, 7], [8, 9, 10, 11], [12, 13, 14, 15],
     [0, 4, 8, 12], [1, 5, 9, 13], [2, 6, 10, 14], [3, 7, 11, 15],
     [0, 5, 10, 15], [3, 6, 9, 12], [0, 3, 12, 15],
     [0, 1, 4, 5], [1, 2, 5, 6], [2, 3, 6, 7], [4, 5, 8, 9], [5, 6, 9, 10],
     [6, 7, 10, 11], [8, 9, 12, 13], [9, 10, 13, 14], [10, 11, 14, 15]]

  lemma LinesValid()
    ensures Grid.ValidLines(Lines, Cells)
  {
  }

  /** The square whose top-left cell is in row r and column c, cells in row order. */
  function Square(r: int, c: int): seq<int> {
    [4 * r + c, 4 * r + c + 1, 4 * r + c + 4, 4 * r + c + 5]
  }

  /**
    The win table is made of the rows, the columns, the diagonals, the
    corners and every 2x2 square, in that order.
  */
  lemma LinesShape()
    ensures |Lines| == 20
    ensures forall r :: 0 <= r < 4 ==> Lines[r] == [4 * r, 4 * r + 1, 4 * r + 2, 4 * r + 3]
    ensures forall c :: 4 <= c < 8 ==> Lines[c] == [c - 4, c, c + 4, c + 8]
    ensures Lines[8] == [0, 5, 10, 15] && Lines[9] == [3, 6, 9, 12]
    ensures Lines[10] == [0, 3, 12, 15]
    ensures forall k :: 11 <= k < 20 ==> Lines[k] == Square((k - 11) / 3, (k - 11) % 3)
  {
  }

  predicate Won(b: seq<int>, p: int) {
    Grid.HasLine(b, Lines, p)
  }

  /**
    The game value negamax searches for, without pruning or cache: 100 plus
    the depth left for a line of the side to move, minus that for a line of
    the opponent, 0 on a full board or when depth runs out, otherwise the
    best negated value of a child in move order, starting from -1000.
  */
  function Value(b: seq<int>, p: int, d: nat): int
    decreases d, 1
  {
    if Won(b, p) then 100 + d
    else if Won(b, -p) then -100 - (d as int)
    else if 0 !in b then 0
    else if d == 0 then 0
    else MaxChild(b, p, d, Grid.EmptyCells(b), Floor)
  }

  function MaxChild(b: seq<int>, p: int, d: nat, moves: seq<int>, acc: int): int
    requires d >= 1
    decreases d, 0, |moves|
  {
    if moves == [] then acc
    else MaxChild(b, p, d, moves[1..], Window.Max(acc, Score(b, p, d, moves[0])))
  }

  /**
    The score of playing m, seen from the side that plays it; only cells of
    the board are ever played, and any other index scores 0.
  */
  function Score(b: seq<int>, p: int, d: nat, m: int): int
    requires d >= 1
    decreases d, 0, 0
  {
    if 0 <= m < |b| then -Value(b[m := p], -p, d - 1) else 0
  }

  lemma {:induction false} MaxChildAtLeast(b: seq<int>, p: int, d: nat, moves: seq<int>, acc: int)
    requires d >= 1
    ensures MaxChild(b, p, d, moves, acc) >= acc
    decreases |moves|
  {
    if moves != [] {
      MaxChildAtLeast(b, p, d, moves[1..], Window.Max(acc, Score(b, p, d, moves[0])));
    }
  }

  /** One step of the fold: the value of the first move joins the accumulator. */
  lemma MaxChildStep(b: seq<int>, p: int, d: nat, moves: seq<int>, i: int, acc: int)
    requires d >= 1 && 0 <= i < |moves|
    ensures MaxChild(b, p, d, moves[i..], acc)
         == MaxChild(b, p, d, moves[i + 1..], Window.Max(acc, Score(b, p, d, moves[i])))
  {
    assert moves[i..][1..] == moves[i + 1..];
  }

  /** Scores never leave [-100 - depth, 100 + depth]. */
  lemma {:induction false} ValueBound(b: seq<int>, p: int, d: nat)
    ensures -100 - (d as int) <= Value(b, p, d) <= 100 + d
    decreases d, 1
  {
    if !Won(b, p) && !Won(b, -p) && 0 in b && d > 0 {
      Grid.EmptyCellsNonEmpty(b);
      MaxChildBound(b, p, d, Grid.EmptyCells(b), Floor);
    }
  }

  lemma {:induction false} MaxChildBound(b: seq<int>, p: int, d: nat, moves: seq<int>, acc: int)
    requires d >= 1
    requires acc <= 100 + d && (moves == [] ==> -100 - (d as int) <= acc)
    ensures -100 - (d as int) <= MaxChild(b, p, d, moves, acc) <= 100 + d
    decreases d, 0, |moves|
  {
    if moves != [] {
      if 0 <= moves[0] < |b| {
        ValueBound(b[moves[0] := p], -p, d - 1);
      }
      MaxChildBound(b, p, d, moves[1..], Window.Max(acc, Score(b, p, d, moves[0])));
    }
  }

  /**
    The probe exactly as 4x4.cpp writes it: no depth check, and a lower
    bound raises alpha to the entry's second field, the stored depth,
    rather than to the stored score.
  */
  function ProbeAsWritten(e: Tt.Entry, alpha: int, beta: int): (r: Tt.Probe)
    ensures e.flag == Tt.Exact ==> r == Tt.Cut(e.score)
    ensures r.Cut? ==> r.score == e.score
    ensures r.Search? ==> alpha <= r.alpha < r.beta <= beta
    ensures e.flag == Tt.Lower && alpha < beta ==> (r.Cut? <==> beta <= e.depth)
    ensures r.Search? && e.flag == Tt.Lower ==> r == Tt.Search(Window.Max(alpha, e.depth), beta)
    ensures r.Search? && e.flag == Tt.Upper ==> r == Tt.Search(alpha, if e.score < beta then e.score else beta)
    ensures r.Search? && e.flag != Tt.Lower && e.flag != Tt.Upper ==> r == Tt.Search(alpha, beta)
  {
    if e.flag == Tt.Exact then Tt.Cut(e.score)
    else
      var a := if e.flag == Tt.Lower then Window.Max(alpha, e.depth) else alpha;
      var b := if e.flag == Tt.Upper then (if e.score < beta then e.score else beta) else beta;
      if a >= b then Tt.Cut(e.score) else Tt.Search(a, b)
  }

  /**
    The probe with the lower bound read from the score field. Like the
    original it has no depth check; the search relies on every stored depth
    matching the requested one.
  */
  function Probe(e: Tt.Entry, alpha: int, beta: int): Tt.Probe {
    if e.flag == Tt.Exact then Tt.Cut(e.score)
    else
      var a := if e.flag == Tt.Lower then Window.Max(alpha, e.score) else alpha;
      var b := if e.flag == Tt.Upper then (if e.score < beta then e.score else beta) else beta;
      if a >= b then Tt.Cut(e.score) else Tt.Search(a, b)
  }

  /** The two probes differ only on lower-bound entries. */
  lemma ProbesAgree(e: Tt.Entry, alpha: int, beta: int)
    requires e.flag != Tt.Lower
    ensures ProbeAsWritten(e, alpha, beta) == Probe(e, alpha, beta)
  {
  }

  /**
    A lower bound of -103 stored at depth 5, probed with the window
    (-1000, 0) on a position whose true value is the draw 0: the probe as
    written raises alpha to 5, finds the window empty and answers -103,
    which lies inside the window and so claims to be exact. The corrected
    probe raises alpha to -103 and searches.
  */
  lemma ProbeAsWrittenUnsound()
    ensures var e := Tt.Entry(-103, 5, Tt.Lower);
      && Tt.Sound(e, 0)
      && ProbeAsWritten(e, Floor, 0) == Tt.Cut(-103)
      && !Window.FailSoft(-103, Floor, 0, 0)
      && Probe(e, Floor, 0) == Tt.Search(-103, 0)
  {
  }

  /**
    Requested no deeper than the entry, the probe without a depth check
    answers as the depth-checked probe of 3x3.cpp and 5x5.cpp does.
  */
  lemma ProbeIgnoresDepth(e: Tt.Entry, depth: int, alpha: int, beta: int)
    requires depth <= e.depth
    ensures Probe(e, alpha, beta) == Tt.ProbeEntry(e, depth, alpha, beta)
  {
  }

  /**
    A cached entry of board b was stored at exactly the depth the root
    gives b, is in range and is sound.
  */
  ghost predicate EntryOk(e: Tt.Entry, b: seq<int>, o: Tt.Origin) {
    && 0 <= e.depth
    && e.depth + Grid.Stones(b) == o.horizon
    && -100 - e.depth <= e.score <= 100 + e.depth
    && Tt.Sound(e, Value(b, Tt.SideToMove(o, Grid.Stones(b)), e.depth))
  }

  /** Every entry of the table is right about the board whose key it sits under. */
  ghost predicate Consistent(entries: map<string, Tt.Entry>, o: Tt.Origin) {
    forall b {:trigger Grid.Key(b)} :: Grid.ValidBoard(b, Cells) && Grid.Key(b) in entries ==> EntryOk(entries[Grid.Key(b)], b, o)
  }

  lemma ConsistentStore(entries: map<string, Tt.Entry>, o: Tt.Origin, b: seq<int>, e: Tt.Entry)
    requires Consistent(entries, o) && Grid.ValidBoard(b, Cells) && EntryOk(e, b, o)
    ensures Consistent(entries[Grid.Key(b) := e], o)
  {
    forall bb | Grid.ValidBoard(bb, Cells) && Grid.Key(bb) in entries[Grid.Key(b) := e]
      ensures EntryOk(entries[Grid.Key(b) := e][Grid.Key(bb)], bb, o)
    {
      Grid.KeyInjective(bb, b);
    }
  }

  /**
    Within one solve every board is stored and probed at the one depth its
    stone count fixes, so the missing depth check is harmless and the
    corrected probe is sound: a cutoff is a fail-soft score within the
    bounds, and a narrowed edge is a proven bound.
  */
  lemma ProbeOk(entries: map<string, Tt.Entry>, o: Tt.Origin, board: seq<int>, player: int,
                depth: int, alpha: int, beta: int)
    requires Consistent(entries, o) && Grid.ValidBoard(board, Cells) && Grid.Key(board) in entries
    requires Tt.AtOrigin(board, player, depth, o) && 0 <= depth && alpha < beta
    ensures var r := Probe(entries[Grid.Key(board)], alpha, beta);
      var v := Value(board, player, depth);
      && (r.Cut? ==> Window.FailSoft(r.score, alpha, beta, v) && -100 - depth <= r.score <= 100 + depth)
      && (r.Search? ==> alpha <= r.alpha < r.beta <= beta
                        && (r.alpha == alpha || r.alpha <= v) && (r.beta == beta || v <= r.beta))
  {
    var e := entries[Grid.Key(board)];
    assert EntryOk(e, board, o);
    ProbeIgnoresDepth(e, depth, alpha, beta);
    Tt.ProbeSound(e, depth, alpha, beta, Value(board, player, depth));
  }

  /** Storing a fail-soft result keeps the table consistent. */
  lemma StoreKeeps(entries: map<string, Tt.Entry>, o: Tt.Origin, board: seq<int>, player: int,
                   depth: int, alphaOrg: int, beta: int, score: int)
    requires Consistent(entries, o) && Grid.ValidBoard(board, Cells)
    requires Tt.AtOrigin(board, player, depth, o) && 0 <= depth && -100 - depth <= score <= 100 + depth
    requires Window.FailSoft(score, alphaOrg, beta, Value(board, player, depth))
    ensures Consistent(entries[Grid.Key(board) := Tt.Entry(score, depth, Tt.Classify(alphaOrg, beta, score))], o)
  {
    Tt.ClassifySound(alphaOrg, beta, score, depth, Value(board, player, depth));
    ConsistentStore(entries, o, board, Tt.Entry(score, depth, Tt.Classify(alphaOrg, beta, score)));
  }

  /**
    negamax: probe the table (with the lower bound read from the score
    field), check for terminal positions, then search the children in
    index order with the window (-beta, -alpha), undoing each move before
    the next and stopping once alpha reaches beta; finally store the result
    classified against the original alpha.
  */
  method Negamax(board: seq<int>, player: int, depth: int, alpha: int, beta: int,
                 tt: Tt.Table, ghost o: Tt.Origin) returns (result: int)
    requires Grid.ValidBoard(board, Cells) && (player == 1 || player == -1)
    requires 0 <= depth && alpha < beta
    requires Tt.AtOrigin(board, player, depth, o)
    requires Consistent(tt.entries, o)
    modifies tt
    ensures Consistent(tt.entries, o)
    ensures Window.FailSoft(result, alpha, beta, Value(board, player, depth))
    ensures -100 - depth <= result <= 100 + depth
    decreases depth, 1
  {
    ghost var v := Value(board, player, depth);
    var alphaOrg := alpha;
    var gameboard := board;
    var boardStr := Grid.BoardString(gameboard);
    var a, b := alpha, beta;

    if boardStr in tt.entries {
      var entry := tt.entries[boardStr];
      ProbeOk(tt.entries, o, board, player, depth, alpha, beta);
      match Probe(entry, alpha, beta)
      case Cut(s) =>
        return s;
      case Search(a', b') =>
        a, b := a', b';
    }

    LinesValid();
    var won := Grid.CheckWin(gameboard, Lines, player);
    if won {
      return 100 + depth;
    }
    won := Grid.CheckWin(gameboard, Lines, -player);
    if won {
      return -100 - depth;
    }
    if 0 !in gameboard {
      return 0;
    }
    if depth == 0 {
      return 0;
    }

    var bestScore := Children(board, player, depth, a, b, tt, o);
    Window.Widen(bestScore, alpha, beta, a, b, v);
    StoreKeeps(tt.entries, o, board, player, depth, alphaOrg, b, bestScore);
    tt.Store(boardStr, alphaOrg, b, bestScore, depth);
    return bestScore;
  }

  /**
    The move loop of negamax on a board that is neither won nor full: each
    empty cell in index order is searched with the negated window, alpha
    rises with the scores, and the loop stops once alpha reaches beta.
  */
  method Children(board: seq<int>, player: int, depth: int, alpha: int, beta: int,
                  tt: Tt.Table, ghost o: Tt.Origin) returns (bestScore: int)
    requires Grid.ValidBoard(board, Cells) && (player == 1 || player == -1)
    requires 1 <= depth && alpha < beta && 0 in board
    requires !Won(board, player) && !Won(board, -player)
    requires Tt.AtOrigin(board, player, depth, o)
    requires Consistent(tt.entries, o)
    modifies tt
    ensures Consistent(tt.entries, o)
    ensures Window.FailSoft(bestScore, alpha, beta, Value(board, player, depth))
    ensures -100 - depth <= bestScore <= 100 + depth
    decreases depth, 0, 1
  {
    ghost var v := Value(board, player, depth);
    var a := alpha;
    bestScore := Floor;
    var moves := Grid.PossibleMoves(board);
    assert v == MaxChild(board, player, depth, moves, Floor);
    ghost var top := Floor;
    var i := 0;
    while i < |moves|
      invariant 0 <= i <= |moves|
      invariant Consistent(tt.entries, o)
      invariant Window.Scan(alpha, a, bestScore, top) && a < beta
      invariant MaxChild(board, player, depth, moves[i..], top) == v
      invariant i == 0 ==> bestScore == Floor
      invariant i > 0 ==> -100 - depth <= bestScore <= 100 + depth
    {
      var move := moves[i];
      var score := SearchMove(board, player, depth, move, a, beta, tt, o);
      Window.ScanStep(alpha, a, beta, bestScore, top, score, Score(board, player, depth, move));
      MaxChildStep(board, player, depth, moves, i, top);
      top := Window.Max(top, Score(board, player, depth, move));
      bestScore := Window.Max(bestScore, score);
      a := Window.Max(a, score);
      if a >= beta {
        MaxChildAtLeast(board, player, depth, moves[i + 1..], top);
        return;
      }
      i := i + 1;
    }
    Window.ScanDone(alpha, a, beta, bestScore, top);
  }

  /**
    One iteration's search of a move: play it on the board, search the
    child with the negated window, negate the result, and clear the cell.
  */
  method SearchMove(board: seq<int>, player: int, depth: int, move: int, alpha: int, beta: int,
                    tt: Tt.Table, ghost o: Tt.Origin) returns (score: int)
    requires Grid.ValidBoard(board, Cells) && (player == 1 || player == -1)
    requires 1 <= depth && alpha < beta
    requires 0 <= move < |board| && board[move] == 0
    requires Tt.AtOrigin(board, player, depth, o)
    requires Consistent(tt.entries, o)
    modifies tt
    ensures Consistent(tt.entries, o)
    ensures Window.FailSoft(score, alpha, beta, Score(board, player, depth, move))
    ensures -100 - depth < score < 100 + depth
    decreases depth, 0, 0
  {
    var gameboard := board[move := player];
    Tt.ChildAtOrigin(board, player, depth, o, move);
    var s := Negamax(gameboard, -player, depth - 1, -beta, -alpha, tt, o);
    Window.Negated(s, alpha, beta, Value(gameboard, -player, depth - 1));
    score := -s;
    gameboard := gameboard[move := 0];
    Grid.UndoPlace(board, move, player);
    assert gameboard == board;
  }

  /** The score solve sees for each root move. */
  function MoveScores(b: seq<int>, p: int, d: nat): int -> int
    requires d >= 1
  {
    m => Score(b, p, d, m)
  }

  /**
    The move solve settles on is a free cell, carries that cell's score, no
    free cell scores more, and every free cell before it scores less.
  */
  lemma BestMove(board: seq<int>, player: int, depth: int)
    requires Grid.ValidBoard(board, Cells)
    requires 1 <= depth <= 900 && 0 in board
    ensures var c := Root.Best(Grid.EmptyCells(board), MoveScores(board, player, depth), Floor);
      && 0 <= c.move < |board| && board[c.move] == 0
      && c.score == Score(board, player, depth, c.move)
      && (forall m :: 0 <= m < |board| && board[m] == 0 ==> Score(board, player, depth, m) <= c.score)
      && (forall m :: 0 <= m < c.move && board[m] == 0 ==> Score(board, player, depth, m) < c.score)
  {
    var moves, f := Grid.EmptyCells(board), MoveScores(board, player, depth);
    forall m | m in moves
      ensures f(m) > Floor
    {
      ValueBound(board[m := player], -player, depth - 1);
    }
    Grid.EmptyCellsNonEmpty(board);
    Grid.EmptyCellsAscending(board);
    Root.BestIsArgmax(moves, f, Floor);
  }

  /**
    solve: a fresh table, every free cell in order searched with
    (-beta, -alpha) where alpha rises to the best score so far, and the
    first move of highest score.
  */
  method Solve(board: seq<int>, player: int, depth: int) returns (bestMove: int, bestScore: int)
    requires Grid.ValidBoard(board, Cells) && (player == 1 || player == -1)
    requires 1 <= depth <= 900 && 0 in board
    ensures Root.Choice(bestMove, bestScore) == Root.Best(Grid.EmptyCells(board), MoveScores(board, player, depth), Floor)
    ensures 0 <= bestMove < |board| && board[bestMove] == 0
    ensures bestScore == Score(board, player, depth, bestMove)
    ensures forall m :: 0 <= m < |board| && board[m] == 0 ==> Score(board, player, depth, m) <= bestScore
    ensures forall m :: 0 <= m < bestMove && board[m] == 0 ==> Score(board, player, depth, m) < bestScore
  {
    var tt := new Tt.Table();
    ghost var s0 := Grid.Stones(board);
    ghost var o := Tt.Origin(depth + s0, s0, player);
    var moves := Grid.PossibleMoves(board);
    bestMove, bestScore := RootMoves(board, player, depth, moves, tt, o);
    BestMove(board, player, depth);
  }

  /**
    The move loop of solve: alpha stays equal to the best score, so a move
    that fails low cannot replace the best and one that beats it is scored
    exactly. The source leaves the loop once alpha reaches beta = 1000;
    with scores bounded by 100 plus the depth that never happens below 900
    plies, and main searches 16. Testing that condition before each move
    instead of after is the same, since alpha starts below beta.
  */
  method RootMoves(board: seq<int>, player: int, depth: int, moves: seq<int>,
                   tt: Tt.Table, ghost o: Tt.Origin) returns (bestMove: int, bestScore: int)
    requires Grid.ValidBoard(board, Cells) && (player == 1 || player == -1)
    requires 1 <= depth <= 900 && moves == Grid.EmptyCells(board)
    requires Tt.AtOrigin(board, player, depth, o)
    requires Consistent(tt.entries, o)
    modifies tt
    ensures Root.Choice(bestMove, bestScore) == Root.Best(moves, MoveScores(board, player, depth), Floor)
  {
    bestMove, bestScore := -1, Floor;
    var alpha, beta := Floor, -Floor;
    ghost var f := MoveScores(board, player, depth);
    var i := 0;
    while i < |moves| && alpha < beta
      invariant 0 <= i <= |moves|
      invariant Consistent(tt.entries, o)
      invariant alpha == bestScore && Floor <= bestScore < -Floor
      invariant Root.Pick(moves[i..], f, Root.Choice(bestMove, bestScore)) == Root.Best(moves, f, Floor)
    {
      var move := moves[i];
      var score := SearchMove(board, player, depth, move, alpha, beta, tt, o);
      ValueBound(board[move := player], -player, depth - 1);
      Root.RaisedAlpha(Root.Choice(bestMove, bestScore), move, score, f(move), beta);
      Root.PickStep(moves, f, i, Root.Choice(bestMove, bestScore));
      if score > bestScore {
        bestScore := score;
        bestMove := move;
      }
      alpha := Window.Max(alpha, score);
      i := i + 1;
    }
  }

  /**
    What the table of the search as written keeps: every entry was stored
    at the depth the root gives its board, with a score in that depth's
    range. No soundness is claimed, since the probe as written can cut off
    unsoundly.
  */
  ghost predicate InRange(entries: map<string, Tt.Entry>, o: Tt.Origin) {
    forall b {:trigger Grid.Key(b)} :: Grid.ValidBoard(b, Cells) && Grid.Key(b) in entries ==>
      var e := entries[Grid.Key(b)];
      0 <= e.depth && e.depth + Grid.Stones(b) == o.horizon && -100 - e.depth <= e.score <= 100 + e.depth
  }

  /** A consistent table is in range: the corrected invariant is the stronger one. */
  lemma ConsistentInRange(entries: map<string, Tt.Entry>, o: Tt.Origin)
    requires Consistent(entries, o)
    ensures InRange(entries, o)
  {
    forall b | Grid.ValidBoard(b, Cells) && Grid.Key(b) in entries
      ensures var e := entries[Grid.Key(b)];
        0 <= e.depth && e.depth + Grid.Stones(b) == o.horizon && -100 - e.depth <= e.score <= 100 + e.depth
    {
      assert EntryOk(entries[Grid.Key(b)], b, o);
    }
  }

  /**
    On a table in range, the lookup as written either cuts off with a score
    in the range of the current depth or leaves a non-empty window inside
    the original one.
  */
  lemma ProbeInRange(entries: map<string, Tt.Entry>, o: Tt.Origin, board: seq<int>, player: int,
                     depth: int, alpha: int, beta: int, e: Tt.Entry)
    requires InRange(entries, o) && Grid.ValidBoard(board, Cells)
    requires Grid.Key(board) in entries && e == entries[Grid.Key(board)]
    requires Tt.AtOrigin(board, player, depth, o) && alpha < beta
    ensures var r := ProbeAsWritten(e, alpha, beta);
      && (r.Cut? ==> -100 - depth <= r.score <= 100 + depth)
      && (r.Search? ==> alpha <= r.alpha < r.beta <= beta)
  {
    assert e.depth == depth;
  }

  /** Storing a result in the range of its depth keeps the table in range. */
  lemma StoreInRange(entries: map<string, Tt.Entry>, o: Tt.Origin, board: seq<int>, player: int,
                     depth: int, alphaOrg: int, beta: int, score: int)
    requires InRange(entries, o) && Grid.ValidBoard(board, Cells)
    requires Tt.AtOrigin(board, player, depth, o) && 0 <= depth && -100 - depth <= score <= 100 + depth
    ensures InRange(entries[Grid.Key(board) := Tt.Entry(score, depth, Tt.Classify(alphaOrg, beta, score))], o)
  {
    var m := entries[Grid.Key(board) := Tt.Entry(score, depth, Tt.Classify(alphaOrg, beta, score))];
    forall bb | Grid.ValidBoard(bb, Cells) && Grid.Key(bb) in m
      ensures var e := m[Grid.Key(bb)];
        0 <= e.depth && e.depth + Grid.Stones(bb) == o.horizon && -100 - e.depth <= e.score <= 100 + e.depth
    {
      Grid.KeyInjective(bb, board);
    }
  }

  /**
    negamax exactly as 4x4.cpp runs it, with the lookup as written: a lower
    bound raises alpha to the stored depth. Its result is still within the
    range of its depth and the table stays in range, but it is not claimed
    to be fail-soft for the game value.
  */
  method NegamaxAsWritten(board: seq<int>, player: int, depth: int, alpha: int, beta: int,
                          tt: Tt.Table, ghost o: Tt.Origin) returns (result: int)
    requires Grid.ValidBoard(board, Cells) && (player == 1 || player == -1)
    requires 0 <= depth && alpha < beta
    requires Tt.AtOrigin(board, player, depth, o)
    requires InRange(tt.entries, o)
    modifies tt
    ensures InRange(tt.entries, o)
    ensures -100 - depth <= result <= 100 + depth
    decreases depth, 1
  {
    var alphaOrg := alpha;
    var gameboard := board;
    var boardStr := Grid.BoardString(gameboard);
    var a, b := alpha, beta;

    if boardStr in tt.entries {
      var entry := tt.entries[boardStr];
      ProbeInRange(tt.entries, o, board, player, depth, alpha, beta, entry);
      var probe := ProbeAsWritten(entry, alpha, beta);
      if probe.Cut? {
        return probe.score;
      }
      a, b := probe.alpha, probe.beta;
    }

    LinesValid();
    var won := Grid.CheckWin(gameboard, Lines, player);
    if won {
      return 100 + depth;
    }
    won := Grid.CheckWin(gameboard, Lines, -player);
    if won {
      return -100 - depth;
    }
    if 0 !in gameboard {
      return 0;
    }
    if depth == 0 {
      return 0;
    }

    var bestScore := ChildrenAsWritten(board, player, depth, a, b, tt, o);
    StoreInRange(tt.entries, o, board, player, depth, alphaOrg, b, bestScore);
    tt.Store(boardStr, alphaOrg, b, bestScore, depth);
    return bestScore;
  }

  /** The move loop of negamax as written; at least one move is searched. */
  method ChildrenAsWritten(board: seq<int>, player: int, depth: int, alpha: int, beta: int,
                           tt: Tt.Table, ghost o: Tt.Origin) returns (bestScore: int)
    requires Grid.ValidBoard(board, Cells) && (player == 1 || player == -1)
    requires 1 <= depth && alpha < beta && 0 in board
    requires Tt.AtOrigin(board, player, depth, o)
    requires InRange(tt.entries, o)
    modifies tt
    ensures InRange(tt.entries, o)
    ensures -100 - depth <= bestScore <= 100 + depth
    decreases depth, 0, 1
  {
    var a := alpha;
    bestScore := Floor;
    var moves := Grid.PossibleMoves(board);
    Grid.EmptyCellsNonEmpty(board);
    var i := 0;
    while i < |moves|
      invariant 0 <= i <= |moves|
      invariant InRange(tt.entries, o)
      invariant alpha <= a < beta
      invariant i == 0 ==> bestScore == Floor
      invariant i > 0 ==> -100 - depth <= bestScore <= 100 + depth
    {
      var move := moves[i];
      var score := SearchMoveAsWritten(board, player, depth, move, a, beta, tt, o);
      bestScore := Window.Max(bestScore, score);
      a := Window.Max(a, score);
      if a >= beta {
        return;
      }
      i := i + 1;
    }
  }

  /** Play a move, search the child as written with the negated window, and clear the cell. */
  method SearchMoveAsWritten(board: seq<int>, player: int, depth: int, move: int, alpha: int, beta: int,
                             tt: Tt.Table, ghost o: Tt.Origin) returns (score: int)
    requires Grid.ValidBoard(board, Cells) && (player == 1 || player == -1)
    requires 1 <= depth && alpha < beta
    requires 0 <= move < |board| && board[move] == 0
    requires Tt.AtOrigin(board, player, depth, o)
    requires InRange(tt.entries, o)
    modifies tt
    ensures InRange(tt.entries, o)
    ensures -100 - depth < score < 100 + depth
    decreases depth, 0, 0
  {
    var gameboard := board[move := player];
    Tt.ChildAtOrigin(board, player, depth, o, move);
    var s := NegamaxAsWritten(gameboard, -player, depth - 1, -beta, -alpha, tt, o);
    score := -s;
    gameboard := gameboard[move := 0];
    Grid.UndoPlace(board, move, player);
    assert gameboard == board;
  }

  /**
    solve exactly as 4x4.cpp runs it: a fresh table and the root loop over
    the searches as written. The move returned is a free cell and its score
    lies in the range of the depth searched.
  */
  method SolveAsWritten(board: seq<int>, player: int, depth: int) returns (bestMove: int, bestScore: int)
    requires Grid.ValidBoard(board, Cells) && (player == 1 || player == -1)
    requires 1 <= depth <= 900 && 0 in board
    ensures 0 <= bestMove < |board| && board[bestMove] == 0
    ensures -100 - depth < bestScore < 100 + depth
  {
    var tt := new Tt.Table();
    ghost var s0 := Grid.Stones(board);
    ghost var o := Tt.Origin(depth + s0, s0, player);
    var moves := Grid.PossibleMoves(board);
    bestMove, bestScore := RootMovesAsWritten(board, player, depth, moves, tt, o);
  }

  /**
    The root loop as written: alpha follows the best score, so the loop
    never reaches beta = 1000 and every free cell is searched; the first
    search already beats the sentinel, so a free cell is always chosen.
  */
  method RootMovesAsWritten(board: seq<int>, player: int, depth: int, moves: seq<int>,
                            tt: Tt.Table, ghost o: Tt.Origin) returns (bestMove: int, bestScore: int)
    requires Grid.ValidBoard(board, Cells) && (player == 1 || player == -1)
    requires 1 <= depth <= 900 && moves == Grid.EmptyCells(board) && 0 in board
    requires Tt.AtOrigin(board, player, depth, o)
    requires InRange(tt.entries, o)
    modifies tt
    ensures 0 <= bestMove < |board| && board[bestMove] == 0
    ensures -100 - depth < bestScore < 100 + depth
  {
    bestMove, bestScore := -1, Floor;
    var alpha, beta := Floor, -Floor;
    Grid.EmptyCellsNonEmpty(board);
    var i := 0;
    while i < |moves| && alpha < beta
      invariant 0 <= i <= |moves|
      invariant InRange(tt.entries, o)
      invariant alpha == bestScore && alpha < beta
      invariant i == 0 ==> bestScore == Floor
      invariant i > 0 ==> 0 <= bestMove < |board| && board[bestMove] == 0 && -100 - depth < bestScore < 100 + depth
    {
      var move := moves[i];
      var score := SearchMoveAsWritten(board, player, depth, move, alpha, beta, tt, o);
      if score > bestScore {
        bestScore := score;
        bestMove := move;
      }
      alpha := Window.Max(alpha, score);
      i := i + 1;
    }
  }

  /** One row of dictionary.txt: a board string, the move to play and its score. */
  datatype BookRow = BookRow(board: string, move: int, score: int)

  /** The index of the first row of the book filed under key, if any. */
  function FirstMatch(book: seq<BookRow>, key: string): (r: Option<nat>)
    ensures r.None? <==> forall i :: 0 <= i < |book| ==> book[i].board != key
    ensures r.Some? ==> r.value < |book| && book[r.value].board == key
    ensures r.Some? ==> forall i :: 0 <= i < r.value ==> book[i].board != key
  {
    if book == [] then None
    else if book[0].board == key then Some(0)
    else match FirstMatch(book[1..], key)
      case None => None
      case Some(k) => Some(k + 1)
  }

  /**
    The book lookup in main: serialise the board as the cache key does and
    take the move and score of the first row with that string. found is
    false when no row matches; main then stops with an error and does not
    fall back to a search.
  */
  method BookMove(board: seq<int>, book: seq<BookRow>) returns (found: bool, move: int, score: int)
    requires Grid.ValidCells(board)
    ensures found <==> FirstMatch(book, Grid.Key(board)).Some?
    ensures found ==> var k := FirstMatch(book, Grid.Key(board)).value;
                      move == book[k].move && score == book[k].score
  {
    var boardStr := Grid.BoardString(board);
    found, move, score := false, 0, 0;
    var i := 0;
    while i < |book|
      invariant 0 <= i <= |book|
      invariant forall j :: 0 <= j < i ==> book[j].board != boardStr
    {
      if book[i].board == boardStr {
        move, score := book[i].move, book[i].score;
        found := true;
        break;
      }
      i := i + 1;
    }
  }
}
