/**
  The moveable 3x3 variant (3x3-moveable.cpp): each side keeps at most
  three stones, and a fourth placement removes that side's oldest stone.
  Negamax here has no table and no full-board test; it searches every
  child with a null window first and searches again when the score falls
  inside the window.
*/
module Moveable {
  import Grid
  import Window
  import Root
  import ThreeByThree

  /** The position after a placement: the board and the mover's cells. */
  datatype Placed = Placed(board: seq<int>, positions: seq<int>)

  /**
    Play m for p: put the stone down and append m to p's cells, oldest
    first; when p then holds four cells, clear the oldest and drop it.
  */
  function Place(b: seq<int>, pos: seq<int>, m: int, p: int): (r: Placed)
    requires 0 <= m < |b| && (|pos| == 3 ==> 0 <= pos[0] < |b|)
    ensures |r.board| == |b| && |r.positions| > 0 && r.positions[|r.positions| - 1] == m
    ensures |pos| != 3 ==> r.positions == pos + [m]
    ensures |pos| == 3 ==> r.positions == pos[1..] + [m]
  {
    var board, positions := b[m := p], pos + [m];
    if |positions| == 4 then Placed(board[positions[0] := 0], positions[1..])
    else Placed(board, positions)
  }

  /**
    The cells a side holds, oldest first: at most three, distinct, each
    holding that side's stone, and every stone of that side listed.
  */
  ghost predicate Owns(b: seq<int>, p: int, pos: seq<int>) {
    && |pos| <= 3
    && (forall i :: 0 <= i < |pos| ==> 0 <= pos[i] < |b| && b[pos[i]] == p)
    && (forall i, j :: 0 <= i < j < |pos| ==> pos[i] != pos[j])
    && (forall k :: 0 <= k < |b| && b[k] == p ==> k in pos)
  }

  /** What main keeps true between moves: a legal board whose stones are exactly the two lists. */
  ghost predicate Reachable(b: seq<int>, p: int, mine: seq<int>, theirs: seq<int>) {
    Grid.ValidBoard(b, 9) && (p == 1 || p == -1) && Owns(b, p, mine) && Owns(b, -p, theirs)
  }

  /** Placing on a free cell keeps both lists exact and the mover at three stones or fewer. */
  lemma PlaceOwns(b: seq<int>, p: int, mine: seq<int>, theirs: seq<int>, m: int)
    requires Reachable(b, p, mine, theirs) && 0 <= m < |b| && b[m] == 0
    ensures Reachable(Place(b, mine, m, p).board, -p, theirs, Place(b, mine, m, p).positions)
    ensures Place(b, mine, m, p).board[m] == p
  {
    PlaceCells(b, p, mine, m);
    PlaceMine(b, p, mine, m);
    PlaceTheirs(b, p, mine, theirs, m);
    assert -(-p) == p;
  }

  /** The placed cell holds p, and only the placed cell and the dropped cell change. */
  lemma PlaceCells(b: seq<int>, p: int, mine: seq<int>, m: int)
    requires Grid.ValidBoard(b, 9) && (p == 1 || p == -1) && Owns(b, p, mine) && 0 <= m < |b| && b[m] == 0
    ensures var r := Place(b, mine, m, p);
      && Grid.ValidBoard(r.board, 9) && r.board[m] == p
      && (|mine| == 3 ==> mine[0] != m && r.board == b[m := p][mine[0] := 0])
      && (|mine| != 3 ==> r.board == b[m := p])
  {
  }

  lemma PlaceMine(b: seq<int>, p: int, mine: seq<int>, m: int)
    requires Grid.ValidBoard(b, 9) && (p == 1 || p == -1) && Owns(b, p, mine) && 0 <= m < |b| && b[m] == 0
    ensures Owns(Place(b, mine, m, p).board, p, Place(b, mine, m, p).positions)
  {
    if |mine| == 3 {
      DropOldest(b, p, mine, m);
    } else {
      PlaceCells(b, p, mine, m);
      var r := Place(b, mine, m, p);
      forall k | 0 <= k < |r.board| && r.board[k] == p
        ensures k in r.positions
      {
        if k != m {
          assert k in mine;
        }
      }
    }
  }

  /** The fourth placement: the oldest cell is cleared and leaves the list. */
  lemma DropOldest(b: seq<int>, p: int, mine: seq<int>, m: int)
    requires Grid.ValidBoard(b, 9) && (p == 1 || p == -1) && Owns(b, p, mine) && 0 <= m < |b| && b[m] == 0
    requires |mine| == 3
    ensures Owns(Place(b, mine, m, p).board, p, Place(b, mine, m, p).positions)
  {
    PlaceCells(b, p, mine, m);
    var r := Place(b, mine, m, p);
    assert r.positions == [mine[1], mine[2], m];
    assert mine[1] != mine[0] && mine[2] != mine[0] && mine[1] != mine[2];
    forall k | 0 <= k < |r.board| && r.board[k] == p
      ensures k in r.positions
    {
      if k != m {
        assert k in mine && k != mine[0];
      }
    }
  }

  lemma PlaceTheirs(b: seq<int>, p: int, mine: seq<int>, theirs: seq<int>, m: int)
    requires Reachable(b, p, mine, theirs) && 0 <= m < |b| && b[m] == 0
    ensures Owns(Place(b, mine, m, p).board, -p, theirs)
  {
    PlaceCells(b, p, mine, m);
  }

  /** The set of a list's elements is no larger than the list. */
  lemma {:induction false} ElementsBound(pos: seq<int>)
    ensures |set x | x in pos| <= |pos|
  {
    if pos != [] {
      ElementsBound(pos[1..]);
      assert (set x | x in pos) == {pos[0]} + (set x | x in pos[1..]);
    }
  }

  /** The cell indices below n. */
  function Below(n: nat): set<int> {
    if n == 0 then {} else Below(n - 1) + {n - 1}
  }

  lemma {:induction false} BelowSize(n: nat)
    ensures |Below(n)| == n
    ensures forall k :: k in Below(n) <==> 0 <= k < n
  {
    if n > 0 {
      BelowSize(n - 1);
    }
  }

  lemma SubsetSize(a: set<int>, b: set<int>)
    requires a <= b
    ensures |a| <= |b|
  {
    assert b == a + (b - a);
  }

  /** With at most six stones on nine cells, the mover always has a free cell. */
  lemma MoveExists(b: seq<int>, p: int, mine: seq<int>, theirs: seq<int>)
    requires Reachable(b, p, mine, theirs)
    ensures 0 in b
  {
    if 0 !in b {
      var m, t := set x | x in mine, set x | x in theirs;
      var all := Below(9);
      BelowSize(9);
      forall k | k in all
        ensures k in m + t
      {
        assert b[k] != 0;
      }
      ElementsBound(mine);
      ElementsBound(theirs);
      assert |m + t| + |m * t| == |m| + |t|;
      SubsetSize(all, m + t);
      assert false;
    }
  }

  /**
    The game value negamax searches for: depth for a line of the side to
    move, -depth for a line of the opponent, 0 when depth runs out,
    otherwise the best negated value of a placement in cell order, starting
    from the -10000 sentinel.
  */
  function Value(b: seq<int>, mine: seq<int>, theirs: seq<int>, p: int, d: nat): int
    decreases d, 1
  {
    if ThreeByThree.Won(b, p) then d
    else if ThreeByThree.Won(b, -p) then -(d as int)
    else if d == 0 then 0
    else MaxChild(b, mine, theirs, p, d, Grid.EmptyCells(b), Root.Floor)
  }

  function MaxChild(b: seq<int>, mine: seq<int>, theirs: seq<int>, p: int, d: nat, moves: seq<int>, acc: int): int
    requires d >= 1
    decreases d, 0, |moves|
  {
    if moves == [] then acc
    else MaxChild(b, mine, theirs, p, d, moves[1..], Window.Max(acc, Score(b, mine, theirs, p, d, moves[0])))
  }

  /**
    The score of playing m, seen from the side that plays it; a placement
    whose cells lie off the board is never made and scores 0.
  */
  function Score(b: seq<int>, mine: seq<int>, theirs: seq<int>, p: int, d: nat, m: int): int
    requires d >= 1
    decreases d, 0, 0
  {
    if 0 <= m < |b| && (|mine| == 3 ==> 0 <= mine[0] < |b|) then
      var r := Place(b, mine, m, p);
      -Value(r.board, theirs, r.positions, -p, d - 1)
    else 0
  }

  lemma {:induction false} MaxChildAtLeast(b: seq<int>, mine: seq<int>, theirs: seq<int>, p: int, d: nat,
                                           moves: seq<int>, acc: int)
    requires d >= 1
    ensures MaxChild(b, mine, theirs, p, d, moves, acc) >= acc
    decreases |moves|
  {
    if moves != [] {
      MaxChildAtLeast(b, mine, theirs, p, d, moves[1..], Window.Max(acc, Score(b, mine, theirs, p, d, moves[0])));
    }
  }

  lemma MaxChildStep(b: seq<int>, mine: seq<int>, theirs: seq<int>, p: int, d: nat, moves: seq<int>, i: int, acc: int)
    requires d >= 1 && 0 <= i < |moves|
    ensures MaxChild(b, mine, theirs, p, d, moves[i..], acc)
         == MaxChild(b, mine, theirs, p, d, moves[i + 1..], Window.Max(acc, Score(b, mine, theirs, p, d, moves[i])))
  {
    assert moves[i..][1..] == moves[i + 1..];
  }

  /** On a reachable position the score never leaves [-depth, depth]. */
  lemma {:induction false} ValueBound(b: seq<int>, mine: seq<int>, theirs: seq<int>, p: int, d: nat)
    requires Reachable(b, p, mine, theirs)
    ensures -(d as int) <= Value(b, mine, theirs, p, d) <= d
    decreases d, 1
  {
    if !ThreeByThree.Won(b, p) && !ThreeByThree.Won(b, -p) && d > 0 {
      MoveExists(b, p, mine, theirs);
      Grid.EmptyCellsNonEmpty(b);
      MaxChildBound(b, mine, theirs, p, d, Grid.EmptyCells(b), Root.Floor);
    }
  }

  lemma {:induction false} MaxChildBound(b: seq<int>, mine: seq<int>, theirs: seq<int>, p: int, d: nat,
                                         moves: seq<int>, acc: int)
    requires d >= 1 && Reachable(b, p, mine, theirs)
    requires forall i :: 0 <= i < |moves| ==> 0 <= moves[i] < |b| && b[moves[i]] == 0
    requires acc <= d && (moves == [] ==> -(d as int) <= acc)
    ensures -(d as int) <= MaxChild(b, mine, theirs, p, d, moves, acc) <= d
    decreases d, 0, |moves|
  {
    if moves != [] {
      ScoreBound(b, mine, theirs, p, d, moves[0]);
      MaxChildBound(b, mine, theirs, p, d, moves[1..], Window.Max(acc, Score(b, mine, theirs, p, d, moves[0])));
    }
  }

  lemma {:induction false} ScoreBound(b: seq<int>, mine: seq<int>, theirs: seq<int>, p: int, d: nat, m: int)
    requires d >= 1 && Reachable(b, p, mine, theirs) && 0 <= m < |b| && b[m] == 0
    ensures -(d as int) < Score(b, mine, theirs, p, d, m) < d
    decreases d, 0, 0
  {
    PlaceOwns(b, p, mine, theirs, m);
    var r := Place(b, mine, m, p);
    ValueBound(r.board, theirs, r.positions, -p, d - 1);
  }

  /** Every cell index a list names lies on the board. */
  predicate OnBoard(pos: seq<int>, n: int) {
    forall i :: 0 <= i < |pos| ==> 0 <= pos[i] < n
  }

  /**
    negamax: terminal checks, then every free cell in order; each child is
    searched with the null window (-alpha-1, -alpha) and searched again
    with (-beta, -score) when the score lands strictly between alpha and
    beta; alpha rises with the scores and the loop stops once it reaches beta.
  */
  method Negamax(board: seq<int>, mine: seq<int>, theirs: seq<int>, player: int, depth: int,
                 alpha: int, beta: int) returns (result: int)
    requires Reachable(board, player, mine, theirs)
    requires 0 <= depth && alpha < beta
    ensures Window.FailSoft(result, alpha, beta, Value(board, mine, theirs, player, depth))
    ensures -depth <= result <= depth
    decreases depth, 1
  {
    ThreeByThree.LinesValid();
    var won := Grid.CheckWin(board, ThreeByThree.Lines, player);
    if won {
      return depth;
    }
    won := Grid.CheckWin(board, ThreeByThree.Lines, -player);
    if won {
      return -depth;
    }
    if depth == 0 {
      return 0;
    }
    result := Children(board, mine, theirs, player, depth, alpha, beta);
  }

  /** The move loop of negamax on a board neither side has won. */
  method Children(board: seq<int>, mine: seq<int>, theirs: seq<int>, player: int, depth: int,
                  alpha: int, beta: int) returns (bestScore: int)
    requires Reachable(board, player, mine, theirs)
    requires 1 <= depth && alpha < beta
    requires !ThreeByThree.Won(board, player) && !ThreeByThree.Won(board, -player)
    ensures Window.FailSoft(bestScore, alpha, beta, Value(board, mine, theirs, player, depth))
    ensures -depth < bestScore < depth
    decreases depth, 0, 1
  {
    ghost var v := Value(board, mine, theirs, player, depth);
    var a := alpha;
    bestScore := Root.Floor;
    var moves := Grid.PossibleMoves(board);
    assert v == MaxChild(board, mine, theirs, player, depth, moves, Root.Floor);
    ghost var top := Root.Floor;
    MoveExists(board, player, mine, theirs);
    Grid.EmptyCellsNonEmpty(board);
    var i := 0;
    while i < |moves|
      invariant 0 <= i <= |moves|
      invariant Window.Scan(alpha, a, bestScore, top) && a < beta
      invariant MaxChild(board, mine, theirs, player, depth, moves[i..], top) == v
      invariant i == 0 ==> bestScore == Root.Floor
      invariant i > 0 ==> -depth < bestScore < depth
    {
      var move := moves[i];
      var score := SearchMove(board, mine, theirs, player, depth, move, a, beta);
      ghost var w := Score(board, mine, theirs, player, depth, move);
      Window.ScanStep(alpha, a, beta, bestScore, top, score, w);
      MaxChildStep(board, mine, theirs, player, depth, moves, i, top);
      top := Window.Max(top, w);
      bestScore := Window.Max(bestScore, score);
      a := Window.Max(a, score);
      if a >= beta {
        MaxChildAtLeast(board, mine, theirs, player, depth, moves[i + 1..], top);
        return;
      }
      i := i + 1;
    }
    Window.ScanDone(alpha, a, beta, bestScore, top);
  }

  /**
    One iteration's search of a move: place it (dropping the oldest stone
    at four), run the null-window search, re-search inside the window, and
    restore the board and the list.
  */
  method SearchMove(board: seq<int>, mine: seq<int>, theirs: seq<int>, player: int, depth: int,
                    move: int, alpha: int, beta: int) returns (score: int)
    requires Reachable(board, player, mine, theirs)
    requires 1 <= depth && alpha < beta && 0 <= move < 9 && board[move] == 0
    ensures Window.FailSoft(score, alpha, beta, Score(board, mine, theirs, player, depth, move))
    ensures -depth < score < depth
    decreases depth, 0, 0
  {
    var gameboard, positions := MakeMove(board, mine, move, player);
    PlaceOwns(board, player, mine, theirs, move);
    ghost var w := Value(gameboard, theirs, positions, -player, depth - 1);
    var s1 := Negamax(gameboard, theirs, positions, -player, depth - 1, -alpha - 1, -alpha);
    var researched := alpha < -s1 < beta;
    var s2 := -s1;
    if researched {
      s2 := Negamax(gameboard, theirs, positions, -player, depth - 1, -beta, s1);
      s2 := -s2;
    }
    Window.Principal(alpha, beta, -s1, s2, -w, researched);
    score := if researched then s2 else -s1;
  }

  /**
    The make-move block shared by negamax and solve, on copies of the board
    and of the mover's list.
  */
  method MakeMove(board: seq<int>, mine: seq<int>, move: int, player: int) returns (gameboard: seq<int>, positions: seq<int>)
    requires 0 <= move < |board| && OnBoard(mine, |board|)
    ensures Placed(gameboard, positions) == Place(board, mine, move, player)
    ensures OnBoard(positions, |board|)
  {
    gameboard := board[move := player];
    positions := mine + [move];
    if |positions| == 4 {
      gameboard := gameboard[positions[0] := 0];
      positions := positions[1..];
    }
  }

  /** One root iteration of solve: make the move, search it once, restore. */
  method RootMove(board: seq<int>, mine: seq<int>, theirs: seq<int>, player: int, depth: int,
                  move: int, alpha: int, beta: int) returns (score: int)
    requires Reachable(board, player, mine, theirs)
    requires 1 <= depth && alpha < beta && 0 <= move < 9 && board[move] == 0
    ensures Window.FailSoft(score, alpha, beta, Score(board, mine, theirs, player, depth, move))
    ensures -depth < score < depth
  {
    var gameboard, positions := MakeMove(board, mine, move, player);
    PlaceOwns(board, player, mine, theirs, move);
    var s := Negamax(gameboard, theirs, positions, -player, depth - 1, -beta, -alpha);
    Window.Negated(s, alpha, beta, Value(gameboard, theirs, positions, -player, depth - 1));
    score := -s;
  }

  /** The score solve sees for each root move. */
  function MoveScores(b: seq<int>, mine: seq<int>, theirs: seq<int>, p: int, d: nat): int -> int
    requires d >= 1
  {
    m => Score(b, mine, theirs, p, d, m)
  }

  /**
    On a reachable position the move solve settles on is a free cell,
    carries that cell's score, no free cell scores more, and every free
    cell before it scores less.
  */
  lemma BestMove(board: seq<int>, mine: seq<int>, theirs: seq<int>, player: int, depth: int)
    requires Reachable(board, player, mine, theirs) && 1 <= depth <= 10000
    ensures var c := Root.Best(Grid.EmptyCells(board), MoveScores(board, mine, theirs, player, depth), Root.Floor);
      && 0 <= c.move < |board| && board[c.move] == 0
      && c.score == Score(board, mine, theirs, player, depth, c.move)
      && (forall m :: 0 <= m < |board| && board[m] == 0 ==> Score(board, mine, theirs, player, depth, m) <= c.score)
      && (forall m :: 0 <= m < c.move && board[m] == 0 ==> Score(board, mine, theirs, player, depth, m) < c.score)
  {
    var moves, f := Grid.EmptyCells(board), MoveScores(board, mine, theirs, player, depth);
    forall m | m in moves
      ensures f(m) > Root.Floor
    {
      ScoreBound(board, mine, theirs, player, depth, m);
    }
    MoveExists(board, player, mine, theirs);
    Grid.EmptyCellsNonEmpty(board);
    Grid.EmptyCellsAscending(board);
    Root.BestIsArgmax(moves, f, Root.Floor);
  }

  /**
    solve: every free cell in order, each searched once with (-beta, -alpha)
    where alpha rises to the best score so far, and the first move of
    highest score. main keeps the two lists exact and searches 20 plies.
  */
  method Solve(board: seq<int>, mine: seq<int>, theirs: seq<int>, player: int, depth: int)
    returns (bestMove: int, bestScore: int)
    requires Reachable(board, player, mine, theirs) && 1 <= depth <= 10000
    ensures Root.Choice(bestMove, bestScore) == Root.Best(Grid.EmptyCells(board), MoveScores(board, mine, theirs, player, depth), Root.Floor)
    ensures 0 <= bestMove < |board| && board[bestMove] == 0
    ensures bestScore == Score(board, mine, theirs, player, depth, bestMove)
    ensures forall m :: 0 <= m < |board| && board[m] == 0 ==> Score(board, mine, theirs, player, depth, m) <= bestScore
    ensures forall m :: 0 <= m < bestMove && board[m] == 0 ==> Score(board, mine, theirs, player, depth, m) < bestScore
  {
    var moves := Grid.PossibleMoves(board);
    bestMove, bestScore := RootMoves(board, mine, theirs, player, depth, moves);
    BestMove(board, mine, theirs, player, depth);
  }

  /**
    The move loop of solve: alpha stays equal to the best score, so a move
    that fails low cannot replace the best and one that beats it is scored
    exactly; the root never cuts off.
  */
  method RootMoves(board: seq<int>, mine: seq<int>, theirs: seq<int>, player: int, depth: int,
                   moves: seq<int>) returns (bestMove: int, bestScore: int)
    requires Reachable(board, player, mine, theirs) && 1 <= depth <= 10000
    requires moves == Grid.EmptyCells(board)
    ensures Root.Choice(bestMove, bestScore) == Root.Best(moves, MoveScores(board, mine, theirs, player, depth), Root.Floor)
  {
    bestMove, bestScore := -1, Root.Floor;
    var alpha, beta := Root.Floor, -Root.Floor;
    ghost var f := MoveScores(board, mine, theirs, player, depth);
    var i := 0;
    while i < |moves|
      invariant 0 <= i <= |moves|
      invariant alpha == bestScore && Root.Floor <= bestScore < -Root.Floor
      invariant Root.Pick(moves[i..], f, Root.Choice(bestMove, bestScore)) == Root.Best(moves, f, Root.Floor)
    {
      var move := moves[i];
      var score := RootMove(board, mine, theirs, player, depth, move, alpha, beta);
      ScoreBound(board, mine, theirs, player, depth, move);
      Root.RaisedAlpha(Root.Choice(bestMove, bestScore), move, score, f(move), beta);
      Root.PickStep(moves, f, i, Root.Choice(bestMove, bestScore));
      if score > bestScore {
        bestScore := score;
        bestMove := move;
      }
      alpha := Window.Max(alpha, score);
      i := i + 1;
    }
  }
}
