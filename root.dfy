/**
  The root loop of solve: walk the legal moves in order and keep the first
  move whose score is strictly greater than every score before it.
*/
module Root {
  import Window

  /** The sentinel that best_score starts from in solve of 3x3.cpp,
      3x3-moveable.cpp and 5x5.cpp; 4x4.cpp starts from -1000. */
  const Floor: int := -10000

  datatype Choice = Choice(move: int, score: int)

  /** The running (best_move, best_score) after the given moves, starting from acc. */
  function Pick(moves: seq<int>, score: int -> int, acc: Choice): Choice {
    if moves == [] then acc
    else Pick(moves[1..], score, if score(moves[0]) > acc.score then Choice(moves[0], score(moves[0])) else acc)
  }

  /** The choice of solve after all root moves, starting from the sentinel
      score floor; -1 stands for best_move before any assignment. */
  function Best(moves: seq<int>, score: int -> int, floor: int): Choice {
    Pick(moves, score, Choice(-1, floor))
  }

  /** One iteration of the root loop. */
  lemma PickStep(moves: seq<int>, score: int -> int, i: int, acc: Choice)
    requires 0 <= i < |moves|
    ensures Pick(moves[i..], score, acc)
         == Pick(moves[i + 1..], score, if score(moves[i]) > acc.score then Choice(moves[i], score(moves[i])) else acc)
  {
    assert moves[i..][1..] == moves[i + 1..];
  }

  /**
    A root that searches each move with alpha raised to the best score so
    far takes the same choice as one that knows the exact score: a move that
    beats the best is searched inside the window and scored exactly, and
    any other fails low at or below the best.
  */
  lemma RaisedAlpha(acc: Choice, move: int, score: int, w: int, beta: int)
    requires acc.score < beta && w < beta
    requires Window.FailSoft(score, acc.score, beta, w)
    ensures (if score > acc.score then Choice(move, score) else acc)
         == (if w > acc.score then Choice(move, w) else acc)
  {
  }

  lemma {:induction false} PickArgmax(moves: seq<int>, score: int -> int, acc: Choice)
    ensures var c := Pick(moves, score, acc);
      && acc.score <= c.score
      && (forall i :: 0 <= i < |moves| ==> score(moves[i]) <= c.score)
      && (c == acc || exists k :: 0 <= k < |moves| && c == Choice(moves[k], score(moves[k]))
                                 && acc.score < c.score
                                 && forall i :: 0 <= i < k ==> score(moves[i]) < c.score)
  {
    if moves != [] {
      var next := if score(moves[0]) > acc.score then Choice(moves[0], score(moves[0])) else acc;
      PickArgmax(moves[1..], score, next);
      var c := Pick(moves, score, acc);
      assert c == Pick(moves[1..], score, next);
      if c != acc {
        if c == next {
          assert c == Choice(moves[0], score(moves[0]));
        } else {
          var k :| 0 <= k < |moves[1..]| && c == Choice(moves[1..][k], score(moves[1..][k]))
                   && next.score < c.score
                   && forall i :: 0 <= i < k ==> score(moves[1..][i]) < c.score;
          assert c == Choice(moves[k + 1], score(moves[k + 1]));
          forall i | 0 <= i < k + 1
            ensures score(moves[i]) < c.score
          {
            if i > 0 {
              assert moves[i] == moves[1..][i - 1];
            }
          }
        }
      }
    }
  }

  /**
    With at least one move (in ascending order, as the legal-move list is)
    and every score above the sentinel, the choice is a move of the list,
    its score is that move's score, no move scores more, and every smaller
    move scores strictly less: ties go to the lowest index.
  */
  lemma BestIsArgmax(moves: seq<int>, score: int -> int, floor: int)
    requires moves != []
    requires forall i, j :: 0 <= i < j < |moves| ==> moves[i] < moves[j]
    requires forall i :: 0 <= i < |moves| ==> score(moves[i]) > floor
    ensures var c := Best(moves, score, floor);
      && c.move in moves
      && c.score == score(c.move)
      && (forall m :: m in moves ==> score(m) <= c.score)
      && (forall m :: m in moves && m < c.move ==> score(m) < c.score)
  {
    var c := Best(moves, score, floor);
    PickArgmax(moves, score, Choice(-1, floor));
    assert score(moves[0]) <= c.score;
    assert c != Choice(-1, floor);
    var k :| 0 <= k < |moves| && c == Choice(moves[k], score(moves[k]))
             && forall i :: 0 <= i < k ==> score(moves[i]) < c.score;
    forall m | m in moves && m < c.move
      ensures score(m) < c.score
    {
      var j :| 0 <= j < |moves| && moves[j] == m;
      assert j < k;
    }
  }
}
