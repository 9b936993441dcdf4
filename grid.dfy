/**
  The board model shared by the four solvers. A board is the sequence of its
  cells in index order; a cell is -1 (the player who moves second in the
  game loop, drawn 'X'), 1 (drawn 'O') or 0 (empty). A player is one of the
  two signs; its opponent is the negated sign.
*/
module Grid {
  import opened Wrappers

  /** Every cell holds -1, 0 or 1. */
  predicate ValidCells(b: seq<int>) {
    forall i :: 0 <= i < |b| ==> -1 <= b[i] <= 1
  }

  predicate ValidBoard(b: seq<int>, n: nat) {
    |b| == n && ValidCells(b)
  }

  /** Every index named by a line of the win table is a cell of an n-cell board. */
  predicate ValidLines(lines: seq<seq<int>>, n: nat) {
    forall i, j :: 0 <= i < |lines| && 0 <= j < |lines[i]| ==> 0 <= lines[i][j] < n
  }

  /** Every cell of the line belongs to player p. */
  predicate LineOwned(b: seq<int>, line: seq<int>, p: int) {
    forall j :: 0 <= j < |line| ==> 0 <= line[j] < |b| && b[line[j]] == p
  }

  /** Some line of the win table belongs entirely to p. */
  predicate HasLine(b: seq<int>, lines: seq<seq<int>>, p: int) {
    exists i :: 0 <= i < |lines| && LineOwned(b, lines[i], p)
  }

  /** check_win: scans the win table and stops at the first line p owns. */
  method CheckWin(b: seq<int>, lines: seq<seq<int>>, p: int) returns (won: bool)
    requires ValidLines(lines, |b|)
    ensures won <==> exists i :: 0 <= i < |lines| && LineOwned(b, lines[i], p)
  {
    var k := 0;
    while k < |lines|
      invariant 0 <= k <= |lines|
      invariant forall i :: 0 <= i < k ==> !LineOwned(b, lines[i], p)
    {
      var line := lines[k];
      var all := true;
      var j := 0;
      while j < |line|
        invariant 0 <= j <= |line|
        invariant all <==> forall t :: 0 <= t < j ==> b[line[t]] == p
      {
        all := all && b[line[j]] == p;
        j := j + 1;
      }
      if all {
        return true;
      }
      k := k + 1;
    }
    return false;
  }

  /** The empty cells of b whose index is below n, in ascending order. */
  function EmptyBelow(b: seq<int>, n: nat): (r: seq<int>)
    requires n <= |b|
    ensures forall m :: m in r <==> 0 <= m < n && b[m] == 0
    ensures forall i :: 0 <= i < |r| ==> 0 <= r[i] < n
  {
    if n == 0 then []
    else EmptyBelow(b, n - 1) + (if b[n - 1] == 0 then [n - 1] else [])
  }

  lemma {:induction false} EmptyBelowAscending(b: seq<int>, n: nat)
    requires n <= |b|
    ensures forall i, j :: 0 <= i < j < |EmptyBelow(b, n)| ==> EmptyBelow(b, n)[i] < EmptyBelow(b, n)[j]
  {
    if n > 0 {
      EmptyBelowAscending(b, n - 1);
    }
  }

  /** The legal moves of a board: every empty cell. */
  function EmptyCells(b: seq<int>): (r: seq<int>)
    ensures forall m :: m in r <==> 0 <= m < |b| && b[m] == 0
    ensures forall i :: 0 <= i < |r| ==> 0 <= r[i] < |b|
  {
    EmptyBelow(b, |b|)
  }

  /** The legal moves come in ascending index order. */
  lemma EmptyCellsAscending(b: seq<int>)
    ensures forall i, j :: 0 <= i < j < |EmptyCells(b)| ==> EmptyCells(b)[i] < EmptyCells(b)[j]
  {
    EmptyBelowAscending(b, |b|);
  }

  /** get_possible_moves: pushes each empty index in turn. */
  method PossibleMoves(b: seq<int>) returns (moves: seq<int>)
    ensures moves == EmptyCells(b)
    ensures forall m :: m in moves <==> 0 <= m < |b| && b[m] == 0
  {
    moves := [];
    for i := 0 to |b|
      invariant moves == EmptyBelow(b, i)
    {
      if b[i] == 0 {
        moves := moves + [i];
      }
    }
  }

  /** A board with an empty cell has a legal move. */
  lemma EmptyCellsNonEmpty(b: seq<int>)
    requires 0 in b
    ensures EmptyCells(b) != []
  {
    var m :| 0 <= m < |b| && b[m] == 0;
    assert m in EmptyCells(b);
  }

  /** The number of stones on the board. */
  function Stones(b: seq<int>): int {
    |b| - |EmptyCells(b)|
  }

  lemma {:induction false} EmptyBelowPlace(b: seq<int>, m: int, p: int, n: nat)
    requires 0 <= m < |b| && b[m] == 0 && p != 0 && n <= |b|
    ensures n <= m ==> |EmptyBelow(b[m := p], n)| == |EmptyBelow(b, n)|
    ensures m < n ==> |EmptyBelow(b[m := p], n)| == |EmptyBelow(b, n)| - 1
  {
    if n > 0 {
      EmptyBelowPlace(b, m, p, n - 1);
    }
  }

  /** Clearing the cell just played restores the board. */
  lemma UndoPlace(b: seq<int>, m: int, p: int)
    requires 0 <= m < |b| && b[m] == 0
    ensures b[m := p][m := 0] == b
  {
  }

  /** Placing a stone on an empty cell adds exactly one stone. */
  lemma StonesPlace(b: seq<int>, m: int, p: int)
    requires 0 <= m < |b| && b[m] == 0 && p != 0
    ensures Stones(b[m := p]) == Stones(b) + 1
  {
    EmptyBelowPlace(b, m, p, |b|);
  }

  /** to_string of a cell value. */
  function CellText(c: int): string
    requires -1 <= c <= 1
  {
    if c == -1 then "-1" else if c == 0 then "0" else "1"
  }

  /** The cache key: each cell's text, in index order, without separators. */
  function Key(b: seq<int>): string
    requires ValidCells(b)
  {
    if b == [] then "" else CellText(b[0]) + Key(b[1..])
  }

  lemma {:induction false} KeyAppend(b: seq<int>, c: int)
    requires ValidCells(b) && -1 <= c <= 1
    ensures Key(b + [c]) == Key(b) + CellText(c)
  {
    if b == [] {
      assert b + [c] == [c];
    } else {
      assert (b + [c])[1..] == b[1..] + [c];
      KeyAppend(b[1..], c);
    }
  }

  /** The loop in negamax that builds board_str. */
  method BoardString(b: seq<int>) returns (s: string)
    requires ValidCells(b)
    ensures s == Key(b)
  {
    s := "";
    for i := 0 to |b|
      invariant s == Key(b[..i])
    {
      KeyAppend(b[..i], b[i]);
      assert b[..i + 1] == b[..i] + [b[i]];
      s := s + CellText(b[i]);
    }
    assert b[..|b|] == b;
  }

  /** Reads a key back into the board it was made from. */
  function Decode(s: string): Option<seq<int>>
  {
    if s == [] then Some([])
    else if s[0] == '0' || s[0] == '1' then
      match Decode(s[1..])
      case Some(rest) => Some([if s[0] == '0' then 0 else 1] + rest)
      case None => None
    else if s[0] == '-' && |s| >= 2 && s[1] == '1' then
      match Decode(s[2..])
      case Some(rest) => Some([-1] + rest)
      case None => None
    else None
  }

  /** Decoding a key gives back the board: serialisation loses nothing. */
  lemma {:induction false} DecodeKey(b: seq<int>)
    requires ValidCells(b)
    ensures Decode(Key(b)) == Some(b)
  {
    if b != [] {
      var rest := Key(b[1..]);
      DecodeKey(b[1..]);
      if b[0] == -1 {
        assert Key(b) == "-1" + rest;
        assert Key(b)[2..] == rest;
      } else {
        assert Key(b)[1..] == rest;
      }
      assert b == [b[0]] + b[1..];
    }
  }

  /** Distinct boards never share a cache key. */
  lemma KeyInjective(b1: seq<int>, b2: seq<int>)
    requires ValidCells(b1) && ValidCells(b2)
    ensures Key(b1) == Key(b2) ==> b1 == b2
  {
    DecodeKey(b1);
    DecodeKey(b2);
  }
}
