/**
  The transposition table shared by 3x3.cpp, 4x4.cpp and 5x5.cpp: the entry
  written after a search, the bound type it carries, the depth-checked probe
  of 3x3.cpp and 5x5.cpp, and the unbounded overwrite-only table of 3x3.cpp
  and 4x4.cpp.
*/
module Tt {
  import Grid
  import Window

  /** Bound types as the source encodes them. */
  const Exact: int := 0
  const Lower: int := -1
  const Upper: int := 1

  /** [best_score, depth, flag] of one cached board. */
  datatype Entry = Entry(score: int, depth: int, flag: int)

  /**
    The classification in store: a score at or below the window's original
    lower edge failed low and is an upper bound, a score at or above beta
    failed high and is a lower bound, anything else is exact.
  */
  function Classify(alphaOrg: int, beta: int, score: int): (flag: int)
    ensures flag == Upper <==> score <= alphaOrg
    ensures flag == Lower <==> alphaOrg < score && beta <= score
    ensures flag == Exact <==> alphaOrg < score < beta
  {
    if score <= alphaOrg then Upper else if score >= beta then Lower else Exact
  }

  /** What an entry claims about the true value v of its board. */
  predicate Sound(e: Entry, v: int) {
    && (e.flag == Exact || e.flag == Lower || e.flag == Upper)
    && (e.flag == Exact ==> e.score == v)
    && (e.flag == Lower ==> v >= e.score)
    && (e.flag == Upper ==> v <= e.score)
  }

  /** Storing a fail-soft result under its classification makes a sound entry. */
  lemma ClassifySound(alphaOrg: int, beta: int, score: int, depth: int, v: int)
    requires Window.FailSoft(score, alphaOrg, beta, v)
    ensures Sound(Entry(score, depth, Classify(alphaOrg, beta, score)), v)
  {
  }

  /** The outcome of the probe at the top of negamax: a cutoff with a score,
      or a search with a (possibly narrowed) window. */
  datatype Probe = Cut(score: int) | Search(alpha: int, beta: int)

  /**
    The probe of 3x3.cpp and 5x5.cpp: an entry counts only when it was stored
    at least as deep as the current request. An exact entry answers at once;
    a lower bound raises alpha, an upper bound lowers beta, and a window left
    empty answers with the stored score.
  */
  function ProbeEntry(e: Entry, depth: int, alpha: int, beta: int): (r: Probe)
    ensures e.depth < depth ==> r == Search(alpha, beta)
    ensures r.Cut? ==> r.score == e.score && e.depth >= depth
    ensures r.Search? ==> alpha <= r.alpha && r.beta <= beta
    ensures r.Search? && e.depth >= depth ==> r.alpha < r.beta
    ensures e.depth >= depth && e.flag == Exact ==> r == Cut(e.score)
  {
    if e.depth >= depth then
      if e.flag == Exact then Cut(e.score)
      else
        var a := if e.flag == Lower then Window.Max(alpha, e.score) else alpha;
        var b := if e.flag == Upper then (if beta <= e.score then beta else e.score) else beta;
        if a >= b then Cut(e.score) else Search(a, b)
    else Search(alpha, beta)
  }

  /**
    A sound entry makes the probe safe: a cutoff is a fail-soft answer for
    the caller's window, and a narrowed edge is a proven bound of v.
  */
  lemma ProbeSound(e: Entry, depth: int, alpha: int, beta: int, v: int)
    requires alpha < beta
    requires e.depth >= depth ==> Sound(e, v)
    ensures ProbeEntry(e, depth, alpha, beta).Cut? ==>
              Window.FailSoft(ProbeEntry(e, depth, alpha, beta).score, alpha, beta, v)
    ensures ProbeEntry(e, depth, alpha, beta).Search? ==>
              var r := ProbeEntry(e, depth, alpha, beta);
              (r.alpha == alpha || r.alpha <= v) && (r.beta == beta || v <= r.beta)
  {
  }

  /**
    The root of one solve call. Every board reached from the root is searched
    at one depth and with one side to move, both fixed by its stone count:
    depth + stones == horizon, and the side to move flips with each stone.
  */
  datatype Origin = Origin(horizon: int, rootStones: int, rootPlayer: int)

  function SideToMove(o: Origin, stones: int): int {
    if (stones - o.rootStones) % 2 == 0 then o.rootPlayer else -o.rootPlayer
  }

  /** Board b is searched with side p to move and the given depth, as the root fixes. */
  predicate AtOrigin(b: seq<int>, p: int, depth: int, o: Origin) {
    depth + Grid.Stones(b) == o.horizon && p == SideToMove(o, Grid.Stones(b))
  }

  /** The children searched by negamax stay on the same origin. */
  lemma ChildAtOrigin(b: seq<int>, p: int, depth: int, o: Origin, m: int)
    requires AtOrigin(b, p, depth, o)
    requires 0 <= m < |b| && b[m] == 0 && p != 0
    ensures AtOrigin(b[m := p], -p, depth - 1, o)
  {
    Grid.StonesPlace(b, m, p);
  }

  /** The table of 3x3.cpp and 4x4.cpp: a map from board key to entry that
      store overwrites without a capacity limit. */
  class Table {
    var entries: map<string, Entry>

    constructor ()
      ensures entries == map[]
    {
      entries := map[];
    }

    /** store: classify, then overwrite unconditionally. */
    method Store(key: string, alphaOrg: int, beta: int, score: int, depth: int)
      modifies this
      ensures entries == old(entries)[key := Entry(score, depth, Classify(alphaOrg, beta, score))]
    {
      var flag := Classify(alphaOrg, beta, score);
      entries := entries[key := Entry(score, depth, flag)];
    }
  }
}
