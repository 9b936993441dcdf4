/**
  Facts about fail-soft alpha-beta windows shared by every negamax in the
  model. A search of a position whose true value is v, started with the
  window (alpha, beta), returns r such that FailSoft(r, alpha, beta, v):
  a result at or below alpha is an upper bound on v, a result at or above
  beta is a lower bound, and a result strictly inside the window is v.
*/
module Window {

  function Max(a: int, b: int): int {
    if a >= b then a else b
  }

  predicate FailSoft(r: int, alpha: int, beta: int, v: int) {
    && (r <= alpha ==> v <= r)
    && (r >= beta ==> v >= r)
    && (alpha < r < beta ==> v == r)
  }

  /** A child searched with the negated window (-beta, -alpha) yields, once
      negated, a fail-soft result for the parent's window. */
  lemma Negated(r: int, alpha: int, beta: int, v: int)
    requires FailSoft(r, -beta, -alpha, v)
    ensures FailSoft(-r, alpha, beta, -v)
  {
  }

  /**
    The state of the move loop of a fail-soft negamax after some children:
    best is the largest score seen, top the largest true child value seen,
    alpha0 the window's lower edge when the loop started and alpha the
    running lower edge. top never exceeds best, and once best has risen
    above alpha0 it is exact.
  */
  predicate Scan(alpha0: int, alpha: int, best: int, top: int) {
    && top <= best
    && (best > alpha0 ==> top == best)
    && alpha0 <= alpha <= Max(alpha0, best)
  }

  /** One child more: its score s is fail-soft for the running window and
      w is its true value. The loop either continues in a Scan state or
      cuts off with a score that is a lower bound. */
  lemma ScanStep(alpha0: int, alpha: int, beta: int, best: int, top: int, s: int, w: int)
    requires Scan(alpha0, alpha, best, top) && alpha < beta
    requires FailSoft(s, alpha, beta, w)
    ensures Max(alpha, s) < beta ==> Scan(alpha0, Max(alpha, s), Max(best, s), Max(top, w))
    ensures Max(alpha, s) >= beta ==> beta <= Max(best, s) <= Max(top, w)
  {
  }

  /** When every child has been searched, the best score is fail-soft for
      the value of the position, the maximum of its children. */
  lemma ScanDone(alpha0: int, alpha: int, beta: int, best: int, top: int)
    requires Scan(alpha0, alpha, best, top) && alpha0 < beta
    ensures FailSoft(best, alpha0, beta, top)
  {
  }

  /** A null-window probe (-alpha-1, -alpha) of a child splits its negated
      score into an upper bound (fail low) or a lower bound (fail high). */
  lemma NullWindow(alpha: int, s: int, w: int)
    requires FailSoft(-s, -alpha - 1, -alpha, -w)
    ensures s <= alpha ==> w <= s
    ensures s > alpha ==> w >= s
  {
  }

  /** Principal-variation search of one child: the null-window score, and
      when it lands strictly inside (alpha, beta) the re-search with
      (-beta, -s1), together give a fail-soft score for (alpha, beta). */
  lemma Principal(alpha: int, beta: int, s1: int, s2: int, w: int, researched: bool)
    requires alpha < beta
    requires FailSoft(-s1, -alpha - 1, -alpha, -w)
    requires researched <==> alpha < s1 < beta
    requires researched ==> FailSoft(-s2, -beta, -s1, -w)
    ensures FailSoft(if researched then s2 else s1, alpha, beta, w)
  {
    NullWindow(alpha, s1, w);
  }

  /**
    A transposition-table probe narrows (alpha, beta) to (a, b): a rises only
    to a proven lower bound of v and b falls only to a proven upper bound.
    A result that is fail-soft for the narrowed window is then fail-soft for
    (alpha, b) — the window the table entry is classified against — and for
    the caller's (alpha, beta).
  */
  lemma Widen(r: int, alpha: int, beta: int, a: int, b: int, v: int)
    requires alpha <= a && b <= beta
    requires a == alpha || a <= v
    requires b == beta || v <= b
    requires FailSoft(r, a, b, v)
    ensures FailSoft(r, alpha, b, v)
    ensures FailSoft(r, alpha, beta, v)
  {
  }
}
