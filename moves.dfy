/** Move generation: the eight knight offsets in their fixed order, and the
    filter that keeps the ones that land on an open square of the board. */
module Moves {
  import opened Chessboard

  function Abs(x: int): nat {
    if x < 0 then -x else x
  }

  /** `to` is one knight's move from `from`: one coordinate changes by 1 and
      the other by 2. */
  predicate IsKnightMove(from: Point, to: Point) {
    var dr, dc := Abs(to.0 - from.0), Abs(to.1 - from.1);
    (dr == 1 && dc == 2) || (dr == 2 && dc == 1)
  }

  /** `knight_moves`: the eight targets, regardless of the board's edges,
      in the order the search tries them. */
  function KnightMoves(from: Point): (r: seq<Point>)
    ensures |r| == 8
    ensures forall i :: 0 <= i < |r| ==> IsKnightMove(from, r[i])
    ensures forall i, j :: 0 <= i < j < |r| ==> r[i] != r[j]
  {
    var (x, y) := from;
    [ (x + 1, y + 2), (x + 2, y + 1), (x + 2, y - 1), (x + 1, y - 2),
      (x - 1, y - 2), (x - 2, y - 1), (x - 2, y + 1), (x - 1, y + 2) ]
  }

  /** The list is complete: every knight's move from `from` is on it. */
  lemma KnightMovesComplete(from: Point, to: Point)
    ensures to in KnightMoves(from) <==> IsKnightMove(from, to)
  {
  }

  /** `a` is `b` with some elements dropped and the rest kept in order. */
  predicate IsSubsequence<T(==)>(a: seq<T>, b: seq<T>)
    decreases |b|
  {
    if a == [] then true
    else if b == [] then false
    else if a[0] == b[0] then IsSubsequence(a[1..], b[1..])
    else IsSubsequence(a, b[1..])
  }

  /** A target survives the filter: on the board and not yet visited. The
      bounds tests come first, so the board is only consulted in range. */
  predicate Legal(g: Grid, m: Point)
    requires IsSquare(g)
    ensures Legal(g, m) <==> m in Unvisited(g)
  {
    InBounds(|g|, m) && !IsVisited(g, m)
  }

  /** The `filter` of `allowed_moves`, applied to any list of targets. */
  function KeepLegal(g: Grid, ms: seq<Point>): (r: seq<Point>)
    requires IsSquare(g)
    ensures |r| <= |ms|
    ensures forall m :: m in r <==> m in ms && Legal(g, m)
    ensures IsSubsequence(r, ms)
  {
    if ms == [] then []
    else if Legal(g, ms[0]) then [ms[0]] + KeepLegal(g, ms[1..])
    else KeepLegal(g, ms[1..])
  }

  /** The filter keeps every legal target as many times as the input holds it,
      and drops every other target. */
  lemma {:induction false} KeepLegalCounts(g: Grid, ms: seq<Point>)
    requires IsSquare(g)
    ensures forall m :: multiset(KeepLegal(g, ms))[m] == if Legal(g, m) then multiset(ms)[m] else 0
  {
    if ms != [] {
      KeepLegalCounts(g, ms[1..]);
      assert ms == [ms[0]] + ms[1..];
    }
  }

  /** A list with no legal target filters to nothing (a corollary of the
      membership clause of `KeepLegal`'s contract, proved here by induction
      on the list). */
  lemma {:induction false} KeepLegalNone(g: Grid, ms: seq<Point>)
    requires IsSquare(g)
    requires forall m :: m in ms ==> !Legal(g, m)
    ensures KeepLegal(g, ms) == []
  {
    if ms != [] {
      KeepLegalNone(g, ms[1..]);
    }
  }

  /** `allowed_moves`: in `knight_moves` order, exactly the knight's moves from
      `from` that land on an open square of the board. */
  function AllowedMoves(g: Grid, from: Point): (r: seq<Point>)
    requires IsSquare(g)
    ensures |r| <= 8
    ensures forall m :: m in r <==> IsKnightMove(from, m) && Legal(g, m)
    ensures IsSubsequence(r, KnightMoves(from))
  {
    var r := KeepLegal(g, KnightMoves(from));
    forall m ensures m in r <==> IsKnightMove(from, m) && Legal(g, m) {
      KnightMovesComplete(from, m);
    }
    r
  }

  /** From a corner of an empty board of size at least 3 exactly two moves are
      open, (1, 2) before (2, 1), as the offset order dictates. */
  lemma CornerMoves(n: nat)
    requires n >= 3
    ensures AllowedMoves(EmptyGrid(n), (0, 0)) == [(1, 2), (2, 1)]
  {
    var g := EmptyGrid(n);
    var ms := KnightMoves((0, 0));
    assert ms[2..] == [(2, -1), (1, -2), (-1, -2), (-2, -1), (-2, 1), (-1, 2)];
    KeepLegalNone(g, ms[2..]);
    assert ms[1..][1..] == ms[2..];
    assert KeepLegal(g, ms[1..]) == [(2, 1)];
  }

  /** When every target on the board is already visited, no move is open: a
      corollary of `KeepLegalNone` applied to `KnightMoves(from)`. */
  lemma NoMovesWhenSurrounded(g: Grid, from: Point)
    requires IsSquare(g)
    requires forall m :: m in KnightMoves(from) && InBounds(|g|, m) ==> IsVisited(g, m)
    ensures AllowedMoves(g, from) == []
  {
    KeepLegalNone(g, KnightMoves(from));
  }
}
