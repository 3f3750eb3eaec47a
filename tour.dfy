/** The backtracking search: `Search` is the search as a function of the board
    and the path; `Run` is the recursive procedure that clones the board for
    every candidate move, proved to compute `Search`. */
module Tour {
  import opened Chessboard
  import opened Moves

  /** The search's outcome in place of printing and exiting: a complete tour,
      "No solutions" (the root ran out of candidates), or a silent return from
      a deeper frame that ran out of candidates. */
  datatype Outcome = Found(tour: seq<Point>) | NoSolutions | Exhausted

  predicate Distinct(s: seq<Point>) {
    forall i, j :: 0 <= i < j < |s| ==> s[i] != s[j]
  }

  ghost function Elems(s: seq<Point>): set<Point> {
    set x | x in s
  }

  /** `path.last()`: the square the knight stands on. */
  function Last(path: seq<Point>): Point
    requires path != []
  {
    path[|path| - 1]
  }

  /** `t` begins with `path`. */
  predicate Extends(t: seq<Point>, path: seq<Point>) {
    |path| <= |t| && t[..|path|] == path
  }

  /** A knight's path on an n×n board: distinct squares, all on the board,
      each one knight's move after the one before. */
  predicate IsPath(n: int, s: seq<Point>) {
    && Distinct(s)
    && (forall i :: 0 <= i < |s| ==> InBounds(n, s[i]))
    && (forall i :: 0 <= i < |s| - 1 ==> IsKnightMove(s[i], s[i + 1]))
  }

  /** A knight's tour: a knight's path through all n*n squares. */
  predicate IsTour(n: int, t: seq<Point>) {
    |t| == n * n && IsPath(n, t)
  }

  /** Some knight's tour of the n×n board starts on `start`. */
  ghost predicate TourExists(n: int, start: Point) {
    exists t :: IsTour(n, t) && |t| > 0 && t[0] == start
  }

  /** The state `run` keeps between a board and its path: a non-empty knight's
      path whose squares are exactly the board's visited squares. */
  ghost predicate Consistent(g: Grid, path: seq<Point>) {
    && IsSquare(g)
    && |path| > 0
    && IsPath(|g|, path)
    && VisitedSet(g) == Elems(path)
  }

  /** What a frame reports when every candidate has failed: only the root
      (a one-square path) declares that there is no solution. */
  function GiveUp(path: seq<Point>): (r: Outcome)
    ensures !r.Found?
    ensures r == NoSolutions <==> |path| == 1
  {
    if |path| == 1 then NoSolutions else Exhausted
  }

  /** `run` on a board and a path: the path is complete once it holds
      size*size squares; otherwise the allowed moves from its last square are
      tried in order. A found tour extends the path and fills the board; any
      other outcome is the frame's own give-up verdict. */
  function Search(g: Grid, path: seq<Point>): (r: Outcome)
    requires IsSquare(g)
    requires path != [] || |path| >= |g| * |g|
    ensures r.Found? ==> Extends(r.tour, path) && |r.tour| >= |g| * |g|
    ensures !r.Found? ==> |path| < |g| * |g| && r == GiveUp(path)
    decreases |Unvisited(g)|, 2, 0
  {
    if |path| >= |g| * |g| then Found(path)
    else TryCandidates(g, path, AllowedMoves(g, Last(path)))
  }

  /** The loop of `run` over the candidates still to try: the first one whose
      search succeeds ends the loop; after the last, the frame gives up. */
  function TryCandidates(g: Grid, path: seq<Point>, cands: seq<Point>): (r: Outcome)
    requires IsSquare(g) && path != []
    requires forall c :: c in cands ==> Legal(g, c)
    ensures r.Found? ==> Extends(r.tour, path) && |r.tour| >= |g| * |g|
    ensures !r.Found? ==> r == GiveUp(path)
    decreases |Unvisited(g)|, 1, |cands|
  {
    if cands == [] then GiveUp(path)
    else
      var r := TryMove(g, path, cands[0]);
      if r.Found? then r else TryCandidates(g, path, cands[1..])
  }

  /** One candidate: the search from a copy of the board with `m` visited and
      a copy of the path with `m` appended; the original board and path are
      left as they were for the next candidate. */
  function TryMove(g: Grid, path: seq<Point>, m: Point): (r: Outcome)
    requires IsSquare(g) && path != [] && Legal(g, m)
    ensures r.Found? ==> Extends(r.tour, path + [m]) && |r.tour| >= |g| * |g|
    ensures r != NoSolutions
    decreases |Unvisited(g)|, 0, 0
  {
    Search(Mark(g, m), path + [m])
  }

  /** `run(board, path)`. Each candidate is tried on its own clone of the board
      and its own extended copy of the path, so `board` itself never changes
      and every candidate starts from the same state. */
  method Run(board: Board, path: seq<Point>) returns (o: Outcome)
    requires board.Valid()
    requires path != [] || |path| >= board.Size() * board.Size()
    ensures o == Search(board.cells, path)
    decreases |Unvisited(board.cells)|
  {
    ghost var g := board.cells;
    if |path| >= board.Size() * board.Size() {
      return Found(path);
    }
    var moves := AllowedMoves(board.cells, Last(path));
    for i := 0 to |moves|
      // Documentation only: Run has no modifies clause, so the frame already
      // keeps the caller's board unchanged for every sibling candidate.
      invariant board.cells == g
      invariant TryCandidates(g, path, moves[i..]) == Search(g, path)
    {
      var newPath := path + [moves[i]];
      var newBoard := new Board.Clone(board);
      newBoard.Visit(moves[i]);
      assert moves[i] in moves;
      var r := Run(newBoard, newPath);
      assert r == TryMove(g, path, moves[i]);
      if r.Found? {
        return r;
      }
      assert moves[i..][1..] == moves[i + 1..];
    }
    if |path| == 1 {
      return NoSolutions;
    }
    return Exhausted;
  }

  /** `main`, for any board size and start square: a fresh board with the
      start visited, searched from the one-square path. The root never
      returns silently; it finds a tour from `start` exactly when one exists. */
  method Solve(size: nat, start: Point) returns (o: Outcome)
    requires size > 0 && InBounds(size, start)
    ensures o.Found? || o.NoSolutions?
    ensures o.Found? ==> IsTour(size, o.tour) && o.tour[0] == start
    ensures o.Found? <==> TourExists(size, start)
  {
    var board := new Board.New(size);
    board.Visit(start);
    o := Run(board, [start]);
    StartConsistent(size, start);
    if o.Found? {
      SearchSound(board.cells, [start], o.tour);
    } else if TourExists(size, start) {
      var t :| IsTour(size, t) && |t| > 0 && t[0] == start;
      SearchComplete(board.cells, [start], t);
    }
  }

  // ----- The state invariant -----

  lemma StartConsistent(n: nat, start: Point)
    requires InBounds(n, start)
    ensures Consistent(Mark(EmptyGrid(n), start), [start])
  {
    assert Elems([start]) == {start};
  }

  /** A knight's path extended by one knight's move to a fresh square on the
      board is again a knight's path. */
  lemma PathExtend(n: int, path: seq<Point>, m: Point)
    requires IsPath(n, path) && path != []
    requires InBounds(n, m) && IsKnightMove(Last(path), m) && m !in path
    ensures IsPath(n, path + [m])
  {
    var p := path + [m];
    forall i, j | 0 <= i < j < |p| ensures p[i] != p[j] {
      if j == |path| { assert p[i] in path; }
    }
    forall i | 0 <= i < |p| - 1 ensures IsKnightMove(p[i], p[i + 1]) {
      if i < |path| - 1 { assert p[i + 1] == path[i + 1]; }
    }
  }

  /** Visiting an allowed move and appending it to the path keeps the board
      and the path in step: the path stays a knight's path, and its squares
      stay exactly the visited ones. */
  lemma StepConsistent(g: Grid, path: seq<Point>, m: Point)
    requires Consistent(g, path)
    requires m in AllowedMoves(g, Last(path))
    ensures Consistent(Mark(g, m), path + [m])
  {
    assert m !in Elems(path);
    PathExtend(|g|, path, m);
    assert Elems(path + [m]) == Elems(path) + {m};
  }

  // ----- Counting squares -----

  lemma {:induction false} DistinctElems(s: seq<Point>)
    requires Distinct(s)
    ensures |Elems(s)| == |s|
  {
    if s != [] {
      DistinctElems(s[1..]);
      assert Elems(s) == {s[0]} + Elems(s[1..]);
      assert s[0] !in Elems(s[1..]);
    }
  }

  /** A knight's path on an n×n board is at most n*n long, and one of
      exactly that length covers every square. */
  lemma PathFillsBoard(n: nat, s: seq<Point>)
    requires IsPath(n, s)
    ensures |s| <= n * n
    ensures |s| == n * n ==> Elems(s) == Squares(n)
  {
    var a, b := Elems(s), Squares(n);
    DistinctElems(s);
    SquaresCount(n);
    assert a <= b;
    assert b == a + (b - a);
    assert |b| == |a| + |b - a|;
    if |s| == n * n {
      assert |b - a| == 0;
    }
  }

  /** A tour visits every square of the board exactly once. */
  lemma TourCoversBoard(n: nat, t: seq<Point>)
    requires IsTour(n, t)
    ensures forall p :: InBounds(n, p) ==> p in t
    ensures Distinct(t)
  {
    PathFillsBoard(n, t);
    forall p | InBounds(n, p) ensures p in t {
      assert p in Squares(n);
    }
  }

  // ----- Outcome rules -----

  /** Candidate i is the first in `cands` whose search succeeds, with tour t. */
  ghost predicate FirstSuccessAt(g: Grid, path: seq<Point>, cands: seq<Point>, i: int, t: seq<Point>)
    requires IsSquare(g) && path != []
    requires forall c :: c in cands ==> Legal(g, c)
  {
    && 0 <= i < |cands|
    && TryMove(g, path, cands[i]) == Found(t)
    && forall j :: 0 <= j < i ==> !TryMove(g, path, cands[j]).Found?
  }

  lemma {:induction false} TryCandidatesFound(g: Grid, path: seq<Point>, cands: seq<Point>, t: seq<Point>)
    returns (i: int)
    requires IsSquare(g) && path != []
    requires forall c :: c in cands ==> Legal(g, c)
    requires TryCandidates(g, path, cands) == Found(t)
    ensures FirstSuccessAt(g, path, cands, i, t)
  {
    if TryMove(g, path, cands[0]) == Found(t) {
      i := 0;
    } else {
      var k := TryCandidatesFound(g, path, cands[1..], t);
      i := k + 1;
      forall j | 0 <= j < i ensures !TryMove(g, path, cands[j]).Found? {
        if j > 0 { assert cands[j] == cands[1..][j - 1]; }
      }
    }
  }

  /** The first success stops the search: a found tour is the one found by
      the first allowed move (in `knight_moves` order) whose search succeeds,
      and every move before it failed. */
  lemma FirstSuccessWins(g: Grid, path: seq<Point>, t: seq<Point>)
    requires IsSquare(g) && path != []
    requires |path| < |g| * |g|
    requires Search(g, path) == Found(t)
    ensures exists i :: FirstSuccessAt(g, path, AllowedMoves(g, Last(path)), i, t)
  {
    var i := TryCandidatesFound(g, path, AllowedMoves(g, Last(path)), t);
  }

  lemma {:induction false} TryCandidatesFailed(g: Grid, path: seq<Point>, cands: seq<Point>)
    requires IsSquare(g) && path != []
    requires forall c :: c in cands ==> Legal(g, c)
    requires !TryCandidates(g, path, cands).Found?
    ensures forall c :: c in cands ==> !TryMove(g, path, c).Found?
  {
    if cands != [] {
      TryCandidatesFailed(g, path, cands[1..]);
    }
  }

  /** Failure is declared only after every allowed move has been searched
      without success, and only the root declares it ("No solutions"); any
      deeper frame returns silently. */
  lemma FailureAfterExhaustion(g: Grid, path: seq<Point>)
    requires IsSquare(g) && path != []
    requires !Search(g, path).Found?
    ensures |path| < |g| * |g|
    ensures forall c :: c in AllowedMoves(g, Last(path)) ==> !TryMove(g, path, c).Found?
    ensures Search(g, path) == NoSolutions <==> |path| == 1
    ensures Search(g, path) == Exhausted <==> |path| != 1
  {
    TryCandidatesFailed(g, path, AllowedMoves(g, Last(path)));
  }

  // ----- Soundness and completeness -----

  lemma {:induction false} TryCandidatesSound(g: Grid, path: seq<Point>, cands: seq<Point>, t: seq<Point>)
    requires Consistent(g, path)
    requires forall c :: c in cands ==> Legal(g, c) && c in AllowedMoves(g, Last(path))
    requires TryCandidates(g, path, cands) == Found(t)
    ensures IsTour(|g|, t)
    decreases |Unvisited(g)|, |cands|
  {
    var c := cands[0];
    if TryMove(g, path, c).Found? {
      StepConsistent(g, path, c);
      SearchSound(Mark(g, c), path + [c], t);
    } else {
      TryCandidatesSound(g, path, cands[1..], t);
    }
  }

  /** Every tour the search reports is a knight's tour of the whole board
      that begins with the path it started from. */
  lemma {:induction false} SearchSound(g: Grid, path: seq<Point>, t: seq<Point>)
    requires Consistent(g, path)
    requires Search(g, path) == Found(t)
    ensures IsTour(|g|, t) && Extends(t, path)
    decreases |Unvisited(g)|, 9
  {
    PathFillsBoard(|g|, path);
    if |path| < |g| * |g| {
      TryCandidatesSound(g, path, AllowedMoves(g, Last(path)), t);
    }
  }

  lemma {:induction false} TryCandidatesReach(g: Grid, path: seq<Point>, cands: seq<Point>, m: Point)
    requires IsSquare(g) && path != []
    requires forall c :: c in cands ==> Legal(g, c)
    requires m in cands && TryMove(g, path, m).Found?
    ensures TryCandidates(g, path, cands).Found?
  {
    if cands[0] != m && !TryMove(g, path, cands[0]).Found? {
      TryCandidatesReach(g, path, cands[1..], m);
    }
  }

  /** The square a tour takes after `path` is one of the allowed moves, and
      the tour still begins with the extended path. */
  lemma NextOfTour(g: Grid, path: seq<Point>, t: seq<Point>)
    requires Consistent(g, path)
    requires IsTour(|g|, t) && Extends(t, path) && |path| < |t|
    ensures t[|path|] in AllowedMoves(g, Last(path))
    ensures Extends(t, path + [t[|path|]])
  {
    var k := |path|;
    assert path[k - 1] == t[k - 1];
    assert t[k] !in Elems(path) by {
      forall x | x in path ensures x != t[k] {
        var j :| 0 <= j < k && path[j] == x;
        assert t[j] == x;
      }
    }
    assert t[..k + 1] == path + [t[k]];
  }

  /** The search is exhaustive: if some tour begins with the path, the search
      finds a tour (not necessarily that one). So a failure verdict means no
      tour extends the path. */
  lemma {:induction false} SearchComplete(g: Grid, path: seq<Point>, t: seq<Point>)
    requires Consistent(g, path)
    requires IsTour(|g|, t) && Extends(t, path)
    ensures Search(g, path).Found?
    decreases |Unvisited(g)|
  {
    if |path| < |g| * |g| {
      var m := t[|path|];
      NextOfTour(g, path, t);
      StepConsistent(g, path, m);
      SearchComplete(Mark(g, m), path + [m], t);
      TryCandidatesReach(g, path, AllowedMoves(g, Last(path)), m);
    }
  }
}
