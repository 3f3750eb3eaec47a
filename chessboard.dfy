/** The chessboard of a knight's tour search: squares, the grid of visited
    flags as a value, and the `Board` object that owns such a grid and
    updates it in place. */
module Chessboard {

  /** A square as (row, column). Coordinates are unbounded integers: move
      generation may produce negative or too-large values, which the move
      filter discards before the board is ever indexed. */
  type Point = (int, int)

  /** The board's cells, row by row; `true` marks a visited square. */
  type Grid = seq<seq<bool>>

  predicate InBounds(n: int, p: Point) {
    0 <= p.0 < n && 0 <= p.1 < n
  }

  /** Every row is as long as there are rows, so the grid is n×n with n = |g|. */
  predicate IsSquare(g: Grid) {
    forall i :: 0 <= i < |g| ==> |g[i]| == |g|
  }

  /** The flag of an in-bounds square; the grid is never indexed out of range. */
  predicate IsVisited(g: Grid, p: Point)
    requires IsSquare(g) && InBounds(|g|, p)
    ensures IsVisited(g, p) <==> p in VisitedSet(g)
  {
    g[p.0][p.1]
  }

  /** All squares of a rows×cols rectangle anchored at (0, 0). */
  ghost function Rect(rows: int, cols: int): set<Point> {
    set r, c | 0 <= r < rows && 0 <= c < cols :: (r, c)
  }

  /** All squares of an n×n board. */
  ghost function Squares(n: int): (s: set<Point>)
    ensures forall p :: p in s <==> InBounds(n, p)
  {
    Rect(n, n)
  }

  /** The squares of row r in columns [0, cols). */
  ghost function RowOf(r: int, cols: int): set<Point> {
    set c | 0 <= c < cols :: (r, c)
  }

  lemma {:induction false} RowCount(r: int, cols: nat)
    ensures |RowOf(r, cols)| == cols
  {
    if cols > 0 {
      RowCount(r, cols - 1);
      assert RowOf(r, cols) == RowOf(r, cols - 1) + {(r, cols - 1)};
    } else {
      assert RowOf(r, cols) == {};
    }
  }

  /** A rectangle is the one above it plus its last row, which it does not
      overlap. */
  lemma RectSplit(rows: int, cols: int)
    requires rows > 0
    ensures Rect(rows, cols) == Rect(rows - 1, cols) + RowOf(rows - 1, cols)
    ensures Rect(rows - 1, cols) !! RowOf(rows - 1, cols)
    ensures |Rect(rows, cols)| == |Rect(rows - 1, cols)| + |RowOf(rows - 1, cols)|
  {
    forall p | p in Rect(rows, cols)
      ensures p in Rect(rows - 1, cols) + RowOf(rows - 1, cols)
    {
      if p.0 < rows - 1 {
        assert p in Rect(rows - 1, cols);
      } else {
        assert p in RowOf(rows - 1, cols);
      }
    }
  }

  lemma AddRow(rows: int, cols: int)
    ensures (rows - 1) * cols + cols == rows * cols
  {
  }

  lemma {:induction false} RectCount(rows: nat, cols: nat)
    ensures |Rect(rows, cols)| == rows * cols
  {
    if rows > 0 {
      RectCount(rows - 1, cols);
      RowCount(rows - 1, cols);
      RectSplit(rows, cols);
      AddRow(rows, cols);
    } else {
      assert Rect(rows, cols) == {};
    }
  }

  /** An n×n board has n*n squares. */
  lemma SquaresCount(n: nat)
    ensures |Squares(n)| == n * n
  {
    RectCount(n, n);
  }

  /** The squares a grid marks as visited. */
  ghost function VisitedSet(g: Grid): set<Point>
    requires IsSquare(g)
  {
    set p | p in Squares(|g|) && g[p.0][p.1]
  }

  /** The squares still open; its size is the search's termination measure. */
  ghost function Unvisited(g: Grid): (u: set<Point>)
    requires IsSquare(g)
    ensures forall p :: p in u <==> InBounds(|g|, p) && !IsVisited(g, p)
  {
    Squares(|g|) - VisitedSet(g)
  }

  /** The grid `Board::new(n)` allocates: n rows of n cleared flags. */
  function EmptyGrid(n: nat): (g: Grid)
    ensures IsSquare(g) && |g| == n
    ensures VisitedSet(g) == {}
    ensures Unvisited(g) == Squares(n)
  {
    seq(n, _ => seq(n, _ => false))
  }

  /** The grid after `Board::visit(p)`: p is visited, every other square keeps
      its flag, the size is unchanged, and (when p was open) exactly one square
      fewer is open. */
  function Mark(g: Grid, p: Point): (r: Grid)
    requires IsSquare(g) && InBounds(|g|, p)
    ensures IsSquare(r) && |r| == |g|
    ensures IsVisited(r, p)
    ensures forall q :: InBounds(|g|, q) && q != p ==> IsVisited(r, q) == IsVisited(g, q)
    ensures VisitedSet(r) == VisitedSet(g) + {p}
    ensures Unvisited(r) == Unvisited(g) - {p}
    ensures !IsVisited(g, p) ==> |Unvisited(r)| == |Unvisited(g)| - 1
  {
    g[p.0 := g[p.0][p.1 := true]]
  }

  /** The board: an n×n grid of visited flags, fixed in size at construction
      and updated in place by `Visit`. */
  class Board {
    var cells: Grid

    ghost predicate Valid()
      reads this
    {
      IsSquare(cells)
    }

    /** The squares this board marks as visited. */
    ghost function VisitedSquares(): set<Point>
      reads this
      requires Valid()
    {
      VisitedSet(cells)
    }

    /** `Board::new(size)`: a size×size board with nothing visited. */
    constructor New(size: nat)
      ensures Valid() && Size() == size
      ensures VisitedSquares() == {}
      ensures cells == EmptyGrid(size)
    {
      cells := EmptyGrid(size);
    }

    /** The derived `clone`: an independent board with the same cells. */
    constructor Clone(source: Board)
      requires source.Valid()
      ensures Valid() && cells == source.cells
    {
      cells := source.cells;
    }

    /** `Board::visit(p)`: marks p visited in place. Re-visiting is not
        rejected; an out-of-range square is the caller's error. */
    method Visit(p: Point)
      requires Valid() && InBounds(Size(), p)
      modifies this
      ensures Valid() && Size() == old(Size())
      ensures Visited(p)
      ensures forall q :: InBounds(Size(), q) && q != p ==> Visited(q) == old(Visited(q))
      ensures VisitedSquares() == old(VisitedSquares()) + {p}
      ensures cells == Mark(old(cells), p)
    {
      cells := cells[p.0 := cells[p.0][p.1 := true]];
    }

    /** `Board::size()`: the number of rows, which is also the length of
        every row. */
    function Size(): (n: nat)
      reads this
      requires Valid()
      ensures |cells| == n && forall i :: 0 <= i < n ==> |cells[i]| == n
    {
      |cells|
    }

    /** `Board::visited(p)`, for an in-bounds p. */
    function Visited(p: Point): (b: bool)
      reads this
      requires Valid() && InBounds(Size(), p)
      ensures b <==> p in VisitedSquares()
    {
      IsVisited(cells, p)
    }
  }
}
