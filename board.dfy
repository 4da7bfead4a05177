/**
 * The board of the Snake game: a square grid of GRID_SIZE x GRID_SIZE cells,
 * addressed by 1-indexed (row, col) pairs, the four movement directions,
 * the one-cell step of the head, and the scans over the snake's segments.
 */
module Board {

  /** Cells per side of the board (SETTINGS.gridSize). */
  const GRID_SIZE: int := 30

  datatype Direction = Up | Down | Left | Right

  /** A cell of the grid; the legal ones have both coordinates in [1, GRID_SIZE]. */
  datatype Position = Position(row: int, col: int)

  predicate InBounds(p: Position) {
    1 <= p.row <= GRID_SIZE && 1 <= p.col <= GRID_SIZE
  }

  /** Every segment of `s` lies on the board. */
  predicate AllInBounds(s: seq<Position>) {
    forall i :: 0 <= i < |s| ==> InBounds(s[i])
  }

  /** No two segments of `s` share a cell. */
  predicate Distinct(s: seq<Position>) {
    forall i, j :: 0 <= i < j < |s| ==> s[i] != s[j]
  }

  /** The direction that reverses `d`. */
  function Opposite(d: Direction): (o: Direction)
    ensures o != d
  {
    match d
    case Up => Down
    case Down => Up
    case Left => Right
    case Right => Left
  }

  /** Opposites come in symmetric pairs: each direction is the opposite of exactly one other. */
  lemma OppositeIsInvolution(d: Direction)
    ensures Opposite(Opposite(d)) == d
    ensures forall e :: Opposite(e) == Opposite(d) ==> e == d
  {
  }

  /** Manhattan distance between two cells. */
  function Distance(p: Position, q: Position): nat {
    (if p.row <= q.row then q.row - p.row else p.row - q.row) +
    (if p.col <= q.col then q.col - p.col else p.col - q.col)
  }

  /**
   * The cell one step from `p` in direction `d`: rows grow downwards and
   * columns grow to the right, so Up lowers the row and Left lowers the column.
   */
  function Step(p: Position, d: Direction): (q: Position)
    ensures Distance(p, q) == 1
    ensures d == Up <==> q.row < p.row
    ensures d == Down <==> q.row > p.row
    ensures d == Left <==> q.col < p.col
    ensures d == Right <==> q.col > p.col
  {
    match d
    case Up => Position(p.row - 1, p.col)
    case Down => Position(p.row + 1, p.col)
    case Left => Position(p.row, p.col - 1)
    case Right => Position(p.row, p.col + 1)
  }

  /** Stepping back in the opposite direction returns to the starting cell. */
  lemma StepThenOpposite(p: Position, d: Direction)
    ensures Step(Step(p, d), Opposite(d)) == p
  {
  }

  /** The bounds test of the tick: a coordinate of 0 or beyond GRID_SIZE is off the board. */
  predicate OutOfBounds(p: Position): (r: bool)
    ensures InBounds(p) ==> !r
    ensures p.row >= 0 && p.col >= 0 ==> (r <==> !InBounds(p))
  {
    p.row == 0 || p.col == 0 || p.row > GRID_SIZE || p.col > GRID_SIZE
  }

  /**
   * The bounds test only looks for 0 and for GRID_SIZE + 1, but the head only
   * ever takes one step from a cell on the board, so it classifies exactly the
   * cells that have left the board.
   */
  lemma OutOfBoundsAfterStep(p: Position, d: Direction)
    requires InBounds(p)
    ensures OutOfBounds(Step(p, d)) <==> !InBounds(Step(p, d))
  {
  }

  /** Whether some segment of `s` is at `p`, scanning from the head (Array.prototype.some). */
  function Occurs(s: seq<Position>, p: Position): (r: bool)
    ensures r <==> exists i :: 0 <= i < |s| && s[i] == p
  {
    if |s| == 0 then false
    else if s[0] == p then true
    else
      var r := Occurs(s[1..], p);
      assert forall i :: 1 <= i < |s| ==> s[i] == s[1..][i - 1];
      r
  }

  /** Whether the head of `s` lies on one of the other segments; the head is never compared with itself. */
  function SelfCollision(s: seq<Position>): (r: bool)
    requires |s| > 0
    ensures r <==> exists i :: 1 <= i < |s| && s[i] == s[0]
  {
    assert forall i :: 1 <= i < |s| ==> s[i] == s[1..][i - 1];
    Occurs(s[1..], s[0])
  }

  /** Some cell of the board is not covered by `s`. */
  ghost predicate HasFreeCell(s: seq<Position>) {
    exists p :: InBounds(p) && !Occurs(s, p)
  }

  /** Appending a segment on a cell that is already covered frees no cell and covers none. */
  lemma FreeCellAfterAppendingCovered(s: seq<Position>, p: Position)
    requires Occurs(s, p) && HasFreeCell(s)
    ensures HasFreeCell(s + [p])
  {
    var q :| InBounds(q) && !Occurs(s, q);
    assert q != p;
    assert !Occurs(s + [p], q) by {
      forall i | 0 <= i < |s + [p]|
        ensures (s + [p])[i] != q
      {
        if i < |s| { assert (s + [p])[i] == s[i]; }
      }
    }
  }

  // ---- Counting the cells of the board ----

  /** The cells (r, 1) .. (r, n) of row r. */
  function RowCells(r: int, n: int): set<Position> {
    set c | 1 <= c <= n :: Position(r, c)
  }

  lemma {:induction false} RowCellsCount(r: int, n: nat)
    ensures |RowCells(r, n)| == n
  {
    if n > 0 {
      RowCellsCount(r, n - 1);
      assert RowCells(r, n) == RowCells(r, n - 1) + {Position(r, n)};
    } else {
      assert RowCells(r, n) == {};
    }
  }

  /** The cells of rows 1 .. m. */
  function Cells(m: int): set<Position> {
    set r, c | 1 <= r <= m && 1 <= c <= GRID_SIZE :: Position(r, c)
  }

  lemma {:induction false} CellsCount(m: nat)
    ensures |Cells(m)| == m * GRID_SIZE
  {
    if m > 0 {
      CellsCount(m - 1);
      RowCellsCount(m, GRID_SIZE);
      assert Cells(m) == Cells(m - 1) + RowCells(m, GRID_SIZE);
      assert Cells(m - 1) * RowCells(m, GRID_SIZE) == {};
    } else {
      assert Cells(m) == {};
    }
  }

  lemma {:induction false} DistinctCount(s: seq<Position>)
    requires Distinct(s)
    ensures |set p | p in s| == |s|
  {
    if |s| > 0 {
      DistinctCount(s[1..]);
      assert (set p | p in s) == {s[0]} + (set p | p in s[1..]);
      assert s[0] !in s[1..];
    } else {
      assert (set p | p in s) == {};
    }
  }

  lemma SubsetCount(a: set<Position>, b: set<Position>)
    requires a <= b
    ensures |a| <= |b|
  {
    assert b == a + (b - a);
    assert a * (b - a) == {};
  }

  /** A snake whose segments are distinct cells of the board has at most GRID_SIZE * GRID_SIZE segments. */
  lemma SnakeFitsBoard(s: seq<Position>)
    requires Distinct(s) && AllInBounds(s)
    ensures |s| <= GRID_SIZE * GRID_SIZE
  {
    var cover := set p | p in s;
    assert cover <= Cells(GRID_SIZE);
    SubsetCount(cover, Cells(GRID_SIZE));
    DistinctCount(s);
    CellsCount(GRID_SIZE);
  }

  /** Pigeonhole: distinct segments that do not fill the board leave a free cell for the food. */
  lemma FreeCellExists(s: seq<Position>)
    requires Distinct(s) && |s| < GRID_SIZE * GRID_SIZE
    ensures HasFreeCell(s)
  {
    if !HasFreeCell(s) {
      var cover := set p | p in s;
      assert Cells(GRID_SIZE) <= cover by {
        forall q | q in Cells(GRID_SIZE)
          ensures q in cover
        {
          assert InBounds(q);
        }
      }
      SubsetCount(Cells(GRID_SIZE), cover);
      DistinctCount(s);
      CellsCount(GRID_SIZE);
      assert false;
    }
  }
}
