/** Room on the board. `placeFood` keeps drawing random cells until it hits
    a free one, so it only returns while the snake leaves a cell uncovered:
    with a well-formed body that is exactly when the body is shorter than the
    400 cells of the grid. */
module WormSpace {
  import opened Worm

  /** The cells of a body, as a set. */
  function Cells(s: seq<Point>): (r: set<Point>)
    ensures forall p :: p in r <==> p in s
    ensures |r| <= |s|
    ensures Distinct(s) ==> |r| == |s|
  {
    if s == [] then {}
    else
      var rest := Cells(s[1..]);
      assert Distinct(s) ==> s[0] !in s[1..];
      {s[0]} + rest
  }

  /** The cells `(0, y) .. (w - 1, y)`. */
  function RowCells(y: int, w: nat): (r: set<Point>)
    ensures forall p :: p in r <==> p.y == y && 0 <= p.x < w
    ensures |r| == w
  {
    if w == 0 then {} else RowCells(y, w - 1) + {Point(w - 1, y)}
  }

  /** `p` lies in the first `h` rows of the grid; `InRows(p, Rows)` is `InGrid(p)`. */
  predicate InRows(p: Point, h: int) {
    0 <= p.x < Cols && 0 <= p.y < h
  }

  /** The first `h` rows of the grid. */
  function GridRows(h: nat): (r: set<Point>)
    ensures forall p :: p in r <==> InRows(p, h)
    ensures |r| == Cols * h
  {
    if h == 0 then {}
    else
      var above := GridRows(h - 1);
      var row := RowCells(h - 1, Cols);
      assert above !! row;
      above + row
  }

  lemma SubsetSize(a: set<Point>, b: set<Point>)
    requires a <= b
    ensures |a| <= |b|
  {
    assert b == a + (b - a);
    assert a !! (b - a);
  }

  /** Within the first `h` rows, a body shorter than `Cols * h` misses a cell. */
  lemma {:induction false} ShortBodyMissesCell(s: seq<Point>, h: nat)
    requires |s| < Cols * h
    ensures exists p: Point :: InRows(p, h) && p !in s
  {
    var rows := GridRows(h);
    var body := Cells(s);
    if forall p :: p in rows ==> p in body {
      SubsetSize(rows, body);
      assert false;
    }
  }

  /** Within the first `h` rows, `Cols * h` distinct cells cover them all. */
  lemma {:induction false} LongBodyCoversRows(s: seq<Point>, h: nat)
    requires forall i :: 0 <= i < |s| ==> InRows(s[i], h)
    requires Distinct(s) && |s| >= Cols * h
    ensures forall p: Point :: InRows(p, h) ==> p in s
  {
    var rows := GridRows(h);
    var body := Cells(s);
    assert body <= rows;
    if exists p: Point :: InRows(p, h) && p !in s {
      var p: Point :| InRows(p, h) && p !in s;
      SubsetSize(body, rows - {p});
      assert false;
    }
  }

  /** For a body in the grid without repeats, a free cell exists if and only
      if the body is shorter than the grid has cells. */
  lemma {:induction false} FreeCellIff(s: seq<Point>)
    requires AllInGrid(s) && Distinct(s)
    ensures HasFreeCell(s) <==> |s| < Cols * Rows
  {
    if |s| < Cols * Rows {
      ShortBodyMissesCell(s, Rows);
      var p: Point :| InRows(p, Rows) && p !in s;
      assert IsFree(s, p);
    } else {
      LongBodyCoversRows(s, Rows);
    }
  }

  /** A well-formed game with at least two free cells can always finish its
      next tick: if the move eats, `placeFood` still finds a cell. */
  lemma RoomToGrow(g: Game)
    requires WellFormed(g) && |g.snake| + 1 < Cols * Rows
    ensures Eats(g) ==> HasFreeCell([NextHead(g)] + g.snake)
  {
    if Eats(g) {
      var grown := [NextHead(g)] + g.snake;
      assert forall i :: 1 <= i < |grown| ==> grown[i] == g.snake[i - 1];
      assert AllInGrid(grown) && Distinct(grown);
      FreeCellIff(grown);
    }
  }

  /** Eating the food with 399 cells fills the board: no free cell is left,
      so the source's sampling loop would never return. */
  lemma FullBoardStalls(g: Game)
    requires WellFormed(g) && |g.snake| + 1 == Cols * Rows && Eats(g)
    ensures !HasFreeCell([NextHead(g)] + g.snake)
  {
    var grown := [NextHead(g)] + g.snake;
    assert forall i :: 1 <= i < |grown| ==> grown[i] == g.snake[i - 1];
    assert AllInGrid(grown) && Distinct(grown);
    FreeCellIff(grown);
  }
}
