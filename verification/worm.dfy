/** The Worm widget: a snake game on a fixed 20 x 20 grid. The snake is a
    sequence of cells, head first; each tick moves the head one cell along the
    heading and either grows onto the food or drops the last cell. Timers,
    drawing and the score label are left to the page; `running` stands for
    "a tick timer is installed" and a tick is an explicit step. */
module Worm {
  import opened Wrappers
  import Text

  const Cols: int := 20
  const Rows: int := 20

  /** A grid cell, or a heading when it is one of the four unit steps. */
  datatype Point = Point(x: int, y: int)

  const Up: Point := Point(0, -1)
  const Down: Point := Point(0, 1)
  const Left: Point := Point(-1, 0)
  const Right: Point := Point(1, 0)

  function Add(a: Point, b: Point): Point {
    Point(a.x + b.x, a.y + b.y)
  }

  function Neg(a: Point): Point {
    Point(-a.x, -a.y)
  }

  predicate IsUnit(d: Point) {
    d == Up || d == Down || d == Left || d == Right
  }

  predicate InGrid(p: Point) {
    0 <= p.x < Cols && 0 <= p.y < Rows
  }

  /** The game state of `initWorm`. `food` is `None` only before the first
      reset; `lastDir` is the last heading a key press was accepted for. */
  datatype Game = Game(
    snake: seq<Point>,
    food: Option<Point>,
    dir: Point,
    lastDir: Point,
    score: nat,
    running: bool)

  predicate Distinct(s: seq<Point>) {
    forall i, j :: 0 <= i < j < |s| ==> s[i] != s[j]
  }

  predicate AllInGrid(s: seq<Point>) {
    forall i :: 0 <= i < |s| ==> InGrid(s[i])
  }

  /** `p` is a cell the food could be placed on. */
  predicate IsFree(s: seq<Point>, p: Point) {
    InGrid(p) && p !in s
  }

  ghost predicate HasFreeCell(s: seq<Point>) {
    exists p :: IsFree(s, p)
  }

  /** The invariant every state reached from a reset keeps: the body lies in
      the grid without repeats, the food sits on a free cell, both headings
      are unit steps and the score counts the cells grown. */
  predicate WellFormed(g: Game) {
    && |g.snake| >= 1
    && AllInGrid(g.snake)
    && Distinct(g.snake)
    && g.food.Some? && IsFree(g.snake, g.food.value)
    && IsUnit(g.dir) && IsUnit(g.lastDir)
    && g.score == |g.snake| - 1
  }

  /** Everything but the `running` flag agrees. */
  predicate SameBoard(a: Game, b: Game) {
    a.snake == b.snake && a.food == b.food && a.dir == b.dir
    && a.lastDir == b.lastDir && a.score == b.score
  }

  /** The heading does not point back into the second body cell. */
  predicate NeckClear(g: Game) {
    |g.snake| < 2 || Add(g.snake[0], g.dir) != g.snake[1]
  }

  function NextHead(g: Game): Point
    requires |g.snake| >= 1
  {
    Add(g.snake[0], g.dir)
  }

  /** The next head leaves the grid or lands on any current body cell, the
      last one included, since the test runs before the tail is dropped. */
  predicate Collides(g: Game)
    requires |g.snake| >= 1
  {
    !InGrid(NextHead(g)) || NextHead(g) in g.snake
  }

  predicate Eats(g: Game)
    requires |g.snake| >= 1
  {
    !Collides(g) && g.food == Some(NextHead(g))
  }

  /** `placeFood`: the random draws are replaced by an arbitrary free cell.
      The source loop only ends once a free cell is drawn, so one must exist. */
  method PlaceFood(snake: seq<Point>) returns (food: Point)
    requires HasFreeCell(snake)
    ensures IsFree(snake, food)
  {
    ghost var p :| IsFree(snake, p);
    assert 0 <= p.x < Cols && 0 <= p.y < Rows && Point(p.x, p.y) !in snake;
    var fx: int, fy: int :| 0 <= fx < Cols && 0 <= fy < Rows && Point(fx, fy) !in snake;
    food := Point(fx, fy);
  }

  /** `resetGame`: a one-cell snake in the middle heading right, a fresh food
      cell, score zero and no timer. `lastDir` is not touched. */
  method ResetGame(g: Game) returns (r: Game)
    ensures r.snake == [Point(10, 10)] && r.dir == Right
    ensures r.score == 0 && !r.running
    ensures r.lastDir == g.lastDir
    ensures r.food.Some? && IsFree(r.snake, r.food.value)
    ensures IsUnit(g.lastDir) ==> WellFormed(r)
  {
    var snake := [Point(Cols / 2, Rows / 2)];
    assert IsFree(snake, Point(0, 0));
    var f := PlaceFood(snake);
    r := Game(snake, Some(f), Right, g.lastDir, 0, false);
  }

  /** The state `initWorm` leaves behind: its declarations followed by a reset. */
  method InitWorm() returns (r: Game)
    ensures WellFormed(r) && !r.running
    ensures r.snake == [Point(10, 10)] && r.dir == Right && r.lastDir == Right
  {
    r := ResetGame(Game([], None, Right, Right, 0, false));
  }

  /** `pauseGame`, and the state change of `gameOver`: the timer is cleared. */
  function Pause(g: Game): (r: Game)
    ensures !r.running && SameBoard(g, r)
  {
    g.(running := false)
  }

  /** `startGame`: installs the timer unless one is running already. */
  function Start(g: Game): (r: Game)
    ensures r.running && SameBoard(g, r)
  {
    if g.running then g else g.(running := true)
  }

  /** Pausing twice is pausing once; starting a running game changes
      nothing; a pause after a start leaves the board the start found. */
  lemma StartPauseCycle(g: Game)
    ensures Pause(Pause(g)) == Pause(g)
    ensures Start(Start(g)) == Start(g)
    ensures g.running ==> Start(g) == g
    ensures Pause(Start(g)) == Pause(g)
  {
  }

  /** `tick`. A colliding move is game over: nothing but `running` changes. A
      free move puts the next head in front; it keeps the old body when it
      eats the food (score and length grow by one, new food is placed) and
      drops the last cell otherwise. */
  method Tick(g: Game) returns (r: Game)
    requires |g.snake| >= 1
    requires Eats(g) ==> HasFreeCell([NextHead(g)] + g.snake)
    ensures r.dir == g.dir && r.lastDir == g.lastDir
    ensures Collides(g) ==> !r.running && SameBoard(g, r)
    ensures !Collides(g) ==> r.running == g.running && |r.snake| >= 1 && r.snake[0] == NextHead(g)
    ensures !Collides(g) && !Eats(g) ==>
      && |r.snake| == |g.snake|
      && r.snake[1..] == g.snake[..|g.snake| - 1]
      && r.food == g.food && r.score == g.score
    ensures Eats(g) ==>
      && |r.snake| == |g.snake| + 1
      && r.snake[1..] == g.snake
      && r.score == g.score + 1
      && r.food.Some? && IsFree(r.snake, r.food.value)
    ensures !Collides(g) && IsUnit(g.dir) ==> NeckClear(r)
    ensures WellFormed(g) ==> WellFormed(r)
  {
    var head := NextHead(g);
    if !InGrid(head) || head in g.snake {
      r := Pause(g);
      return;
    }
    var grown := [head] + g.snake;
    if g.food == Some(head) {
      var f := PlaceFood(grown);
      r := g.(snake := grown, food := Some(f), score := g.score + 1);
    } else {
      r := g.(snake := grown[..|grown| - 1]);
      assert r.snake == [head] + g.snake[..|g.snake| - 1];
    }
    if WellFormed(g) {
      assert forall i :: 1 <= i < |r.snake| ==> r.snake[i] == g.snake[i - 1];
    }
  }

  /** The key bindings: arrows and WASD, compared after lower-casing. */
  function KeyDirection(key: string): (r: Option<Point>)
    ensures r.Some? ==> IsUnit(r.value)
    ensures r == Some(Up) <==> Text.ToLowerAscii(key) in {"arrowup", "w"}
    ensures r == Some(Down) <==> Text.ToLowerAscii(key) in {"arrowdown", "s"}
    ensures r == Some(Left) <==> Text.ToLowerAscii(key) in {"arrowleft", "a"}
    ensures r == Some(Right) <==> Text.ToLowerAscii(key) in {"arrowright", "d"}
  {
    var k := Text.ToLowerAscii(key);
    if k == "arrowup" || k == "w" then Some(Up)
    else if k == "arrowdown" || k == "s" then Some(Down)
    else if k == "arrowleft" || k == "a" then Some(Left)
    else if k == "arrowright" || k == "d" then Some(Right)
    else None
  }

  /** The keydown handler. A bound key is ignored exactly when it asks for the
      reverse of `lastDir`, the last accepted request, whatever the snake is
      actually doing; otherwise it becomes both `dir` and `lastDir`. */
  function KeyDown(g: Game, key: string): (r: Game)
    ensures KeyDirection(key).None? ==> r == g
    ensures KeyDirection(key).Some? && KeyDirection(key).value == Neg(g.lastDir) ==> r == g
    ensures KeyDirection(key).Some? && KeyDirection(key).value != Neg(g.lastDir) ==>
      r.dir == KeyDirection(key).value && r.lastDir == r.dir
      && r.(dir := g.dir, lastDir := g.lastDir) == g
    ensures WellFormed(g) ==> WellFormed(r)
  {
    match KeyDirection(key)
    case None => g
    case Some(nd) => if nd == Neg(g.lastDir) then g else g.(dir := nd, lastDir := nd)
  }

  /** "w" asks for up and "a" for left. */
  lemma WAKeys()
    ensures KeyDirection("w") == Some(Up) && KeyDirection("a") == Some(Left)
  {
    assert Text.ToLowerAscii("w") == "w";
    assert Text.ToLowerAscii("a") == "a";
  }

  /** The guard compares with `lastDir`, not with the step the snake last
      took, so two presses between ticks can still reverse it: moving right
      with a three-cell body, "w" then "a" turns the heading into the neck and
      the next tick is game over. */
  lemma KeyGuardBypass()
    ensures var g := Game([Point(5, 5), Point(4, 5), Point(3, 5)], Some(Point(0, 0)), Right, Right, 2, true);
      && WellFormed(g) && NeckClear(g) && !Collides(g)
      && var g2 := KeyDown(KeyDown(g, "w"), "a");
      && g2.dir == Left && !NeckClear(g2) && Collides(g2)
  {
    var g := Game([Point(5, 5), Point(4, 5), Point(3, 5)], Some(Point(0, 0)), Right, Right, 2, true);
    assert AllInGrid(g.snake) && Distinct(g.snake) && IsFree(g.snake, Point(0, 0));
    assert WellFormed(g);
    assert NextHead(g) == Point(6, 5) && !Collides(g);
    WAKeys();
    var g1 := KeyDown(g, "w");
    assert g1 == g.(dir := Up, lastDir := Up);
    var g2 := KeyDown(g1, "a");
    assert g2 == g.(dir := Left, lastDir := Left);
    assert NextHead(g2) == g.snake[1] && !NeckClear(g2) && Collides(g2);
  }

  /** The same bypass in general: whatever the heading, a key that turns
      sideways followed by one that asks for the reverse of the original
      heading both pass the guard, and the next head is the neck. */
  lemma KeyGuardBypassAny(g: Game, turn: string, back: string)
    requires |g.snake| >= 2 && IsUnit(g.lastDir)
    requires g.snake[1] == Add(g.snake[0], Neg(g.lastDir))
    requires KeyDirection(turn).Some?
    requires KeyDirection(turn).value != g.lastDir && KeyDirection(turn).value != Neg(g.lastDir)
    requires KeyDirection(back) == Some(Neg(g.lastDir))
    ensures var g2 := KeyDown(KeyDown(g, turn), back);
      g2.dir == Neg(g.lastDir) && g2.snake == g.snake
      && NextHead(g2) == g.snake[1] && !NeckClear(g2) && Collides(g2)
  {
    var t, d := KeyDirection(turn).value, Neg(g.lastDir);
    var g1 := KeyDown(g, turn);
    assert g1 == g.(dir := t, lastDir := t);
    assert d != Neg(t);
    var g2 := KeyDown(g1, back);
    assert g2 == g.(dir := d, lastDir := d);
    assert NextHead(g2) == g.snake[1];
  }

  /** The reversal guard as evidently intended: a bound key is ignored when it
      would send the head into the second body cell, the direction the snake
      actually came from; otherwise it is taken like in `KeyDown`. */
  function KeyDownByMotion(g: Game, key: string): (r: Game)
    ensures KeyDirection(key).None? ==> r == g
    ensures KeyDirection(key).Some? ==>
      var nd := KeyDirection(key).value;
      (|g.snake| >= 2 && Add(g.snake[0], nd) == g.snake[1] ==> r == g)
      && (|g.snake| < 2 || Add(g.snake[0], nd) != g.snake[1] ==>
            r.dir == nd && r.lastDir == nd && r.(dir := g.dir, lastDir := g.lastDir) == g)
    ensures NeckClear(g) ==> NeckClear(r)
    ensures WellFormed(g) ==> WellFormed(r)
  {
    match KeyDirection(key)
    case None => g
    case Some(nd) =>
      if |g.snake| >= 2 && Add(g.snake[0], nd) == g.snake[1] then g
      else g.(dir := nd, lastDir := nd)
  }

  /** With the corrected guard no sequence of key presses between two ticks
      turns the snake into its own neck. */
  lemma {:induction false} NoReversalByMotion(g: Game, keys: seq<string>)
    requires NeckClear(g)
    ensures NeckClear(PressAll(g, keys))
    decreases |keys|
  {
    if keys != [] {
      NoReversalByMotion(KeyDownByMotion(g, keys[0]), keys[1..]);
    }
  }

  /** Applies the corrected handler to each key in turn. */
  function PressAll(g: Game, keys: seq<string>): Game
    decreases |keys|
  {
    if keys == [] then g else PressAll(KeyDownByMotion(g, keys[0]), keys[1..])
  }
}
