/** The pure rules of the Snake game in frontend/src/App.jsx: the board, the
    collision test, food placement by rejection sampling, the three ways a
    player can ask for a turn, and the speed-up schedule. */
module SnakeRules {
  import opened Optional

  /** A cell of the board, or a one-cell displacement (the source's `{x, y}`). */
  datatype Pos = Pos(x: int, y: int)

  const GridSize: int := 20
  const InitialSnake: seq<Pos> := [Pos(10, 10)]
  const InitialDirection: Pos := Pos(0, -1)
  const InitialFood: Pos := Pos(15, 15)
  const InitialSpeed: int := 150
  /** The tick interval never drops below this many milliseconds. */
  const MinSpeed: int := 50
  const SpeedStep: int := 2
  const FoodPoints: int := 10
  const MinSwipeDistance: int := 30

  predicate InGrid(p: Pos) {
    0 <= p.x < GridSize && 0 <= p.y < GridSize
  }

  /** No two segments of the snake share a cell. */
  predicate Distinct(snake: seq<Pos>) {
    forall i, j :: 0 <= i < j < |snake| ==> snake[i] != snake[j]
  }

  predicate AllInGrid(snake: seq<Pos>) {
    forall i :: 0 <= i < |snake| ==> InGrid(snake[i])
  }

  function Max(a: int, b: int): int {
    if a >= b then a else b
  }

  function Abs(n: int): nat {
    if n < 0 then -n else n
  }

  // ---------------------------------------------------------------------
  // Directions

  /** The four directions the on-screen buttons, the arrow keys and a swipe
      can name. */
  datatype Dir = Up | Down | Left | Right

  function Vec(d: Dir): Pos {
    match d
    case Up => Pos(0, -1)
    case Down => Pos(0, 1)
    case Left => Pos(-1, 0)
    case Right => Pos(1, 0)
  }

  predicate IsUnit(v: Pos) {
    v == Vec(Up) || v == Vec(Down) || v == Vec(Left) || v == Vec(Right)
  }

  /** The direction exactly opposite to `v`. */
  function Reverse(v: Pos): Pos {
    Pos(-v.x, -v.y)
  }

  /** The arrow-key handler: a turn is taken only when the current direction
      has no component along the requested axis. */
  function KeyTurn(current: Pos, d: Dir): (r: Pos)
    ensures r == current || r == Vec(d)
    ensures IsUnit(current) ==>
      (r != current <==> Vec(d) != current && Vec(d) != Reverse(current))
  {
    match d
    case Up => if current.y == 0 then Pos(0, -1) else current
    case Down => if current.y == 0 then Pos(0, 1) else current
    case Left => if current.x == 0 then Pos(-1, 0) else current
    case Right => if current.x == 0 then Pos(1, 0) else current
  }

  /** The on-screen buttons (`handleDirectionChange`): every request is taken
      except one whose component opposes the current direction's. */
  function ButtonTurn(current: Pos, d: Dir): (r: Pos)
    ensures r == current || r == Vec(d)
    ensures IsUnit(current) ==> (r == Vec(d) <==> Vec(d) != Reverse(current))
  {
    var n := Vec(d);
    if (n.x == 1 && current.x == -1) || (n.x == -1 && current.x == 1)
       || (n.y == 1 && current.y == -1) || (n.y == -1 && current.y == 1)
    then current
    else n
  }

  /** How a finished touch is read: the axis with the strictly larger
      displacement wins (a tie is vertical) and the displacement along it
      must exceed MinSwipeDistance. */
  function SwipeGesture(diffX: int, diffY: int): (g: Option<Dir>)
    ensures g == Some(Right) <==> Abs(diffX) > Abs(diffY) && diffX > MinSwipeDistance
    ensures g == Some(Left) <==> Abs(diffX) > Abs(diffY) && diffX < -MinSwipeDistance
    ensures g == Some(Down) <==> Abs(diffX) <= Abs(diffY) && diffY > MinSwipeDistance
    ensures g == Some(Up) <==> Abs(diffX) <= Abs(diffY) && diffY < -MinSwipeDistance
  {
    if Abs(diffX) > Abs(diffY) then
      if Abs(diffX) > MinSwipeDistance then
        if diffX > 0 then Some(Right) else Some(Left)
      else None
    else
      if Abs(diffY) > MinSwipeDistance then
        if diffY > 0 then Some(Down) else Some(Up)
      else None
  }

  /** The swipe handler as the source writes it. Its contract says that a
      swipe is the gesture reading followed by the arrow-key rule. */
  function SwipeTurn(current: Pos, diffX: int, diffY: int): (r: Pos)
    ensures r == match SwipeGesture(diffX, diffY)
                 case None => current
                 case Some(d) => KeyTurn(current, d)
  {
    if Abs(diffX) > Abs(diffY) then
      if Abs(diffX) > MinSwipeDistance then
        if diffX > 0 && current.x == 0 then Pos(1, 0)
        else if diffX < 0 && current.x == 0 then Pos(-1, 0)
        else current
      else current
    else
      if Abs(diffY) > MinSwipeDistance then
        if diffY > 0 && current.y == 0 then Pos(0, 1)
        else if diffY < 0 && current.y == 0 then Pos(0, -1)
        else current
      else current
  }

  /** Every turn the keyboard or a swipe accepts, the buttons accept too; the
      buttons alone also accept repeating the current direction. */
  lemma KeyTurnStricterThanButtons(current: Pos, d: Dir)
    requires IsUnit(current)
    ensures KeyTurn(current, d) != current ==> ButtonTurn(current, d) == KeyTurn(current, d)
    ensures Vec(d) == current ==> KeyTurn(current, d) == current && ButtonTurn(current, d) == current
    ensures Vec(d) == Reverse(current) ==> KeyTurn(current, d) == current && ButtonTurn(current, d) == current
  {
  }

  // ---------------------------------------------------------------------
  // Moving and colliding

  function NextHead(head: Pos, direction: Pos): Pos {
    Pos(head.x + direction.x, head.y + direction.y)
  }

  /** Whether some segment of the snake lies on cell `p`, scanning from the
      head. */
  function Occupies(snake: seq<Pos>, p: Pos): (r: bool)
    ensures r <==> p in snake
  {
    if snake == [] then false else snake[0] == p || Occupies(snake[1..], p)
  }

  /** `checkCollision`: off the board, or onto any current segment, the tail
      included. */
  function CheckCollision(snake: seq<Pos>, head: Pos): (r: bool)
    ensures r <==> !InGrid(head) || head in snake
  {
    if head.x < 0 || head.x >= GridSize || head.y < 0 || head.y >= GridSize then true
    else Occupies(snake, head)
  }

  /** A growing move keeps the snake on the board and free of overlaps. */
  lemma {:induction false} GrowKeepsShape(snake: seq<Pos>, head: Pos)
    requires Distinct(snake) && AllInGrid(snake)
    requires !CheckCollision(snake, head)
    ensures Distinct([head] + snake) && AllInGrid([head] + snake)
  {
    var s := [head] + snake;
    forall i, j | 0 <= i < j < |s| ensures s[i] != s[j] {
      if i == 0 {
        assert s[j] == snake[j - 1];
      } else {
        assert s[i] == snake[i - 1] && s[j] == snake[j - 1];
      }
    }
  }

  /** A plain move (head prepended, tail dropped) keeps the snake on the board
      and free of overlaps. */
  lemma {:induction false} SlideKeepsShape(snake: seq<Pos>, head: Pos)
    requires |snake| >= 1 && Distinct(snake) && AllInGrid(snake)
    requires !CheckCollision(snake, head)
    ensures Distinct([head] + snake[..|snake| - 1]) && AllInGrid([head] + snake[..|snake| - 1])
  {
    var body := snake[..|snake| - 1];
    var s := [head] + body;
    assert forall k :: 0 <= k < |body| ==> body[k] == snake[k];
    forall i, j | 0 <= i < j < |s| ensures s[i] != s[j] {
      if i == 0 {
        assert s[j] == snake[j - 1];
      } else {
        assert s[i] == snake[i - 1] && s[j] == snake[j - 1];
      }
    }
  }

  // ---------------------------------------------------------------------
  // Food placement

  /** The two results of `Math.random()` used for one candidate cell. */
  datatype Draw = Draw(rx: real, ry: real)

  predicate ValidDraw(d: Draw) {
    0.0 <= d.rx < 1.0 && 0.0 <= d.ry < 1.0
  }

  predicate ValidDraws(draws: seq<Draw>) {
    forall i :: 0 <= i < |draws| ==> ValidDraw(draws[i])
  }

  /** `Math.floor(Math.random() * GRID_SIZE)` on both axes. */
  function Cell(d: Draw): (p: Pos)
    requires ValidDraw(d)
    ensures InGrid(p)
  {
    Pos((d.rx * GridSize as real).Floor, (d.ry * GridSize as real).Floor)
  }

  /** The cell the rejection sampler settles on for the draws given: the
      first candidate that is not a segment of `snake`, or None when every
      draw lands on the snake (the source keeps drawing). */
  function FirstFree(snake: seq<Pos>, draws: seq<Draw>): (r: Option<Pos>)
    requires ValidDraws(draws)
    ensures r.Some? ==> InGrid(r.value) && r.value !in snake
    ensures r.Some? ==> exists i :: 0 <= i < |draws| && Cell(draws[i]) == r.value
                                    && forall j :: 0 <= j < i ==> Cell(draws[j]) in snake
    ensures r.None? <==> forall i :: 0 <= i < |draws| ==> Cell(draws[i]) in snake
  {
    if draws == [] then None
    else if Cell(draws[0]) in snake then
      var r := FirstFree(snake, draws[1..]);
      assert forall i :: 1 <= i < |draws| ==> draws[i] == draws[1..][i - 1];
      if r.Some? then
        var k :| 0 <= k < |draws| - 1 && Cell(draws[1..][k]) == r.value
                 && forall j :: 0 <= j < k ==> Cell(draws[1..][j]) in snake;
        assert Cell(draws[k + 1]) == r.value;
        r
      else r
    else Some(Cell(draws[0]))
  }

  /** `generateFood`: draw candidate cells until one is off the snake. */
  method GenerateFood(snake: seq<Pos>, draws: seq<Draw>) returns (food: Option<Pos>)
    requires ValidDraws(draws)
    ensures food == FirstFree(snake, draws)
  {
    var i := 0;
    while i < |draws|
      invariant 0 <= i <= |draws|
      invariant FirstFree(snake, draws[i..]) == FirstFree(snake, draws)
    {
      var candidate := Cell(draws[i]);
      assert draws[i..][1..] == draws[i + 1..];
      if !Occupies(snake, candidate) {
        return Some(candidate);
      }
      i := i + 1;
    }
    return None;
  }

  /** When the snake covers the whole board no draw is ever accepted: the
      source's loop would not return. */
  lemma FullBoardNeverPlacesFood(snake: seq<Pos>, draws: seq<Draw>)
    requires ValidDraws(draws)
    requires forall x, y :: 0 <= x < GridSize && 0 <= y < GridSize ==> Pos(x, y) in snake
    ensures FirstFree(snake, draws) == None
  {
    forall i | 0 <= i < |draws| ensures Cell(draws[i]) in snake {
      var c := Cell(draws[i]);
      assert c == Pos(c.x, c.y);
    }
  }

  /** On an eating tick the food cell is on the board and off the pre-move
      snake, so a draw pointing at it is accepted: the free draw an eating
      `Tick` asks for always exists, and the full-board case cannot arise. */
  lemma EatingTickHasFreeDraw(snake: seq<Pos>, head: Pos)
    requires !CheckCollision(snake, head)
    ensures var d := Draw(head.x as real / GridSize as real, head.y as real / GridSize as real);
            ValidDraw(d) && FirstFree(snake, [d]) == Some(head)
  {
    var d := Draw(head.x as real / GridSize as real, head.y as real / GridSize as real);
    assert d.rx * GridSize as real == head.x as real;
    assert d.ry * GridSize as real == head.y as real;
    assert Cell(d) == head;
  }

  /** Food is drawn against the snake as it was before the move, so it can
      land on the cell the head has just entered: here the snake at (10,10)
      moving up eats at (10,9) and the draw (0.5, 0.45) puts the new food at
      (10,9) again. */
  lemma FoodCanLandOnNewHead()
    ensures var snake := [Pos(10, 10)];
            var head := NextHead(snake[0], Vec(Up));
            FirstFree(snake, [Draw(0.5, 0.45)]) == Some(head)
  {
    var d := Draw(0.5, 0.45);
    assert d.rx * 20.0 == 10.0 && d.ry * 20.0 == 9.0;
    assert Cell(d) == Pos(10, 9);
  }

  // ---------------------------------------------------------------------
  // Speed

  /** `Math.max(50, prev - 2)`: the interval after one more food. */
  function SpeedUp(speed: int): (r: int)
    ensures r >= MinSpeed
    ensures speed > MinSpeed + SpeedStep ==> r == speed - SpeedStep
    ensures r <= speed || speed < MinSpeed
  {
    Max(MinSpeed, speed - SpeedStep)
  }

  /** The interval after `eaten` foods, starting from InitialSpeed. */
  function SpeedAfter(eaten: nat): int {
    if eaten == 0 then InitialSpeed else SpeedUp(SpeedAfter(eaten - 1))
  }

  lemma {:induction false} SpeedAfterClosedForm(eaten: nat)
    ensures SpeedAfter(eaten) == Max(MinSpeed, InitialSpeed - SpeedStep * eaten)
  {
    if eaten > 0 {
      SpeedAfterClosedForm(eaten - 1);
    }
  }

  /** The speed never increases and reaches its floor after 50 foods. */
  lemma SpeedSchedule(eaten: nat)
    ensures MinSpeed <= SpeedAfter(eaten) <= InitialSpeed
    ensures SpeedAfter(eaten + 1) <= SpeedAfter(eaten)
    ensures eaten >= 50 <==> SpeedAfter(eaten) == MinSpeed
  {
    SpeedAfterClosedForm(eaten);
    SpeedAfterClosedForm(eaten + 1);
  }
}
