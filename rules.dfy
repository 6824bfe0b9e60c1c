/**
 * The game as a state machine over one record: what a tick, a turn request,
 * a reset, a start and a game over do to the state. The class in game.dfy
 * keeps the same data in mutable fields and is proved against these functions.
 */
module Rules {
  import opened Wrappers
  import opened Grid

  /** Points awarded for each piece of food eaten. */
  const FoodPoints := 10

  /**
   * The whole game state. `ticking` says whether the periodic tick timer is
   * installed; `stored` is the high score held in the browser's persistent
   * key-value storage, None while nothing has been written there.
   */
  datatype State = State(
    snake: seq<Cell>,
    food: Cell,
    direction: Direction,
    nextDirection: Direction,
    score: int,
    highScore: int,
    running: bool,
    ticking: bool,
    stored: Option<int>)

  /** Three segments in row 10, head at column 5, heading right. */
  const InitialSnake: seq<Cell> := [Cell(5, 10), Cell(4, 10), Cell(3, 10)]

  /** The head would leave the grid. */
  predicate HitsWall(w: Dim, h: Dim, c: Cell) {
    c.x < 0 || c.x >= w || c.y < 0 || c.y >= h
  }

  /**
   * The head would land on a body segment. Index 0 (the current head) and the
   * last index (the tail, which moves away on a tick without food) are not examined.
   */
  predicate HitsBody(snake: seq<Cell>, c: Cell) {
    exists i :: 1 <= i < |snake| - 1 && snake[i] == c
  }

  predicate Collides(w: Dim, h: Dim, snake: seq<Cell>, c: Cell) {
    HitsWall(w, h, c) || HitsBody(snake, c)
  }

  predicate Distinct(s: seq<Cell>) {
    forall i, j :: 0 <= i < j < |s| ==> s[i] != s[j]
  }

  /** The cell the head moves to on the next tick. */
  function NextHead(s: State): (c: Cell)
    requires |s.snake| >= 1
    ensures c != s.snake[0]
  {
    Move(s.snake[0], s.nextDirection)
  }

  /** The food is eaten on the next tick. */
  predicate Eats(w: Dim, h: Dim, s: State)
    requires |s.snake| >= 1
  {
    !Collides(w, h, s.snake, NextHead(s)) && NextHead(s) == s.food
  }

  /**
   * A tick can be taken: the snake has a head, and when the food is eaten the
   * random stream eventually offers a cell off the grown snake.
   */
  predicate CanTick(w: Dim, h: Dim, s: State, draws: seq<Draw>) {
    |s.snake| >= 1 &&
    (Eats(w, h, s) ==> HasFree(w, h, [NextHead(s)] + s.snake, draws))
  }

  /** Where food is put for the given snake. */
  function PlaceFood(w: Dim, h: Dim, snake: seq<Cell>, draws: seq<Draw>): (c: Cell)
    requires HasFree(w, h, snake, draws)
    ensures c !in snake && FoodRange(w, h, c)
  {
    FirstFree(w, h, snake, draws).value
  }

  /** Game over: the timer stops, the run ends, and a better score becomes the stored high score. */
  function EndRun(s: State): (t: State)
    ensures !t.running && !t.ticking
    ensures t.snake == s.snake && t.food == s.food && t.score == s.score
  {
    if s.score > s.highScore then
      s.(running := false, ticking := false, highScore := s.score, stored := Some(s.score))
    else
      s.(running := false, ticking := false)
  }

  /** One simulation step: apply the pending heading, then die, grow or slide. */
  function Tick(w: Dim, h: Dim, s: State, draws: seq<Draw>): (t: State)
    requires CanTick(w, h, s, draws)
    ensures t.direction == s.nextDirection && t.nextDirection == s.nextDirection
    ensures t.highScore >= s.highScore
  {
    var head := NextHead(s);
    var turned := s.(direction := s.nextDirection);
    if Collides(w, h, s.snake, head) then EndRun(turned)
    else if head == s.food then
      var grown := [head] + s.snake;
      turned.(snake := grown, score := s.score + FoodPoints, food := PlaceFood(w, h, grown, draws))
    else
      turned.(snake := [head] + s.snake[..|s.snake| - 1])
  }

  /** A turn request: accepted unless it is the reverse of the heading in effect. */
  function Steer(s: State, requested: Direction): (t: State)
    ensures t == s.(nextDirection := t.nextDirection)
    ensures t.nextDirection == requested <==> requested != Opposite(s.direction) || s.nextDirection == requested
    ensures requested == Opposite(s.direction) ==> t == s
  {
    if s.direction != Opposite(requested) then s.(nextDirection := requested) else s
  }

  /** The arrow key a keyboard event names, if it names one. */
  function KeyDirection(key: string): (r: Option<Direction>)
    ensures r.Some? <==> key in {"ArrowUp", "ArrowDown", "ArrowLeft", "ArrowRight"}
    ensures r == Some(Up) <==> key == "ArrowUp"
    ensures r == Some(Down) <==> key == "ArrowDown"
    ensures r == Some(Left) <==> key == "ArrowLeft"
    ensures r == Some(Right) <==> key == "ArrowRight"
  {
    if key == "ArrowUp" then Some(Up)
    else if key == "ArrowDown" then Some(Down)
    else if key == "ArrowLeft" then Some(Left)
    else if key == "ArrowRight" then Some(Right)
    else None
  }

  /** A new round: fresh snake, zero score, heading right, new food, timer cleared. */
  function Reset(w: Dim, h: Dim, s: State, draws: seq<Draw>): (t: State)
    requires HasFree(w, h, InitialSnake, draws)
    ensures t.food !in t.snake
  {
    s.(snake := InitialSnake, score := 0, direction := Right, nextDirection := Right,
       food := PlaceFood(w, h, InitialSnake, draws), ticking := false)
  }

  /** The start control: a full reset and a started timer, unless a run is already going. */
  function Start(w: Dim, h: Dim, s: State, draws: seq<Draw>): (t: State)
    requires !s.running ==> HasFree(w, h, InitialSnake, draws)
    ensures t.running
    ensures !s.running ==> && t.ticking && t.snake == InitialSnake && t.score == 0
                           && t.direction == Right && t.nextDirection == Right && t.food !in t.snake
  {
    if s.running then s else Reset(w, h, s, draws).(running := true, ticking := true)
  }

  /** The "start game" and "play again" controls: a reset followed by the start control. */
  function Restart(w: Dim, h: Dim, s: State, first: seq<Draw>, second: seq<Draw>): (t: State)
    requires HasFree(w, h, InitialSnake, first) && HasFree(w, h, InitialSnake, second)
    ensures t.running && t.snake == InitialSnake && t.score == 0
  {
    Start(w, h, Reset(w, h, s, first), second)
  }

  /** The state once the page has loaded: the saved high score (0 if none) and a first reset. */
  function Load(w: Dim, h: Dim, saved: Option<nat>, draws: seq<Draw>): (t: State)
    requires HasFree(w, h, InitialSnake, draws)
    ensures !t.running && !t.ticking && t.stored == saved
  {
    var best := if saved.Some? then saved.value else 0;
    Reset(w, h, State([], Cell(0, 0), Right, Right, 0, best, false, false, saved), draws)
  }

  /** Timer and high-score bookkeeping: the timer runs only during a run; the high score mirrors storage. */
  predicate SessionOk(s: State) {
    && (s.ticking ==> s.running)
    && s.highScore >= 0
    && s.highScore == (if s.stored.Some? then s.stored.value else 0)
  }

  /** The board: a snake of at least three distinct cells, score in step with its length, food off it. */
  predicate BoardOk(w: Dim, h: Dim, s: State) {
    && |s.snake| >= 3
    && s.score == FoodPoints * (|s.snake| - 3)
    && Distinct(s.snake)
    && s.food !in s.snake
    && FoodRange(w, h, s.food)
    && s.nextDirection != Opposite(s.direction)
  }

  predicate Inv(w: Dim, h: Dim, s: State) {
    SessionOk(s) && BoardOk(w, h, s)
  }
}
