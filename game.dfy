/**
 * The game as the browser program runs it: one object whose fields are the
 * program's shared variables, and methods that update them in place. Each
 * state-changing method is proved to leave the object in the state a function
 * of module Rules prescribes. The constructor and InitGame establish the
 * invariant Rules.Inv; Update, GameOver, StartGame, PlayAgain, Turn and
 * KeyDown require it and keep it. CheckCollision only reads the state, and
 * GenerateFood, which runs in the middle of a tick, changes only the food.
 */
module Game {
  import opened Wrappers
  import opened Grid
  import opened Rules
  import Properties

  class SnakeGame {
    /** Grid size in cells: canvas width and height divided by the 20-pixel cell size. */
    const W: Dim
    const H: Dim

    var snake: seq<Cell>
    var food: Cell
    var direction: Direction
    var nextDirection: Direction
    var score: int
    var highScore: int
    var running: bool
    /** The periodic tick timer is installed. */
    var ticking: bool
    /** The high score as held in persistent storage. */
    var stored: Option<int>

    function Model(): State
      reads this
    {
      State(snake, food, direction, nextDirection, score, highScore, running, ticking, stored)
    }

    ghost predicate Valid()
      reads this
    {
      Inv(W, H, Model())
    }

    /** Page load: the saved high score is read (0 if absent) and a first round is set up. */
    constructor (w: Dim, h: Dim, saved: Option<nat>, draws: seq<Draw>)
      requires HasFree(w, h, InitialSnake, draws)
      ensures Valid()
      ensures W == w && H == h
      ensures Model() == Load(w, h, saved, draws)
    {
      W, H := w, h;
      snake, food := [], Cell(0, 0);
      direction, nextDirection := Right, Right;
      running, ticking := false, false;
      score := 0;
      stored := saved;
      highScore := if saved.Some? then saved.value else 0;
      new;
      InitGame(draws);
    }

    /** Rejection sampling: draw candidates until one is off the snake, then store it as the food. */
    method GenerateFood(draws: seq<Draw>)
      requires HasFree(W, H, snake, draws)
      modifies this`food
      ensures food == PlaceFood(W, H, snake, draws)
    {
      var i := 0;
      var candidate := Cell(0, 0);
      var onSnake := true;
      while onSnake
        invariant 0 <= i <= |draws|
        invariant onSnake ==> forall j :: 0 <= j < i ==> Candidate(W, H, draws[j]) in snake
        invariant onSnake ==> FirstFree(W, H, snake, draws) == FirstFree(W, H, snake, draws[i..])
        invariant !onSnake ==> FirstFree(W, H, snake, draws) == Some(candidate)
        decreases |draws| - i, onSnake
      {
        assert i < |draws| by {
          var k :| 0 <= k < |draws| && Candidate(W, H, draws[k]) !in snake;
          assert k >= i;
        }
        onSnake := false;
        candidate := Candidate(W, H, draws[i]);
        var k := 0;
        while k < |snake|
          invariant 0 <= k <= |snake|
          invariant forall m :: 0 <= m < k ==> snake[m] != candidate
        {
          if snake[k] == candidate {
            onSnake := true;
            break;
          }
          k := k + 1;
        }
        assert draws[i..][1..] == draws[i + 1..];
        i := i + 1;
      }
      food := candidate;
    }

    /** The collision test for a prospective head: walls first, then the body without its tail. */
    method CheckCollision(head: Cell) returns (hit: bool)
      ensures hit == Collides(W, H, snake, head)
    {
      if head.x < 0 || head.x >= W || head.y < 0 || head.y >= H {
        return true;
      }
      var i := 1;
      while i < |snake| - 1
        invariant 1 <= i
        invariant forall k :: 1 <= k < i && k < |snake| - 1 ==> snake[k] != head
      {
        if head == snake[i] {
          return true;
        }
        i := i + 1;
      }
      return false;
    }

    /** One tick: turn, test for a collision, then put the new head on and drop the tail unless food was eaten. */
    method Update(draws: seq<Draw>)
      requires Valid() && CanTick(W, H, Model(), draws)
      modifies this
      ensures Valid()
      ensures Model() == Tick(W, H, old(Model()), draws)
    {
      ghost var before := Model();
      Properties.TickPreservesInv(W, H, before, draws);
      direction := nextDirection;
      var head := Move(snake[0], direction);
      var hit := CheckCollision(head);
      if hit {
        GameOver();
        return;
      }
      snake := [head] + snake;
      if head == food {
        score := score + FoodPoints;
        GenerateFood(draws);
      } else {
        snake := snake[..|snake| - 1];
      }
    }

    /** End of a run: stop the timer, clear the running flag, save a better score. */
    method GameOver()
      requires Valid()
      modifies this
      ensures Valid()
      ensures Model() == EndRun(old(Model()))
    {
      Properties.EndRunPreservesInv(W, H, Model());
      ticking := false;
      running := false;
      if score > highScore {
        highScore := score;
        stored := Some(highScore);
      }
    }

    /** A new round: snake, score and headings back to their start values, new food, timer cleared. */
    method InitGame(draws: seq<Draw>)
      requires SessionOk(Model())
      requires HasFree(W, H, InitialSnake, draws)
      modifies this
      ensures Valid()
      ensures Model() == Reset(W, H, old(Model()), draws)
    {
      Properties.ResetEstablishesInv(W, H, Model(), draws);
      snake := InitialSnake;
      score := 0;
      direction := Right;
      nextDirection := Right;
      GenerateFood(draws);
      ticking := false;
    }

    /** The start control: acts only when no run is going. */
    method StartGame(draws: seq<Draw>)
      requires Valid()
      requires !running ==> HasFree(W, H, InitialSnake, draws)
      modifies this
      ensures Valid()
      ensures Model() == Start(W, H, old(Model()), draws)
    {
      Properties.StartPreservesInv(W, H, Model(), draws);
      if !running {
        InitGame(draws);
        running := true;
        ticking := true;
      }
    }

    /** The "start game" and "play again" buttons: a reset, then the start control. */
    method PlayAgain(first: seq<Draw>, second: seq<Draw>)
      requires Valid()
      requires HasFree(W, H, InitialSnake, first) && HasFree(W, H, InitialSnake, second)
      modifies this
      ensures Valid()
      ensures Model() == Restart(W, H, old(Model()), first, second)
    {
      InitGame(first);
      StartGame(second);
    }

    /** An on-screen direction button: the request is queued unless it reverses the current heading. */
    method Turn(requested: Direction)
      requires Valid()
      modifies this`nextDirection
      ensures Valid()
      ensures Model() == Steer(old(Model()), requested)
    {
      Properties.SteerPreservesInv(W, H, Model(), requested);
      if direction != Opposite(requested) {
        nextDirection := requested;
      }
    }

    /** A key press: the four arrow keys act like the buttons, every other key is ignored. */
    method KeyDown(key: string)
      requires Valid()
      modifies this`nextDirection
      ensures Valid()
      ensures KeyDirection(key).Some? ==> Model() == Steer(old(Model()), KeyDirection(key).value)
      ensures KeyDirection(key).None? ==> Model() == old(Model())
    {
      var requested := KeyDirection(key);
      if requested.Some? {
        Turn(requested.value);
      }
    }
  }
}
