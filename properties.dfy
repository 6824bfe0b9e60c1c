/**
 * What the rules of module Rules guarantee: the effect of each kind of tick,
 * the precise collision test, the turn rule, the session transitions, and the
 * invariant Inv that every transition keeps (so food never lies on the snake,
 * the snake never overlaps itself and the score is ten points per segment
 * grown).
 */
module Properties {
  import opened Wrappers
  import opened Grid
  import opened Rules

  // ---------------------------------------------------------------- sequences

  lemma PrependDistinct(s: seq<Cell>, c: Cell)
    requires Distinct(s) && c !in s
    ensures Distinct([c] + s)
  {
    var t := [c] + s;
    forall i, j | 0 <= i < j < |t| ensures t[i] != t[j] {
      assert t[j] == s[j - 1];
      if i > 0 {
        assert t[i] == s[i - 1];
      }
    }
  }

  // ---------------------------------------------------------------- collision

  /** Wall and self collision, stated without the index bookkeeping. */
  lemma CollidesIff(w: Dim, h: Dim, snake: seq<Cell>, c: Cell)
    requires |snake| >= 2
    ensures Collides(w, h, snake, c) <==> !InGrid(w, h, c) || c in snake[1..|snake| - 1]
  {
    if c in snake[1..|snake| - 1] {
      var k :| 0 <= k < |snake| - 2 && snake[1..|snake| - 1][k] == c;
      assert snake[k + 1] == c;
    }
    if HitsBody(snake, c) {
      var i :| 1 <= i < |snake| - 1 && snake[i] == c;
      assert snake[1..|snake| - 1][i - 1] == c;
    }
  }

  /** Moving onto the cell the tail occupies now is not a collision. */
  lemma TailIsExempt(w: Dim, h: Dim, snake: seq<Cell>)
    requires |snake| >= 2 && Distinct(snake)
    requires InGrid(w, h, snake[|snake| - 1])
    ensures !Collides(w, h, snake, snake[|snake| - 1])
  {
  }

  /** Moving onto any segment strictly between head and tail is a collision. */
  lemma BodyCellCollides(w: Dim, h: Dim, snake: seq<Cell>, i: int)
    requires 1 <= i < |snake| - 1
    ensures Collides(w, h, snake, snake[i])
  {
  }

  // ---------------------------------------------------------------- the tick

  lemma NonEatingTick(w: Dim, h: Dim, s: State, draws: seq<Draw>)
    requires |s.snake| >= 1
    requires !Collides(w, h, s.snake, NextHead(s)) && NextHead(s) != s.food
    ensures CanTick(w, h, s, draws)
    ensures var t := Tick(w, h, s, draws);
      && t.snake == [NextHead(s)] + s.snake[..|s.snake| - 1]
      && |t.snake| == |s.snake|
      && t.score == s.score && t.food == s.food
      && t.running == s.running && t.ticking == s.ticking
      && t.highScore == s.highScore && t.stored == s.stored
  {
  }

  lemma EatingTick(w: Dim, h: Dim, s: State, draws: seq<Draw>)
    requires CanTick(w, h, s, draws) && Eats(w, h, s)
    ensures var t := Tick(w, h, s, draws);
      && t.snake == [NextHead(s)] + s.snake
      && |t.snake| == |s.snake| + 1
      && t.score == s.score + 10
      && t.food !in t.snake
      && t.food == FirstFree(w, h, t.snake, draws).value
      && t.running == s.running && t.ticking == s.ticking
      && t.highScore == s.highScore && t.stored == s.stored
  {
  }

  lemma CollisionTick(w: Dim, h: Dim, s: State, draws: seq<Draw>)
    requires |s.snake| >= 1 && Collides(w, h, s.snake, NextHead(s))
    ensures CanTick(w, h, s, draws)
    ensures var t := Tick(w, h, s, draws);
      && t.snake == s.snake && t.food == s.food && t.score == s.score
      && !t.running && !t.ticking
      && t.highScore == (if s.score > s.highScore then s.score else s.highScore)
      && (t.stored != s.stored ==> s.score > s.highScore)
      && (s.score > s.highScore ==> t.stored == Some(s.score))
  {
  }

  /** The invariant survives a tick; the tail exemption cannot create an overlap because food is never on the snake. */
  lemma TickPreservesInv(w: Dim, h: Dim, s: State, draws: seq<Draw>)
    requires Inv(w, h, s) && CanTick(w, h, s, draws)
    ensures Inv(w, h, Tick(w, h, s, draws))
  {
    var head := NextHead(s);
    var n := |s.snake|;
    if Collides(w, h, s.snake, head) {
      EndRunPreservesInv(w, h, s.(direction := s.nextDirection));
    } else if head == s.food {
      PrependDistinct(s.snake, head);
    } else {
      var body := s.snake[..n - 1];
      forall i | 0 <= i < n - 1 ensures body[i] != head {
        if i > 0 {
          assert !(1 <= i < n - 1 && s.snake[i] == head);
        }
      }
      assert Distinct(body);
      PrependDistinct(body, head);
      assert s.food !in body;
    }
  }

  /** A snake inside the grid stays inside it. */
  lemma TickKeepsSnakeInGrid(w: Dim, h: Dim, s: State, draws: seq<Draw>)
    requires CanTick(w, h, s, draws)
    requires forall i :: 0 <= i < |s.snake| ==> InGrid(w, h, s.snake[i])
    ensures var t := Tick(w, h, s, draws);
      forall i :: 0 <= i < |t.snake| ==> InGrid(w, h, t.snake[i])
  {
    var t := Tick(w, h, s, draws);
    if !Collides(w, h, s.snake, NextHead(s)) {
      forall i | 0 <= i < |t.snake| ensures InGrid(w, h, t.snake[i]) {
        if i > 0 {
          assert t.snake[i] == s.snake[i - 1];
        }
      }
    }
  }

  /**
   * Without the food clause of the invariant the tail exemption would be
   * unsound: food on the tail, eaten by moving onto the tail, leaves the
   * snake holding one cell twice.
   */
  lemma FoodOnTailWouldOverlap()
    ensures var s := State([Cell(1, 1), Cell(2, 1), Cell(2, 2), Cell(1, 2)], Cell(1, 2),
                           Down, Down, 10, 0, true, true, None);
      var draws := [Draw(0.0, 0.0)];
      && Distinct(s.snake) && s.food in s.snake
      && CanTick(5, 5, s, draws) && Eats(5, 5, s)
      && !Distinct(Tick(5, 5, s, draws).snake)
  {
    var s := State([Cell(1, 1), Cell(2, 1), Cell(2, 2), Cell(1, 2)], Cell(1, 2),
                   Down, Down, 10, 0, true, true, None);
    var draws := [Draw(0.0, 0.0)];
    assert Candidate(5, 5, draws[0]) == Cell(0, 0);
    assert !HitsBody(s.snake, Cell(1, 2));
    var t := Tick(5, 5, s, draws);
    assert t.snake[0] == t.snake[4];
  }

  // ---------------------------------------------------------------- turning

  lemma SteerPreservesInv(w: Dim, h: Dim, s: State, requested: Direction)
    requires Inv(w, h, s)
    ensures Inv(w, h, Steer(s, requested))
  {
    match requested
    case Up =>
    case Down =>
    case Left =>
    case Right =>
  }

  /** Heading right, a request to go left is dropped and the head keeps moving right. */
  lemma ReversalIgnored(w: Dim, h: Dim, s: State, draws: seq<Draw>)
    requires |s.snake| >= 1 && s.direction == Right && s.nextDirection == Right
    requires CanTick(w, h, s, draws)
    ensures Steer(s, Left) == s
    ensures Tick(w, h, Steer(s, Left), draws).direction == Right
    ensures !Collides(w, h, s.snake, NextHead(s)) ==>
      Tick(w, h, Steer(s, Left), draws).snake[0] == s.snake[0].(x := s.snake[0].x + 1)
  {
  }

  // ---------------------------------------------------------------- sessions

  /** Game over keeps the larger of the two scores, and storage is written only on a strict improvement. */
  lemma EndRunHighScore(s: State)
    ensures var t := EndRun(s);
      && t.highScore >= s.highScore && t.highScore >= s.score
      && (t.highScore == s.highScore || t.highScore == s.score)
      && (t.stored != s.stored ==> s.score > s.highScore)
      && (s.score > s.highScore ==> t.stored == Some(s.score))
  {
  }

  lemma EndRunPreservesInv(w: Dim, h: Dim, s: State)
    requires Inv(w, h, s)
    ensures Inv(w, h, EndRun(s))
  {
  }

  lemma ResetEstablishesInv(w: Dim, h: Dim, s: State, draws: seq<Draw>)
    requires SessionOk(s) && HasFree(w, h, InitialSnake, draws)
    ensures Inv(w, h, Reset(w, h, s, draws))
    ensures var r := Reset(w, h, s, draws);
      && r.snake == [Cell(5, 10), Cell(4, 10), Cell(3, 10)]
      && r.score == 0 && r.direction == Right && r.nextDirection == Right
      && r.running == s.running && r.highScore == s.highScore
  {
    assert Distinct(InitialSnake);
  }

  lemma StartPreservesInv(w: Dim, h: Dim, s: State, draws: seq<Draw>)
    requires Inv(w, h, s) && (!s.running ==> HasFree(w, h, InitialSnake, draws))
    ensures Inv(w, h, Start(w, h, s, draws))
  {
    if !s.running {
      ResetEstablishesInv(w, h, s, draws);
    }
  }

  lemma RestartPreservesInv(w: Dim, h: Dim, s: State, first: seq<Draw>, second: seq<Draw>)
    requires SessionOk(s)
    requires HasFree(w, h, InitialSnake, first) && HasFree(w, h, InitialSnake, second)
    ensures Inv(w, h, Restart(w, h, s, first, second))
  {
    ResetEstablishesInv(w, h, s, first);
    StartPreservesInv(w, h, Reset(w, h, s, first), second);
  }

  lemma LoadEstablishesInv(w: Dim, h: Dim, saved: Option<nat>, draws: seq<Draw>)
    requires HasFree(w, h, InitialSnake, draws)
    ensures Inv(w, h, Load(w, h, saved, draws))
    ensures Load(w, h, saved, draws).highScore == (if saved.Some? then saved.value else 0)
  {
    var best := if saved.Some? then saved.value else 0;
    ResetEstablishesInv(w, h, State([], Cell(0, 0), Right, Right, 0, best, false, false, saved), draws);
  }

  /**
   * During a run the start control does nothing, whether or not a timer is
   * installed; since a timer is installed only during a run, it never installs
   * a second one.
   */
  lemma NoSecondTimer(w: Dim, h: Dim, s: State, draws: seq<Draw>)
    requires s.running
    ensures Start(w, h, s, draws) == s
  {
  }

  /**
   * A reset clears the timer but not the running flag, so the restart buttons
   * used during a run leave the game running with no timer; after a game over
   * they start the timer.
   */
  lemma RestartTimer(w: Dim, h: Dim, s: State, first: seq<Draw>, second: seq<Draw>)
    requires HasFree(w, h, InitialSnake, first) && HasFree(w, h, InitialSnake, second)
    ensures Restart(w, h, s, first, second).ticking <==> !s.running
  {
  }

  /**
   * Resets, starts, turn requests and ticks that do not collide leave the high
   * score and storage alone; only a game over (see EndRunHighScore) changes them.
   */
  lemma HighScoreSurvivesRounds(w: Dim, h: Dim, s: State, draws: seq<Draw>, d: Direction, tickDraws: seq<Draw>)
    requires HasFree(w, h, InitialSnake, draws)
    ensures Reset(w, h, s, draws).stored == s.stored && Reset(w, h, s, draws).highScore == s.highScore
    ensures Start(w, h, s, draws).stored == s.stored && Start(w, h, s, draws).highScore == s.highScore
    ensures Steer(s, d).stored == s.stored && Steer(s, d).highScore == s.highScore
    ensures CanTick(w, h, s, tickDraws) ==>
      (!Collides(w, h, s.snake, NextHead(s)) ==>
        Tick(w, h, s, tickDraws).stored == s.stored && Tick(w, h, s, tickDraws).highScore == s.highScore)
  {
  }

  /**
   * With nothing stored, a run ending at 30 stores 30; a later run that keeps
   * what that game over left and ends at 20 leaves 30 in storage.
   */
  lemma HighScoreScenario(w: Dim, h: Dim, s: State, r: State)
    requires Inv(w, h, s) && s.stored == None && s.score == 30
    requires Inv(w, h, r) && r.score == 20
    requires r.stored == EndRun(s).stored && r.highScore == EndRun(s).highScore
    ensures EndRun(s).stored == Some(30) && EndRun(s).highScore == 30
    ensures EndRun(r).stored == Some(30) && EndRun(r).highScore == 30
  {
  }

  // ---------------------------------------------------------------- scenarios

  /** From a fresh round, one tick to the right without food at (6, 10). */
  lemma FirstTick(w: Dim, h: Dim, r: State, draws: seq<Draw>)
    requires w >= 7 && h >= 11
    requires r.snake == InitialSnake && r.score == 0 && r.nextDirection == Right
    requires r.food != Cell(6, 10)
    ensures CanTick(w, h, r, draws)
    ensures Tick(w, h, r, draws).snake == [Cell(6, 10), Cell(5, 10), Cell(4, 10)]
    ensures Tick(w, h, r, draws).score == 0 && Tick(w, h, r, draws).running == r.running
  {
    assert NextHead(r) == Cell(6, 10);
    assert !HitsBody(r.snake, Cell(6, 10));
  }

  /** A head at (0, 0) moving left hits the wall. */
  lemma WallScenario(w: Dim, h: Dim, s: State, draws: seq<Draw>)
    requires |s.snake| >= 1 && s.snake[0] == Cell(0, 0) && s.nextDirection == Left
    ensures CanTick(w, h, s, draws)
    ensures !Tick(w, h, s, draws).running && Tick(w, h, s, draws).snake == s.snake
  {
  }

  /** A coiled snake: turning into its fourth segment ends the game, turning into its tail does not. */
  lemma SelfCollisionScenario(draws: seq<Draw>)
    ensures var long := State([Cell(1, 1), Cell(2, 1), Cell(2, 2), Cell(1, 2), Cell(0, 2)], Cell(4, 4),
                              Down, Down, 20, 0, true, true, None);
      CanTick(10, 10, long, draws) && !Tick(10, 10, long, draws).running
    ensures var short := State([Cell(1, 1), Cell(2, 1), Cell(2, 2), Cell(1, 2)], Cell(4, 4),
                               Down, Down, 10, 0, true, true, None);
      && CanTick(10, 10, short, draws)
      && Tick(10, 10, short, draws).running
      && Tick(10, 10, short, draws).snake == [Cell(1, 2), Cell(1, 1), Cell(2, 1), Cell(2, 2)]
  {
    var long := State([Cell(1, 1), Cell(2, 1), Cell(2, 2), Cell(1, 2), Cell(0, 2)], Cell(4, 4),
                      Down, Down, 20, 0, true, true, None);
    assert long.snake[3] == Cell(1, 2);
    var short := State([Cell(1, 1), Cell(2, 1), Cell(2, 2), Cell(1, 2)], Cell(4, 4),
                       Down, Down, 10, 0, true, true, None);
    assert !HitsBody(short.snake, Cell(1, 2));
  }
}
