# Snake: a verified model of the game's simulation core

This project models the simulation core of a browser Snake game in Dafny. The game is one script,
`game.js`. The snake moves one cell per timer tick on a grid of `W × H` cells, where `W` and `H` are the
canvas size divided by the 20-pixel cell. It grows when it eats food and dies on hitting a wall or
itself. The arrow keys and four buttons queue a turn. A start control resets and starts a run, and game
over keeps the best score in persistent storage.

Files and modules:

- `wrappers.dfy` (`Wrappers`): `Option`.
- `grid.dfy` (`Grid`): cells, headings, `Move`, and the random draws. One `Math.random()` value is a
  real in [0, 1). One food candidate takes two of them: `Draw(rx, ry)`. `FirstFree` is the
  rejection-sampling result over a stream of draws.
- `rules.dfy` (`Rules`): the game state as one record `State` and the transitions as functions:
  `Tick` (a tick), `Steer` (a turn request), `Reset`, `Start`, `Restart`, `EndRun` (game over) and
  `Load` (page load). It also defines the invariant `Inv`.
- `properties.dfy` (`Properties`): lemmas about those functions.
- `game.dfy` (`Game`): class `SnakeGame`. Its fields are the script's shared variables. Its methods
  update them in place, with the script's loops. Each state-changing method is proved to produce the
  state its `Rules` function prescribes: `Update` gives `Tick`, `GameOver` gives `EndRun`, `InitGame`
  gives `Reset`, `StartGame` gives `Start`, `PlayAgain` gives `Restart`, `Turn` and `KeyDown` give
  `Steer`. `CheckCollision` only reads the state; it is proved to compute the predicate `Collides`.
  `GenerateFood` changes only the food and is proved to store `PlaceFood` of the current snake. It is
  called in the middle of a tick, while the snake already has its new head, so it does not carry the
  invariant.

`Inv` holds in every reachable state. It says:

- the snake has at least three cells and no cell twice;
- the score is 10 × (length − 3);
- the food is off the snake and inside the food range;
- the queued heading never reverses the current one;
- the timer is installed only during a run;
- the in-memory high score equals the stored one, or 0 when nothing is stored.

The constructor and `InitGame` establish `Inv`. `Update`, `GameOver`, `StartGame`, `PlayAgain`,
`Turn` and `KeyDown` require it and keep it.

Food placement follows the code. The code scales the random value by `width / GRID_SIZE - 1`, so
food is drawn uniformly over columns 0..W−2 and rows 0..H−2, and draws that land on the snake are
rejected. On a grid at least two cells wide and two cells high, food never appears in the last column or the
last row.

The model also shows what the restart buttons do during a run: `Reset` clears the timer but not the
running flag, and `Start` then does nothing. Those buttons sit on overlays that are hidden during a run.
The lemma `Properties.RestartTimer` states this behaviour.

## Model

| member | source | states |
|---|---|---|
| `Grid.Move` | game.js:91-106 | up and down keep the column, left and right keep the row; the step is one cell, towards larger coordinates exactly for down and right |
| `Grid.MoveUndo` | game.js:93-106 | the opposite heading undoes a step, and taking the opposite twice gives the heading back |
| `Grid.Opposite` | game.js:237-246 | the blocked heading is the other heading on the same axis: up with down, left with right |
| `Grid.Scale` | game.js:70-71 | `floor(random × n)` lies in 0..n−1 (and is 0 when n is 0) |
| `Grid.Candidate` | game.js:61-71 | a drawn food cell lies in the grid, in columns 0..W−2 and rows 0..H−2 |
| `Grid.FirstFree` | game.js:68-80 | the sampling yields a cell exactly when some draw lands off the snake; that cell is off the snake, in the food range, and is the candidate of the first draw that lands off the snake |
| `Rules.PlaceFood` | game.js:60-83 | the food chosen is off the snake and in the food range |
| `Rules.Tick` | game.js:86-129 | a tick makes the queued heading current and never lowers the high score |
| `Rules.EndRun` | game.js:150-159 | game over stops the timer and the run and leaves snake, food and score alone |
| `Rules.Steer` | game.js:252-266 | a turn request changes only the queued heading, and sets it to the request exactly when the request is not the reverse of the current heading (or is already queued); a reversing request leaves the state unchanged |
| `Rules.KeyDirection` | game.js:234-249 | exactly the four arrow keys are acted on, ArrowUp, ArrowDown, ArrowLeft and ArrowRight giving up, down, left and right |
| `Rules.Reset` | game.js:40-57 | after a reset the food is off the new snake |
| `Rules.Start` | game.js:213-220 | after the start control a run is going; started from no run, the timer is installed, the snake is the initial one, the score is 0, both headings are right and the food is off the snake |
| `Rules.Restart` | game.js:224-231 | the restart buttons leave a running game with the initial snake and score 0 |
| `Rules.Load` | game.js:30-37 | after page load no run and no timer, and storage is as found |
| `Game.SnakeGame.constructor` | game.js:30-37 | page load: fields as the script declares them, then a first reset; establishes the invariant |
| `Game.SnakeGame.GenerateFood` | game.js:60-83 | the do-while with its inner search stores the first drawn candidate that is off the snake, and changes nothing else |
| `Game.SnakeGame.CheckCollision` | game.js:132-147 | returns true exactly on a wall hit or on a match with a segment of index 1..length−2 |
| `Game.SnakeGame.Update` | game.js:86-129 | one tick in place yields `Tick` of the old state and keeps the invariant |
| `Game.SnakeGame.GameOver` | game.js:150-159 | in place yields `EndRun` of the old state and keeps the invariant |
| `Game.SnakeGame.InitGame` | game.js:40-57 | in place yields `Reset` of the old state and establishes the invariant |
| `Game.SnakeGame.StartGame` | game.js:213-220 | in place yields `Start` of the old state and keeps the invariant |
| `Game.SnakeGame.PlayAgain` | game.js:224-231 | in place yields `Restart` of the old state and keeps the invariant |
| `Game.SnakeGame.Turn` | game.js:252-266 | in place yields `Steer` of the old state, changing only the queued heading, and keeps the invariant |
| `Game.SnakeGame.KeyDown` | game.js:234-249 | an arrow key acts like the matching button; any other key changes nothing |
| `Properties.PrependDistinct` | game.js:115 | putting a cell not on the snake in front keeps the cells distinct |
| `Properties.CollidesIff` | game.js:134-144 | collision iff the head is outside [0,W)×[0,H) or equals a cell of `snake[1..length−1)` |
| `Properties.TailIsExempt` | game.js:139-144 | moving onto the current tail cell (inside the grid) is not a collision |
| `Properties.BodyCellCollides` | game.js:140-143 | moving onto any segment strictly between head and tail is a collision |
| `Properties.NonEatingTick` | game.js:115-128 | without food or collision the snake becomes new head + all but the tail: same length, score and food; the run, the timer, the high score and storage are kept |
| `Properties.EatingTick` | game.js:115-124 | eating makes the snake new head + old snake, one segment longer; score +10; new food off the snake; the run, the timer, the high score and storage are kept |
| `Properties.CollisionTick` | game.js:109-112 | on a collision snake, food and score stay as they were, the run and timer stop, the high score becomes the larger of the two, and storage is written only when the score strictly beats the high score, with that score |
| `Properties.TickPreservesInv` | game.js:86-147 | a tick keeps the invariant: no duplicate cells, food off the snake, score = 10 × (length − 3), no queued reversal |
| `Properties.TickKeepsSnakeInGrid` | game.js:109-115 | a snake inside the grid stays inside it after a tick |
| `Properties.FoodOnTailWouldOverlap` | game.js:139-144 | were food on the tail, eating it by moving onto the tail would duplicate a cell, so the invariant's food clause is needed |
| `Properties.SteerPreservesInv` | game.js:252-266 | a turn request keeps the invariant, in particular the queued heading never reverses the current one |
| `Properties.ReversalIgnored` | game.js:243-246 | heading right, a left request is dropped and the next head is one cell to the right |
| `Properties.EndRunHighScore` | game.js:156-159 | game over leaves max(old high score, score), and storage is written only when the score strictly beats the high score |
| `Properties.EndRunPreservesInv` | game.js:150-159 | game over keeps the invariant |
| `Properties.ResetEstablishesInv` | game.js:40-57 | a reset gives snake (5,10),(4,10),(3,10), score 0, both headings right, food off the snake, establishes the invariant, and keeps the running flag and the high score |
| `Properties.StartPreservesInv` | game.js:213-220 | the start control keeps the invariant |
| `Properties.RestartPreservesInv` | game.js:224-231 | the restart buttons keep the invariant |
| `Properties.LoadEstablishesInv` | game.js:30-37 | page load establishes the invariant with the saved high score or 0 |
| `Properties.NoSecondTimer` | game.js:213-219 | during a run the start control changes nothing, with or without a timer, so no second timer is created |
| `Properties.RestartTimer` | game.js:52 | after the restart buttons a timer runs iff no run was going before |
| `Properties.HighScoreSurvivesRounds` | game.js:40-57 | reset, start, turn requests and ticks without a collision leave the high score and storage unchanged |
| `Properties.HighScoreScenario` | game.js:156-159 | with nothing stored, a reachable run ending at 30 stores 30; a later reachable run ending at 20, which keeps what that game over left, leaves 30 stored |
| `Properties.FirstTick` | game.js:88-128 | from the initial snake heading right, with food not at (6,10), one tick gives (6,10),(5,10),(4,10) with score 0 |
| `Properties.WallScenario` | game.js:134-136 | a head at (0,0) moving left hits the wall, ending the run with the snake unchanged |
| `Properties.SelfCollisionScenario` | game.js:139-144 | a coiled snake turning into its fourth of five segments dies; turning into the tail of a four-segment snake survives and slides |

## Left out

- Rendering (`render`) and the dimming of the canvas at game over: drawing only, no state.
- DOM work: element lookups, text of the score fields and the start button, showing and hiding the overlays.
- Timing: `setInterval` and `clearInterval` are modelled by the flag `ticking`. A tick is an explicit call of `Update`. `gameStep` is `Update` followed by `render`, so it is not modelled separately. The registration of event listeners is not modelled.
- Persistent storage is modelled as the field `stored`. The value read at page load is given to the constructor as an `Option<nat>`. The string-to-number coercion of the stored value is not modelled.
- `Math.random` is modelled as a finite stream of draws in [0, 1), given as a parameter. Floating-point rounding of `random × n` is not modelled: the product is exact.
- Grid width and height are integers of at least 1. A canvas size that is not a multiple of 20 pixels gives a fractional bound in the script; that case is not modelled.
- Game.SnakeGame.GenerateFood: requires that some draw in the stream lands off the snake. The script's do-while would loop forever on a stream without such a draw, for instance when the snake fills the food range. That non-terminating case is not modelled. `Update`, `InitGame`, `StartGame` and `PlayAgain` carry the same requirement through `CanTick` and `HasFree`.
