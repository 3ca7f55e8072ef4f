# SnakeZ game rules in Dafny

This project models the game state and rules of the `SnakeGame` class of SnakeZ, a browser
Snake game. The model covers these parts:

- the reset layout (`setUpGame`);
- the arrow-key rule (`changeDirection`, `validateDirectionChange`);
- one move of the snake (`generateSnake`, plus the direction update at the end of `drawSnake`);
- food placement (`generateFood`, and the state writes of `drawFood`);
- the collision test (`detectCollision`);
- the body of the periodic tick (`startGame`), and the reset at game over (`endGame`).

Layout:

- `grid.dfy` (module `Grid`): cells, directions, the 30-unit cell size and one-cell moves.
- `food.dfy` (module `Placement`): the food item and the outcome of the food-placement retry loop.
- `rules.dfy` (module `Rules`): the rules as functions on a `Game` value, with the invariant `Valid`.
- `properties.dfy` (module `Properties`): lemmas about those functions.
- `session.dfy` (module `Session`): the class `SnakeGame`. Its fields are the source's state.
  Its methods update them in place. The methods that set up, start, tick, take a key, move
  and place food are each proved to match a function in `Rules` or `Placement`.
  `ChooseDifficulty` and `DrawFood` only write fields, and their contracts name the values
  written.

The random food candidate is an input. Each placement takes candidates, front first, from a
supplied sequence `draws` of grid-aligned cells. The canvas width and height are constructor
parameters.

Three behaviours of the code are easy to misread. The model follows the code as written:

- Food is not always placed off the snake. The retry loop walks the segments and stores the
  candidate at every segment that is off it. So once one segment differs from the candidate,
  the candidate is kept, even if another segment lies on it (`Placement.FoodCanLandOnSnake`).
  A retry happens only while the food is still inactive, which means only at the head segment.
  In play the retry never changes the outcome. The head and its neck are different cells, so
  the first draw always lies off one of them and is stored, even when it lands on the snake
  (`Properties.PlacementInPlayKeepsFirstDraw`). Every move that places food, including the
  first move of a game, stores the first draw (`Properties.MoveStoresFirstDraw`).
- Eating compares coordinates only. The food's active flag is not consulted.
- The collision test runs at the start of a tick, on the snake as it is, before the move. It
  does not run after the move. The first move made by `startGame` is not checked at all.

The model proves one property that the code does not state. In every reachable state the head
differs from segments 1, 2 and 3:

- segment 1 is one cell away;
- segment 2 could match only after a reversal, and the reversal guard rules that out;
- segment 3 has the other colour on a chequerboard of cells.

So starting the self-collision test at index 4 misses no collision
(`Properties.SelfHitMissesNothing`). A second invariant also holds in every reachable state:
the score equals 10 times the growth of the snake, `score == 10 * (|snake| - 5)`.

## Model

| member | source | states |
|---|---|---|
| Grid.Opposite | SnakeZ-By-Soma/app.js:127-132 | each direction's reverse is a different direction on the same axis, so left/right and up/down pair up |
| Grid.NextHead | SnakeZ-By-Soma/app.js:147-171 | the new head is one cell from the old head: right increases x, left decreases x, down increases y, up decreases y; grid alignment is kept |
| Placement.FirstAccepted | SnakeZ-By-Soma/app.js:216-227 | the stored candidate is the first draw that lies off some segment, and every earlier draw lies on all segments |
| Placement.PlaceFood | SnakeZ-By-Soma/app.js:205-227 | active food keeps its cell; inactive food becomes active at the first draw that lies off some segment, every earlier draw lying on all segments; with an empty snake nothing changes |
| Placement.MissedHeadAccepted | SnakeZ-By-Soma/app.js:219-223 | a draw off the head ends the retry, so a placement is defined (the stored cell can be an earlier draw) |
| Placement.FirstDrawKept | SnakeZ-By-Soma/app.js:219-227 | when any segment differs from the first draw, that draw is stored |
| Placement.FoodCanLandOnSnake | SnakeZ-By-Soma/app.js:219-227 | with a snake of two cells and the first draw on its second cell, the food is stored on the snake |
| Properties.PlacementInPlayKeepsFirstDraw | SnakeZ-By-Soma/app.js:219-227 | in every reachable state a placement stores the first draw, whether or not it lies on the snake |
| Rules.StartSnake | SnakeZ-By-Soma/app.js:67-76 | five cells, head (300,300), segment i at (300 - 30i, 300) |
| Rules.Initial | SnakeZ-By-Soma/app.js:65-91 | the reset state (start snake, inactive food at (0,0), score 0, both directions right) satisfies the invariant |
| Rules.KeyDirection | SnakeZ-By-Soma/app.js:28-33 | a code maps to a direction exactly when it is 37..40, and the direction's own code is that code |
| Rules.KeyCodeRoundTrip | SnakeZ-By-Soma/app.js:28-33 | each direction's key code maps back to that direction |
| Rules.ValidChange | SnakeZ-By-Soma/app.js:127-132 | a request is valid exactly when it is not the opposite of the current direction; the same direction is accepted |
| Rules.AfterKey | SnakeZ-By-Soma/app.js:119-125 | a key changes at most the pending direction, and only to the key's direction |
| Rules.Advance | SnakeZ-By-Soma/app.js:144-189 | a move adds 0 or 1 to the length; it adds 10 to the score exactly when it grows; the head moves one cell in the current direction; the rest is the old body's prefix; food ends active; the pending direction becomes current |
| Properties.UnknownKeyIgnored | SnakeZ-By-Soma/app.js:119-125 | a code other than 37..40 leaves the whole state unchanged |
| Properties.ArrowKeyRule | SnakeZ-By-Soma/app.js:119-132 | an arrow key sets only the pending direction unless it reverses the current one; a reversal changes nothing |
| Properties.AfterKeyIdempotent | SnakeZ-By-Soma/app.js:113-116 | handling the same key twice equals handling it once, so the listeners that pile up on restart change nothing |
| Properties.AfterKeyKeepsValid | SnakeZ-By-Soma/app.js:119-125 | key handling keeps the invariant, in particular the pending direction never reverses the current one |
| Properties.MoveBackIffOpposite | SnakeZ-By-Soma/app.js:147-171 | two moves return to the start cell exactly when the second is the opposite of the first |
| Properties.AdvanceWithoutFood | SnakeZ-By-Soma/app.js:173-186 | a move off the food cell drops the tail; length and score are unchanged; active food stays where it was, and inactive food is placed against the moved snake |
| Properties.AdvanceOntoFood | SnakeZ-By-Soma/app.js:173-187 | a move onto the food cell keeps the whole old body, adds 10 and places the food afresh as inactive |
| Properties.MoveStoresFirstDraw | SnakeZ-By-Soma/app.js:173-227 | in a reachable state, a move that finds the food inactive or eats it stores the food, now active, at the first draw |
| Properties.AcceptedAligned | SnakeZ-By-Soma/app.js:212-217 | the stored candidate is grid-aligned when the draws are |
| Properties.PlacedAligned | SnakeZ-By-Soma/app.js:205-227 | food placement keeps the food on a grid cell |
| Properties.AdvanceKeepsValid | SnakeZ-By-Soma/app.js:144-203 | a move keeps the invariant: length at least 5, score 10 per growth, chain of adjacent aligned cells, no reversal pending, the head not turned back onto its neck |
| Properties.NoReversalAcrossMove | SnakeZ-By-Soma/app.js:202 | across a move the current direction never becomes the opposite of the one before |
| Properties.FirstMoveRight | SnakeZ-By-Soma/app.js:144-185 | from the reset layout (food at (0,0)), one move gives (330,300)..(210,300) with score 0 |
| Properties.AdjacentSwapsColour | SnakeZ-By-Soma/app.js:245-251 | adjacent aligned cells have different chequerboard colours |
| Properties.HeadClearOfFirstSegments | SnakeZ-By-Soma/app.js:245-251 | in a reachable state segments 1..3 never lie on the head |
| Properties.SelfHitMissesNothing | SnakeZ-By-Soma/app.js:245-251 | in a reachable state, the test from index 4 finds a self-hit exactly when any body segment lies on the head |
| Properties.EdgeCellsInside | SnakeZ-By-Soma/app.js:253-258 | a head at (width - 30, height - 30) is not a collision |
| Properties.BeyondEdgeCollides | SnakeZ-By-Soma/app.js:253-258 | a head at x = -30 or y = -30 is a collision |
| Properties.HeadOnSixthSegment | SnakeZ-By-Soma/app.js:245-251 | a snake whose segment 5 lies on the head collides |
| Rules.Collides | SnakeZ-By-Soma/app.js:244-258 | a head on a segment from index 4 on, left of 0, above 0, right of width - 30 or below height - 30 is a collision; a head inside the playfield, edge cells included, collides exactly when it is on such a segment |
| Rules.AfterTick | SnakeZ-By-Soma/app.js:105-111 | a tick that finds a collision on the current snake gives the reset state; otherwise it gives one move |
| Properties.TickOnCollisionResets | SnakeZ-By-Soma/app.js:105-111 | a tick that finds a collision does not move; it restores the 5-cell layout, score 0, both directions right and inactive food at (0,0) |
| Properties.TickWithoutCollisionMoves | SnakeZ-By-Soma/app.js:105-111 | a tick without a collision is exactly one move |
| Properties.TickKeepsValid | SnakeZ-By-Soma/app.js:105-111 | every tick keeps the invariant |
| Session.SnakeGame.constructor | SnakeZ-By-Soma/app.js:4-43 | a new game holds the reset state with speed "100", no tick scheduled |
| Session.SnakeGame.ChooseDifficulty | SnakeZ-By-Soma/app.js:57-63 | the speed changes only for a present, non-empty value, and then to that value |
| Session.SnakeGame.SetUpGame | SnakeZ-By-Soma/app.js:65-91 | the fields hold the reset state |
| Session.SnakeGame.StartGame | SnakeZ-By-Soma/app.js:93-117 | one unchecked move, then the tick is scheduled; the invariant holds |
| Session.SnakeGame.Tick | SnakeZ-By-Soma/app.js:105-111 | the fields move as one tick says; the tick stays scheduled exactly when there was no collision |
| Session.SnakeGame.ChangeDirection | SnakeZ-By-Soma/app.js:119-125 | the fields change as the key rule says, writing only the pending direction |
| Session.SnakeGame.GenerateSnake | SnakeZ-By-Soma/app.js:144-189 | unshift, then pop or score, then food placement, then direction update, together equal one move |
| Session.SnakeGame.GenerateFood | SnakeZ-By-Soma/app.js:205-228 | the segment walk with its recursive retries ends in the state the placement function gives |
| Session.SnakeGame.DrawFood | SnakeZ-By-Soma/app.js:239-241 | the food becomes active at the given cell |
| Session.SnakeGame.DetectCollision | SnakeZ-By-Soma/app.js:244-259 | true exactly when a segment from index 4 on lies on the head, or the head is left of 0, above 0, right of width - 30 or below height - 30 |
| Session.SnakeGame.EndGame | SnakeZ-By-Soma/app.js:261-272 | the tick is unscheduled and the fields hold the reset state |

## Left out

- DOM lookups, CSS class changes and score or status text writes: these are display only.
- Canvas drawing (`resetCanvas`, the fill and stroke calls): display only. The canvas's size
  is taken to be the configured width and height, which `resetCanvas` sets before every
  collision test.
- Sound playback and rewind: calls into the browser.
- `setInterval`, `clearInterval` and the listener registrations. A tick is a method call, and
  the `running` field stands for the interval being scheduled. The listeners that pile up
  after each restart are not modelled, because `Properties.AfterKeyIdempotent` shows they
  change nothing. A second `startGame` while one run is going (a second interval) is not
  modelled, because the start screen is hidden during play.
- The random candidate (`Math.random`, `Math.round`) is a supplied cell. Its range is not
  modelled. Rounding can place a candidate beyond `width - 30`; the model allows any aligned
  draw.
- Session.SnakeGame.GenerateFood: requires that some supplied draw lies off the head when
  food must be placed. `GenerateSnake`, `StartGame` and `Tick` pass this on as `Feeds`. The
  source retries without bound, so a random source that kept hitting the head would never
  return.
- Session.SnakeGame.ChooseDifficulty: the speed is a string, as the button's data attribute
  is. The number 100 that the source starts with is written "100". A missing value stands for
  `undefined` and the empty string for the other falsy data value.
- Placement.PlaceFood: on an empty snake it does nothing, as the segment walk does. Play never
  reaches an empty snake, because its length is always at least 5.
