/**
 * Food placement.  When the food is inactive a candidate cell is drawn and the snake's
 * segments are walked in order: a segment on the candidate triggers a fresh placement, any
 * other segment stores the candidate and activates the food.  Random draws are supplied as a
 * sequence of candidate cells, consumed from the front.
 */
module Placement {
  import opened Grid

  /** The food item: whether it is on the board, and the cell it was last stored at. */
  datatype Food = Food(active: bool, at: Cell)

  /** Some segment of the snake lies off cell `c`. */
  predicate Differs(snake: seq<Cell>, c: Cell)
  {
    exists i | 0 <= i < |snake| :: snake[i] != c
  }

  /** Some draw lands off cell `head`: the draws then run out only after a placement settles. */
  predicate Misses(head: Cell, draws: seq<Cell>)
  {
    exists k | 0 <= k < |draws| :: draws[k] != head
  }

  /**
   * The supply of draws is enough for a placement against `snake`, when one is needed: a
   * placement takes one draw, and takes the next one while the draw is on the head.
   */
  predicate Enough(food: Food, snake: seq<Cell>, draws: seq<Cell>)
  {
    food.active || (snake == [] && draws != []) || (snake != [] && Misses(snake[0], draws))
  }

  /** Every draw is grid-aligned, as the source's rounding to whole cells makes it. */
  predicate AlignedDraws(draws: seq<Cell>)
  {
    forall k | 0 <= k < |draws| :: Aligned(draws[k])
  }

  /** The first draw that lies off some segment of the snake. */
  function FirstAccepted(snake: seq<Cell>, draws: seq<Cell>): (c: Cell)
    requires exists k | 0 <= k < |draws| :: Differs(snake, draws[k])
    ensures Differs(snake, c)
    ensures exists k | 0 <= k < |draws| :: draws[k] == c && forall j | 0 <= j < k :: !Differs(snake, draws[j])
    decreases |draws|
  {
    if Differs(snake, draws[0]) then draws[0]
    else
      var k :| 0 <= k < |draws| && Differs(snake, draws[k]);
      assert k > 0 && Differs(snake, draws[1..][k - 1]);
      var c := FirstAccepted(snake, draws[1..]);
      ghost var k' :| 0 <= k' < |draws| - 1 && draws[1..][k'] == c && forall j | 0 <= j < k' :: !Differs(snake, draws[1..][j]);
      assert draws[k' + 1] == c && forall j | 0 <= j < k' + 1 :: !Differs(snake, draws[j]);
      c
  }

  /**
   * The food after `generateFood`: already active food keeps its cell; otherwise the food
   * becomes active at the first draw that lies off some segment.  With an empty snake the
   * walk over the segments does nothing.
   */
  function PlaceFood(food: Food, snake: seq<Cell>, draws: seq<Cell>): (r: Food)
    requires Enough(food, snake, draws)
    ensures food.active || snake == [] ==> r == food
    ensures snake != [] ==> r.active
    ensures !food.active && snake != [] ==>
              exists k | 0 <= k < |draws| :: r.at == draws[k] && Differs(snake, draws[k]) &&
                forall j | 0 <= j < k :: !Differs(snake, draws[j])
  {
    if food.active || snake == [] then food
    else
      MissedHeadAccepted(snake, draws);
      Food(true, FirstAccepted(snake, draws))
  }

  /** A draw off the head is off some segment, so a supply that misses the head settles. */
  lemma MissedHeadAccepted(snake: seq<Cell>, draws: seq<Cell>)
    requires snake != [] && Misses(snake[0], draws)
    ensures exists k | 0 <= k < |draws| :: Differs(snake, draws[k])
  {
    var k :| 0 <= k < |draws| && draws[k] != snake[0];
    assert Differs(snake, draws[k]);
  }

  /**
   * The rejection loop keeps the first draw as soon as one segment lies off it: for a snake
   * with two distinct cells the first draw is stored even when it lies on the snake.
   */
  lemma FirstDrawKept(food: Food, snake: seq<Cell>, draws: seq<Cell>)
    requires !food.active && Enough(food, snake, draws)
    requires draws != [] && Differs(snake, draws[0])
    ensures PlaceFood(food, snake, draws) == Food(true, draws[0])
  {
  }

  /** The stored cell can lie on the snake: here the first draw is the snake's second cell. */
  lemma FoodCanLandOnSnake()
    ensures var snake := [Cell(0, 0), Cell(30, 0)];
            var draws := [Cell(30, 0)];
            Enough(Food(false, Cell(0, 0)), snake, draws) &&
            PlaceFood(Food(false, Cell(0, 0)), snake, draws) == Food(true, snake[1])
  {
    var snake := [Cell(0, 0), Cell(30, 0)];
    var draws := [Cell(30, 0)];
    assert draws[0] != snake[0];
    assert Differs(snake, draws[0]);
  }
}
