/**
 * The game object: the state that `SnakeGame` keeps in its fields and the methods that update
 * it in place.  The methods that set up, start, tick, take a key, move and place food are each
 * proved to have the effect the matching function in Rules or Placement gives it;
 * `ChooseDifficulty` and `DrawFood` state the values they write.  Canvas, audio, DOM and timer
 * calls are not modelled.
 */
module Session {
  import opened Grid
  import opened Placement
  import opened Rules
  import Properties

  class SnakeGame {
    /** Canvas size, fixed when the game object is built. */
    const width: int
    const height: int

    var snake: seq<Cell>
    var foodActive: bool
    var foodAt: Cell
    var score: int
    var direction: Direction
    var nextDirection: Direction

    /** The tick interval chosen on the start screen, kept as the button's data string. */
    var speed: string
    /** Whether the periodic tick is scheduled. */
    var running: bool

    /** The rule state held in the fields. */
    function Model(): Game
      reads this
    {
      Game(snake, Food(foodActive, foodAt), score, direction, nextDirection)
    }

    predicate Valid()
      reads this
    {
      Rules.Valid(Model())
    }

    constructor (width: int, height: int)
      ensures this.width == width && this.height == height
      ensures Model() == Initial() && Valid()
      ensures speed == "100" && !running
    {
      this.width := width;
      this.height := height;
      speed := "100";
      running := false;
      new;
      SetUpGame();
    }

    /** Selecting a difficulty stores its interval; a missing or empty value is ignored. */
    method ChooseDifficulty(difficulty: Option<string>)
      modifies this`speed
      ensures difficulty.Some? && difficulty.value != "" ==> speed == difficulty.value
      ensures difficulty.None? || difficulty.value == "" ==> speed == old(speed)
    {
      if difficulty.Some? && difficulty.value != "" {
        speed := difficulty.value;
      }
    }

    /** Lays out the start state, leaving the canvas size, speed and schedule alone. */
    method SetUpGame()
      modifies this`snake, this`foodActive, this`foodAt, this`score, this`direction, this`nextDirection
      ensures Model() == Initial() && Valid()
    {
      snake := StartSnake();
      foodActive, foodAt := false, Cell(0, 0);
      score := 0;
      direction := Right;
      nextDirection := Right;
    }

    /** One unchecked move, then the periodic tick is scheduled. */
    method StartGame(draws: seq<Cell>)
      requires Valid() && Feeds(Model(), draws) && AlignedDraws(draws)
      modifies this
      ensures Valid() && running
      ensures Model() == Advance(old(Model()), draws)
      ensures speed == old(speed)
    {
      GenerateSnake(draws);
      Properties.AdvanceKeepsValid(old(Model()), draws);
      running := true;
    }

    /** The body of the periodic tick: a collision ends the game, otherwise the snake moves. */
    method Tick(draws: seq<Cell>)
      requires Valid() && running && AlignedDraws(draws)
      requires Collides(snake, width, height) || Feeds(Model(), draws)
      modifies this
      ensures Valid()
      ensures Model() == AfterTick(old(Model()), width, height, draws)
      ensures running <==> !Collides(old(snake), width, height)
      ensures speed == old(speed)
    {
      var hit := DetectCollision();
      if !hit {
        GenerateSnake(draws);
        Properties.AdvanceKeepsValid(old(Model()), draws);
      } else {
        EndGame();
      }
    }

    /** A key press: only the pending direction can change. */
    method ChangeDirection(keyCode: int)
      modifies this`nextDirection
      ensures Model() == AfterKey(old(Model()), keyCode)
      ensures old(Valid()) ==> Valid()
    {
      var request := KeyDirection(keyCode);
      if request.Some? && ValidChange(request.value, direction) {
        nextDirection := request.value;
      }
    }

    /**
     * One move: the new head goes in front; eating keeps the tail, otherwise it is dropped;
     * food is placed if needed; and the pending direction becomes the current one.
     */
    method GenerateSnake(draws: seq<Cell>)
      requires Feeds(Model(), draws)
      modifies this`snake, this`foodActive, this`foodAt, this`score, this`direction
      ensures Model() == Advance(old(Model()), draws)
    {
      var head := NextHead(snake[0], direction);
      snake := [head] + snake;
      var ateFood := snake[0] == foodAt;
      if ateFood {
        foodActive := false;
        score := score + ScoreStep;
      } else {
        snake := snake[..|snake| - 1];
      }
      GenerateFood(draws);
      direction := nextDirection;
    }

    /**
     * Food placement as the source does it: active food is drawn where it is; otherwise a
     * draw is taken and, segment by segment, a segment on it starts a fresh placement and any
     * other segment stores it.
     */
    method GenerateFood(draws: seq<Cell>)
      requires Enough(Food(foodActive, foodAt), snake, draws)
      modifies this`foodActive, this`foodAt
      ensures Food(foodActive, foodAt) == PlaceFood(old(Food(foodActive, foodAt)), snake, draws)
      decreases |draws|
    {
      if foodActive {
        DrawFood(foodAt);
        return;
      }
      var candidate := draws[0];
      // what a fresh placement started at the head would store
      ghost var inner := candidate;
      if snake != [] && snake[0] == candidate {
        var k :| 0 <= k < |draws| && draws[k] != snake[0];
        assert draws[1..][k - 1] != snake[0];
        inner := PlaceFood(Food(false, foodAt), snake, draws[1..]).at;
      }
      ghost var onHead := snake != [] && snake[0] == candidate;
      assert onHead ==> Enough(Food(false, old(foodAt)), snake, draws[1..]);
      for i := 0 to |snake|
        invariant i == 0 ==> !foodActive && foodAt == old(foodAt)
        invariant i > 0 ==> foodActive
        invariant i > 0 && (exists j | 0 <= j < i :: snake[j] != candidate) ==> foodAt == candidate
        invariant i > 0 && (forall j | 0 <= j < i :: snake[j] == candidate) ==> foodAt == inner
        invariant onHead ==> inner == PlaceFood(Food(false, old(foodAt)), snake, draws[1..]).at
      {
        if snake[i] == candidate {
          GenerateFood(draws[1..]);
        } else {
          DrawFood(candidate);
        }
      }
    }

    /** Stores the food's cell and marks it active. */
    method DrawFood(at: Cell)
      modifies this`foodActive, this`foodAt
      ensures foodActive && foodAt == at
    {
      foodActive := true;
      foodAt := at;
    }

    /** The head on a segment from index 4 on, or outside the playfield. */
    method DetectCollision() returns (hit: bool)
      requires |snake| > 0
      ensures hit <==> Collides(snake, width, height)
    {
      var i := SelfHitFrom;
      while i < |snake|
        invariant SelfHitFrom <= i && (i <= |snake| || i == SelfHitFrom)
        invariant forall j | SelfHitFrom <= j < i :: snake[j] != snake[0]
      {
        if snake[i] == snake[0] {
          return true;
        }
        i := i + 1;
      }
      var leftCollision := snake[0].x < 0;
      var topCollision := snake[0].y < 0;
      var rightCollision := snake[0].x > width - CellSize;
      var bottomCollision := snake[0].y > height - CellSize;
      hit := leftCollision || topCollision || rightCollision || bottomCollision;
    }

    /** Game over: the tick is unscheduled and the start state is laid out again. */
    method EndGame()
      modifies this
      ensures Model() == Initial() && Valid() && !running
      ensures speed == old(speed)
    {
      running := false;
      SetUpGame();
    }
  }
}
