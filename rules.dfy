/**
 * The rules of the game as functions on a game-state value: the start layout, the arrow-key
 * rule, one move of the snake, the collision test and one timer tick.  The class in
 * session.dfy runs the same rules by updating its fields and is proved against these.
 */
module Rules {
  import opened Grid
  import opened Placement

  datatype Option<T> = None | Some(value: T)

  /** Points added for each food eaten. */
  const ScoreStep: int := 10

  /** Length of the snake laid out by a reset. */
  const StartLength: int := 5

  /** The first body index the self-collision test compares with the head. */
  const SelfHitFrom: int := 4

  /** The state the rules work on: the body (head first), the food, the score and the two directions. */
  datatype Game = Game(snake: seq<Cell>, food: Food, score: int, direction: Direction, nextDirection: Direction)

  /** Consecutive segments are one cell apart along one axis. */
  predicate Connected(s: seq<Cell>)
  {
    forall i | 0 <= i < |s| - 1 :: Adjacent(s[i], s[i + 1])
  }

  predicate AllAligned(s: seq<Cell>)
  {
    forall i | 0 <= i < |s| :: Aligned(s[i])
  }

  /**
   * What every reachable state satisfies: the snake is at least as long as at the start and
   * the score counts its growth; the pending direction never reverses the current one; the body
   * is a chain of grid cells; the next move does not go back onto the neck, and the last one
   * did not either.
   */
  predicate Valid(g: Game)
  {
    && |g.snake| >= StartLength
    && g.score == ScoreStep * (|g.snake| - StartLength)
    && g.nextDirection != Opposite(g.direction)
    && Connected(g.snake)
    && AllAligned(g.snake)
    && Aligned(g.food.at)
    && NextHead(g.snake[0], g.direction) != g.snake[1]
    && g.snake[2] != g.snake[0]
  }

  /** Five cells in a row, head at (300, 300), the body trailing to the left. */
  function StartSnake(): (s: seq<Cell>)
    ensures |s| == StartLength && s[0] == Cell(300, 300)
    ensures forall i | 0 <= i < |s| :: s[i] == Cell(300 - CellSize * i, 300)
  {
    [Cell(300, 300), Cell(300 - CellSize, 300), Cell(300 - CellSize * 2, 300),
     Cell(300 - CellSize * 3, 300), Cell(300 - CellSize * 4, 300)]
  }

  /** The state `setUpGame` lays out: the start snake, inactive food at (0, 0), score 0, heading right. */
  function Initial(): (g: Game)
    ensures Valid(g)
    ensures g.snake == StartSnake() && g.food == Food(false, Cell(0, 0)) && g.score == 0
    ensures g.direction == Right && g.nextDirection == Right
  {
    Game(StartSnake(), Food(false, Cell(0, 0)), 0, Right, Right)
  }

  /** Arrow-key codes: 37 left, 38 up, 39 right, 40 down; every other code means nothing. */
  function KeyDirection(code: int): (r: Option<Direction>)
    ensures r.Some? <==> 37 <= code <= 40
    ensures r.Some? ==> code == KeyCode(r.value)
  {
    if code == 38 then Some(Up)
    else if code == 40 then Some(Down)
    else if code == 39 then Some(Right)
    else if code == 37 then Some(Left)
    else None
  }

  /** The key code of each direction; `KeyDirection` is its inverse. */
  function KeyCode(d: Direction): (code: int)
  {
    match d
    case Left => 37
    case Up => 38
    case Right => 39
    case Down => 40
  }

  lemma KeyCodeRoundTrip(d: Direction)
    ensures KeyDirection(KeyCode(d)) == Some(d)
  {
  }

  /** `validateDirectionChange`: a requested direction is allowed unless it reverses the current one. */
  function ValidChange(request: Direction, current: Direction): (ok: bool)
    ensures ok <==> request != Opposite(current)
  {
    (request == Left && current != Right) ||
    (request == Right && current != Left) ||
    (request == Up && current != Down) ||
    (request == Down && current != Up)
  }

  /**
   * `changeDirection`: a recognised key that passes the reversal guard against the CURRENT
   * direction becomes the pending direction; nothing else changes, and other keys change nothing.
   */
  function AfterKey(g: Game, code: int): (r: Game)
    ensures r.(nextDirection := g.nextDirection) == g
    ensures r.nextDirection == g.nextDirection ||
            (KeyDirection(code).Some? && r.nextDirection == KeyDirection(code).value)
  {
    match KeyDirection(code)
    case Some(request) => if ValidChange(request, g.direction) then g.(nextDirection := request) else g
    case None => g
  }

  /** The head cell after the next move. */
  function Target(g: Game): Cell
    requires |g.snake| > 0
  {
    NextHead(g.snake[0], g.direction)
  }

  /**
   * The draws suffice for the food placement that ends a move: none are needed when food is
   * active and not about to be eaten; otherwise some draw must lie off the new head.
   */
  predicate Feeds(g: Game, draws: seq<Cell>)
  {
    |g.snake| > 0 &&
    ((g.food.active && Target(g) != g.food.at) || Misses(Target(g), draws))
  }

  /**
   * `generateSnake` followed by `drawSnake`'s direction update: push the new head; if it is on
   * the food's cell (the active flag is not consulted) deactivate the food, add 10 and keep the
   * tail, otherwise drop the tail; place food if inactive; then adopt the pending direction.
   */
  function Advance(g: Game, draws: seq<Cell>): (r: Game)
    requires Feeds(g, draws)
    ensures |r.snake| == |g.snake| || |r.snake| == |g.snake| + 1
    ensures |r.snake| == |g.snake| + 1 <==> r.score == g.score + ScoreStep
    ensures |r.snake| == |g.snake| <==> r.score == g.score
    ensures r.snake[0] == NextHead(g.snake[0], g.direction)
    ensures r.snake[1..] == g.snake[..|r.snake| - 1]
    ensures r.food.active
    ensures r.direction == g.nextDirection && r.nextDirection == g.nextDirection
  {
    var head := Target(g);
    var ate := head == g.food.at;
    var grown := [head] + g.snake;
    var snake := if ate then grown else grown[..|grown| - 1];
    var food := if ate then g.food.(active := false) else g.food;
    assert snake[0] == head;
    Game(snake, PlaceFood(food, snake, draws),
         if ate then g.score + ScoreStep else g.score,
         g.nextDirection, g.nextDirection)
  }

  /** The head is on a body segment at index 4 or later. */
  predicate SelfHit(s: seq<Cell>)
  {
    exists i | SelfHitFrom <= i < |s| :: s[i] == s[0]
  }

  /** The cell lies outside the playfield; the edge cells themselves are inside. */
  predicate OffBoard(c: Cell, width: int, height: int)
  {
    c.x < 0 || c.y < 0 || c.x > width - CellSize || c.y > height - CellSize
  }

  /** `detectCollision`, stated without its loop. */
  predicate Collides(s: seq<Cell>, width: int, height: int): (hit: bool)
    requires |s| > 0
    ensures SelfHit(s) ==> hit
    ensures s[0].x < 0 || s[0].y < 0 ==> hit
    ensures s[0].x > width - CellSize || s[0].y > height - CellSize ==> hit
    ensures 0 <= s[0].x <= width - CellSize && 0 <= s[0].y <= height - CellSize ==> (hit <==> SelfHit(s))
  {
    SelfHit(s) || OffBoard(s[0], width, height)
  }

  /** One timer tick: a collision on the current snake resets the game, otherwise the snake moves. */
  function AfterTick(g: Game, width: int, height: int, draws: seq<Cell>): (r: Game)
    requires |g.snake| > 0
    requires Collides(g.snake, width, height) || Feeds(g, draws)
    ensures Collides(g.snake, width, height) ==> r == Initial()
    ensures !Collides(g.snake, width, height) ==> r == Advance(g, draws)
  {
    if Collides(g.snake, width, height) then Initial() else Advance(g, draws)
  }
}
