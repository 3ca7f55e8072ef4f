/** What the rules guarantee: invariants kept by every operation, and the effect of each step. */
module Properties {
  import opened Grid
  import opened Placement
  import opened Rules

  // ---------------------------------------------------------------- input

  /** A code outside 37..40 leaves the whole state as it was. */
  lemma UnknownKeyIgnored(g: Game, code: int)
    requires code < 37 || code > 40
    ensures AfterKey(g, code) == g
  {
  }

  /**
   * An arrow key is taken exactly when it does not reverse the current direction, and then
   * only the pending direction changes; a rejected reversal changes nothing.
   */
  lemma ArrowKeyRule(g: Game, d: Direction)
    ensures d != Opposite(g.direction) ==> AfterKey(g, KeyCode(d)) == g.(nextDirection := d)
    ensures d == Opposite(g.direction) ==> AfterKey(g, KeyCode(d)) == g
  {
    KeyCodeRoundTrip(d);
  }

  /** Pressing the same key again changes nothing, so duplicated key listeners are harmless. */
  lemma AfterKeyIdempotent(g: Game, code: int)
    ensures AfterKey(AfterKey(g, code), code) == AfterKey(g, code)
  {
  }

  lemma AfterKeyKeepsValid(g: Game, code: int)
    requires Valid(g)
    ensures Valid(AfterKey(g, code))
  {
  }

  // ---------------------------------------------------------------- one move

  /** Two moves return to the start exactly when the second reverses the first. */
  lemma MoveBackIffOpposite(c: Cell, a: Direction, b: Direction)
    ensures NextHead(NextHead(c, a), b) == c <==> b == Opposite(a)
  {
    match a
    case Right => assert NextHead(c, a).x == c.x + CellSize;
    case Left => assert NextHead(c, a).x == c.x - CellSize;
    case Up => assert NextHead(c, a).y == c.y - CellSize;
    case Down => assert NextHead(c, a).y == c.y + CellSize;
  }

  /** A move that does not eat: the old body minus its tail follows the new head; score and length stay. */
  lemma AdvanceWithoutFood(g: Game, draws: seq<Cell>)
    requires Feeds(g, draws) && NextHead(g.snake[0], g.direction) != g.food.at
    ensures var r := Advance(g, draws);
            && r.snake == [NextHead(g.snake[0], g.direction)] + g.snake[..|g.snake| - 1]
            && |r.snake| == |g.snake| && r.score == g.score
            && (g.food.active ==> r.food == g.food)
            && (!g.food.active ==> Enough(g.food, r.snake, draws) && r.food == PlaceFood(g.food, r.snake, draws))
  {
  }

  /**
   * A move onto the food's cell: the whole old body follows the new head, the score gains 10,
   * and the food is placed afresh against the grown snake as if inactive.
   */
  lemma AdvanceOntoFood(g: Game, draws: seq<Cell>)
    requires Feeds(g, draws) && NextHead(g.snake[0], g.direction) == g.food.at
    ensures var r := Advance(g, draws);
            && r.snake == [NextHead(g.snake[0], g.direction)] + g.snake
            && |r.snake| == |g.snake| + 1 && r.score == g.score + ScoreStep
            && Enough(g.food.(active := false), r.snake, draws)
            && r.food == PlaceFood(g.food.(active := false), r.snake, draws)
  {
  }

  /** Food stored from the draws lies on a grid cell. */
  lemma AcceptedAligned(snake: seq<Cell>, draws: seq<Cell>)
    requires AlignedDraws(draws)
    requires exists k | 0 <= k < |draws| :: Differs(snake, draws[k])
    ensures Aligned(FirstAccepted(snake, draws))
  {
    var k :| 0 <= k < |draws| && draws[k] == FirstAccepted(snake, draws);
  }

  lemma PlacedAligned(food: Food, snake: seq<Cell>, draws: seq<Cell>)
    requires Enough(food, snake, draws) && Aligned(food.at) && AlignedDraws(draws)
    ensures Aligned(PlaceFood(food, snake, draws).at)
  {
    if !food.active && snake != [] {
      MissedHeadAccepted(snake, draws);
      AcceptedAligned(snake, draws);
    }
  }

  /**
   * In play the retry never changes the outcome: the head and its neck are different cells, so
   * the first draw always lies off one of them and is stored, wherever it lands.
   */
  lemma PlacementInPlayKeepsFirstDraw(g: Game, draws: seq<Cell>)
    requires Valid(g) && !g.food.active && Enough(g.food, g.snake, draws) && draws != []
    ensures PlaceFood(g.food, g.snake, draws) == Food(true, draws[0])
  {
    assert Adjacent(g.snake[0], g.snake[1]);
    if draws[0] == g.snake[0] {
      assert g.snake[1] != draws[0];
    }
    assert Differs(g.snake, draws[0]);
    FirstDrawKept(g.food, g.snake, draws);
  }

  /**
   * Whenever a move places food (the food was inactive, or is eaten), the first draw is stored:
   * the new head and the old head behind it are different cells, so the first draw lies off
   * one of them.  This covers the first move of every game, which starts with inactive food.
   */
  lemma MoveStoresFirstDraw(g: Game, draws: seq<Cell>)
    requires Valid(g) && Feeds(g, draws) && draws != []
    requires !g.food.active || Target(g) == g.food.at
    ensures Advance(g, draws).food == Food(true, draws[0])
  {
    var r := Advance(g, draws);
    assert r.snake[1] == g.snake[0] && Adjacent(r.snake[0], r.snake[1]);
    if draws[0] == r.snake[0] {
      assert r.snake[1] != draws[0];
    }
    assert Differs(r.snake, draws[0]);
  }

  /** Every move keeps the invariant, given grid-aligned draws. */
  lemma AdvanceKeepsValid(g: Game, draws: seq<Cell>)
    requires Valid(g) && Feeds(g, draws) && AlignedDraws(draws)
    ensures Valid(Advance(g, draws))
  {
  }

  /** The current direction never flips to its opposite across a move. */
  lemma NoReversalAcrossMove(g: Game, draws: seq<Cell>)
    requires Valid(g) && Feeds(g, draws)
    ensures Advance(g, draws).direction != Opposite(g.direction)
  {
  }

  /** The first move from the start layout, heading right, with the food elsewhere. */
  lemma FirstMoveRight(draws: seq<Cell>)
    requires Feeds(Initial(), draws)
    ensures Advance(Initial(), draws).snake ==
            [Cell(330, 300), Cell(300, 300), Cell(270, 300), Cell(240, 300), Cell(210, 300)]
    ensures Advance(Initial(), draws).score == 0
  {
  }

  // ---------------------------------------------------------------- collisions

  /** Cells of a grid-aligned chain alternate between two colours, as on a chequerboard. */
  function Colour(c: Cell): int
  {
    (c.x / CellSize + c.y / CellSize) % 2
  }

  lemma AdjacentSwapsColour(a: Cell, b: Cell)
    requires Aligned(a) && Aligned(b) && Adjacent(a, b)
    ensures Colour(a) != Colour(b)
  {
    var ax, ay, bx, bY := a.x / CellSize, a.y / CellSize, b.x / CellSize, b.y / CellSize;
    assert a.x == CellSize * ax && a.y == CellSize * ay;
    assert b.x == CellSize * bx && b.y == CellSize * bY;
    if a.y == b.y {
      assert ay == bY && (bx == ax + 1 || bx == ax - 1);
    } else {
      assert ax == bx && (bY == ay + 1 || bY == ay - 1);
    }
  }

  /**
   * In every reachable state the head differs from the three segments behind it: the neck is
   * one cell away, the third segment would need a reversal, and the fourth has the other
   * chequerboard colour.  So starting the self-collision test at index 4 misses nothing.
   */
  lemma HeadClearOfFirstSegments(g: Game)
    requires Valid(g)
    ensures forall i | 1 <= i < SelfHitFrom :: g.snake[i] != g.snake[0]
  {
    var s := g.snake;
    assert Adjacent(s[0], s[1]) && Adjacent(s[1], s[2]) && Adjacent(s[2], s[3]);
    assert Aligned(s[0]) && Aligned(s[1]) && Aligned(s[2]) && Aligned(s[3]);
    AdjacentSwapsColour(s[0], s[1]);
    AdjacentSwapsColour(s[1], s[2]);
    AdjacentSwapsColour(s[2], s[3]);
  }

  lemma SelfHitMissesNothing(g: Game)
    requires Valid(g)
    ensures SelfHit(g.snake) <==> exists i | 1 <= i < |g.snake| :: g.snake[i] == g.snake[0]
  {
    HeadClearOfFirstSegments(g);
  }

  /** The edge cells are inside: a head at (width - 30, height - 30) with no self-hit is safe. */
  lemma EdgeCellsInside(s: seq<Cell>, width: int, height: int)
    requires |s| > 0 && s[0] == Cell(width - CellSize, height - CellSize)
    requires width >= CellSize && height >= CellSize && !SelfHit(s)
    ensures !Collides(s, width, height)
  {
  }

  /** One cell beyond the left or the top edge is a collision. */
  lemma BeyondEdgeCollides(s: seq<Cell>, width: int, height: int)
    requires |s| > 0 && (s[0].x == -CellSize || s[0].y == -CellSize)
    ensures Collides(s, width, height)
  {
  }

  /** A segment at index 5 on the head is a collision. */
  lemma HeadOnSixthSegment(s: seq<Cell>, width: int, height: int)
    requires |s| >= 6 && s[5] == s[0]
    ensures Collides(s, width, height)
  {
    assert SelfHitFrom <= 5;
  }

  // ---------------------------------------------------------------- ticks

  /** A tick that finds a collision does not move: it lays out the start state again. */
  lemma TickOnCollisionResets(g: Game, width: int, height: int, draws: seq<Cell>)
    requires |g.snake| > 0 && Collides(g.snake, width, height)
    ensures var r := AfterTick(g, width, height, draws);
            && r.snake == [Cell(300, 300), Cell(270, 300), Cell(240, 300), Cell(210, 300), Cell(180, 300)]
            && r.score == 0 && r.direction == Right && r.nextDirection == Right
            && r.food == Food(false, Cell(0, 0))
  {
  }

  /** A tick without a collision is exactly one move. */
  lemma TickWithoutCollisionMoves(g: Game, width: int, height: int, draws: seq<Cell>)
    requires Feeds(g, draws) && !Collides(g.snake, width, height)
    ensures AfterTick(g, width, height, draws) == Advance(g, draws)
  {
  }

  lemma TickKeepsValid(g: Game, width: int, height: int, draws: seq<Cell>)
    requires Valid(g) && AlignedDraws(draws)
    requires Collides(g.snake, width, height) || Feeds(g, draws)
    ensures Valid(AfterTick(g, width, height, draws))
  {
    if !Collides(g.snake, width, height) {
      AdvanceKeepsValid(g, draws);
    }
  }
}
