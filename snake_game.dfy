/**
 * The state machine of the SnakeGame component: the six state fields the
 * component keeps (snake, food, direction, isGameOver, isRunning, score) and
 * the handlers that update them: a direction request, the interval tick,
 * food placement, reset and start.
 */
module SnakeGame {
  import opened Grid

  /** Points awarded for each food eaten. */
  const Reward: int := 10

  const InitialSnake: seq<Cell> := [Cell(10, 10)]
  const InitialFood: Cell := Cell(15, 15)
  const InitialDirection: Direction := Right

  /** The string a direction is spelled as in requests and in the direction field. */
  function Name(d: Direction): string {
    match d
    case Up => "UP"
    case Down => "DOWN"
    case Left => "LEFT"
    case Right => "RIGHT"
  }

  /**
   * Reads a direction request: the inverse of Name, so each of the four
   * names is read as its own direction and any other string as none.
   */
  function RequestedDirection(request: string): (r: Option<Direction>)
    ensures forall d :: r == Some(d) <==> request == Name(d)
  {
    if request == "UP" then Some(Up)
    else if request == "DOWN" then Some(Down)
    else if request == "LEFT" then Some(Left)
    else if request == "RIGHT" then Some(Right)
    else None
  }

  /**
   * The reversal rule: a request is taken unless it names the direction
   * opposite to the current one; anything else leaves the direction alone.
   */
  function Turn(current: Direction, request: string): (r: Direction)
    ensures r != Opposite(current)
    ensures r == current || RequestedDirection(request) == Some(r)
  {
    match RequestedDirection(request)
    case Some(d) => if d == Opposite(current) then current else d
    case None => current
  }

  /** Every named direction other than the reverse one is taken. */
  lemma TurnTakesRequest(current: Direction, d: Direction)
    ensures Turn(current, Name(d)) == (if d == Opposite(current) then current else d)
  {
  }

  /** The key a keyboard event names, mapped to a direction request. */
  function KeyRequest(key: string): (r: Option<string>)
    ensures r.Some? ==> RequestedDirection(r.value).Some?
    ensures r.Some? <==> key in {"ArrowUp", "ArrowDown", "ArrowLeft", "ArrowRight"}
    ensures key == "ArrowUp" <==> r == Some(Name(Up))
    ensures key == "ArrowDown" <==> r == Some(Name(Down))
    ensures key == "ArrowLeft" <==> r == Some(Name(Left))
    ensures key == "ArrowRight" <==> r == Some(Name(Right))
  {
    if key == "ArrowUp" then Some(Name(Up))
    else if key == "ArrowDown" then Some(Name(Down))
    else if key == "ArrowLeft" then Some(Name(Left))
    else if key == "ArrowRight" then Some(Name(Right))
    else None
  }

  /**
   * With a single direction field, two requests between ticks can turn the
   * snake around: a side turn followed by the reverse of the direction of
   * the last move is accepted, and the next move then lands on the neck.
   */
  lemma TwoRequestsReverse(body: seq<Cell>, d: Direction, side: Direction)
    requires |body| >= 2 && body[0] == Move(body[1], d)
    requires side != d && side != Opposite(d)
    ensures Turn(Turn(d, Name(side)), Name(Opposite(d))) == Opposite(d)
    ensures Collides(Move(body[0], Opposite(d)), body)
  {
  }

  /** The component's state and its handlers. */
  class Game {
    var snake: seq<Cell>
    var food: Cell
    var direction: Direction
    var isGameOver: bool
    var isRunning: bool
    var score: int

    /**
     * What every handler keeps: the body is a valid snake, the food is on the
     * board, each point of score came with one cell of growth, and a game
     * that is over is not running.
     */
    ghost predicate Valid()
      reads this
    {
      ValidBody(snake) && InBounds(food) &&
      score == Reward * (|snake| - 1) &&
      !(isRunning && isGameOver)
    }

    /** Ticks take effect only while the game runs and is not over. */
    predicate Live()
      reads this
      ensures Valid() ==> (Live() <==> isRunning)
    {
      isRunning && !isGameOver
    }

    /** The initial state: not yet running. */
    constructor ()
      ensures Valid()
      ensures snake == InitialSnake && food == InitialFood && direction == InitialDirection
      ensures !isGameOver && !isRunning && score == 0
    {
      snake := InitialSnake;
      food := InitialFood;
      direction := InitialDirection;
      isGameOver := false;
      isRunning := false;
      score := 0;
    }

    /** A direction request; the four checks all read the direction in effect on entry. */
    method ChangeDirection(request: string)
      requires Valid()
      modifies this`direction
      ensures Valid()
      ensures direction == Turn(old(direction), request)
    {
      var current := direction;
      if request == "UP" && current != Down { direction := Up; }
      if request == "DOWN" && current != Up { direction := Down; }
      if request == "LEFT" && current != Right { direction := Left; }
      if request == "RIGHT" && current != Left { direction := Right; }
    }

    /** A key press: the four arrow keys become direction requests, other keys do nothing. */
    method KeyDown(key: string)
      requires Valid()
      modifies this`direction
      ensures Valid()
      ensures direction == match KeyRequest(key)
                           case Some(request) => Turn(old(direction), request)
                           case None => old(direction)
    {
      if key == "ArrowUp" {
        ChangeDirection("UP");
      } else if key == "ArrowDown" {
        ChangeDirection("DOWN");
      } else if key == "ArrowLeft" {
        ChangeDirection("LEFT");
      } else if key == "ArrowRight" {
        ChangeDirection("RIGHT");
      }
    }

    /**
     * Places the food on some board cell the current body does not occupy.
     * The random draw is a nondeterministic choice among the free cells.
     */
    method GenerateFood()
      requires FreeCells(snake) != {}
      modifies this`food
      ensures InBounds(food) && food !in snake
    {
      var c :| c in FreeCells(snake);
      food := c;
    }

    /** Back to the initial body, food, direction and score, running. */
    method Reset()
      modifies this
      ensures Valid()
      ensures snake == InitialSnake && food == InitialFood && direction == InitialDirection
      ensures !isGameOver && isRunning && score == 0
    {
      snake := InitialSnake;
      food := InitialFood;
      direction := InitialDirection;
      isGameOver := false;
      score := 0;
      isRunning := true;
    }

    /** The start button, offered only while the game is neither running nor over. */
    method Start()
      requires Valid()
      modifies this`isRunning
      ensures Valid()
      ensures if old(!isRunning && !isGameOver) then isRunning else isRunning == old(isRunning)
    {
      if !isRunning && !isGameOver {
        isRunning := true;
      }
    }

    /**
     * One tick of the game loop. The head moves one cell in the current
     * direction; leaving the board or hitting any cell of the body as it was
     * before the move (tail included) ends the game and changes nothing
     * else. Otherwise the new head is prepended; on the food the body keeps
     * its tail, the score rises by the reward and new food is placed away
     * from the pre-move body, and elsewhere the tail is dropped.
     */
    method Tick()
      requires Valid()
      modifies this
      ensures Valid()
      ensures direction == old(direction)
      ensures !old(Live()) ==> unchanged(this)
      ensures old(Live()) && Collides(Move(old(snake)[0], old(direction)), old(snake)) ==>
                isGameOver && !isRunning &&
                snake == old(snake) && food == old(food) && score == old(score)
      ensures old(Live()) && !Collides(Move(old(snake)[0], old(direction)), old(snake)) ==>
                var h := Move(old(snake)[0], old(direction));
                isRunning && !isGameOver &&
                if h == old(food) then
                  snake == [h] + old(snake) && score == old(score) + Reward &&
                  InBounds(food) && food !in old(snake)
                else
                  snake == [h] + old(snake)[..|old(snake)| - 1] &&
                  score == old(score) && food == old(food)
    {
      if !isRunning || isGameOver {
        return;
      }
      var head := snake[0];
      match direction {
        case Up => head := head.(y := head.y - 1);
        case Down => head := head.(y := head.y + 1);
        case Left => head := head.(x := head.x - 1);
        case Right => head := head.(x := head.x + 1);
      }
      if head.x < 0 || head.x >= BoardSize || head.y < 0 || head.y >= BoardSize || head in snake {
        isGameOver := true;
        isRunning := false;
        return;
      }
      var newSnake := [head] + snake;
      if head == food {
        score := score + Reward;
        // The new head is itself free in the pre-move body, so a cell is always found.
        assert head in FreeCells(snake);
        GenerateFood();
        GrowKeepsValid(snake, head);
      } else {
        newSnake := newSnake[..|newSnake| - 1];
        assert newSnake == [head] + snake[..|snake| - 1];
        SlitherKeepsValid(snake, head);
      }
      snake := newSnake;
    }
  }

  /**
   * The food placed while eating may land on the cell the head has just
   * entered: that cell is free in the pre-move body the placement avoids.
   */
  lemma FoodMayLandOnHead(body: seq<Cell>, d: Direction)
    requires |body| > 0 && !Collides(Move(body[0], d), body)
    ensures Move(body[0], d) in FreeCells(body)
    ensures Move(body[0], d) !in FreeCells([Move(body[0], d)] + body)
  {
  }

  /**
   * Two runs a caller can reason about from the contracts alone: eating the
   * food one cell to the right of the start, and turning left into the wall
   * from the corner.
   */
  method Scenarios() {
    var g := new Game();
    g.Reset();
    g.food := Cell(11, 10);
    g.Tick();
    assert g.snake == [Cell(11, 10), Cell(10, 10)] && g.score == 10;
    assert g.food != Cell(10, 10) && g.Live();

    g.Reset();
    g.snake := [Cell(0, 0)];
    g.ChangeDirection("UP");
    g.ChangeDirection("LEFT");
    assert g.direction == Left;
    g.Tick();
    assert g.isGameOver && !g.isRunning && g.snake == [Cell(0, 0)] && g.score == 0;
    g.Tick();
    assert g.isGameOver && g.snake == [Cell(0, 0)];
    g.Start();
    assert !g.isRunning;
    g.Reset();
    assert g.Live() && g.snake == InitialSnake && g.score == 0;
  }
}
