/** The game logic of GameProgramming/examples/snake.c: a snake on a
    20 x 20 grid that moves one cell per tick, grows when it eats, and ends
    the game when its head leaves the grid or runs into its body. The global
    game state is one Game object; key presses and the random food position
    come in as parameters. */
module Snake {
  import opened Common

  const GRID_SIZE: int := 20
  const MAX_SNAKE_LENGTH: nat := 400

  datatype Direction = Up | Down | Left | Right
  datatype Point = Point(x: int, y: int)
  datatype GameState = Menu | Playing | GameOver

  /** The keys handle_input looks at: the four arrows as is_key_pressed
      reports them, Enter and Escape as key_just_pressed reports them. */
  datatype Keys = Keys(up: bool, down: bool, left: bool, right: bool, enter: bool, escape: bool)

  function Opposite(d: Direction): (o: Direction)
    ensures o != d
  {
    match d
    case Up => Down
    case Down => Up
    case Left => Right
    case Right => Left
  }

  /** Two cells that share a side. */
  predicate Adjacent(p: Point, q: Point)
  {
    Abs(p.x - q.x) + Abs(p.y - q.y) == 1
  }

  /** The cell next to p in direction d (y grows downwards). */
  function Step(p: Point, d: Direction): (q: Point)
    ensures Adjacent(p, q)
  {
    match d
    case Up => Point(p.x, p.y - 1)
    case Down => Point(p.x, p.y + 1)
    case Left => Point(p.x - 1, p.y)
    case Right => Point(p.x + 1, p.y)
  }

  /** A step back the opposite way returns to the cell. */
  lemma StepBack(p: Point, d: Direction)
    ensures Step(Step(p, d), Opposite(d)) == p
  {
  }

  predicate InGrid(p: Point)
  {
    0 <= p.x < GRID_SIZE && 0 <= p.y < GRID_SIZE
  }

  /** p is one of cells[start..], where start is 1 when the head is skipped. */
  predicate OnSnake(cells: seq<Point>, p: Point, skipHead: bool)
  {
    exists i :: (if skipHead then 1 else 0) <= i < |cells| && cells[i] == p
  }

  predicate Distinct(cells: seq<Point>)
  {
    forall i, j :: 0 <= i < j < |cells| ==> cells[i] != cells[j]
  }

  predicate AllInGrid(cells: seq<Point>)
  {
    forall i :: 0 <= i < |cells| ==> InGrid(cells[i])
  }

  /** Each cell of the body shares a side with the one before it. */
  predicate Chain(cells: seq<Point>)
  {
    forall i :: 1 <= i < |cells| ==> Adjacent(cells[i - 1], cells[i])
  }

  /** The body init_snake lays out: three cells in the middle row, head
      rightmost. */
  function InitialBody(): (cells: seq<Point>)
    ensures |cells| == 3 && Distinct(cells) && AllInGrid(cells) && Chain(cells)
  {
    [Point(GRID_SIZE / 2, GRID_SIZE / 2), Point(GRID_SIZE / 2 - 1, GRID_SIZE / 2), Point(GRID_SIZE / 2 - 2, GRID_SIZE / 2)]
  }

  /** The next_direction handle_input leaves: each pressed arrow, in the
      order up, down, left, right, is taken unless it points against the
      current direction. */
  function Steer(direction: Direction, next: Direction, keys: Keys): (d: Direction)
    ensures next != Opposite(direction) ==> d != Opposite(direction)
    ensures d == next || (d == Up && keys.up) || (d == Down && keys.down)
         || (d == Left && keys.left) || (d == Right && keys.right)
    ensures keys.right && direction != Left ==> d == Right
  {
    var afterUp := if keys.up && direction != Down then Up else next;
    var afterDown := if keys.down && direction != Up then Down else afterUp;
    var afterLeft := if keys.left && direction != Right then Left else afterDown;
    if keys.right && direction != Left then Right else afterLeft
  }

  /** The body after a move of the head to head: without food every cell
      takes the place of the one before it and the tail cell is dropped;
      with food below the maximum length the body grows by the head; with
      food at the maximum length only the head cell is replaced. */
  function Advance(cells: seq<Point>, head: Point, ate: bool): (r: seq<Point>)
    requires 1 <= |cells| <= MAX_SNAKE_LENGTH
    ensures |r| == if ate && |cells| < MAX_SNAKE_LENGTH then |cells| + 1 else |cells|
    ensures 1 <= |r| <= MAX_SNAKE_LENGTH && r[0] == head
    ensures !ate || |cells| < MAX_SNAKE_LENGTH ==> forall i :: 1 <= i < |r| ==> r[i] == cells[i - 1]
    ensures ate && |cells| == MAX_SNAKE_LENGTH ==> r[1..] == cells[1..]
  {
    if !ate then [head] + cells[..|cells| - 1]
    else if |cells| < MAX_SNAKE_LENGTH then [head] + cells
    else [head] + cells[1..]
  }

  /** A head that moves to a cell off the body keeps the cells distinct. */
  lemma AdvanceKeepsDistinct(cells: seq<Point>, head: Point, ate: bool)
    requires 1 <= |cells| <= MAX_SNAKE_LENGTH
    requires Distinct(cells) && !OnSnake(cells, head, false)
    ensures Distinct(Advance(cells, head, ate))
  {
    var r := Advance(cells, head, ate);
    forall i, j | 0 <= i < j < |r|
      ensures r[i] != r[j]
    {
      if i == 0 {
        assert r[j] in cells;
      } else if !ate || |cells| < MAX_SNAKE_LENGTH {
        assert r[i] == cells[i - 1] && r[j] == cells[j - 1];
      } else {
        assert r[i] == cells[i] && r[j] == cells[j];
      }
    }
  }

  /** A move inside the grid keeps every cell inside it. */
  lemma AdvanceKeepsInGrid(cells: seq<Point>, head: Point, ate: bool)
    requires 1 <= |cells| <= MAX_SNAKE_LENGTH
    requires AllInGrid(cells) && InGrid(head)
    ensures AllInGrid(Advance(cells, head, ate))
  {
    var r := Advance(cells, head, ate);
    forall i | 1 <= i < |r|
      ensures InGrid(r[i])
    {
      assert r[i] in cells;
    }
  }

  /** A head that moves to a neighbouring cell keeps the body one connected
      chain, except in the full-length case where the old head is dropped. */
  lemma AdvanceKeepsChain(cells: seq<Point>, head: Point, ate: bool)
    requires 1 <= |cells| <= MAX_SNAKE_LENGTH && (!ate || |cells| < MAX_SNAKE_LENGTH)
    requires Chain(cells) && Adjacent(head, cells[0])
    ensures Chain(Advance(cells, head, ate))
  {
    var r := Advance(cells, head, ate);
    forall i | 1 <= i < |r|
      ensures Adjacent(r[i - 1], r[i])
    {
      if i > 1 {
        assert r[i - 1] == cells[i - 2] && r[i] == cells[i - 1];
      }
    }
  }

  /** A cell off the body and other than the new head stays off the body. */
  lemma AdvanceKeepsOff(cells: seq<Point>, head: Point, ate: bool, p: Point)
    requires 1 <= |cells| <= MAX_SNAKE_LENGTH
    requires !OnSnake(cells, p, false) && p != head
    ensures !OnSnake(Advance(cells, head, ate), p, false)
  {
    var r := Advance(cells, head, ate);
    forall i | 0 <= i < |r|
      ensures r[i] != p
    {
      if i > 0 {
        assert r[i] in cells;
      }
    }
  }

  /** The test spawn_food repeats until it passes: the drawn cell is not on
      the body it is given. */
  predicate Accepted(cells: seq<Point>, p: Point)
  {
    InGrid(p) && !OnSnake(cells, p, false)
  }

  /** update as written calls spawn_food before the body moves, so the test
      runs against the old body: the cell the head has just entered, where
      the eaten food was, passes it, and the new food can land under the
      head. */
  lemma FoodUnderHeadAsWritten()
    ensures var cells := InitialBody();
            var head := Step(cells[0], Right);
            Accepted(cells, head) && OnSnake(Advance(cells, head, true), head, false)
  {
    var cells := InitialBody();
    var head := Step(cells[0], Right);
    assert Advance(cells, head, true)[0] == head;
  }

  /** The global game state of snake.c. body[0..length) is the snake, head
      first. */
  class Game {
    const body: array<Point>
    var length: nat
    var direction: Direction
    var nextDirection: Direction
    var food: Point
    var score: int
    var state: GameState
    var moveTimer: int
    var moveDelay: int

    /** The invariant apart from the food: a snake of distinct cells inside
        the grid that cannot turn back on itself. */
    ghost predicate Shaped()
      reads this, body
    {
      body.Length == MAX_SNAKE_LENGTH && length <= MAX_SNAKE_LENGTH
      && (state == Playing ==> 1 <= length)
      && 3 <= moveDelay
      && nextDirection != Opposite(direction)
      && Distinct(body[..length]) && AllInGrid(body[..length])
    }

    /** The whole invariant: the food also lies in the grid, off the snake. */
    ghost predicate Valid()
      reads this, body
    {
      Shaped() && Accepted(body[..length], food)
    }

    /** The snake's cells, head first. */
    ghost function Body(): (cells: seq<Point>)
      reads this, body
      requires Shaped()
      ensures |cells| == length && Distinct(cells) && AllInGrid(cells)
    {
      body[..length]
    }

    /** The globals' starting values: at the menu, no snake, a move every
        tenth tick. */
    constructor ()
      ensures Valid() && state == Menu && length == 0 && score == 0
      ensures moveTimer == 0 && moveDelay == 10
    {
      body := new Point[MAX_SNAKE_LENGTH](_ => Point(0, 0));
      length := 0;
      direction := Up;
      nextDirection := Up;
      food := Point(0, 0);
      score := 0;
      state := Menu;
      moveTimer := 0;
      moveDelay := 10;
    }

    /** collides_with_snake: whether (x, y) is a cell of the snake, the head
        left out when skipHead is set. */
    method CollidesWithSnake(x: int, y: int, skipHead: bool) returns (hit: bool)
      requires Valid()
      ensures hit <==> OnSnake(Body(), Point(x, y), skipHead)
    {
      var start := if skipHead then 1 else 0;
      var i := start;
      while i < length
        invariant start <= i
        invariant forall k :: start <= k < i && k < length ==> body[k] != Point(x, y)
      {
        if body[i].x == x && body[i].y == y {
          return true;
        }
        i := i + 1;
      }
      return false;
    }

    /** init_snake */
    method InitSnake()
      requires Shaped()
      modifies this, body
      ensures Shaped() && Body() == InitialBody()
      ensures direction == Right && nextDirection == Right
      ensures food == old(food) && score == old(score) && state == old(state)
      ensures moveTimer == old(moveTimer) && moveDelay == old(moveDelay)
    {
      length := 3;
      direction := Right;
      nextDirection := Right;
      body[0] := Point(GRID_SIZE / 2, GRID_SIZE / 2);
      body[1] := Point(body[0].x - 1, body[0].y);
      body[2] := Point(body[1].x - 1, body[1].y);
      assert body[..length] == InitialBody();
    }

    /** spawn_food, by its outcome: the food goes to a drawn cell that is in
        the grid and off the snake. */
    method SpawnFood(draw: Point)
      requires Shaped() && Accepted(Body(), draw)
      modifies this
      ensures Valid() && food == draw
      ensures length == old(length) && direction == old(direction) && nextDirection == old(nextDirection)
      ensures score == old(score) && state == old(state) && moveTimer == old(moveTimer) && moveDelay == old(moveDelay)
    {
      food := draw;
    }

    /** start_game: a fresh snake, food at draw, a zero score and the timer
        reset; move_delay keeps its value from the last game. */
    method StartGame(draw: Point)
      requires Valid() && Accepted(InitialBody(), draw)
      modifies this, body
      ensures Valid() && Body() == InitialBody() && food == draw
      ensures direction == Right && nextDirection == Right
      ensures score == 0 && moveTimer == 0 && state == Playing && moveDelay == old(moveDelay)
    {
      food := draw;
      InitSnake();
      score := 0;
      moveTimer := 0;
      state := Playing;
    }

    /** handle_input: Enter starts a game from the menu or after a game over
        (draw is where spawn_food puts the food), Escape after a game over
        returns to the menu, and while playing the arrows steer. */
    method HandleInput(keys: Keys, draw: Point)
      requires Valid()
      requires keys.enter ==> Accepted(InitialBody(), draw)
      modifies this, body
      ensures Valid()
      ensures old(state) == Playing ==>
        state == Playing && Body() == old(Body()) && direction == old(direction)
        && nextDirection == Steer(old(direction), old(nextDirection), keys)
      ensures old(state) == Menu ==>
        if keys.enter then state == Playing && Body() == InitialBody() && score == 0
        else state == Menu && Body() == old(Body())
      ensures old(state) == GameOver ==>
        (keys.enter ==> Body() == InitialBody() && score == 0)
        && (!keys.enter ==> Body() == old(Body()))
        && state == (if keys.escape then Menu else if keys.enter then Playing else GameOver)
      ensures moveDelay == old(moveDelay)
      ensures old(state) == Playing || !keys.enter ==>
        score == old(score) && food == old(food) && moveTimer == old(moveTimer)
      ensures old(state) != Playing && !keys.enter ==>
        direction == old(direction) && nextDirection == old(nextDirection)
      ensures old(state) != Playing && keys.enter ==>
        food == draw && moveTimer == 0 && direction == Right && nextDirection == Right
    {
      if state == Menu {
        if keys.enter {
          StartGame(draw);
        }
      } else if state == Playing {
        if keys.up && direction != Down {
          nextDirection := Up;
        }
        if keys.down && direction != Up {
          nextDirection := Down;
        }
        if keys.left && direction != Right {
          nextDirection := Left;
        }
        if keys.right && direction != Left {
          nextDirection := Right;
        }
      } else {
        if keys.enter {
          StartGame(draw);
        }
        if keys.escape {
          state := Menu;
        }
      }
    }

    /** The cell the head moves to on the next move. */
    ghost function Ahead(): Point
      reads this, body
      requires Valid() && 1 <= length
    {
      Step(body[0], nextDirection)
    }

    /** Whether the next move hits a wall or the body. */
    ghost predicate Blocked()
      reads this, body
      requires Valid() && 1 <= length
    {
      !InGrid(Ahead()) || OnSnake(Body(), Ahead(), false)
    }

    /** Whether the next move reaches the food. */
    ghost predicate Eats()
      reads this, body
      requires Valid() && 1 <= length
    {
      !Blocked() && Ahead() == food
    }

    /** The loops of update: body[i] takes body[i - 1] for i from last down
        to 1. */
    method ShiftBack(last: nat)
      requires last < body.Length
      modifies body
      ensures body[0] == old(body[0])
      ensures forall i :: 1 <= i <= last ==> body[i] == old(body[i - 1])
      ensures forall i :: last < i < body.Length ==> body[i] == old(body[i])
    {
      var i := last;
      while i > 0
        invariant 0 <= i <= last
        invariant forall k :: 0 <= k <= i ==> body[k] == old(body[k])
        invariant forall k :: i < k <= last ==> body[k] == old(body[k - 1])
        invariant forall k :: last < k < body.Length ==> body[k] == old(body[k])
      {
        body[i] := body[i - 1];
        i := i - 1;
      }
    }

    /** The body step of update: the cells move up behind head (the snake
        grows by one when it ate and is below the maximum length). */
    method MoveBody(head: Point, ate: bool)
      requires Shaped() && 1 <= length && InGrid(head) && !OnSnake(Body(), head, false)
      modifies this, body
      ensures Shaped() && Body() == Advance(old(Body()), head, ate)
      ensures direction == old(direction) && nextDirection == old(nextDirection) && food == old(food)
      ensures score == old(score) && state == old(state) && moveTimer == old(moveTimer) && moveDelay == old(moveDelay)
    {
      ghost var cells := Body();
      if !ate {
        ShiftBack(length - 1);
      } else if length < MAX_SNAKE_LENGTH {
        ShiftBack(length);
        length := length + 1;
      }
      body[0] := head;
      assert body[..length] == Advance(cells, head, ate);
      AdvanceKeepsDistinct(cells, head, ate);
      AdvanceKeepsInGrid(cells, head, ate);
    }

    /** What one move of update does, between the state before it and the
        state after it. A move into a wall or the body ends the game and
        leaves the snake where it was; otherwise the head enters the next
        cell, and a move onto the food scores 10, speeds the game up (never
        below a move every third tick), grows the snake and puts new food at
        draw. */
    twostate predicate Moved(draw: Point)
      reads this, body
      requires old(Valid()) && old(state) == Playing && Shaped()
    {
      moveTimer == 0 && direction == old(nextDirection) && nextDirection == old(nextDirection)
      && (old(Blocked()) ==>
            state == GameOver && Body() == old(Body()) && score == old(score) && food == old(food)
            && moveDelay == old(moveDelay))
      && (!old(Blocked()) ==>
            state == Playing && Body() == Advance(old(Body()), old(Ahead()), old(Eats()))
            && Adjacent(body[0], old(body[0]))
            && score == old(score) + (if old(Eats()) then 10 else 0)
            && food == (if old(Eats()) then draw else old(food))
            && moveDelay == (if old(Eats()) && old(moveDelay) > 3 then old(moveDelay) - 1 else old(moveDelay)))
    }

    /** The move update makes once the timer fires, with the food spawned
        after the body has moved (see FoodUnderHeadAsWritten). */
    method Move(draw: Point)
      requires Valid() && state == Playing
      requires Eats() ==> Accepted(Advance(Body(), Ahead(), true), draw)
      modifies this, body
      ensures Valid() && Moved(draw)
    {
      moveTimer := 0;
      ghost var ate := Eats();
      direction := nextDirection;
      var head := Step(body[0], direction);
      if head.x < 0 || head.x >= GRID_SIZE || head.y < 0 || head.y >= GRID_SIZE {
        state := GameOver;
        return;
      }
      var hit := CollidesWithSnake(head.x, head.y, false);
      if hit {
        state := GameOver;
        return;
      }
      var ateFood := head == food;
      assert ateFood == ate;
      if ateFood {
        score := score + 10;
        if moveDelay > 3 {
          moveDelay := moveDelay - 1;
        }
        MoveBody(head, true);
        SpawnFood(draw);
      } else {
        ghost var cells := Body();
        MoveBody(head, false);
        AdvanceKeepsOff(cells, head, false, food);
      }
    }

    /** update: nothing outside play; otherwise a tick of the timer, and a
        move every moveDelay ticks. */
    method Update(draw: Point)
      requires Valid()
      requires state == Playing && moveTimer + 1 >= moveDelay && Eats() ==>
        Accepted(Advance(Body(), Ahead(), true), draw)
      modifies this, body
      ensures Valid()
      ensures old(state) != Playing || old(moveTimer) + 1 < old(moveDelay) ==>
        state == old(state) && Body() == old(Body()) && score == old(score) && food == old(food)
        && direction == old(direction) && nextDirection == old(nextDirection) && moveDelay == old(moveDelay)
        && moveTimer == if old(state) == Playing then old(moveTimer) + 1 else old(moveTimer)
      ensures old(state) == Playing && old(moveTimer) + 1 >= old(moveDelay) ==> Moved(draw)
    {
      if state != Playing {
        return;
      }
      if moveTimer + 1 < moveDelay {
        moveTimer := moveTimer + 1;
        return;
      }
      Move(draw);
    }
  }
}
