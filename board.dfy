/** The game board: the grid, the food, the score and the per-iteration
    rules of the game loop, with the terminal and the clock taken out.

    Time is an integer (milliseconds) read by the caller at each point where
    the loop reads the clock; keys arrive already decoded; the random draws
    of food placement are an oracle sequence of candidate cells. */
module Boards {
  import opened Snakes

  datatype Option<T> = None | Some(value: T)

  /** What one poll of the keyboard returns. */
  datatype Key = NoKey | KeyUp | KeyDown | KeyRight | KeyLeft | Typed(ch: char)

  /** What one cell of the screen shows. */
  datatype Cell = Wall | Head | Body | Food | Blank

  /** What the environment supplies to one iteration of the loop: the key
      polled, the clock readings of the tick test, of the food-expiry test
      and of each food placement, and the random candidates each food
      placement draws. */
  datatype Input = Input(key: Key, tickAt: int, eatPicks: seq<Coord>, eatAt: int,
                         checkAt: int, expirePicks: seq<Coord>, expireAt: int)

  /** The heading an arrow key asks for. */
  function KeyDirection(key: Key): (d: Option<Direction>)
    ensures key.KeyUp? ==> d == Some(North)
    ensures key.KeyDown? ==> d == Some(South)
    ensures key.KeyRight? ==> d == Some(East)
    ensures key.KeyLeft? ==> d == Some(West)
    ensures d.None? <==> !(key.KeyUp? || key.KeyDown? || key.KeyRight? || key.KeyLeft?)
  {
    match key
    case KeyUp => Some(North)
    case KeyDown => Some(South)
    case KeyRight => Some(East)
    case KeyLeft => Some(West)
    case _ => None
  }

  /** The snake after the key has been handled. */
  function Steer(s: SnakeState, key: Key): (t: SnakeState)
    ensures t.coords == s.coords && t.growth == s.growth
    ensures KeyDirection(key).None? ==> t == s
    ensures KeyDirection(key).Some? ==> t == s.Redirect(KeyDirection(key).value)
  {
    match KeyDirection(key)
    case Some(d) => s.Redirect(d)
    case None => s
  }

  predicate TogglesPause(key: Key)
  {
    key == Typed('p')
  }

  /** The outer ring of the grid. */
  predicate OnBorder(height: int, width: int, c: Coord)
  {
    c.x == 0 || c.y == 0 || c.x == height - 1 || c.y == width - 1
  }

  /** The tick's collision test: a wall cell or a cell of the snake. */
  predicate Collides(height: int, width: int, s: SnakeState, c: Coord)
    ensures Collides(height, width, s, c) <==>
              c.x == 0 || c.y == 0 || c.x == height - 1 || c.y == width - 1 || c in s.coords
  {
    OnBorder(height, width, c) || s.Occupies(c)
  }

  /** Every cell strictly inside the border. */
  predicate Inside(height: int, width: int, cells: seq<Coord>)
  {
    forall i :: 0 <= i < |cells| ==> 1 <= cells[i].x <= height - 2 && 1 <= cells[i].y <= width - 2
  }

  /** The upper end of the food generator's range. */
  function DrawBound(height: int, width: int): (m: int)
    ensures m >= height && m >= width && (m == height || m == width)
  {
    if height > width then height else width
  }

  /** A candidate cell both of whose draws lie in the generator's range. */
  predicate InDrawRange(height: int, width: int, c: Coord)
  {
    1 <= c.x <= DrawBound(height, width) && 1 <= c.y <= DrawBound(height, width)
  }

  /** The rejection test of the placement loop. */
  predicate Rejected(height: int, width: int, s: SnakeState, c: Coord)
    ensures Rejected(height, width, s, c) <==> c in s.coords || c.x >= height || c.y >= width
  {
    s.OccupiesAt(c.x, c.y) || c.x >= height || c.y >= width
  }

  /** Placement accepts exactly the cells off the snake in rows 1..height-1
      and columns 1..width-1, which include the bottom row and the right
      column of the border. */
  lemma AcceptedCells(height: int, width: int, s: SnakeState, c: Coord)
    requires InDrawRange(height, width, c)
    ensures !Rejected(height, width, s, c) <==>
            c !in s.coords && 1 <= c.x <= height - 1 && 1 <= c.y <= width - 1
  {
  }

  /** A candidate that stays acceptable whichever way the coming tick goes:
      in range, off the body and not the cell the head moves into. */
  predicate Spare(height: int, width: int, s: SnakeState, c: Coord)
    requires s.coords != []
  {
    c.x < height && c.y < width && c !in s.coords && c != s.NextMove()
  }

  ghost predicate HasSpare(height: int, width: int, s: SnakeState, picks: seq<Coord>)
    requires s.coords != []
  {
    exists k :: 0 <= k < |picks| && Spare(height, width, s, picks[k])
  }

  /** A spare candidate is accepted by placement before the move, after a
      move and after a move followed by eating. */
  lemma SpareAccepted(height: int, width: int, s: SnakeState, c: Coord)
    requires s.coords != [] && Spare(height, width, s, c)
    ensures !Rejected(height, width, s, c)
    ensures !Rejected(height, width, s.Move(), c)
    ensures !Rejected(height, width, s.Move().Eat(1), c)
  {
  }

  /** The base of the food's time to live: the Manhattan distance from the
      head to the food, times 1.5, rounded down. */
  function TtlBase(head: Coord, food: Coord): (b: int)
    ensures b == 3 * Distance(head, food) / 2
    ensures head != food ==> b >= 1
  {
    var xx := Abs(head.x - food.x) + Abs(head.y - food.y);
    xx + xx / 2
  }

  /** The food's time to live for a drawn multiplier. */
  function FoodTtl(speed: int, draw: int): (ttl: int)
    ensures speed >= 0 && draw >= 1 ==> ttl >= speed
    ensures speed >= 0 && draw >= 0 ==> ttl >= 0
  {
    speed * draw
  }

  /** Food placed off the head lives at least one tick interval and at most
      three intervals per cell of distance. */
  lemma TtlBounds(speed: int, head: Coord, food: Coord, draw: int)
    requires speed >= 0 && head != food
    requires TtlBase(head, food) <= draw <= 2 * TtlBase(head, food)
    ensures speed <= speed * TtlBase(head, food) <= FoodTtl(speed, draw)
    ensures FoodTtl(speed, draw) <= speed * (2 * TtlBase(head, food)) <= speed * (3 * Distance(head, food))
  {
    var b, d := TtlBase(head, food), Distance(head, food);
    assert FoodTtl(speed, draw) == speed * draw;
    assert 1 <= b && 2 * b <= 3 * d;
    MulMonotone(speed, 1, b);
    MulMonotone(speed, b, draw);
    MulMonotone(speed, draw, 2 * b);
    MulMonotone(speed, 2 * b, 3 * d);
  }

  lemma MulMonotone(k: int, a: int, b: int)
    requires k >= 0 && a <= b
    ensures k * a <= k * b
  {
  }

  /** The worked case: head at (0,0), food at (4,3), a 100 ms tick. */
  lemma TtlExample(draw: int)
    requires TtlBase(Coord(0, 0), Coord(4, 3)) <= draw <= 2 * TtlBase(Coord(0, 0), Coord(4, 3))
    ensures TtlBase(Coord(0, 0), Coord(4, 3)) == 10
    ensures 1000 <= FoodTtl(100, draw) <= 2000
  {
  }

  /** The class of one screen cell, in the priority order of the drawing
      loop: border, head, body, food, blank. */
  function Classify(height: int, width: int, s: SnakeState, food: Coord, i: int, j: int): (cell: Cell)
    requires s.coords != []
    ensures cell == Wall <==> OnBorder(height, width, Coord(i, j))
    ensures cell == Head <==> !OnBorder(height, width, Coord(i, j)) && Coord(i, j) == s.Head()
    ensures cell == Body <==> !OnBorder(height, width, Coord(i, j)) && Coord(i, j) != s.Head() && Coord(i, j) in s.coords
    ensures cell == Food <==> !OnBorder(height, width, Coord(i, j)) && Coord(i, j) !in s.coords && Coord(i, j) == food
    ensures cell == Blank <==> !OnBorder(height, width, Coord(i, j)) && Coord(i, j) !in s.coords && Coord(i, j) != food
  {
    if j == 0 || i == 0 || j == width - 1 || i == height - 1 then Wall
    else if s.IsHead(i, j) then Head
    else if s.OccupiesAt(i, j) then Body
    else if food == Coord(i, j) then Food
    else Blank
  }

  /** Food on the bottom row or the right column is drawn as wall, and no
      tick can eat it: a cell the tick lets the head enter is off the border. */
  lemma BorderFoodUnreachable(height: int, width: int, s: SnakeState, food: Coord)
    requires s.coords != [] && OnBorder(height, width, food)
    ensures Classify(height, width, s, food, food.x, food.y) == Wall
    ensures !Collides(height, width, s, s.NextMove()) ==> s.NextMove() != food
  {
  }

  /** A move that does not hit the wall keeps a snake that lies strictly
      inside the border strictly inside. */
  lemma MoveStaysInside(height: int, width: int, s: SnakeState)
    requires s.coords != [] && Inside(height, width, s.coords)
    requires !OnBorder(height, width, s.NextMove())
    ensures Inside(height, width, s.Move().coords)
  {
  }

  class Board {
    const height: int
    const width: int
    const speedTime: int
    const snake: Snake
    var score: int
    var paused: bool
    var dead: bool
    var food: Coord
    var lastMoved: int
    var foodCreated: int
    var foodTime: int

    /** What every iteration keeps: a body of at least two connected cells,
        growth never negative, a score never negative, and a food cell off the
        snake in rows 1..height-1 and columns 1..width-1. */
    ghost predicate Valid()
      reads this, snake
    {
      && |snake.coords| >= 2
      && Connected(snake.coords)
      && snake.growth >= 0
      && score >= 0
      && food !in snake.coords
      && 1 <= food.x <= height - 1
      && 1 <= food.y <= width - 1
    }

    /** The food is the first candidate of `picks` that placement accepts. */
    ghost predicate PlacedFrom(picks: seq<Coord>)
      reads this, snake
    {
      exists k :: 0 <= k < |picks| && picks[k] == food
        && !Rejected(height, width, snake.Model(), picks[k])
        && forall j :: 0 <= j < k ==> Rejected(height, width, snake.Model(), picks[j])
    }

    /** The time to live is the tick interval times a multiplier drawn from
        [base, 2 * base], the base taken from the current head. */
    ghost predicate TtlDrawn()
      reads this, snake
      requires snake.coords != []
    {
      exists draw :: TtlBase(snake.coords[0], food) <= draw <= 2 * TtlBase(snake.coords[0], food)
        && foodTime == FoodTtl(speedTime, draw)
    }

    /** The screen the drawing loop produces: one row per grid row, one
        class per cell. */
    ghost predicate Shows(grid: seq<seq<Cell>>)
      reads this, snake
      requires snake.coords != []
    {
      && |grid| == height
      && (forall i :: 0 <= i < |grid| ==> |grid[i]| == width)
      && (forall i, j :: 0 <= i < |grid| && 0 <= j < |grid[i]| ==>
            grid[i][j] == Classify(height, width, snake.Model(), food, i, j))
    }

    /** The board's set-up: snake begun at the centre facing North, score 0,
        running, one food placed. */
    constructor (speed: int, rows: int, cols: int, startedAt: int, picks: seq<Coord>, placedAt: int)
      requires forall k :: 0 <= k < |picks| ==> InDrawRange(rows, cols, picks[k])
      requires exists k :: 0 <= k < |picks| && picks[k].x < rows && picks[k].y < cols
                 && picks[k] != Coord(rows / 2, cols / 2) && picks[k] != Coord(rows / 2, cols / 2 + 1)
      ensures Valid() && fresh(snake)
      ensures height == rows && width == cols && speedTime == speed
      ensures snake.Model() == SnakeState([Coord(rows / 2, cols / 2), Coord(rows / 2, cols / 2 + 1)], 0, North)
      ensures score == 0 && !paused && !dead && lastMoved == startedAt
      ensures PlacedFrom(picks) && foodCreated == placedAt && TtlDrawn()
    {
      height, width, speedTime := rows, cols, speed;
      paused, dead, food, score := false, false, Coord(0, 0), 0;
      lastMoved, foodCreated, foodTime := startedAt, 0, 0;
      snake := new Snake();
      new;
      snake.Begin(rows / 2, cols / 2);
      BeginFresh(rows / 2, cols / 2);
      var k :| 0 <= k < |picks| && picks[k].x < rows && picks[k].y < cols
                 && picks[k] != Coord(rows / 2, cols / 2) && picks[k] != Coord(rows / 2, cols / 2 + 1);
      assert !Rejected(height, width, snake.Model(), picks[k]);
      GenFood(picks, placedAt);
    }

    /** Places the food by rejection sampling over `picks` and draws its
        time to live. */
    method GenFood(picks: seq<Coord>, now: int)
      requires snake.coords != []
      requires forall k :: 0 <= k < |picks| ==> InDrawRange(height, width, picks[k])
      requires exists k :: 0 <= k < |picks| && !Rejected(height, width, snake.Model(), picks[k])
      modifies this`food, this`foodTime, this`foodCreated
      ensures PlacedFrom(picks) && foodCreated == now && TtlDrawn()
      ensures food !in snake.coords && 1 <= food.x <= height - 1 && 1 <= food.y <= width - 1
    {
      ghost var w :| 0 <= w < |picks| && !Rejected(height, width, snake.Model(), picks[w]);
      var i := 0;
      var xy := picks[0];
      while snake.Model().OccupiesAt(xy.x, xy.y) || xy.x >= height || xy.y >= width
        invariant 0 <= i <= w && xy == picks[i]
        invariant forall j :: 0 <= j < i ==> Rejected(height, width, snake.Model(), picks[j])
        decreases w - i
      {
        i := i + 1;
        xy := picks[i];
      }
      var snakehead := snake.Model().Head();
      var xx := Abs(snakehead.x - xy.x) + Abs(snakehead.y - xy.y);
      xx := xx + xx / 2;
      var draw :| xx <= draw <= xx * 2;
      foodTime := speedTime * draw;
      foodCreated := now;
      food := xy;
      assert foodTime == FoodTtl(speedTime, draw);
    }

    method GameOver()
      modifies this`dead
      ensures dead
    {
      dead := true;
    }

    /** The key handling at the top of an iteration: arrows redirect the
        snake, 'p' toggles the pause, every other key is ignored. */
    method HandleKey(key: Key)
      modifies this`paused, snake
      ensures paused == (old(paused) != TogglesPause(key))
      ensures snake.Model() == Steer(old(snake.Model()), key)
    {
      match key
      case KeyUp => snake.Redirect(North);
      case KeyDown => snake.Redirect(South);
      case KeyRight => snake.Redirect(East);
      case KeyLeft => snake.Redirect(West);
      case Typed(ch) =>
        if ch == 'p' {
          paused := !paused;
        }
      case NoKey =>
    }

    /** A due tick: a wall or self collision ends the game and changes
        nothing else; otherwise the snake moves, and eating the food scores a
        point, grows the snake by one and places new food. */
    method Tick(now: int, picks: seq<Coord>, placedAt: int)
      requires Valid() && !paused && !dead
      requires forall k :: 0 <= k < |picks| ==> InDrawRange(height, width, picks[k])
      requires var s := snake.Model();
        !Collides(height, width, s, s.NextMove()) && s.NextMove() == food ==>
          exists k :: 0 <= k < |picks| && !Rejected(height, width, s.Move().Eat(1), picks[k])
      modifies this`lastMoved, this`dead, this`score, this`food, this`foodTime, this`foodCreated, snake
      ensures Valid() && lastMoved == now
      ensures var s := old(snake.Model());
        Collides(height, width, s, s.NextMove()) ==>
          dead && snake.Model() == s && score == old(score)
          && food == old(food) && foodTime == old(foodTime) && foodCreated == old(foodCreated)
      ensures var s := old(snake.Model());
        !Collides(height, width, s, s.NextMove()) && s.NextMove() == old(food) ==>
          dead == old(dead) && snake.Model() == s.Move().Eat(1) && score == old(score) + 1
          && PlacedFrom(picks) && foodCreated == placedAt && TtlDrawn()
      ensures var s := old(snake.Model());
        !Collides(height, width, s, s.NextMove()) && s.NextMove() != old(food) ==>
          dead == old(dead) && snake.Model() == s.Move() && score == old(score)
          && food == old(food) && foodTime == old(foodTime) && foodCreated == old(foodCreated)
      ensures old(Inside(height, width, snake.coords)) ==> Inside(height, width, snake.coords)
    {
      var nextMove := snake.Model().NextMove();
      lastMoved := now;
      if nextMove.x == 0 || nextMove.y == 0 || nextMove.x == height - 1 || nextMove.y == width - 1
         || snake.Model().Occupies(nextMove) {
        GameOver();
        return;
      }
      ghost var s := snake.Model();
      MoveKeepsConnected(s);
      if Inside(height, width, s.coords) {
        MoveStaysInside(height, width, s);
      }
      var eat := nextMove == food;
      snake.Move();
      if eat {
        snake.Eat(1);
        score := score + 1;
        GenFood(picks, placedAt);
      }
    }

    /** The food-expiry test: food older than its time to live is replaced. */
    method ExpireFood(now: int, picks: seq<Coord>, placedAt: int)
      requires Valid()
      requires forall k :: 0 <= k < |picks| ==> InDrawRange(height, width, picks[k])
      requires now - foodCreated >= foodTime ==>
                 exists k :: 0 <= k < |picks| && !Rejected(height, width, snake.Model(), picks[k])
      modifies this`food, this`foodTime, this`foodCreated
      ensures Valid()
      ensures old(now - foodCreated >= foodTime) ==> PlacedFrom(picks) && foodCreated == placedAt && TtlDrawn()
      ensures old(now - foodCreated < foodTime) ==>
                food == old(food) && foodTime == old(foodTime) && foodCreated == old(foodCreated)
    {
      if now - foodCreated >= foodTime {
        GenFood(picks, placedAt);
      }
    }

    /** The drawing loop, as the grid of cell classes it writes. */
    method Render() returns (grid: seq<seq<Cell>>)
      requires snake.coords != [] && height >= 0 && width >= 0
      ensures |grid| == height
      ensures forall i :: 0 <= i < height ==> |grid[i]| == width
      ensures forall i, j :: 0 <= i < height && 0 <= j < width ==>
                grid[i][j] == Classify(height, width, snake.Model(), food, i, j)
    {
      grid := [];
      var i := 0;
      while i < height
        invariant 0 <= i <= height && |grid| == i
        invariant forall r :: 0 <= r < i ==> |grid[r]| == width
        invariant forall r, j :: 0 <= r < i && 0 <= j < width ==>
                    grid[r][j] == Classify(height, width, snake.Model(), food, r, j)
      {
        var row := [];
        var j := 0;
        while j < width
          invariant 0 <= j <= width && |row| == j
          invariant forall c :: 0 <= c < j ==> row[c] == Classify(height, width, snake.Model(), food, i, c)
        {
          row := row + [Classify(height, width, snake.Model(), food, i, j)];
          j := j + 1;
        }
        grid := grid + [row];
        i := i + 1;
      }
    }

    /** One iteration of the game loop. While paused or dead only the key
        takes effect and nothing is drawn; otherwise a due tick runs, then
        the food-expiry test, then the screen is drawn. The returned grid is
        the screen drawn, if any. */
    method Iterate(input: Input) returns (frame: Option<seq<seq<Cell>>>)
      requires Valid()
      requires forall k :: 0 <= k < |input.eatPicks| ==> InDrawRange(height, width, input.eatPicks[k])
      requires forall k :: 0 <= k < |input.expirePicks| ==> InDrawRange(height, width, input.expirePicks[k])
      requires var s := Steer(snake.Model(), input.key);
        !((paused != TogglesPause(input.key)) || dead) && input.tickAt - lastMoved >= speedTime
        && !Collides(height, width, s, s.NextMove()) && s.NextMove() == food ==>
          exists k :: 0 <= k < |input.eatPicks| && !Rejected(height, width, s.Move().Eat(1), input.eatPicks[k])
      requires !((paused != TogglesPause(input.key)) || dead) ==>
                 HasSpare(height, width, Steer(snake.Model(), input.key), input.expirePicks)
      modifies this`paused, this`lastMoved, this`dead, this`score, this`food, this`foodTime, this`foodCreated, snake
      ensures Valid()
      ensures paused == (old(paused) != TogglesPause(input.key))
      ensures snake.dir == Steer(old(snake.Model()), input.key).dir
      ensures old(dead) ==> dead
      ensures paused || old(dead) ==>
                frame.None? && dead == old(dead) && snake.Model() == Steer(old(snake.Model()), input.key)
                && score == old(score) && food == old(food) && lastMoved == old(lastMoved)
                && foodTime == old(foodTime) && foodCreated == old(foodCreated)
      ensures var s := Steer(old(snake.Model()), input.key);
        !paused && !old(dead) && input.tickAt - old(lastMoved) >= speedTime ==>
          lastMoved == input.tickAt
          && (Collides(height, width, s, s.NextMove()) ==>
                dead && frame.None? && snake.Model() == s && score == old(score) && food == old(food)
                && foodTime == old(foodTime) && foodCreated == old(foodCreated))
          && (!Collides(height, width, s, s.NextMove()) ==>
                !dead && frame.Some?
                && snake.Model() == (if s.NextMove() == old(food) then s.Move().Eat(1) else s.Move())
                && score == old(score) + (if s.NextMove() == old(food) then 1 else 0))
      ensures !paused && !old(dead) && input.tickAt - old(lastMoved) < speedTime ==>
                !dead && frame.Some? && lastMoved == old(lastMoved)
                && snake.Model() == Steer(old(snake.Model()), input.key) && score == old(score)
      ensures score == old(score) || score == old(score) + 1
      ensures score == old(score) + 1 ==>
                (foodCreated == input.eatAt && PlacedFrom(input.eatPicks) && TtlDrawn())
                || (foodCreated == input.expireAt && PlacedFrom(input.expirePicks) && TtlDrawn())
      ensures frame.Some? && score == old(score) ==>
                (food == old(food) && foodTime == old(foodTime) && foodCreated == old(foodCreated)
                 && input.checkAt - old(foodCreated) < old(foodTime))
                || (old(input.checkAt - foodCreated >= foodTime)
                    && foodCreated == input.expireAt && PlacedFrom(input.expirePicks) && TtlDrawn())
      ensures frame.Some? <==> !paused && !dead
      ensures frame.Some? ==> Shows(frame.value)
      ensures old(Inside(height, width, snake.coords)) ==> Inside(height, width, snake.coords)
    {
      HandleKey(input.key);
      if paused || dead {
        frame := None;
        return;
      }
      if input.tickAt - lastMoved >= speedTime {
        ghost var s := snake.Model();
        ghost var k :| 0 <= k < |input.expirePicks| && Spare(height, width, s, input.expirePicks[k]);
        SpareAccepted(height, width, s, input.expirePicks[k]);
        Tick(input.tickAt, input.eatPicks, input.eatAt);
        if dead {
          frame := None;
          return;
        }
        assert !Rejected(height, width, snake.Model(), input.expirePicks[k]);
      } else {
        ghost var k :| 0 <= k < |input.expirePicks| && Spare(height, width, snake.Model(), input.expirePicks[k]);
        SpareAccepted(height, width, snake.Model(), input.expirePicks[k]);
      }
      ExpireFood(input.checkAt, input.expirePicks, input.expireAt);
      var grid := Render();
      frame := Some(grid);
    }
  }
}
