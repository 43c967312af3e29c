/** The snake of the game: a double-ended body of cells with the head at the
    front, a facing direction and a counter of pending growth.

    `SnakeState` is the value the `Snake` object holds; its member functions
    are the specification of the object's methods and the read-only queries
    of the source (`next_move`, `occupies`, `ishead`, `head`). */
module Snakes {

  /** A grid cell; `x` is the row and `y` the column. Datatype equality is
      the field-wise comparison of the source's `operator==`. */
  datatype Coord = Coord(x: int, y: int)

  /** The four headings, declared in the source's enumerator order. */
  datatype Direction = North | West | East | South

  /** The integer value of the enumerator. */
  function Ordinal(d: Direction): (n: int)
    ensures 0 <= n <= 3
  {
    match d
    case North => 0
    case West => 1
    case East => 2
    case South => 3
  }

  /** An explicit opposite-direction table, independent of the numbering. */
  function Opposite(d: Direction): (o: Direction)
    ensures o != d
  {
    match d
    case North => South
    case South => North
    case West => East
    case East => West
  }

  /** The source's reversal test: a heading and its reverse sum to 3. */
  predicate IsReversal(d: Direction, facing: Direction)
  {
    Ordinal(d) + Ordinal(facing) == 3
  }

  /** The sum-to-3 encoding picks out exactly the opposite pairs. */
  lemma ReversalIsOpposite(d: Direction, facing: Direction)
    ensures IsReversal(d, facing) <==> d == Opposite(facing)
  {
  }

  function Abs(n: int): (r: int)
    ensures r >= 0 && (r == n || r == -n)
  {
    if n < 0 then -n else n
  }

  /** Manhattan distance between two cells. */
  function Distance(a: Coord, b: Coord): (d: int)
    ensures d >= 0
    ensures d == 0 <==> a == b
  {
    Abs(a.x - b.x) + Abs(a.y - b.y)
  }

  predicate Adjacent(a: Coord, b: Coord)
  {
    Distance(a, b) == 1
  }

  /** Every two consecutive cells of the body touch. */
  predicate Connected(cells: seq<Coord>)
  {
    |cells| <= 1 || (Adjacent(cells[0], cells[1]) && Connected(cells[1..]))
  }

  lemma {:induction false} ConnectedPrefix(cells: seq<Coord>, n: nat)
    requires Connected(cells) && n <= |cells|
    ensures Connected(cells[..n])
  {
    if n >= 2 {
      assert cells[..n][1..] == cells[1..][..n - 1];
      ConnectedPrefix(cells[1..], n - 1);
    }
  }

  /** `std::find` over the body: the index of the first cell equal to `c`,
      or the length of the body when there is none. */
  function Find(cells: seq<Coord>, c: Coord): (i: nat)
    ensures i <= |cells|
    ensures i < |cells| ==> cells[i] == c
    ensures forall j :: 0 <= j < i ==> cells[j] != c
  {
    if cells == [] then 0
    else if cells[0] == c then 0
    else 1 + Find(cells[1..], c)
  }

  datatype SnakeState = SnakeState(coords: seq<Coord>, growth: int, dir: Direction)
  {
    /** The state of a newly constructed snake. */
    static function Fresh(): (s: SnakeState)
      ensures s.coords == [] && s.growth == 0 && s.dir == North
    {
      SnakeState([], 0, North)
    }

    /** `begin(x, y)`: appends a head at (x, y) and a second cell at (x, y+1). */
    function Begin(x: int, y: int): (t: SnakeState)
      ensures |t.coords| == |coords| + 2
      ensures t.coords[..|coords|] == coords
      ensures t.coords[|coords|] == Coord(x, y) && t.coords[|coords| + 1] == Coord(x, y + 1)
      ensures t.growth == growth && t.dir == dir
    {
      SnakeState(coords + [Coord(x, y)] + [Coord(x, y + 1)], growth, dir)
    }

    /** `head()`: the front cell of the body. */
    function Head(): (r: Coord)
      requires coords != []
      ensures r == coords[0]
    {
      coords[0]
    }

    /** `ishead(x, y)`: the head is (x, y). */
    predicate IsHead(x: int, y: int)
      requires coords != []
      ensures IsHead(x, y) <==> Head() == Coord(x, y)
      ensures IsHead(x, y) ==> Coord(x, y) in coords
    {
      coords[0].x == x && coords[0].y == y
    }

    /** `occupies(Coord)`: a search of the whole body. */
    predicate Occupies(c: Coord)
      ensures Occupies(c) <==> c in coords
    {
      Find(coords, c) != |coords|
    }

    /** `occupies(int, int)`: the same search for the cell (x, y). */
    predicate OccupiesAt(x: int, y: int)
      ensures OccupiesAt(x, y) <==> Coord(x, y) in coords
    {
      Find(coords, Coord(x, y)) != |coords|
    }

    /** `next_move`: the cell next to the head in the facing direction. Each
        heading is the only one that moves the head the way it does. */
    function NextMove(): (r: Coord)
      requires coords != []
      ensures Adjacent(Head(), r)
      ensures r.x < Head().x <==> dir == North
      ensures r.x > Head().x <==> dir == South
      ensures r.y > Head().y <==> dir == East
      ensures r.y < Head().y <==> dir == West
    {
      var xy := coords[0];
      match dir
      case North => Coord(xy.x - 1, xy.y)
      case East => Coord(xy.x, xy.y + 1)
      case South => Coord(xy.x + 1, xy.y)
      case West => Coord(xy.x, xy.y - 1)
    }

    /** `move`: pushes the next cell onto the front; pops the tail unless
        growth is pending, in which case the counter goes down instead. */
    function Move(): (t: SnakeState)
      requires coords != []
      ensures |t.coords| == if growth > 0 then |coords| + 1 else |coords|
      ensures t.coords[0] == NextMove()
      ensures t.coords[1..] == coords[..|t.coords| - 1]
      ensures t.growth == if growth > 0 then growth - 1 else growth
      ensures t.dir == dir
    {
      var pushed := [NextMove()] + coords;
      if growth > 0 then SnakeState(pushed, growth - 1, dir)
      else SnakeState(pushed[..|pushed| - 1], growth, dir)
    }

    /** `eat(x)`: suspends tail removal for `x` more moves. */
    function Eat(x: int): (t: SnakeState)
      ensures t.coords == coords && t.dir == dir
      ensures t.growth - growth == x
    {
      SnakeState(coords, growth + x, dir)
    }

    /** `redirect(direct)`: takes the new heading unless it reverses the
        current one. */
    function Redirect(direct: Direction): (t: SnakeState)
      ensures t.coords == coords && t.growth == growth
      ensures t.dir == direct <==> direct != Opposite(dir)
      ensures t.dir != direct ==> t.dir == dir
    {
      if Ordinal(direct) + Ordinal(dir) != 3 then SnakeState(coords, growth, direct)
      else this
    }
  }

  /** `n` consecutive moves. */
  function Moves(s: SnakeState, n: nat): (t: SnakeState)
    requires s.coords != []
    ensures t.coords != [] && t.dir == s.dir
    decreases n
  {
    if n == 0 then s else Moves(s.Move(), n - 1)
  }

  /** `begin` on a fresh snake gives the two-cell body with the head first. */
  lemma BeginFresh(x: int, y: int)
    ensures SnakeState.Fresh().Begin(x, y).coords == [Coord(x, y), Coord(x, y + 1)]
    ensures SnakeState.Fresh().Begin(x, y).Head() == Coord(x, y)
    ensures Connected(SnakeState.Fresh().Begin(x, y).coords)
  {
  }

  /** While growth is pending every move adds one cell and uses up one unit
      of growth. */
  lemma {:induction false} MovesWhileGrowing(s: SnakeState, n: nat)
    requires s.coords != [] && n <= s.growth
    ensures |Moves(s, n).coords| == |s.coords| + n
    ensures Moves(s, n).growth == s.growth - n
    decreases n
  {
    if n > 0 {
      var t := s.Move();
      assert |t.coords| == |s.coords| + 1 && t.growth == s.growth - 1;
      assert Moves(s, n) == Moves(t, n - 1);
      MovesWhileGrowing(t, n - 1);
    }
  }

  /** Without pending growth every move keeps the length. */
  lemma {:induction false} MovesWithoutGrowth(s: SnakeState, n: nat)
    requires s.coords != [] && s.growth <= 0
    ensures |Moves(s, n).coords| == |s.coords|
    ensures Moves(s, n).growth == s.growth
    decreases n
  {
    if n > 0 {
      MovesWithoutGrowth(s.Move(), n - 1);
    }
  }

  /** `eat(k)` followed by `k` moves lengthens the body by exactly `k` and
      returns the growth counter to 0. */
  lemma EatThenMove(s: SnakeState, k: nat)
    requires s.coords != [] && s.growth == 0
    ensures |Moves(s.Eat(k), k).coords| == |s.coords| + k
    ensures Moves(s.Eat(k), k).growth == 0
  {
    MovesWhileGrowing(s.Eat(k), k);
  }

  /** A move keeps the body a connected chain of cells. */
  lemma MoveKeepsConnected(s: SnakeState)
    requires s.coords != [] && Connected(s.coords)
    ensures Connected(s.Move().coords)
  {
    var t := s.Move();
    ConnectedPrefix(s.coords, |t.coords| - 1);
    assert t.coords[1..] == s.coords[..|t.coords| - 1];
    if |t.coords| >= 2 {
      assert t.coords[1] == s.coords[0];
    }
  }

  /** Right after a move, the cell behind the head in the reverse heading
      is the neck: this is what the reversal test guards against. */
  lemma ReverseEntersNeck(s: SnakeState)
    requires |s.coords| >= 2
    ensures SnakeState(s.Move().coords, s.growth, Opposite(s.dir)).NextMove() == s.Move().coords[1]
  {
  }

  /** The reversal test compares against the current heading only, not the
      heading of the last move: after any move, a sideways turn followed by
      the reverse of the heading moved in is accepted twice over and aims
      the head at its own neck. */
  lemma TwoTurnsEnterNeck(s: SnakeState, d: Direction)
    requires |s.coords| >= 2 && d != s.dir && d != Opposite(s.dir)
    ensures var t := s.Move();
            t.Redirect(d).dir == d
            && t.Redirect(d).Redirect(Opposite(s.dir)).dir == Opposite(s.dir)
            && t.Redirect(d).Redirect(Opposite(s.dir)).NextMove() == t.coords[1]
  {
    var t := s.Move();
    assert t.coords[1] == s.coords[0];
  }

  /** The snake object: the source's three fields, updated in place. */
  class Snake {
    var coords: seq<Coord>
    var growth: int
    var dir: Direction

    /** The value the object currently holds. */
    function Model(): SnakeState
      reads this
    {
      SnakeState(coords, growth, dir)
    }

    /** A snake with no body, facing North, with no pending growth. */
    constructor ()
      ensures Model() == SnakeState.Fresh()
    {
      coords := [];
      growth := 0;
      dir := North;
    }

    method Begin(x: int, y: int)
      modifies this
      ensures Model() == old(Model()).Begin(x, y)
    {
      coords := coords + [Coord(x, y)];
      coords := coords + [Coord(x, y + 1)];
    }

    method Move()
      requires coords != []
      modifies this
      ensures Model() == old(Model()).Move()
    {
      var xy := Model().NextMove();
      coords := [xy] + coords;
      if growth > 0 {
        growth := growth - 1;
      } else {
        coords := coords[..|coords| - 1];
      }
    }

    method Eat(x: int)
      modifies this
      ensures Model() == old(Model()).Eat(x)
    {
      growth := growth + x;
    }

    method Redirect(direct: Direction)
      modifies this
      ensures Model() == old(Model()).Redirect(direct)
    {
      if Ordinal(direct) + Ordinal(dir) != 3 {
        dir := direct;
      }
    }
  }
}
