# Snake game state engine, modelled in Dafny

This project models the state engine of a terminal Snake game. It has two parts.

- **The snake** (`snake.dfy`, module `Snakes`). The body is a double-ended sequence of cells with the head at the front. The snake also has a facing direction and a counter of pending growth. The value type `SnakeState` holds the operations as functions: `begin`, `next_move`, `move`, `eat`, `redirect`, `occupies` (both overloads), `ishead` and `head`. These functions are the specification. The class `Snake` has the same three fields as the original. Its methods change the fields in place, and each method's `ensures` ties `Model()` to the matching function of the old state. `occupies` is a search with `std::find`. It is modelled as `Find`, a recursive function that returns the first matching index or the length of the body.
- **The board** (`board.dfy`, module `Boards`). The class `Board` holds the grid size, the snake, the score, the pause and game-over flags, the food cell and the three timing values. The timing values are the time of the last move, the food's creation time and its time to live. Every screen and clock call is removed:
  - A key arrives as a decoded `Key`.
  - Each clock reading is an integer timestamp in milliseconds that the caller supplies.
  - The random candidate cells of food placement come from an oracle sequence. Each coordinate of a candidate lies in the generator's range `[1, max(height, width)]`.
  - The time-to-live multiplier is a nondeterministic choice in `[base, 2*base]`.
  - `Iterate` is one pass of the game loop: key handling, then the pause/dead gate, the due tick, the food-expiry test and finally the drawing loop. The drawing loop is returned as a grid of cell classes.

Proved properties include the following:
- The sum-to-3 direction encoding singles out exactly the opposite pairs.
- Each move keeps the body a connected chain of cells.
- `eat(k)` followed by `k` moves lengthens the body by exactly `k`.
- Food placement returns the first acceptable candidate. That cell is off the snake, in rows `1..height-1` and in columns `1..width-1`.
- The food's time to live is the tick interval times a multiplier between the base and twice the base. The base is at least 1.
- Every iteration preserves the board invariant (`Board.Valid`).
- A paused or dead board changes only the heading and the pause flag.
- Death is terminal. The score rises by exactly one per food eaten.
- A snake that lies strictly inside the border stays inside.

Two consequences of the code as written are stated as lemmas:
- `Boards.BorderFoodUnreachable`: placement accepts row `height-1` and column `width-1`, which are wall cells. Food placed there is drawn as wall and cannot be eaten, because the head dies on any border cell. Only expiry moves this food.
- `Snakes.TwoTurnsEnterNeck`: the reversal test compares against the current heading, not against the heading of the last move. Each pass of the loop reads one key, and the snake moves only when a tick is due, so two turns can fall between moves. After any move, a sideways turn followed by the reverse of the heading moved in is accepted twice and aims the head at the neck. The next tick is then a self-collision.

The score goes up by one per food. Placement accepts the bottom and right border cells. Two small compile slips in the source are read as intended. `coord` is taken as `Coord`. The call `snake.eat()` with no argument is taken as `eat(1)`.

## Model

| member | source | states |
|---|---|---|
| `Snakes.ReversalIsOpposite` | snake.hpp:14-20 | Enumerator values of two headings sum to 3 exactly when one is the opposite of the other (North/South, West/East) |
| `Snakes.Find` | snake.hpp:71-78 | The search returns the index of the first cell equal to the target, or the body length when no cell is equal |
| `Snakes.SnakeState.Occupies` | snake.hpp:71-74 | `occupies(xy)` holds exactly when `xy` is a cell of the body |
| `Snakes.SnakeState.OccupiesAt` | snake.hpp:75-78 | `occupies(x, y)` holds exactly when `(x, y)` is a cell of the body |
| `Snakes.SnakeState.Head` | snake.hpp:127-130 | `head()` returns the front cell of the body |
| `Snakes.SnakeState.Fresh` | snake.hpp:55-58 | A newly constructed snake has an empty body, faces North and has growth 0 |
| `Snakes.SnakeState.IsHead` | snake.hpp:66-69 | `ishead(x, y)` holds exactly when `(x, y)` is the front cell, and it implies `occupies` |
| `Snakes.SnakeState.NextMove` | snake.hpp:80-99 | The next cell is adjacent to the head. North is the only heading that decreases the row, South the only one that increases it, East the only one that increases the column and West the only one that decreases it |
| `Snakes.SnakeState.Begin` | snake.hpp:60-64 | `begin(x, y)` appends `(x, y)` and then `(x, y+1)` to the back of the body and changes nothing else |
| `Snakes.SnakeState.Move` | snake.hpp:101-113 | The new head is the next cell and the rest is the old body cut to fit. With growth pending, the length goes up by 1 and growth goes down by 1. Otherwise the length and growth are unchanged. The heading is kept |
| `Snakes.SnakeState.Eat` | snake.hpp:114-117 | `eat(x)` raises pending growth by `x` and leaves the body and heading alone |
| `Snakes.SnakeState.Redirect` | snake.hpp:119-125 | The new heading is taken exactly when it is not the opposite of the current heading. Otherwise the heading is kept. Body and growth are untouched |
| `Snakes.BeginFresh` | snake.hpp:55-64 | A new snake after `begin(x, y)` has body exactly `[(x,y), (x,y+1)]`, head `(x,y)`, and the body is connected |
| `Snakes.MovesWhileGrowing` | snake.hpp:101-113 | With growth `g`, `n <= g` moves add exactly `n` cells and leave growth `g - n` |
| `Snakes.MovesWithoutGrowth` | snake.hpp:101-113 | With no pending growth, any number of moves keeps the length and the growth counter |
| `Snakes.EatThenMove` | snake.hpp:101-117 | From growth 0, `eat(k)` followed by `k` moves lengthens the body by exactly `k` and returns growth to 0 |
| `Snakes.MoveKeepsConnected` | snake.hpp:101-113 | A move keeps every two consecutive body cells adjacent |
| `Snakes.ReverseEntersNeck` | snake.hpp:119-125 | Right after a move, the cell in the reverse heading is the neck, which is the cell the reversal test protects |
| `Snakes.TwoTurnsEnterNeck` | snake.hpp:119-125 | For every body of at least two cells, after a move a sideways turn and then the reverse of the heading moved in are both accepted, and the head then aims at the neck |
| `Snakes.Snake.constructor` | snake.hpp:55-58 | A new snake has an empty body, faces North and has growth 0 |
| `Snakes.Snake.Begin` | snake.hpp:60-64 | The object's new state is `begin` applied to its old state |
| `Snakes.Snake.Move` | snake.hpp:101-113 | The object's new state is `move` applied to its old state |
| `Snakes.Snake.Eat` | snake.hpp:114-117 | The object's new state is `eat(x)` applied to its old state |
| `Snakes.Snake.Redirect` | snake.hpp:119-125 | The object's new state is `redirect` applied to its old state |
| `Boards.KeyDirection` | board.hpp:122-135 | Up gives North, down gives South, right gives East and left gives West. No other key gives a heading |
| `Boards.Steer` | board.hpp:122-135 | An arrow key turns the snake by `redirect` with that key's heading. Any other key leaves the snake as it was. The body and growth are never touched |
| `Boards.Collides` | board.hpp:150 | The tick's collision test holds exactly when the cell is on row 0, column 0, row `height-1` or column `width-1`, or is a body cell |
| `Boards.Rejected` | board.hpp:182 | The placement loop rejects a candidate exactly when it is a body cell, its row is at least `height` or its column is at least `width` |
| `Boards.AcceptedCells` | board.hpp:179-182 | Placement accepts a drawn cell exactly when it is off the snake with row in `1..height-1` and column in `1..width-1` |
| `Boards.SpareAccepted` | board.hpp:150-168 | A candidate off the body and off the next head cell stays acceptable after the tick moves or grows the snake |
| `Boards.TtlBase` | board.hpp:184-186 | The base is 1.5 times the head-to-food Manhattan distance, rounded down. It is at least 1 when the food is not on the head |
| `Boards.FoodTtl` | board.hpp:188 | The time to live is the tick interval times the drawn multiplier. With a non-negative interval it is never negative, and a multiplier of at least 1 gives at least one interval |
| `Boards.TtlBounds` | board.hpp:184-188 | The time to live lies between the tick interval times the base and twice that. So it is at least one tick interval and at most three intervals per cell of head-to-food distance |
| `Boards.TtlExample` | board.hpp:184-188 | Head (0,0), food (4,3) and a 100 ms tick give base 10 and a time to live between 1000 and 2000 ms |
| `Boards.Classify` | board.hpp:86-105 | Each cell gets one class, in strict priority: border ring, then head, then other body cell, then food, then blank |
| `Boards.BorderFoodUnreachable` | board.hpp:150-155 | Food on the border is drawn as wall, and no move the tick allows enters it |
| `Boards.MoveStaysInside` | board.hpp:148-156 | If the snake lies strictly inside the border and the next cell is not a wall, the moved snake still lies strictly inside |
| `Boards.Board.constructor` | board.hpp:43-72 | Score 0, not paused, not dead, snake `[(h/2, w/2), (h/2, w/2+1)]` facing North with growth 0, one food placed from the draws, invariant established |
| `Boards.Board.GenFood` | board.hpp:176-191 | The food is the first accepted candidate: off the snake, row `1..height-1`, column `1..width-1`. Its creation time is now, and its time to live is the tick interval times a multiplier in `[base, 2*base]` |
| `Boards.Board.GameOver` | board.hpp:193-195 | Sets `dead` |
| `Boards.Board.HandleKey` | board.hpp:120-140 | Arrow keys redirect the snake, `p` toggles the pause and any other key changes nothing |
| `Boards.Board.Tick` | board.hpp:146-163 | Runs on a running board only. Records the tick time. On a wall or self collision it sets `dead` and changes nothing else. Otherwise it moves the snake, and on eating adds 1 to the score, adds 1 to growth and places new food. When nothing is eaten, score and food are unchanged. Invariant and strict interior are kept |
| `Boards.Board.ExpireFood` | board.hpp:164-169 | Food whose age is at least its time to live is placed anew; otherwise food and timing are unchanged |
| `Boards.Board.Render` | board.hpp:79-108 | The drawing loop yields `height` rows of `width` cells, each the cell's class |
| `Boards.Board.Iterate` | board.hpp:118-173 | Keeps the invariant. While paused or dead, only the heading and the pause flag change and nothing is drawn. Death is terminal. A due tick behaves as `Tick`. The score rises by at most 1. A frame is drawn exactly when the board is running afterwards |

## Left out

- Terminal output is not modelled. This covers screen set-up and tear-down, colour pairs, glyph writing, refresh, the score text overlay and the "GAME OVER" text. The drawing loop is kept as the grid of cell classes it writes. The terminal's size is a constructor argument.
- The wall clock is not modelled. Each clock reading of the loop and of food placement is an integer timestamp that the caller supplies. The model does not assume the readings are monotonic.
- The random engine and its distributions are not modelled. Food candidates come from an oracle sequence whose coordinates lie in the generator's range. The time-to-live multiplier is any value in the distribution's range. The model makes no claim about probabilities.
- The error output line at start-up and the destructor's terminal shutdown are not modelled.
- The `run` loop itself and its exit on `q` are not modelled. `Iterate` covers one pass of the loop body, and `q` has no effect inside one pass.
- Boards.Board.GenFood: the rejection loop in the source runs until some candidate is accepted. The model bounds it by its oracle and requires that the oracle holds an acceptable candidate. The source needs only that such a cell exist.
- Boards.Board.Iterate: it requires the expiry draws to hold a candidate that also avoids the cell the head is about to enter, whether or not the food expires. This is stronger than the source needs, and it keeps the requirement independent of the tick's outcome. The draws used after eating are required to hold an acceptable candidate only when the tick eats.
- Boards.Board.Iterate: when food is eaten and the new food then expires within the same pass, the contract says that the final food came from the expiry draws. It does not restate the expiry test on the intermediate food.
- Boards.Board.Tick: it requires the board invariant (`Valid`) and a board that is neither paused nor dead (`!paused && !dead`), because the loop reaches the tick only then. Its draws must hold an acceptable candidate only when the tick eats, because only then does it place food.
- Integers are unbounded. A 32-bit overflow of the score, of the growth counter, of the coordinates or of the millisecond product is not modelled.
