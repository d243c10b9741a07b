# Snake game state machine in Dafny

This project models the game logic of the `SnakeGame` React component. The
game is played on a 20×20 board. The component keeps six pieces of state:
- the snake body, a head-first list of cells;
- the food cell;
- the direction, one of the strings `UP`, `DOWN`, `LEFT`, `RIGHT`;
- the `isGameOver` and `isRunning` flags;
- the score.

Five handlers change this state:
- a direction request, from the arrow keys or the on-screen buttons;
- the interval tick, which moves the snake, detects collisions, grows the snake and scores;
- food placement;
- reset;
- the start button.

The project has two modules:

- `Grid` (`grid.dfy`): cells, directions, the one-cell move, the collision
  test, the shape a snake body keeps (non-empty, on the board, no cell twice),
  and the set of free cells where food may go. It also proves that a body
  on the board without duplicates has exactly `400 - |body|` free cells.
  So food can be placed exactly when the snake does not fill the board, and
  once it does fill the board every move ends the game.
- `SnakeGame` (`snake_game.dfy`): the component as a class `Game`. The six
  state fields are fields of the class, and each handler is a method. The
  class invariant `Valid()` holds in every reachable state. It says that:
  - the body is a valid snake;
  - the food is on the board;
  - `score == 10 * (|snake| - 1)`;
  - a game that is over is not running.

  Every method preserves `Valid()` and states the whole new state. The
  reversal rule is stated once as the function `Turn`, and `ChangeDirection`
  (the four `if`s of the handler) is proved against it. `Tick` is proved
  against the one-cell `Move`, the `Collides` test and the grow and slither
  shapes.

Three behaviours of the code matter to the model:

- There is one direction field and no pending/committed pair. A request is
  checked against the field, which an earlier request since the last tick
  may already have changed. `TwoRequestsReverse` shows the consequence: a
  side turn followed by the reverse of the last move is accepted, and the
  next tick then runs into the neck.
- New food avoids only the body as it was before the move, not the grown
  body. So it may land on the cell the head has just entered
  (`FoodMayLandOnHead`). The same fact means the placement loop always has
  a free cell during a tick: the new head's cell.
- Reset has no guard of its own and works from any state. The start action
  takes effect only while the game is neither running nor over. The
  component shows its button only then, and the model puts that condition
  in `Start`. This condition is what keeps `isRunning && isGameOver` false.

## Model

| member | source | states |
|---|---|---|
| `Grid.Opposite` | src/components/SnakeGame.jsx:32-35 | the reversal partner of a direction is never the direction itself (UP/DOWN, LEFT/RIGHT) |
| `Grid.Move` | src/components/SnakeGame.jsx:83-89 | the new head is exactly one unit from the old one: UP lowers y, DOWN raises y, LEFT lowers x, RIGHT raises x |
| `Grid.StepBack` | src/components/SnakeGame.jsx:83-89 | moving in the opposite direction returns to the starting cell |
| `Grid.FreeCells` | src/components/SnakeGame.jsx:38-47 | a cell is a candidate for food exactly when it is on the 20×20 board and not in the body |
| `Grid.Collides` | src/components/SnakeGame.jsx:90 | a candidate head ends the game exactly when it is not a free cell: off the board on either axis, or on a cell of the pre-move body |
| `Grid.GrowKeepsValid` | src/components/SnakeGame.jsx:90-100 | prepending a head that is on the board and not in the body keeps the body valid and lengthens it by one |
| `Grid.SlitherKeepsValid` | src/components/SnakeGame.jsx:90-104 | prepending such a head and dropping the tail keeps the body valid and its length unchanged |
| `Grid.FreeCellCount` | src/components/SnakeGame.jsx:38-48 | a body on the board with no repeated cell leaves exactly 400 minus its length free cells |
| `Grid.FoodPlaceable` | src/components/SnakeGame.jsx:39-48 | such a body has at most 400 cells, and the food loop has a free cell to find exactly when it has fewer |
| `Grid.FullBoardCollides` | src/components/SnakeGame.jsx:90 | once the snake fills the board, every move leaves the board or hits the body |
| `SnakeGame.RequestedDirection` | src/components/SnakeGame.jsx:32-35 | a request is read as a direction exactly when it is that direction's name (`UP`, `DOWN`, `LEFT`, `RIGHT`); every other string is read as no direction |
| `SnakeGame.Turn` | src/components/SnakeGame.jsx:31-36 | the direction after a request is never the reverse of the one before, and it is either unchanged or the requested direction |
| `SnakeGame.TurnTakesRequest` | src/components/SnakeGame.jsx:31-36 | a named request is taken unless it is the reverse of the current direction, in which case the direction stays |
| `SnakeGame.KeyRequest` | src/components/SnakeGame.jsx:61-68 | exactly the four arrow keys produce a request: ArrowUp gives `UP`, ArrowDown `DOWN`, ArrowLeft `LEFT`, ArrowRight `RIGHT`; any other key gives none |
| `SnakeGame.TwoRequestsReverse` | src/components/SnakeGame.jsx:31-36 | two requests between ticks, a side turn and then the reverse, set the reverse direction, and the next move then hits the neck |
| `SnakeGame.FoodMayLandOnHead` | src/components/SnakeGame.jsx:96-100 | after a successful move, the new head's cell is free in the pre-move body that food placement avoids, but not in the grown body |
| `SnakeGame.Game.Live` | src/components/SnakeGame.jsx:78 | a tick takes effect only when running and not over; under the class invariant this is the same as running |
| `SnakeGame.Game.constructor` | src/components/SnakeGame.jsx:18-23 | the initial state: body [(10,10)], food (15,15), direction RIGHT, not over, not running, score 0 |
| `SnakeGame.Game.ChangeDirection` | src/components/SnakeGame.jsx:31-36 | the four guarded assignments set the direction to `Turn` of the old direction and the request, and change nothing else |
| `SnakeGame.Game.KeyDown` | src/components/SnakeGame.jsx:61-69 | an arrow key applies its request through the reversal rule; any other key leaves the direction as it was |
| `SnakeGame.Game.GenerateFood` | src/components/SnakeGame.jsx:38-49 | the new food is on the board and not on the current body, and nothing else changes; a free cell must exist |
| `SnakeGame.Game.Reset` | src/components/SnakeGame.jsx:51-58 | from any state: initial body, food and direction, not over, score 0, running |
| `SnakeGame.Game.Start` | src/components/SnakeGame.jsx:122-123 | running becomes true only when the game was neither running nor over, and nothing else changes |
| `SnakeGame.Game.Tick` | src/components/SnakeGame.jsx:78-105 | no effect unless running and not over. A head off the board or on any pre-move body cell ends the game and keeps body, food and score. Otherwise: on food, body grows by the new head, score +10, food moves off the pre-move body; elsewhere, the head is prepended, the tail dropped, score and food kept. The class invariant is preserved |

## Left out

- Rendering: the markup, and the board and cell sizes computed from the window width with floating-point scaling.
- Audio: the eat and game-over sounds have no effect on the state.
- Event wiring and timing: the keydown listener registration, `setInterval`/`clearInterval` and the 200 ms period (`GAME_SPEED`). One tick is one call of `Tick`.
- React scheduling: setter batching and stale closures. Each handler is one atomic transition, so the body the tick updater receives is the body the food placement reads.
- `GenerateFood`: the `while (true)` loop of random draws becomes one nondeterministic choice among the free cells. The loop's termination and the uniformity of the draw are not modelled. Its precondition is that a free cell exists; inside `Tick` this always holds.
- `Tick`: the `default` branch of the direction switch is not modelled, because the direction field only ever holds one of the four directions.
- Coordinates and score are JavaScript numbers. They stay small integers here (coordinates within one cell of the board, score at most 3990), so they are modelled as unbounded integers.
