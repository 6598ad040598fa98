# Maze game model

This is a model of the console maze game in `prac/prac/Program.cs`, with proofs of its properties.

The maze is a rectangular grid of characters, read as `maze[y, x]`. The character `'#'` is a wall and every other character is floor. The player starts on cell (1, 1) with 100 percent health, and the exit is the cell diagonally inside the bottom-right corner. Up to three enemies are scattered at random on floor cells. Each tick of the game loop does three things:

1. It checks for loss (health at or below 0) and then for a win (the player on the exit).
2. It handles at most one key:
   - Escape quits.
   - `R` shows the shortest route to the exit, found by breadth-first search.
   - `K` shows or hides the enemies.
   - Any other key is tried as a move (arrows or WASD).
3. While the enemies are shown, every enemy takes a random step and then each enemy on the player's cell costs 20 health.

The model has two modules:

- **`Geometry`** (`geometry.dfy`) holds cells, directions, 4-adjacency, the search's neighbour order, chains of adjacent cells and sequence reversal.
- **`MazeGame`** (`maze_game.dfy`) holds the class `Game`. Its `const` fields are the maze, its width and height, and the exit. Its `var` fields are the player's coordinates, health, the enemy list and the visibility flag. Every routine of the game loop is a method on it.

`Game.Valid()` is the invariant each method keeps:

- health is between 0 and 100;
- every enemy stands on floor;
- the player stands on floor, or is still on the start cell.

The breadth-first search keeps the source's data structures:

- a `visited` array;
- a parent map whose start entry is the sentinel (-1, -1);
- a queue explored up, down, left, right.

It is proved sound, complete and shortest. A ghost layer map `dist` records each discovered cell's hop count. The loop invariants are:

- the parent map is a tree over the discovered cells, one layer per edge;
- the queue is sorted by layer across at most two adjacent layers;
- every cell that has left the queue has all its floor neighbours discovered, at most one layer further out.

Randomness is injected. `SpawnEnemies` receives one pair of draws per attempt, 1000 pairs in all, each within the range `Random.Next` would return. `UpdateEnemies` and `Tick` receive one `Next(5)` result per enemy. Every property holds for every such sequence.

## Model

| member | source | states |
|---|---|---|
| MazeGame.Game.IsWalkable | prac/prac/Program.cs:158-163 | False outside the maze; inside the maze it is true exactly when the cell is not `'#'` |
| MazeGame.Game.Floor | prac/prac/Program.cs:158-163 | The set of floor cells holds exactly the walkable cells |
| MazeGame.KeyDirection | prac/prac/Program.cs:134-149 | Arrows and WASD are the only movement keys; Up/W, Down/S, Left/A and Right/D each pick their own direction |
| Geometry.AdjacentIsNeighbour | prac/prac/Program.cs:245-246 | The four offsets reach exactly the 4-adjacent cells, in the order up, down, left, right |
| MazeGame.Game.PlayerAfterKey | prac/prac/Program.cs:133-155 | Where a key leaves the player: always where it stood or on a floor cell |
| MazeGame.Game.PlayerAfterKeyMoves | prac/prac/Program.cs:131-156 | After a key the player is where it stood, or exactly on the cell one step in that key's direction, which is floor and 4-adjacent; a non-movement key never moves it; a movement key moves it exactly when the target is floor, so a blocked key leaves it in place |
| MazeGame.Game.HandlePlayerMove | prac/prac/Program.cs:131-156 | The new position is the one that key leads to from the old position (see PlayerAfterKeyMoves); the invariant is kept |
| MazeGame.Attacked | prac/prac/Program.cs:216-221 | Health after one hit is never negative and never above the health before it |
| MazeGame.Game.AttackPlayer | prac/prac/Program.cs:216-221 | Health becomes max(old - 20, 0): 20 less when at least 20, otherwise 0 |
| MazeGame.AfterHits | prac/prac/Program.cs:209-221 | Health after n hits: never negative once hit, never above the starting health |
| MazeGame.AfterHitsTotal | prac/prac/Program.cs:209-221 | n hits in a row leave max(h - 20n, 0): the hits stack and the clamp at 0 is the only loss of damage |
| MazeGame.Game.CheckEnemyCollision | prac/prac/Program.cs:209-214 | Health becomes the result of one hit per enemy standing on the player's cell, counted with multiplicity; positions are unchanged |
| MazeGame.Game.PlacedStep | prac/prac/Program.cs:169-185 | One more attempt keeps its draw exactly when fewer than count are placed and the draw is floor, not the player's cell and not yet taken |
| MazeGame.Game.PlacedFull | prac/prac/Program.cs:169 | Once count enemies are placed, later draws add nothing, so stopping the loop early gives the same list |
| MazeGame.Game.PlacedSafe | prac/prac/Program.cs:169-185 | The kept draws number at most count (none when count is not positive), are pairwise distinct, and each is a draw on floor other than the player's cell |
| MazeGame.Game.PlacedInside | prac/prac/Program.cs:171-172 | Draws inside the border give enemies inside the border |
| MazeGame.Game.PlacedFair | prac/prac/Program.cs:169-185 | Fewer than count kept means every draw was refused for cause: a wall, the player's cell or a cell already taken |
| MazeGame.Game.Occupied | prac/prac/Program.cs:175-181 | The scan reports an enemy on (x, y) exactly when one stands there |
| MazeGame.Game.SpawnEnemies | prac/prac/Program.cs:165-187 | The new enemy list is exactly the draws Placed keeps, in draw order: the earliest acceptable ones; so at most count enemies, pairwise distinct, each a draw that is floor, not the player's cell and within 1..width-2 by 1..height-2, taken from the 1000 draws, one per attempt; when fewer than count are placed, every draw was rejected for cause |
| MazeGame.ChoiceDirection | prac/prac/Program.cs:194-203 | Choices 0 to 3 are moves (up, down, left, right) and every other choice is stay |
| MazeGame.Game.EnemyStep | prac/prac/Program.cs:195-205 | One enemy's step: it ends where it stood or on a floor cell that is not the player's |
| MazeGame.Game.EnemyStepMoves | prac/prac/Program.cs:193-205 | One enemy stays, or lands exactly on the 4-adjacent cell its choice names, which is floor and not the player's; it moves exactly when that target is floor and not the player's cell, so a refused or out-of-range choice leaves it in place; an enemy on floor stays on floor |
| MazeGame.Game.MovedEnemies | prac/prac/Program.cs:189-207 | The enemy list keeps its length, and each slot takes its own step with its own choice |
| MazeGame.Game.MovedEnemiesSafe | prac/prac/Program.cs:189-207 | After a round every enemy is at its old cell or on an adjacent floor cell the player does not occupy |
| MazeGame.Game.UpdateEnemies | prac/prac/Program.cs:189-207 | The in-place loop leaves exactly the list of per-enemy steps (MovedEnemies) and keeps every enemy on floor |
| Geometry.Neighbour | prac/prac/Program.cs:256-259 | Each of the four offsets leads to a 4-adjacent cell |
| Geometry.Reversed | prac/prac/Program.cs:280 | The reversal has the same length and holds the cells in the opposite order |
| Geometry.ReversedChain | prac/prac/Program.cs:273-281 | Reversing a chain of adjacent cells gives a chain |
| MazeGame.Game.Reach | prac/prac/Program.cs:248-270 | Any route from the start within the explored layers, or of any length once the queue is empty, ends on a discovered cell whose layer is at most its hop count |
| MazeGame.Game.Dequeue | prac/prac/Program.cs:250 | Taking the head off the queue keeps the queue in layer order from the head's layer on |
| MazeGame.Game.Discover | prac/prac/Program.cs:262-267 | Marking, parenting and enqueuing a new floor neighbour keeps the parent tree, the layering and the closure |
| MazeGame.Game.DiscoverTree | prac/prac/Program.cs:265 | The new parent edge joins the new cell to the tree, one layer below its parent |
| MazeGame.Game.DiscoverLayered | prac/prac/Program.cs:266 | Enqueuing a cell of the next layer keeps the queue in layer order |
| MazeGame.Game.DiscoverClosed | prac/prac/Program.cs:262-267 | Discovering a cell keeps every closed cell closed |
| MazeGame.Game.CloseCell | prac/prac/Program.cs:256-269 | Once all four neighbours are handled the dequeued cell is closed |
| MazeGame.Game.DiscoveredBound | prac/prac/Program.cs:239 | The discovered cells never outnumber the maze's cells, which bounds the loop |
| MazeGame.Game.FoundShortest | prac/prac/Program.cs:251-255 | When the end comes off the queue no route to it has fewer than its layer plus one cells |
| MazeGame.Game.NotFound | prac/prac/Program.cs:248-272 | When the queue runs dry without reaching the end there is no route to it |
| MazeGame.Game.ExploreSkip | prac/prac/Program.cs:260-263 | A neighbour that is outside the maze, a wall or already visited changes nothing |
| MazeGame.Game.ExploreAdmit | prac/prac/Program.cs:262-267 | A newly discovered neighbour extends the tree, the queue and the layer map by that one cell |
| MazeGame.Game.AdmitChild | prac/prac/Program.cs:265 | Parenting the new cell on the dequeued cell keeps every cell discovered in this round a child of it |
| MazeGame.Game.GrowAdmit | prac/prac/Program.cs:264-266 | The queue and the layer map grow by the same one cell, and the old queue stays a prefix |
| MazeGame.Game.ExploreStart | prac/prac/Program.cs:250-256 | Dequeuing a cell that is not the end sets up the inner loop's invariant |
| MazeGame.Game.ExploreDone | prac/prac/Program.cs:256-269 | After the inner loop the outer loop's invariant holds again |
| MazeGame.Game.MarkVisited | prac/prac/Program.cs:264 | The visited array marks exactly the discovered cells, now including the new one |
| MazeGame.Game.VisitNeighbour | prac/prac/Program.cs:258-268 | One round of the inner loop: when the neighbour is floor (inside the maze and not a wall) and not yet visited, it gets `c` as its parent, the next layer as its layer, and is appended to the queue; otherwise parent map, queue and layer map are unchanged; the inner loop's invariant moves on one round |
| MazeGame.Game.ExploreNeighbours | prac/prac/Program.cs:256-269 | All four neighbours in order: the outer loop's invariant holds again at the dequeued cell's layer (every cell off the queue closed); the old queue stays a prefix, the layer map only grows, every newly discovered cell is in the queue, the queue grows by as many cells as were discovered, and every newly discovered cell has the dequeued cell as its parent |
| MazeGame.Game.Search | prac/prac/Program.cs:239-272 | found means the parent tree reaches the end and no route is shorter than its layer plus one; not found means the end is unreachable |
| MazeGame.Game.TracePath | prac/prac/Program.cs:273-281 | Following parents from the end to the sentinel and reversing gives a route from start to end with one cell per layer |
| MazeGame.Game.FindPathBFS | prac/prac/Program.cs:235-282 | Empty when the start or end is not floor; empty exactly when the end is unreachable; otherwise a shortest route from start to end (4-adjacent floor steps, no route shorter) |
| MazeGame.Game.ShowRoute | prac/prac/Program.cs:223-228 | The route shown is empty exactly when the exit is unreachable from the player, and is otherwise a shortest route |
| MazeGame.Game.constructor | prac/prac/Program.cs:27-32 | Exit at (width-2, height-2), player at (1,1), full health, enemies shown; at most 3 distinct enemies, each a draw on floor off the player's cell within 1..width-2 by 1..height-2; fewer than 3 only when every draw was rejected for cause; the list is exactly the draws Placed keeps for 3 |
| MazeGame.Game.ReactToKey | prac/prac/Program.cs:52-59 | R shows the route and changes nothing; K flips visibility; any other key is a move; enemies and health are untouched |
| MazeGame.Game.EnemiesTurn | prac/prac/Program.cs:61-65 | Enemies step, then health drops by one hit per enemy on the player's cell |
| MazeGame.Game.Tick | prac/prac/Program.cs:33-65 | Loss is checked before the win, so a dead player on the exit loses; then Escape quits; the tick reports Running exactly when the player is alive, off the exit and Escape was not pressed; a finished tick changes nothing; otherwise the key acts, and enemies move and hit only while shown |

## Left out

- Loading the maze from `maze.txt` (`File.Exists`, `File.ReadAllLines`, lines 21-26 and 71-80) is file I/O. The constructor takes the loaded array. The model assumes a maze of at least 3 by 3; smaller mazes are not modelled. The rectangular shape the loader assumes is given by the array type.
- RedrawScreen (lines 82-120) and DrawHealthBar (lines 122-129) are rendering. DrawHealthBar also uses floating-point rounding.
- ShowRoute's console output and its blocking `ReadKey` (lines 226-232) are terminal I/O. Only the search it calls is modelled.
- `Console.KeyAvailable`, `ReadKey` and `Thread.Sleep` (lines 39, 46, 49-51, 67) are input and pacing. The tick takes the key it would read, or none, as a parameter.
- The game-over and win messages and their two-second pause are output. The tick only reports `Lost`, `Won`, `Quit` or `Running`.
- `System.Random` is a foreign call. Its results are parameters. `SpawnEnemies` requires its draws to lie in `Next(1, width - 1)` by `Next(1, height - 1)`. `UpdateEnemies` accepts any integer per enemy and treats every value other than 0 to 3 as stay, as the switch's default does.
- MazeGame.Game.FindPathBFS: the contract proves a shortest route but does not say which one. The fixed neighbour order does pick one, and that choice is not stated.
- MazeGame.Game.SpawnEnemies: the contract does not promise exactly `count` enemies when enough floor cells exist. The list is pinned to the draws, so how many are placed depends on them. That a random sequence almost surely fills the quota is a probabilistic fact, and the model has no probabilities. It does prove that fewer enemies means every draw was rejected for cause.
- MazeGame.Game.constructor: for the same reason it does not promise exactly three enemies, only at most three, with fewer meaning every draw was rejected for cause.
- MazeGame.Game.UpdateEnemies: nothing stops two enemies from moving onto the same cell. This matches the code, so no distinctness is claimed after a step.
- The search's inner loop (lines 256-269) and its outer loop (lines 248-270) are split into the methods `Search`, `ExploreNeighbours`, `VisitNeighbour` and `MarkVisited`. The `visited` array is still an array updated in place. The parent dictionary and the queue are value-typed `map` and `seq` variables.
- Enemies are a `seq` field that the methods reassign. Because the source's list is private to the program, no aliasing is lost.
- Integer overflow is not modelled. Coordinates stay within the maze, and health stays within 0..100.
