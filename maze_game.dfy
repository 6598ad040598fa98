/** The maze game's state and its per-tick logic: walkability, player
    movement, damage, enemy spawn and random walk, the breadth-first route
    to the exit, and one iteration of the game loop. */
module MazeGame {
  import opened Geometry

  datatype Option<T> = None | Some(value: T)

  /** The wall glyph; every other character is floor. */
  const Wall: char := '#'
  const MaxHealth: int := 100
  /** Health lost for each enemy standing on the player's cell. */
  const HitDamage: int := 20
  /** Enemies placed at the start of a game. */
  const EnemyCount: int := 3
  /** Attempt budget of the spawn loop. */
  const MaxSpawnAttempts: int := 1000

  /** The keys the loop tells apart; every other key is `OtherKey`. */
  datatype ConsoleKey =
    | UpArrow | W | DownArrow | S | LeftArrow | A | RightArrow | D
    | Escape | R | K | OtherKey

  /** How a tick ends: the game goes on, or the loop is left for one of three reasons. */
  datatype Outcome = Running | Lost | Won | Quit

  /** The direction a movement key stands for: arrows and WASD. */
  function KeyDirection(k: ConsoleKey): (d: Option<Dir>)
    ensures d.Some? <==> k in {UpArrow, W, DownArrow, S, LeftArrow, A, RightArrow, D}
    ensures d == Some(Up) <==> k in {UpArrow, W}
    ensures d == Some(Down) <==> k in {DownArrow, S}
    ensures d == Some(Left) <==> k in {LeftArrow, A}
    ensures d == Some(Right) <==> k in {RightArrow, D}
  {
    match k
    case UpArrow | W => Some(Up)
    case DownArrow | S => Some(Down)
    case LeftArrow | A => Some(Left)
    case RightArrow | D => Some(Right)
    case _ => None
  }

  /** The direction an enemy's random choice in 0..4 stands for; 4 (and any
      other value) means it stays. */
  function ChoiceDirection(c: int): (d: Option<Dir>)
    ensures d.Some? <==> 0 <= c < 4
    ensures c == 0 ==> d == Some(Up)
    ensures c == 1 ==> d == Some(Down)
    ensures c == 2 ==> d == Some(Left)
    ensures c == 3 ==> d == Some(Right)
  {
    match c
    case 0 => Some(Up)
    case 1 => Some(Down)
    case 2 => Some(Left)
    case 3 => Some(Right)
    case _ => None
  }

  /** Health after one hit: 20 less, but never below 0. */
  function Attacked(h: int): (r: int)
    ensures r >= 0
    ensures h >= 0 ==> r <= h
  {
    if h - HitDamage < 0 then 0 else h - HitDamage
  }

  /** Health after `n` hits in a row. */
  function AfterHits(h: int, n: nat): (r: int)
    ensures n > 0 ==> r >= 0
    ensures h >= 0 ==> 0 <= r <= h
  {
    if n == 0 then h else Attacked(AfterHits(h, n - 1))
  }

  /** The hits stack and the clamp at 0 applies to each, which is the same
      as clamping the total loss of `20 * n`. */
  lemma {:induction false} AfterHitsTotal(h: int, n: nat)
    requires h >= 0
    ensures AfterHits(h, n) == if h - HitDamage * n < 0 then 0 else h - HitDamage * n
  {
    if n > 0 {
      AfterHitsTotal(h, n - 1);
    }
  }

  predicate Distinct(s: seq<Pos>)
  {
    forall i, j :: 0 <= i < j < |s| ==> s[i] != s[j]
  }

  class Game {
    /** The maze, read as `maze[y, x]`; fixed once loaded. */
    const maze: array2<char>
    const width: int := maze.Length1
    const height: int := maze.Length0
    /** The exit is the cell diagonally inside the bottom-right corner. */
    const exitX: int := width - 2
    const exitY: int := height - 2

    var playerX: int
    var playerY: int
    var health: int
    var enemies: seq<Pos>
    var enemiesVisible: bool

    /** The game's invariant: health is a percentage, every enemy stands on
        floor, and the player stands on floor unless still on the start cell
        (the maze is not required to have floor there). */
    ghost predicate Valid()
      reads this, maze
    {
      && width >= 3 && height >= 3
      && 0 <= health <= MaxHealth
      && (Walkable(Player()) || Player() == Pos(1, 1))
      && (forall i :: 0 <= i < |enemies| ==> Walkable(enemies[i]))
    }

    function Player(): Pos
      reads this
    {
      Pos(playerX, playerY)
    }

    function Exit(): Pos
    {
      Pos(exitX, exitY)
    }

    ghost function Cells(): set<Pos>
    {
      set x: int, y: int | 0 <= x < width && 0 <= y < height :: Pos(x, y)
    }

    /** The floor cells of the maze. The search's invariants speak of this
        set rather than of the array, so that marking `visited` leaves them
        alone. */
    ghost function Floor(): (f: set<Pos>)
      reads maze
      ensures forall p :: p in f <==> Walkable(p)
    {
      set p | p in Cells() && Walkable(p)
    }

    /** The one bounds-and-wall test every other routine uses. */
    function IsWalkable(x: int, y: int): (r: bool)
      reads maze
      ensures r ==> 0 <= x < width && 0 <= y < height
      ensures 0 <= x < width && 0 <= y < height ==> (r <==> maze[y, x] != Wall)
    {
      if x < 0 || x >= width || y < 0 || y >= height then false
      else maze[y, x] != Wall
    }

    predicate Walkable(p: Pos)
      reads maze
    {
      IsWalkable(p.x, p.y)
    }

    // ---------------------------------------------------------------- routes

    /** A walk over floor cells, one 4-adjacent step at a time. */
    ghost predicate IsRoute(p: seq<Pos>)
      reads maze
    {
      && |p| > 0
      && IsChain(p)
      && forall i :: 0 <= i < |p| ==> Walkable(p[i])
    }

    ghost predicate IsRouteBetween(p: seq<Pos>, s: Pos, e: Pos)
      reads maze
    {
      IsRoute(p) && p[0] == s && p[|p| - 1] == e
    }

    ghost predicate Reachable(s: Pos, e: Pos)
      reads maze
    {
      exists p :: IsRouteBetween(p, s, e)
    }

    /** `path` is a route from `s` to `e` with no more cells than any other. */
    ghost predicate IsShortestRoute(path: seq<Pos>, s: Pos, e: Pos)
      reads maze
    {
      IsRouteBetween(path, s, e) && forall p {:trigger IsRouteBetween(p, s, e)} :: IsRouteBetween(p, s, e) ==> |path| <= |p|
    }

    // ------------------------------------------------- breadth-first search

    /** The parent map is a tree rooted at the start: every other discovered
        cell points at a discovered neighbour one layer closer to the start. */
    ghost predicate ParentTree(start: Pos, parent: map<Pos, Pos>, dist: map<Pos, nat>, floor: set<Pos>)
    {
      && start in dist && dist[start] == 0
      && parent.Keys == dist.Keys
      && parent[start] == Sentinel
      && dist.Keys <= floor
      && (forall v {:trigger parent[v]} :: v in dist && v != start ==>
            parent[v] in dist && dist[v] == dist[parent[v]] + 1 && Adjacent(parent[v], v))
    }

    /** The `visited` array marks exactly the discovered cells. */
    ghost predicate Marked(visited: array2<bool>, dist: map<Pos, nat>)
      reads visited
    {
      && visited.Length0 == height && visited.Length1 == width
      && forall x, y {:trigger visited[y, x]} :: 0 <= x < width && 0 <= y < height ==> (visited[y, x] <==> Pos(x, y) in dist)
    }

    /** The queue holds discovered cells of layers `level` and `level + 1`, in
        order of layer, and nothing beyond layer `level + 1` is discovered yet. */
    ghost predicate Layered(dist: map<Pos, nat>, queue: seq<Pos>, level: nat)
    {
      && (forall j :: 0 <= j < |queue| ==> queue[j] in dist && level <= dist[queue[j]])
      && (forall j, k :: 0 <= j <= k < |queue| ==> dist[queue[j]] <= dist[queue[k]])
      && (forall v :: v in dist ==> dist[v] <= level + 1)
    }

    /** Every discovered cell not in `open` has had all its floor neighbours
        discovered, at most one layer further out. */
    ghost predicate Closed(dist: map<Pos, nat>, open: seq<Pos>, floor: set<Pos>)
    {
      forall u, w {:trigger Adjacent(u, w)} :: u in dist && u !in open && Adjacent(u, w) && w in floor ==>
        w in dist && dist[w] <= dist[u] + 1
    }

    /** The heart of the search's correctness: a route from the start of at
        most `level` hops (or of any length once the queue is empty) ends at a
        discovered cell whose layer is at most the route's hop count. */
    lemma {:induction false} Reach(start: Pos, dist: map<Pos, nat>, open: seq<Pos>, level: nat, floor: set<Pos>, p: seq<Pos>)
      requires floor == Floor()
      requires start in dist && dist[start] == 0
      requires forall j :: 0 <= j < |open| ==> open[j] in dist && level <= dist[open[j]]
      requires Closed(dist, open, floor)
      requires IsRoute(p) && p[0] == start
      requires |p| - 1 <= level || open == []
      ensures p[|p| - 1] in dist && dist[p[|p| - 1]] <= |p| - 1
      decreases |p|
    {
      if |p| > 1 {
        var q := p[..|p| - 1];
        assert IsRoute(q) by {
          forall i | 0 <= i < |q| - 1 ensures Adjacent(q[i], q[i + 1]) {
            assert q[i] == p[i] && q[i + 1] == p[i + 1];
          }
        }
        Reach(start, dist, open, level, floor, q);
        var m := q[|q| - 1];
        assert m == p[|p| - 2];
        assert Adjacent(p[|p| - 2], p[|p| - 1]);
        assert forall j :: 0 <= j < |open| ==> open[j] != m;
        assert Walkable(p[|p| - 1]);
      }
    }

    /** Taking the head `c` off the queue makes `c`'s layer the current one. */
    lemma Dequeue(dist: map<Pos, nat>, open: seq<Pos>, level: nat)
      requires Layered(dist, open, level) && |open| > 0
      ensures Layered(dist, open, dist[open[0]])
      ensures Layered(dist, open[1..], dist[open[0]])
    {
      var l := dist[open[0]];
      forall j | 0 <= j < |open| ensures l <= dist[open[j]] {
      }
      var rest := open[1..];
      forall j | 0 <= j < |rest| ensures rest[j] in dist && l <= dist[rest[j]] {
        assert rest[j] == open[j + 1];
      }
      forall j, k | 0 <= j <= k < |rest| ensures dist[rest[j]] <= dist[rest[k]] {
        assert rest[j] == open[j + 1] && rest[k] == open[k + 1];
      }
    }

    /** Discovering the floor cell `n` next to `c`, one layer further out,
        keeps the parent tree, the layering and the closure. */
    lemma Discover(start: Pos, parent: map<Pos, Pos>, dist: map<Pos, nat>, queue: seq<Pos>, floor: set<Pos>, c: Pos, n: Pos)
      requires ParentTree(start, parent, dist, floor)
      requires c in dist && Layered(dist, queue, dist[c])
      requires Closed(dist, [c] + queue, floor)
      requires n !in dist && n in floor && Adjacent(c, n)
      ensures ParentTree(start, parent[n := c], dist[n := dist[c] + 1], floor)
      ensures Layered(dist[n := dist[c] + 1], queue + [n], dist[c])
      ensures Closed(dist[n := dist[c] + 1], [c] + (queue + [n]), floor)
    {
      DiscoverTree(start, parent, dist, floor, c, n);
      DiscoverLayered(dist, queue, c, n);
      DiscoverClosed(dist, queue, floor, c, n);
    }

    lemma DiscoverTree(start: Pos, parent: map<Pos, Pos>, dist: map<Pos, nat>, floor: set<Pos>, c: Pos, n: Pos)
      requires ParentTree(start, parent, dist, floor)
      requires c in dist && n !in dist && n in floor && Adjacent(c, n)
      ensures ParentTree(start, parent[n := c], dist[n := dist[c] + 1], floor)
    {
      var dist', parent' := dist[n := dist[c] + 1], parent[n := c];
      forall v | v in dist' && v != start
        ensures parent'[v] in dist' && dist'[v] == dist'[parent'[v]] + 1 && Adjacent(parent'[v], v)
      {
        if v != n {
          assert parent'[v] == parent[v];
        }
      }
    }

    lemma DiscoverLayered(dist: map<Pos, nat>, queue: seq<Pos>, c: Pos, n: Pos)
      requires c in dist && Layered(dist, queue, dist[c]) && n !in dist
      ensures Layered(dist[n := dist[c] + 1], queue + [n], dist[c])
    {
      var dist', queue' := dist[n := dist[c] + 1], queue + [n];
      forall j | 0 <= j < |queue'| ensures queue'[j] in dist' && dist[c] <= dist'[queue'[j]] {
        if j < |queue| {
          assert queue'[j] == queue[j];
        }
      }
      forall j, k | 0 <= j <= k < |queue'| ensures dist'[queue'[j]] <= dist'[queue'[k]] {
        if k < |queue| {
          assert queue'[j] == queue[j] && queue'[k] == queue[k];
        } else if j < |queue| {
          assert queue'[j] == queue[j];
        }
      }
    }

    lemma DiscoverClosed(dist: map<Pos, nat>, queue: seq<Pos>, floor: set<Pos>, c: Pos, n: Pos)
      requires c in dist && Closed(dist, [c] + queue, floor) && n !in dist
      ensures Closed(dist[n := dist[c] + 1], [c] + (queue + [n]), floor)
    {
      var dist' := dist[n := dist[c] + 1];
      forall u, w | u in dist' && u !in [c] + (queue + [n]) && Adjacent(u, w) && w in floor
        ensures w in dist' && dist'[w] <= dist'[u] + 1
      {
        assert u != n && u !in [c] + queue;
      }
    }

    /** Once all four neighbours of `c` are discovered, `c` is closed too. */
    lemma CloseCell(dist: map<Pos, nat>, queue: seq<Pos>, floor: set<Pos>, c: Pos)
      requires c in dist && Closed(dist, [c] + queue, floor)
      requires forall j :: 0 <= j < 4 && Neighbour(c, j) in floor ==>
        Neighbour(c, j) in dist && dist[Neighbour(c, j)] <= dist[c] + 1
      ensures Closed(dist, queue, floor)
    {
      forall u, w | u in dist && u !in queue && Adjacent(u, w) && w in floor
        ensures w in dist && dist[w] <= dist[u] + 1
      {
        if u == c {
          AdjacentIsNeighbour(c, w);
        } else {
          assert u !in [c] + queue;
        }
      }
    }

    /** The outer loop's invariant: a parent tree over the discovered cells,
        the queue in layers from `level` on, every cell off the queue closed,
        and the end, once discovered, still waiting in the queue. */
    ghost predicate Frontier(start: Pos, end: Pos, parent: map<Pos, Pos>, queue: seq<Pos>,
                             dist: map<Pos, nat>, floor: set<Pos>, level: nat)
    {
      && ParentTree(start, parent, dist, floor)
      && Layered(dist, queue, level) && Closed(dist, queue, floor)
      && (end in dist ==> end in queue)
      && dist.Keys <= Cells()
    }

    /** No more cells are discovered than the maze has. */
    lemma DiscoveredBound(dist: map<Pos, nat>)
      requires dist.Keys <= Cells()
      ensures |dist| <= |Cells()|
    {
      assert Cells() == dist.Keys + (Cells() - dist.Keys);
    }

    /** When the end comes off the queue, no route to it has fewer than
        `dist[end] + 1` cells. */
    lemma FoundShortest(start: Pos, end: Pos, open: seq<Pos>, dist: map<Pos, nat>, floor: set<Pos>)
      requires floor == Floor() && start in dist && dist[start] == 0
      requires |open| > 0 && open[0] == end && end in dist
      requires Layered(dist, open, dist[end]) && Closed(dist, open, floor)
      ensures forall p {:trigger IsRouteBetween(p, start, end)} :: IsRouteBetween(p, start, end) ==> dist[end] + 1 <= |p|
    {
      forall p | IsRouteBetween(p, start, end) ensures dist[end] + 1 <= |p| {
        if |p| - 1 <= dist[end] {
          Reach(start, dist, open, dist[end], floor, p);
        }
      }
    }

    /** When the queue runs dry without reaching the end, there is no route. */
    lemma NotFound(start: Pos, end: Pos, parent: map<Pos, Pos>, dist: map<Pos, nat>, floor: set<Pos>, level: nat)
      requires floor == Floor() && Frontier(start, end, parent, [], dist, floor, level)
      ensures !Reachable(start, end)
    {
      forall p | IsRouteBetween(p, start, end) ensures p[|p| - 1] in dist {
        Reach(start, dist, [], level, floor, p);
      }
    }

    /** The breadth-first search: a shortest route from (startX, startY) to
        (endX, endY), or the empty sequence when there is none. */
    method FindPathBFS(startX: int, startY: int, endX: int, endY: int) returns (path: seq<Pos>)
      ensures !IsWalkable(startX, startY) || !IsWalkable(endX, endY) ==> path == []
      ensures path == [] <==> !Reachable(Pos(startX, startY), Pos(endX, endY))
      ensures path != [] ==> IsShortestRoute(path, Pos(startX, startY), Pos(endX, endY))
    {
      var start, end := Pos(startX, startY), Pos(endX, endY);
      if !IsWalkable(startX, startY) || !IsWalkable(endX, endY) {
        assert forall p {:trigger IsRouteBetween(p, start, end)} :: IsRouteBetween(p, start, end) ==> Walkable(start) && Walkable(end);
        return [];
      }
      ghost var floor := Floor();
      var visited := new bool[height, width]((_, _) => false);
      visited[startY, startX] := true;
      var found, parent;
      ghost var dist;
      found, parent, dist := Search(start, end, visited, floor);
      if !found {
        return [];
      }
      path := TracePath(start, end, parent, dist, floor);
    }

    /** The search loop proper: take cells off the queue in order until the
        end comes off it (`found`) or the queue runs dry. */
    method Search(start: Pos, end: Pos, visited: array2<bool>, ghost floor: set<Pos>)
      returns (found: bool, parent: map<Pos, Pos>, ghost dist: map<Pos, nat>)
      requires floor == Floor() && start in floor
      requires Marked(visited, map[start := 0])
      modifies visited
      ensures found ==> ParentTree(start, parent, dist, floor) && end in dist
      ensures found ==> forall p {:trigger IsRouteBetween(p, start, end)} :: IsRouteBetween(p, start, end) ==> dist[end] + 1 <= |p|
      ensures !found ==> !Reachable(start, end)
    {
      parent := map[start := Sentinel];
      dist := map[start := 0];
      var queue := [start];
      ghost var level: nat := 0;
      found := false;
      assert start in Cells();
      while |queue| > 0
        invariant floor == Floor() && Marked(visited, dist)
        invariant Frontier(start, end, parent, queue, dist, floor, level)
        invariant !found
        decreases |Cells()| - |dist| + |queue|
      {
        DiscoveredBound(dist);
        ghost var open := queue;
        var c := queue[0];
        queue := queue[1..];
        Dequeue(dist, open, level);
        level := dist[c];
        if c == end {
          found := true;
          FoundShortest(start, end, open, dist, floor);
          break;
        }
        parent, queue, dist := ExploreNeighbours(start, end, c, visited, parent, queue, dist, floor, open);
        DiscoveredBound(dist);
      }
      if !found {
        NotFound(start, end, parent, dist, floor, level);
      }
    }

    /** The state of the inner loop before its round `i`: the outer loop's
        invariants hold with `c` taken off the queue (`Searching`), and the
        first `i` neighbours of `c` are discovered if floor, the queue and the
        discovered cells having only grown, by the same cells (`Grown`). */
    ghost predicate Exploring(start: Pos, c: Pos, i: int, parent: map<Pos, Pos>, queue: seq<Pos>,
                              dist: map<Pos, nat>, floor: set<Pos>, queue0: seq<Pos>, dist0: map<Pos, nat>)
    {
      && c in dist0
      && Searching(start, c, parent, queue, dist, floor, dist0[c])
      && Grown(c, i, queue, dist, floor, queue0, dist0)
    }

    ghost predicate Searching(start: Pos, c: Pos, parent: map<Pos, Pos>, queue: seq<Pos>,
                              dist: map<Pos, nat>, floor: set<Pos>, level: nat)
    {
      && ParentTree(start, parent, dist, floor)
      && c in dist && dist[c] == level
      && Layered(dist, queue, level) && Closed(dist, [c] + queue, floor)
    }

    ghost predicate Grown(c: Pos, i: int, queue: seq<Pos>, dist: map<Pos, nat>, floor: set<Pos>,
                          queue0: seq<Pos>, dist0: map<Pos, nat>)
      requires c in dist0
    {
      && 0 <= i <= 4
      && (forall j :: 0 <= j < i && Neighbour(c, j) in floor ==>
            Neighbour(c, j) in dist && dist[Neighbour(c, j)] <= dist0[c] + 1)
      && dist0.Keys <= dist.Keys <= Cells()
      && |queue0| <= |queue| && queue[..|queue0|] == queue0
      && (forall v :: v in dist && v !in dist0 ==> v in queue)
      && |dist| - |dist0| == |queue| - |queue0|
    }

    /** A round that finds neighbour `i` already discovered, or not floor,
        changes nothing and still moves the loop on. */
    lemma ExploreSkip(start: Pos, c: Pos, i: int, parent: map<Pos, Pos>, queue: seq<Pos>,
                      dist: map<Pos, nat>, floor: set<Pos>, queue0: seq<Pos>, dist0: map<Pos, nat>)
      requires i < 4 && Exploring(start, c, i, parent, queue, dist, floor, queue0, dist0)
      requires Neighbour(c, i) in floor ==> Neighbour(c, i) in dist
      ensures Exploring(start, c, i + 1, parent, queue, dist, floor, queue0, dist0)
    {
    }

    /** A round that discovers neighbour `n` of `c` moves the loop on. */
    lemma ExploreAdmit(start: Pos, c: Pos, i: int, parent: map<Pos, Pos>, queue: seq<Pos>,
                       dist: map<Pos, nat>, floor: set<Pos>, queue0: seq<Pos>, dist0: map<Pos, nat>, n: Pos)
      requires i < 4 && Exploring(start, c, i, parent, queue, dist, floor, queue0, dist0)
      requires n == Neighbour(c, i) && n in floor && n !in dist && n in Cells()
      ensures Exploring(start, c, i + 1, parent[n := c], queue + [n], dist[n := dist0[c] + 1], floor, queue0, dist0)
    {
      Discover(start, parent, dist, queue, floor, c, n);
      GrowAdmit(c, i, queue, dist, floor, queue0, dist0, n);
    }

    lemma GrowAdmit(c: Pos, i: int, queue: seq<Pos>, dist: map<Pos, nat>, floor: set<Pos>,
                    queue0: seq<Pos>, dist0: map<Pos, nat>, n: Pos)
      requires c in dist0 && i < 4 && Grown(c, i, queue, dist, floor, queue0, dist0)
      requires n == Neighbour(c, i) && n in floor && n !in dist && n in Cells()
      ensures Grown(c, i + 1, queue + [n], dist[n := dist0[c] + 1], floor, queue0, dist0)
    {
      assert (queue + [n])[..|queue0|] == queue[..|queue0|];
    }

    /** The search's inner loop: discover each floor neighbour of the
        dequeued cell `c` not visited yet, in the order up, down, left, right;
        afterwards `c` is closed. */
    method ExploreNeighbours(ghost start: Pos, ghost end: Pos, c: Pos, visited: array2<bool>, parent0: map<Pos, Pos>,
                             queue0: seq<Pos>, ghost dist0: map<Pos, nat>, ghost floor: set<Pos>, ghost open: seq<Pos>)
      returns (parent: map<Pos, Pos>, queue: seq<Pos>, ghost dist: map<Pos, nat>)
      requires floor == Floor() && Marked(visited, dist0)
      requires |open| > 0 && open[0] == c && open[1..] == queue0
      requires c in dist0 && c != end
      requires Frontier(start, end, parent0, open, dist0, floor, dist0[c])
      modifies visited
      ensures floor == Floor() && Marked(visited, dist)
      ensures Frontier(start, end, parent, queue, dist, floor, dist0[c])
      ensures |queue0| <= |queue| && queue[..|queue0|] == queue0
      ensures dist0.Keys <= dist.Keys && forall v :: v in dist && v !in dist0 ==> v in queue
      ensures NewChildren(c, parent, dist, dist0)
      ensures |dist| - |dist0| == |queue| - |queue0|
    {
      ExploreStart(start, end, c, parent0, queue0, dist0, floor, open);
      parent, queue, dist := parent0, queue0, dist0;
      for i := 0 to 4
        invariant floor == Floor() && Marked(visited, dist)
        invariant Exploring(start, c, i, parent, queue, dist, floor, queue0, dist0)
        invariant NewChildren(c, parent, dist, dist0)
      {
        parent, queue, dist := VisitNeighbour(start, c, i, visited, parent, queue, dist, floor, queue0, dist0);
      }
      ExploreDone(start, end, c, parent, queue, dist, floor, queue0, dist0);
    }

    /** Taking `c` off the front of `open` starts the inner loop. */
    lemma ExploreStart(start: Pos, end: Pos, c: Pos, parent: map<Pos, Pos>, queue: seq<Pos>,
                       dist: map<Pos, nat>, floor: set<Pos>, open: seq<Pos>)
      requires |open| > 0 && open[0] == c && open[1..] == queue
      requires c in dist && c != end
      requires Frontier(start, end, parent, open, dist, floor, dist[c])
      ensures Exploring(start, c, 0, parent, queue, dist, floor, queue, dist)
      ensures end in dist ==> end in queue
    {
      assert open == [c] + queue;
      Dequeue(dist, open, dist[c]);
    }

    /** After the four rounds `c` is closed, and the outer loop's invariant
        holds again with `c`'s layer as the current one. */
    lemma ExploreDone(start: Pos, end: Pos, c: Pos, parent: map<Pos, Pos>, queue: seq<Pos>,
                      dist: map<Pos, nat>, floor: set<Pos>, queue0: seq<Pos>, dist0: map<Pos, nat>)
      requires Exploring(start, c, 4, parent, queue, dist, floor, queue0, dist0)
      requires end in dist0 ==> end in queue0
      ensures Frontier(start, end, parent, queue, dist, floor, dist0[c])
      ensures |dist| - |dist0| == |queue| - |queue0|
    {
      CloseCell(dist, queue, floor, c);
      if end in dist0 {
        assert end in queue[..|queue0|];
      }
    }

    /** Every cell discovered since `dist0` has `c` as its parent. */
    ghost predicate NewChildren(c: Pos, parent: map<Pos, Pos>, dist: map<Pos, nat>, dist0: map<Pos, nat>)
    {
      forall v :: v in dist && v !in dist0 ==> v in parent && parent[v] == c
    }

    /** Giving the new cell `n` the parent `c` keeps every new cell a child of `c`. */
    lemma AdmitChild(c: Pos, parent: map<Pos, Pos>, dist: map<Pos, nat>, dist0: map<Pos, nat>, n: Pos, layer: nat)
      requires NewChildren(c, parent, dist, dist0)
      ensures NewChildren(c, parent[n := c], dist[n := layer], dist0)
    {
    }

    /** One round of the inner loop: the `i`-th neighbour of `c` is
        discovered, one layer further out, if it lies inside the maze, is
        floor and is not visited yet; otherwise nothing changes. */
    method VisitNeighbour(ghost start: Pos, c: Pos, i: int, visited: array2<bool>, parent0: map<Pos, Pos>,
                          queue0: seq<Pos>, ghost dist0: map<Pos, nat>, ghost floor: set<Pos>,
                          ghost queueIn: seq<Pos>, ghost distIn: map<Pos, nat>)
      returns (parent: map<Pos, Pos>, queue: seq<Pos>, ghost dist: map<Pos, nat>)
      requires 0 <= i < 4 && floor == Floor() && Marked(visited, dist0)
      requires Exploring(start, c, i, parent0, queue0, dist0, floor, queueIn, distIn)
      requires NewChildren(c, parent0, dist0, distIn)
      modifies visited
      ensures Marked(visited, dist)
      ensures Exploring(start, c, i + 1, parent, queue, dist, floor, queueIn, distIn)
      ensures var n := Neighbour(c, i);
        if n in floor && n !in dist0
        then parent == parent0[n := c] && queue == queue0 + [n] && dist == dist0[n := distIn[c] + 1]
        else parent == parent0 && queue == queue0 && dist == dist0
      ensures NewChildren(c, parent, dist, distIn)
    {
      parent, queue, dist := parent0, queue0, dist0;
      var nx := c.x + DX[i];
      var ny := c.y + DY[i];
      var n := Pos(nx, ny);
      assert n == Neighbour(c, i);
      if nx >= 0 && nx < width && ny >= 0 && ny < height {
        if !visited[ny, nx] && IsWalkable(nx, ny) {
          ExploreAdmit(start, c, i, parent, queue, dist, floor, queueIn, distIn, n);
          AdmitChild(c, parent, dist, distIn, n, distIn[c] + 1);
          MarkVisited(visited, dist, n, distIn[c] + 1);
          parent := parent[n := c];
          dist := dist[n := distIn[c] + 1];
          queue := queue + [n];
        } else {
          ExploreSkip(start, c, i, parent, queue, dist, floor, queueIn, distIn);
        }
      } else {
        ExploreSkip(start, c, i, parent, queue, dist, floor, queueIn, distIn);
      }
    }

    /** Marks the newly discovered cell `n` in `visited`. */
    method MarkVisited(visited: array2<bool>, ghost dist: map<Pos, nat>, n: Pos, ghost layer: nat)
      requires Marked(visited, dist) && 0 <= n.x < width && 0 <= n.y < height
      modifies visited
      ensures Marked(visited, dist[n := layer])
    {
      visited[n.y, n.x] := true;
    }

    /** The route the parent chain gives from `end` back to the start,
        reversed into start-to-end order; one cell per layer. */
    method TracePath(start: Pos, end: Pos, parent: map<Pos, Pos>, ghost dist: map<Pos, nat>, ghost floor: set<Pos>)
      returns (path: seq<Pos>)
      requires floor == Floor()
      requires ParentTree(start, parent, dist, floor) && end in dist
      ensures IsRouteBetween(path, start, end) && |path| == dist[end] + 1
    {
      var rev: seq<Pos> := [];
      var cur := end;
      while cur.x != -1 && cur.y != -1
        invariant cur == Sentinel || cur in dist
        invariant cur != Sentinel ==> |rev| + dist[cur] == dist[end]
        invariant cur == Sentinel ==> |rev| == dist[end] + 1 && rev[|rev| - 1] == start
        invariant |rev| == 0 ==> cur == end
        invariant |rev| > 0 ==> rev[0] == end
        invariant |rev| > 0 && cur != Sentinel ==> Adjacent(rev[|rev| - 1], cur)
        invariant IsChain(rev)
        invariant forall i :: 0 <= i < |rev| ==> Walkable(rev[i])
        decreases if cur in dist then dist[cur] + 1 else 0
      {
        if cur != start {
          assert Adjacent(parent[cur], cur);
          assert Adjacent(cur, parent[cur]);
        }
        ChainSnoc(rev, cur);
        rev := rev + [cur];
        assert rev[|rev| - 1] == cur;
        cur := parent[cur];
      }
      ReversedChain(rev);
      path := Reversed(rev);
    }

    // ------------------------------------------------------- player, health

    /** Where a key leaves a player standing at `p`. */
    function PlayerAfterKey(k: ConsoleKey, p: Pos): (q: Pos)
      reads maze
      ensures q == p || Walkable(q)
    {
      match KeyDirection(k)
      case None => p
      case Some(d) => if Walkable(Step(p, d)) then Step(p, d) else p
    }

    /** A movement key commits its one step only onto floor; every other key
        leaves the player where it stands. */
    lemma PlayerAfterKeyMoves(k: ConsoleKey, p: Pos)
      ensures var q := PlayerAfterKey(k, p);
        && (q == p || (KeyDirection(k).Some? && q == Step(p, KeyDirection(k).value) && Walkable(q)))
        && (q != p ==> Adjacent(p, q))
        && (KeyDirection(k).None? ==> q == p)
        && (KeyDirection(k).Some? ==>
              (q == Step(p, KeyDirection(k).value) <==> Walkable(Step(p, KeyDirection(k).value))))
    {
      if KeyDirection(k).Some? {
        StepAdjacent(p, KeyDirection(k).value);
      }
    }

    method HandlePlayerMove(key: ConsoleKey)
      requires Valid()
      modifies this`playerX, this`playerY
      ensures Valid()
      ensures Player() == PlayerAfterKey(key, old(Player()))
    {
      var newX, newY := playerX, playerY;
      match key {
        case UpArrow | W => newY := newY - 1;
        case DownArrow | S => newY := newY + 1;
        case LeftArrow | A => newX := newX - 1;
        case RightArrow | D => newX := newX + 1;
        case _ => return;
      }
      if IsWalkable(newX, newY) {
        playerX := newX;
        playerY := newY;
      }
    }

    method AttackPlayer()
      requires Valid()
      modifies this`health
      ensures Valid()
      ensures health == Attacked(old(health))
      ensures 0 <= health <= old(health)
      ensures old(health) >= HitDamage ==> health == old(health) - HitDamage
      ensures old(health) < HitDamage ==> health == 0
    {
      health := health - HitDamage;
      if health < 0 {
        health := 0;
      }
    }

    /** Each enemy on the player's cell is one hit; hits on the same tick stack. */
    method CheckEnemyCollision()
      requires Valid()
      modifies this`health
      ensures Valid()
      ensures health == AfterHits(old(health), multiset(enemies)[Player()])
    {
      for i := 0 to |enemies|
        invariant Valid()
        invariant health == AfterHits(old(health), multiset(enemies[..i])[Player()])
      {
        var e := enemies[i];
        assert enemies[..i + 1] == enemies[..i] + [e];
        ghost var n := multiset(enemies[..i])[Player()];
        assert multiset(enemies[..i + 1])[Player()] == if e == Player() then n + 1 else n;
        if e.x == playerX && e.y == playerY {
          AttackPlayer();
        }
      }
      assert enemies[..|enemies|] == enemies;
    }

    // -------------------------------------------------------------- enemies

    /** One enemy's random step: the chosen neighbour if it is floor and not
        the player's cell, otherwise where it stood. */
    function EnemyStep(e: Pos, choice: int, player: Pos): (r: Pos)
      reads maze
      ensures r == e || (Walkable(r) && r != player)
    {
      var t := match ChoiceDirection(choice)
        case None => e
        case Some(d) => Step(e, d);
      if Walkable(t) && t != player then t else e
    }

    /** An enemy either stays or makes its chosen step, and only onto a
        floor cell other than the player's; a choice outside 0..3 keeps it
        in place. */
    lemma EnemyStepMoves(e: Pos, choice: int, player: Pos)
      ensures var r := EnemyStep(e, choice, player);
        && (r == e || (ChoiceDirection(choice).Some? && r == Step(e, ChoiceDirection(choice).value) &&
                       Walkable(r) && r != player))
        && (r != e ==> Adjacent(e, r))
        && (Walkable(e) ==> Walkable(r))
        && (ChoiceDirection(choice).None? ==> r == e)
        && (ChoiceDirection(choice).Some? ==>
              var t := Step(e, ChoiceDirection(choice).value);
              (r == t <==> Walkable(t) && t != player))
    {
      if ChoiceDirection(choice).Some? {
        StepAdjacent(e, ChoiceDirection(choice).value);
      }
    }

    /** Every enemy takes its own step with its own choice; enemies do not
        block one another. */
    function MovedEnemies(es: seq<Pos>, choices: seq<int>, player: Pos): (r: seq<Pos>)
      requires |choices| == |es|
      reads maze
      ensures |r| == |es|
      ensures forall i :: 0 <= i < |es| ==> r[i] == EnemyStep(es[i], choices[i], player)
    {
      if es == [] then []
      else [EnemyStep(es[0], choices[0], player)] + MovedEnemies(es[1..], choices[1..], player)
    }

    /** After a round of moves every enemy is where it stood or on a floor
        cell next to it that the player does not occupy, and enemies on
        floor stay on floor. */
    lemma MovedEnemiesSafe(es: seq<Pos>, choices: seq<int>, player: Pos)
      requires |choices| == |es|
      ensures var r := MovedEnemies(es, choices, player);
        forall i :: 0 <= i < |es| ==>
          && (r[i] == es[i] || (Adjacent(es[i], r[i]) && Walkable(r[i]) && r[i] != player))
          && (Walkable(es[i]) ==> Walkable(r[i]))
    {
      var r := MovedEnemies(es, choices, player);
      forall i | 0 <= i < |es|
        ensures r[i] == es[i] || (Adjacent(es[i], r[i]) && Walkable(r[i]) && r[i] != player)
        ensures Walkable(es[i]) ==> Walkable(r[i])
      {
        EnemyStepMoves(es[i], choices[i], player);
      }
    }

    /** The enemies rejection sampling keeps from `draws`, taken in order:
        a draw is kept while fewer than `count` are placed, if it is floor,
        not the player's cell and not yet taken. */
    function Placed(draws: seq<Pos>, count: int, player: Pos): seq<Pos>
      reads maze
    {
      if draws == [] then []
      else
        var es := Placed(draws[..|draws| - 1], count, player);
        var d := draws[|draws| - 1];
        if |es| < count && Walkable(d) && d != player && d !in es then es + [d] else es
    }

    /** The kept draws are at most `count`, pairwise distinct, and each one a
        draw on floor other than the player's cell. */
    lemma {:induction false} PlacedSafe(draws: seq<Pos>, count: int, player: Pos)
      ensures var es := Placed(draws, count, player);
        && (count <= 0 ==> es == [])
        && (count >= 0 ==> |es| <= count)
        && Distinct(es)
        && (forall i :: 0 <= i < |es| ==> Walkable(es[i]) && es[i] != player && es[i] in draws)
      decreases |draws|
    {
      if draws != [] {
        var init := draws[..|draws| - 1];
        PlacedSafe(init, count, player);
        var es0 := Placed(init, count, player);
        var es := Placed(draws, count, player);
        forall i | 0 <= i < |es| ensures Walkable(es[i]) && es[i] != player && es[i] in draws {
          if i < |es0| {
            assert es[i] == es0[i] && es0[i] in init;
          }
        }
      }
    }

    /** Draws inside the border give enemies inside the border. */
    lemma PlacedInside(draws: seq<Pos>, count: int, player: Pos)
      requires forall i :: 0 <= i < |draws| ==> 1 <= draws[i].x < width - 1 && 1 <= draws[i].y < height - 1
      ensures var es := Placed(draws, count, player);
        forall i :: 0 <= i < |es| ==> 1 <= es[i].x < width - 1 && 1 <= es[i].y < height - 1
    {
      PlacedSafe(draws, count, player);
    }

    /** Fewer than `count` kept means every draw was refused for cause: a
        wall, the player's cell, or a cell already taken. */
    lemma {:induction false} PlacedFair(draws: seq<Pos>, count: int, player: Pos)
      ensures var es := Placed(draws, count, player);
        |es| < count ==> forall i :: 0 <= i < |draws| ==> !Walkable(draws[i]) || draws[i] == player || draws[i] in es
      decreases |draws|
    {
      if draws != [] {
        var init := draws[..|draws| - 1];
        PlacedFair(init, count, player);
        var es0 := Placed(init, count, player);
        var es := Placed(draws, count, player);
        if |es| < count {
          assert |es0| <= |es|;
          forall i | 0 <= i < |draws| ensures !Walkable(draws[i]) || draws[i] == player || draws[i] in es {
            if i < |init| {
              assert draws[i] == init[i];
            }
          }
        }
      }
    }

    /** Once `count` enemies are placed, later draws add nothing. */
    lemma {:induction false} PlacedFull(draws: seq<Pos>, count: int, player: Pos, k: nat)
      requires k <= |draws| && |Placed(draws[..k], count, player)| >= count
      ensures Placed(draws, count, player) == Placed(draws[..k], count, player)
      decreases |draws|
    {
      if |draws| > k {
        var init := draws[..|draws| - 1];
        assert init[..k] == draws[..k];
        PlacedFull(init, count, player, k);
      } else {
        assert draws[..k] == draws;
      }
    }

    /** One more draw: `Placed` keeps it exactly when the loop would. */
    lemma PlacedStep(draws: seq<Pos>, count: int, player: Pos, k: nat)
      requires k < |draws|
      ensures var es, d := Placed(draws[..k], count, player), draws[k];
        Placed(draws[..k + 1], count, player) ==
          if |es| < count && Walkable(d) && d != player && d !in es then es + [d] else es
    {
      assert draws[..k + 1][..k] == draws[..k];
    }

    /** Whether an enemy already stands on (x, y): the spawn loop's scan of the list. */
    method Occupied(x: int, y: int) returns (occupied: bool)
      ensures occupied <==> Pos(x, y) in enemies
    {
      occupied := false;
      var k := 0;
      while k < |enemies|
        invariant 0 <= k <= |enemies|
        invariant Pos(x, y) !in enemies[..k]
      {
        if enemies[k].x == x && enemies[k].y == y {
          occupied := true;
          break;
        }
        assert enemies[..k + 1] == enemies[..k] + [enemies[k]];
        k := k + 1;
      }
      if !occupied {
        assert enemies[..k] == enemies;
      }
    }

    /** Places up to `count` enemies by rejection sampling.
        `draws[i]` is attempt i's pair of random numbers, in the ranges
        `Next(1, width - 1)` and `Next(1, height - 1)` return. */
    method SpawnEnemies(count: int, draws: seq<Pos>)
      requires Valid()
      requires |draws| == MaxSpawnAttempts
      requires forall i :: 0 <= i < |draws| ==> 1 <= draws[i].x < width - 1 && 1 <= draws[i].y < height - 1
      modifies this`enemies
      ensures Valid()
      ensures enemies == Placed(draws, count, Player())
      ensures count <= 0 ==> enemies == []
      ensures count >= 0 ==> |enemies| <= count
      ensures Distinct(enemies)
      ensures forall i :: 0 <= i < |enemies| ==>
        Walkable(enemies[i]) && enemies[i] != Player() && enemies[i] in draws
      ensures forall i :: 0 <= i < |enemies| ==>
        1 <= enemies[i].x < width - 1 && 1 <= enemies[i].y < height - 1
      ensures |enemies| < count ==>
        forall i :: 0 <= i < |draws| ==> !Walkable(draws[i]) || draws[i] == Player() || draws[i] in enemies
    {
      enemies := [];
      var attempts := 0;
      while |enemies| < count && attempts < MaxSpawnAttempts
        invariant 0 <= attempts <= MaxSpawnAttempts
        invariant enemies == Placed(draws[..attempts], count, Player())
      {
        var x := draws[attempts].x;
        var y := draws[attempts].y;
        PlacedStep(draws, count, Player(), attempts);
        if IsWalkable(x, y) && (x != playerX || y != playerY) {
          var occupied := Occupied(x, y);
          if !occupied {
            enemies := enemies + [Pos(x, y)];
          }
        }
        attempts := attempts + 1;
      }
      if attempts < MaxSpawnAttempts {
        PlacedFull(draws, count, Player(), attempts);
      } else {
        assert draws[..attempts] == draws;
      }
      PlacedSafe(draws, count, Player());
      PlacedFair(draws, count, Player());
      PlacedInside(draws, count, Player());
    }

    /** Every enemy's random step, in list order; `choices[i]` is enemy i's
        `Next(5)`. */
    method UpdateEnemies(choices: seq<int>)
      requires Valid()
      requires |choices| == |enemies|
      modifies this`enemies
      ensures Valid()
      ensures enemies == MovedEnemies(old(enemies), choices, Player())
    {
      for i := 0 to |enemies|
        invariant |enemies| == |old(enemies)|
        invariant forall j :: 0 <= j < i ==> enemies[j] == EnemyStep(old(enemies)[j], choices[j], Player())
        invariant forall j :: i <= j < |enemies| ==> enemies[j] == old(enemies)[j]
      {
        var e := enemies[i];
        var direction := choices[i];
        var newX, newY := e.x, e.y;
        match direction {
          case 0 => newY := newY - 1;
          case 1 => newY := newY + 1;
          case 2 => newX := newX - 1;
          case 3 => newX := newX + 1;
          case _ =>
        }
        assert ChoiceDirection(direction).Some? ==> Pos(newX, newY) == Step(e, ChoiceDirection(direction).value);
        assert ChoiceDirection(direction).None? ==> Pos(newX, newY) == e;
        if IsWalkable(newX, newY) && (newX != playerX || newY != playerY) {
          enemies := enemies[i := Pos(newX, newY)];
        }
      }
      MovedEnemiesSafe(old(enemies), choices, Player());
    }

    // ------------------------------------------------------------ game loop

    /** The start of a game: the loaded maze, the exit, the player on (1, 1)
        with full health, enemies shown, and three enemies spawned. */
    constructor (m: array2<char>, draws: seq<Pos>)
      requires m.Length0 >= 3 && m.Length1 >= 3
      requires |draws| == MaxSpawnAttempts
      requires forall i :: 0 <= i < |draws| ==> 1 <= draws[i].x < m.Length1 - 1 && 1 <= draws[i].y < m.Length0 - 1
      ensures Valid()
      ensures maze == m && Exit() == Pos(m.Length1 - 2, m.Length0 - 2)
      ensures Player() == Pos(1, 1) && health == MaxHealth && enemiesVisible
      ensures |enemies| <= EnemyCount && Distinct(enemies)
      ensures enemies == Placed(draws, EnemyCount, Player())
      ensures forall i :: 0 <= i < |enemies| ==> Walkable(enemies[i]) && enemies[i] != Player()
      ensures forall i :: 0 <= i < |enemies| ==>
        enemies[i] in draws && 1 <= enemies[i].x < width - 1 && 1 <= enemies[i].y < height - 1
      ensures |enemies| < EnemyCount ==>
        forall i :: 0 <= i < |draws| ==> !Walkable(draws[i]) || draws[i] == Player() || draws[i] in enemies
    {
      maze := m;
      playerX, playerY := 1, 1;
      health := MaxHealth;
      enemies := [];
      enemiesVisible := true;
      new;
      SpawnEnemies(EnemyCount, draws);
    }

    /** The route the `R` key shows: the search from the player to the exit.
        Drawing it and waiting for a key are not modelled. */
    method ShowRoute() returns (route: seq<Pos>)
      ensures route == [] <==> !Reachable(Player(), Exit())
      ensures route != [] ==> IsShortestRoute(route, Player(), Exit())
    {
      route := FindPathBFS(playerX, playerY, exitX, exitY);
    }

    /** One iteration of the game loop. `key` is the key read this tick, if
        any; `choices` are the enemies' random choices. The route is what the
        `R` key shows; it is empty on every other tick. */
    method Tick(key: Option<ConsoleKey>, choices: seq<int>) returns (outcome: Outcome, route: seq<Pos>)
      requires Valid()
      requires |choices| == |enemies|
      modifies this`playerX, this`playerY, this`health, this`enemies, this`enemiesVisible
      ensures Valid()
      ensures old(health) <= 0 ==> outcome == Lost
      ensures old(health) > 0 && old(Player()) == Exit() ==> outcome == Won
      ensures old(health) > 0 && old(Player()) != Exit() && key == Some(Escape) ==> outcome == Quit
      ensures outcome != Running ==> route == [] && unchanged(this)
      ensures outcome == Running <==> old(health) > 0 && old(Player()) != Exit() && key != Some(Escape)
      ensures outcome == Running ==>
        enemiesVisible == (if key == Some(K) then !old(enemiesVisible) else old(enemiesVisible))
      ensures outcome == Running ==>
        Player() == (if key.Some? && key.value != R && key.value != K
                     then PlayerAfterKey(key.value, old(Player())) else old(Player()))
      ensures outcome == Running && key == Some(R) ==>
        (route == [] <==> !Reachable(Player(), Exit())) &&
        (route != [] ==> IsShortestRoute(route, Player(), Exit()))
      ensures key != Some(R) ==> route == []
      ensures outcome == Running && enemiesVisible ==>
        enemies == MovedEnemies(old(enemies), choices, Player()) &&
        health == AfterHits(old(health), multiset(enemies)[Player()])
      ensures outcome == Running && !enemiesVisible ==> enemies == old(enemies) && health == old(health)
    {
      route := [];
      if health <= 0 {
        outcome := Lost;
      } else if playerX == exitX && playerY == exitY {
        outcome := Won;
      } else if key == Some(Escape) {
        outcome := Quit;
      } else {
        if key.Some? {
          route := ReactToKey(key.value);
        }
        if enemiesVisible {
          EnemiesTurn(choices);
        }
        outcome := Running;
      }
    }

    /** The loop's answer to a key other than Escape: `R` shows the route,
        `K` shows or hides the enemies, and any other key is tried as a move. */
    method ReactToKey(k: ConsoleKey) returns (route: seq<Pos>)
      requires Valid()
      modifies this`playerX, this`playerY, this`enemiesVisible
      ensures Valid()
      ensures enemiesVisible == (if k == K then !old(enemiesVisible) else old(enemiesVisible))
      ensures Player() == (if k != R && k != K then PlayerAfterKey(k, old(Player())) else old(Player()))
      ensures k == R ==>
        (route == [] <==> !Reachable(Player(), Exit())) &&
        (route != [] ==> IsShortestRoute(route, Player(), Exit()))
      ensures k != R ==> route == []
      ensures enemies == old(enemies) && health == old(health)
    {
      route := [];
      if k == R {
        route := ShowRoute();
      } else if k == K {
        enemiesVisible := !enemiesVisible;
      } else {
        HandlePlayerMove(k);
      }
    }

    /** The enemies' half of a tick: every enemy steps, then each enemy on
        the player's cell hits. */
    method EnemiesTurn(choices: seq<int>)
      requires Valid()
      requires |choices| == |enemies|
      modifies this`health, this`enemies
      ensures Valid()
      ensures enemies == MovedEnemies(old(enemies), choices, Player())
      ensures health == AfterHits(old(health), multiset(enemies)[Player()])
      ensures Player() == old(Player()) && enemiesVisible == old(enemiesVisible)
    {
      UpdateEnemies(choices);
      CheckEnemyCollision();
    }
  }
}
