/**
 * The maze generator (src/utils/mazeGenerator.ts). It fills a gridSize x gridSize array with walls,
 * marks the start (bottom-left) and the end (top-right) corners, and then runs its carving passes
 * in place. Every pass only turns walls into paths, and the breadth-first check with its fallback
 * leaves the start connected to the end.
 */
module MazeGenerator {
  import opened GameTypes
  import opened Reachability
  import opened Random

  /** A configuration the generator can work with: at least one cell per side. */
  type MazeConfig = c: GameConfig | 1 <= c.gridSize witness GameConfig(25, 5, 0.18)

  /** The three directed strategies, chosen by `Math.floor(Math.random() * 3)`. */
  datatype Strategy = UpFirst | Diagonal | Zigzag

  const Strategies: seq<Strategy> := [UpFirst, Diagonal, Zigzag]

  class MazeGenerator {
    const config: MazeConfig

    constructor (config: MazeConfig)
      ensures this.config == config
    {
      this.config := config;
    }

    /** The bottom-left corner. */
    function StartPos(): Position {
      Position(0, config.gridSize - 1)
    }

    /** The top-right corner. */
    function EndPos(): Position {
      Position(config.gridSize - 1, 0)
    }

    /**
     * What a generated cell at `p` may hold: its own coordinates, and `End` at the end corner, `Start`
     * at the start corner (the end wins when they coincide on a 1 x 1 grid), a wall or a path elsewhere.
     */
    predicate Fits(c: Cell, p: Position) {
      c.position == p &&
      if p == EndPos() then c.kind == End
      else if p == StartPos() then c.kind == Start
      else c.kind == Wall || c.kind == Path
    }

    /** The maze invariant every pass keeps: square of the configured size and every cell fitting. */
    ghost predicate Valid(maze: array2<Cell>)
      reads maze
    {
      maze.Length0 == config.gridSize && maze.Length1 == config.gridSize &&
      forall y, x :: 0 <= y < config.gridSize && 0 <= x < config.gridSize ==> Fits(maze[y, x], Position(x, y))
    }

    /** The passable cells: every in-bounds position whose cell is not a wall. */
    ghost function Open(maze: array2<Cell>): iset<Position>
      reads maze
    {
      iset p: Position | 0 <= p.y < maze.Length0 && 0 <= p.x < maze.Length1 && maze[p.y, p.x].kind != Wall
    }

    /** In a valid maze the start is the only `Start` cell, the end the only `End` cell, and nothing is `Player`. */
    lemma CornersAreUnique(maze: array2<Cell>, p: Position)
      requires Valid(maze) && InGrid(p, config.gridSize)
      ensures maze[p.y, p.x].kind == Start <==> p == StartPos() && p != EndPos()
      ensures maze[p.y, p.x].kind == End <==> p == EndPos()
      ensures maze[p.y, p.x].kind != Player
      ensures maze[p.y, p.x].position == p
    {
      assert Fits(maze[p.y, p.x], Position(p.x, p.y));
    }

    /** `generateMaze`: a fresh valid maze whose start is connected to its end. */
    method GenerateMaze(rng: Source) returns (maze: array2<Cell>)
      modifies rng
      ensures fresh(maze) && Valid(maze)
      ensures Connected(Open(maze), StartPos(), EndPos())
    {
      var n := config.gridSize;
      maze := new Cell[n, n];
      for y := 0 to n
        invariant forall y', x :: 0 <= y' < y && 0 <= x < n ==> maze[y', x] == Cell(Wall, Position(x, y'))
      {
        for x := 0 to n
          invariant forall y', x' :: 0 <= y' < y && 0 <= x' < n ==> maze[y', x'] == Cell(Wall, Position(x', y'))
          invariant forall x' :: 0 <= x' < x ==> maze[y, x'] == Cell(Wall, Position(x', y))
        {
          maze[y, x] := Cell(Wall, Position(x, y));
        }
      }
      maze[n - 1, 0] := Cell(Start, Position(0, n - 1));
      maze[0, n - 1] := Cell(End, Position(n - 1, 0));
      GenerateComplexMaze(maze, rng);
    }

    /** `generateComplexMaze`: the carving passes in order, then the check-and-repair, then dead ends. */
    method GenerateComplexMaze(maze: array2<Cell>, rng: Source)
      requires Valid(maze)
      modifies maze, rng
      ensures Valid(maze) && old(Open(maze)) <= Open(maze)
      ensures Connected(Open(maze), StartPos(), EndPos())
    {
      var n := config.gridSize;
      var start, end := StartPos(), EndPos();
      var extraWalks := rng.Index(3);
      CreateRandomWalks(maze, start, n / 8 + extraWalks, rng);
      AddRandomPaths(maze, config.pathDensity * 0.4, rng);
      var alternate := rng.Below(0.5);
      if alternate {
        CreateAlternatePaths(maze, start, end, rng);
      }
      var found := HasPath(maze, start, end);
      if !found {
        CreateInterestingPath(maze, start, end, rng);
      }
      ghost var repaired := Open(maze);
      AddLimitedDeadEnds(maze, rng);
      ConnectedMono(repaired, Open(maze), start, end);
    }

    /** Turns the wall or path at `p` (neither corner) into a path. */
    method Carve(maze: array2<Cell>, p: Position)
      requires Valid(maze) && InGrid(p, config.gridSize) && p != StartPos() && p != EndPos()
      modifies maze
      ensures Valid(maze)
      ensures old(Open(maze)) <= Open(maze) && p in Open(maze)
      ensures maze[p.y, p.x] == Cell(Path, p)
      ensures forall y, x :: 0 <= y < maze.Length0 && 0 <= x < maze.Length1 && (y != p.y || x != p.x) ==>
                maze[y, x] == old(maze[y, x])
    {
      maze[p.y, p.x] := Cell(Path, p);
    }

    /**
     * `createRandomWalks`: walks from `start`, each carving its current cell with probability 0.6 and
     * then stepping towards the goal (probability 0.6) or in a random direction, staying on the grid.
     */
    method CreateRandomWalks(maze: array2<Cell>, start: Position, numWalks: nat, rng: Source)
      requires Valid(maze) && InGrid(start, config.gridSize)
      modifies maze
      ensures Valid(maze) && old(Open(maze)) <= Open(maze)
    {
      var n := config.gridSize;
      for walk := 0 to numWalks
        invariant Valid(maze) && old(Open(maze)) <= Open(maze)
      {
        var current := start;
        var extraSteps := rng.Index((n + 1) / 2);
        var steps := n / 3 + extraSteps;
        for step := 0 to steps
          invariant Valid(maze) && old(Open(maze)) <= Open(maze)
          invariant InGrid(current, n)
        {
          var carve := rng.Below(0.6);
          if carve && maze[current.y, current.x].kind == Wall {
            Carve(maze, current);
          }
          var possibleDirections := Directions;
          var towardsGoal := rng.Below(0.6);
          if towardsGoal {
            if current.x < n - 1 {
              possibleDirections := [Position(1, 0)];
            } else if current.y > 0 {
              possibleDirections := [Position(0, -1)];
            }
          }
          var k := rng.Index(|possibleDirections|);
          var direction := possibleDirections[k];
          var newX, newY := current.x + direction.x, current.y + direction.y;
          if 0 <= newX < n && 0 <= newY < n {
            current := Position(newX, newY);
          }
        }
      }
    }

    /**
     * `addRandomPaths`: every cell but the two corners becomes a path with probability `density`;
     * with density 0 nothing changes, with density 1 every such cell is a path.
     */
    method AddRandomPaths(maze: array2<Cell>, density: real, rng: Source)
      requires Valid(maze)
      modifies maze
      ensures Valid(maze) && old(Open(maze)) <= Open(maze)
      ensures density <= 0.0 ==> unchanged(maze)
      ensures 1.0 <= density ==>
                forall y, x :: (0 <= y < config.gridSize && 0 <= x < config.gridSize &&
                                Position(x, y) != StartPos() && Position(x, y) != EndPos()) ==> maze[y, x].kind == Path
    {
      var n := config.gridSize;
      for y := 0 to n
        invariant Valid(maze) && old(Open(maze)) <= Open(maze)
        invariant density <= 0.0 ==> unchanged(maze)
        invariant 1.0 <= density ==>
                    forall y', x' :: (0 <= y' < y && 0 <= x' < n &&
                                      Position(x', y') != StartPos() && Position(x', y') != EndPos()) ==> maze[y', x'].kind == Path
      {
        for x := 0 to n
          invariant Valid(maze) && old(Open(maze)) <= Open(maze)
          invariant density <= 0.0 ==> unchanged(maze)
          invariant 1.0 <= density ==>
                      forall y', x' :: (0 <= y' < y && 0 <= x' < n &&
                                        Position(x', y') != StartPos() && Position(x', y') != EndPos()) ==> maze[y', x'].kind == Path
          invariant 1.0 <= density ==>
                      forall x' :: (0 <= x' < x && Position(x', y) != StartPos() && Position(x', y) != EndPos()) ==>
                                     maze[y, x'].kind == Path
        {
          if (x == 0 && y == n - 1) || (x == n - 1 && y == 0) {
            continue;
          }
          var open := rng.Below(density);
          if open {
            Carve(maze, Position(x, y));
          }
        }
      }
    }

    /** `createAlternatePaths`: picks one strategy and, with probability 0.7, applies it. */
    method CreateAlternatePaths(maze: array2<Cell>, start: Position, end: Position, rng: Source)
      requires Valid(maze) && InGrid(start, config.gridSize) && InGrid(end, config.gridSize)
      requires start.x <= end.x && end.y <= start.y
      modifies maze, rng
      ensures Valid(maze) && old(Open(maze)) <= Open(maze)
    {
      var k := rng.Index(|Strategies|);
      var apply := rng.Below(0.7);
      if apply {
        CreatePathStrategy(maze, start, end, Strategies[k], rng);
      }
    }

    /** `createPathStrategy`: dispatches on the chosen strategy. */
    method CreatePathStrategy(maze: array2<Cell>, start: Position, end: Position, strategy: Strategy, rng: Source)
      requires Valid(maze) && InGrid(start, config.gridSize) && InGrid(end, config.gridSize)
      requires start.x <= end.x && end.y <= start.y
      modifies maze, rng
      ensures Valid(maze) && old(Open(maze)) <= Open(maze)
    {
      match strategy
      case UpFirst =>
        ghost var route := UpFirstPath(maze, start, end, rng);
      case Diagonal =>
        ghost var route := DiagonalPath(maze, start, end, rng);
      case Zigzag =>
        ghost var last := ZigzagPath(maze, start, end, rng);
    }

    /**
     * The `up-first` strategy: up for a drawn number of steps, then right until column `end.x`; it
     * moves only when its 0.6 draw succeeds and carves every cell it moves onto, so the cells it
     * visits form a passable route from `start` to a cell of column `end.x`.
     */
    method UpFirstPath(maze: array2<Cell>, start: Position, end: Position, rng: Source)
      returns (ghost route: seq<Position>)
      requires Valid(maze) && InGrid(start, config.gridSize) && InGrid(end, config.gridSize)
      requires start.x <= end.x && end.y <= start.y
      modifies maze, rng
      ensures Valid(maze) && old(Open(maze)) <= Open(maze)
      ensures |route| > 0 && IsRoute(Open(maze), route, start, route[|route| - 1])
      ensures IsStaircase(route, start, route[|route| - 1])
      ensures route[|route| - 1].x == end.x && end.y <= route[|route| - 1].y <= start.y
      ensures forall y, x :: 0 <= y < maze.Length0 && 0 <= x < maze.Length1 && Position(x, y) !in route ==>
                  maze[y, x] == old(maze[y, x])
    {
      var n := config.gridSize;
      var current := start;
      route := [start];
      var upSteps := rng.Fraction(start.y - end.y);
      var i := 0;
      while i < upSteps && current.y > end.y
        invariant Valid(maze) && old(Open(maze)) <= Open(maze)
        invariant current.x == start.x && end.y <= current.y <= start.y
        invariant IsRoute(Open(maze), route, start, current) && IsStaircase(route, start, current)
        invariant forall y, x :: 0 <= y < maze.Length0 && 0 <= x < maze.Length1 && Position(x, y) !in route ==>
                    maze[y, x] == old(maze[y, x])
      {
        var move := rng.Below(0.6);
        if move {
          ghost var before, previous := Open(maze), current;
          current := current.(y := current.y - 1);
          if current.y >= 0 && maze[current.y, current.x].kind == Wall {
            Carve(maze, current);
          }
          RouteExtend(before, Open(maze), route, start, previous, current);
          StaircaseExtend(route, start, previous, current);
          route := route + [current];
        }
        i := i + 1;
      }
      route := UpFirstRight(maze, start, current, end, route, rng);
    }

    /**
     * The second phase of the `up-first` strategy: from `from`, steps right (each attempt succeeding
     * with probability 0.6) until the column of `end`, carving each wall entered. The route so far is
     * extended cell by cell and stays a carved staircase.
     */
    method UpFirstRight(maze: array2<Cell>, start: Position, from: Position, end: Position,
                        ghost prefix: seq<Position>, rng: Source)
      returns (ghost route: seq<Position>)
      requires Valid(maze) && InGrid(from, config.gridSize) && InGrid(end, config.gridSize)
      requires start.x <= from.x <= end.x && end.y <= from.y <= start.y
      requires IsRoute(Open(maze), prefix, start, from) && IsStaircase(prefix, start, from)
      modifies maze, rng
      ensures Valid(maze) && old(Open(maze)) <= Open(maze)
      ensures |route| > 0 && IsRoute(Open(maze), route, start, route[|route| - 1])
      ensures IsStaircase(route, start, route[|route| - 1])
      ensures route[|route| - 1].x == end.x && route[|route| - 1].y == from.y
      ensures prefix <= route
      ensures forall y, x :: 0 <= y < maze.Length0 && 0 <= x < maze.Length1 && Position(x, y) !in route ==>
                  maze[y, x] == old(maze[y, x])
    {
      var n := config.gridSize;
      var current := from;
      route := prefix;
      while current.x < end.x
        invariant Valid(maze) && old(Open(maze)) <= Open(maze)
        invariant from.x <= current.x <= end.x && current.y == from.y
        invariant IsRoute(Open(maze), route, start, current) && IsStaircase(route, start, current)
        invariant prefix <= route
        invariant forall y, x :: 0 <= y < maze.Length0 && 0 <= x < maze.Length1 && Position(x, y) !in route ==>
                    maze[y, x] == old(maze[y, x])
        decreases end.x - current.x, rng.slack
      {
        var move := rng.Retry(0.6);
        if move {
          ghost var before, previous := Open(maze), current;
          current := current.(x := current.x + 1);
          if current.x < n && maze[current.y, current.x].kind == Wall {
            Carve(maze, current);
          }
          RouteExtend(before, Open(maze), route, start, previous, current);
          StaircaseExtend(route, start, previous, current);
          route := route + [current];
        }
      }
    }

    /**
     * The `diagonal` strategy: steps right or up until it stands on `end`, choosing at random while
     * both are needed, and carves each new cell with probability 0.5. Its moves form a monotone
     * staircase from `start` to `end`.
     */
    method DiagonalPath(maze: array2<Cell>, start: Position, end: Position, rng: Source)
      returns (ghost route: seq<Position>)
      requires Valid(maze) && InGrid(start, config.gridSize) && InGrid(end, config.gridSize)
      requires start.x <= end.x && end.y <= start.y
      modifies maze
      ensures Valid(maze) && old(Open(maze)) <= Open(maze)
      ensures IsStaircase(route, start, end)
      ensures forall y, x :: 0 <= y < maze.Length0 && 0 <= x < maze.Length1 && Position(x, y) !in route ==>
                  maze[y, x] == old(maze[y, x])
    {
      var n := config.gridSize;
      var current := start;
      route := [start];
      while current.x < end.x || current.y > end.y
        invariant Valid(maze) && old(Open(maze)) <= Open(maze)
        invariant start.x <= current.x <= end.x && end.y <= current.y <= start.y
        invariant IsStaircase(route, start, current)
        invariant forall y, x :: 0 <= y < maze.Length0 && 0 <= x < maze.Length1 && Position(x, y) !in route ==>
                    maze[y, x] == old(maze[y, x])
        decreases (end.x - current.x) + (current.y - end.y)
      {
        ghost var previous := current;
        var alternate := false;
        if current.x < end.x && current.y > end.y {
          alternate := rng.Below(0.5);
        }
        if alternate {
          var right := rng.Below(0.5);
          if right && current.x < end.x {
            current := current.(x := current.x + 1);
          } else if current.y > end.y {
            current := current.(y := current.y - 1);
          }
        } else if current.x < end.x {
          current := current.(x := current.x + 1);
        } else if current.y > end.y {
          current := current.(y := current.y - 1);
        }
        StaircaseExtend(route, start, previous, current);
        route := route + [current];
        var carve := rng.Below(0.5);
        if carve && 0 <= current.x < n && 0 <= current.y < n {
          if maze[current.y, current.x].kind == Wall {
            Carve(maze, current);
          }
        }
      }
    }

    /**
     * The `zigzag` strategy: while above row `end.y` it tries to move up (probability 0.5) and then
     * runs 1 to 3 cells sideways, flipping direction each time; finally it moves right to `end.x`.
     * It stays on the grid and finishes on row `end.y`, at or right of column `end.x`.
     */
    method ZigzagPath(maze: array2<Cell>, start: Position, end: Position, rng: Source)
      returns (ghost last: Position)
      requires Valid(maze) && InGrid(start, config.gridSize) && InGrid(end, config.gridSize)
      requires start.x <= end.x && end.y <= start.y
      modifies maze, rng
      ensures Valid(maze) && old(Open(maze)) <= Open(maze)
      ensures InGrid(last, config.gridSize) && last.y == end.y && end.x <= last.x
      ensures forall y, x :: 0 <= y < maze.Length0 && 0 <= x < maze.Length1 && (y < end.y || start.y < y) ==>
                  maze[y, x] == old(maze[y, x])
    {
      var n := config.gridSize;
      var current := start;
      var direction := 1;
      while current.y > end.y
        invariant Valid(maze) && old(Open(maze)) <= Open(maze)
        invariant InGrid(current, n) && end.y <= current.y <= start.y
        invariant direction == 1 || direction == -1
        invariant forall y, x :: 0 <= y < maze.Length0 && 0 <= x < maze.Length1 && (y < end.y || start.y < y) ==>
                    maze[y, x] == old(maze[y, x])
        decreases current.y - end.y, rng.slack
      {
        var up := rng.Retry(0.5);
        if up {
          current := current.(y := current.y - 1);
          if current.y >= 0 && maze[current.y, current.x].kind == Wall {
            Carve(maze, current);
          }
        }
        var extra := rng.Index(3);
        current := ZigzagRun(maze, current, direction, 1 + extra, rng);
        direction := -direction;
      }
      while current.x < end.x
        invariant Valid(maze) && old(Open(maze)) <= Open(maze)
        invariant InGrid(current, n) && current.y == end.y
        invariant forall y, x :: 0 <= y < maze.Length0 && 0 <= x < maze.Length1 && (y < end.y || start.y < y) ==>
                    maze[y, x] == old(maze[y, x])
      {
        current := current.(x := current.x + 1);
        var carve := false;
        if current.x < n {
          carve := rng.Below(0.5);
        }
        if carve && maze[current.y, current.x].kind == Wall {
          Carve(maze, current);
        }
      }
      last := current;
    }

    /**
     * The sideways run of one zigzag round: `steps` moves in `direction` (1 right, -1 left), skipping
     * any move that would leave the grid and carving each cell entered with probability 0.4. It stays
     * on its row, on the grid, and at most `steps` columns away.
     */
    method ZigzagRun(maze: array2<Cell>, from: Position, direction: int, steps: nat, rng: Source)
      returns (current: Position)
      requires Valid(maze) && InGrid(from, config.gridSize) && (direction == 1 || direction == -1)
      modifies maze
      ensures Valid(maze) && old(Open(maze)) <= Open(maze)
      ensures InGrid(current, config.gridSize) && current.y == from.y
      ensures from.x - steps <= current.x <= from.x + steps
      ensures forall y, x :: 0 <= y < maze.Length0 && 0 <= x < maze.Length1 && y != from.y ==>
                  maze[y, x] == old(maze[y, x])
    {
      var n := config.gridSize;
      current := from;
      for i := 0 to steps
        invariant Valid(maze) && old(Open(maze)) <= Open(maze)
        invariant InGrid(current, n) && current.y == from.y
        invariant from.x - i <= current.x <= from.x + i
        invariant forall y, x :: 0 <= y < maze.Length0 && 0 <= x < maze.Length1 && y != from.y ==>
                    maze[y, x] == old(maze[y, x])
      {
        var newX := current.x + direction;
        if 0 <= newX < n {
          current := current.(x := newX);
          var carve := rng.Below(0.4);
          if carve && maze[current.y, current.x].kind == Wall {
            Carve(maze, current);
          }
        }
      }
    }

    /**
     * `addLimitedDeadEnds`: a few times, picks a cell; if it is a path, picks a neighbour and, when
     * that neighbour is an on-grid wall, opens it with probability 0.3. Every cell it opens has a
     * `Path` neighbour.
     */
    method AddLimitedDeadEnds(maze: array2<Cell>, rng: Source)
      requires Valid(maze)
      modifies maze
      ensures Valid(maze) && old(Open(maze)) <= Open(maze)
      ensures forall p :: p in Open(maze) && p !in old(Open(maze)) ==>
                exists q :: InGrid(q, config.gridSize) && Adjacent(p, q) && maze[q.y, q.x].kind == Path
    {
      var n := config.gridSize;
      var extra := rng.Index(3);
      var numDeadEnds := n / 12 + extra;
      ghost var backer: map<Position, Position> := map[];
      for i := 0 to numDeadEnds
        invariant Valid(maze) && old(Open(maze)) <= Open(maze)
        invariant forall p :: p in Open(maze) && p !in old(Open(maze)) ==> p in backer
        invariant forall p :: p in backer ==>
                    InGrid(backer[p], n) && Adjacent(p, backer[p]) && maze[backer[p].y, backer[p].x].kind == Path
      {
        label Before:
        ghost var carved, hole, neighbour := AddDeadEnd(maze, rng);
        if carved {
          forall p | p in backer && p != hole
            ensures maze[backer[p].y, backer[p].x].kind == Path
          {
            var q := backer[p];
            assert old@Before(maze[q.y, q.x]).kind == Path;
          }
          forall p | p in Open(maze) && p !in old(Open(maze))
            ensures p in backer || p == hole
          {
            assert p in old@Before(Open(maze)) || p == hole;
          }
          backer := backer[hole := neighbour];
        }
      }
      forall p | p in Open(maze) && p !in old(Open(maze))
        ensures exists q :: InGrid(q, n) && Adjacent(p, q) && maze[q.y, q.x].kind == Path
      {
        var q := backer[p];
      }
    }

    /**
     * One round of `addLimitedDeadEnds`: picks a cell and, if it is a path, one of its four
     * neighbours; an on-grid wall there becomes a path with probability 0.3. When a cell is hole
     * it is a neighbour of the path cell it grew from, and no other cell changes.
     */
    method AddDeadEnd(maze: array2<Cell>, rng: Source)
      returns (ghost carved: bool, ghost hole: Position, ghost neighbour: Position)
      requires Valid(maze)
      modifies maze
      ensures Valid(maze) && old(Open(maze)) <= Open(maze)
      ensures !carved ==> unchanged(maze)
      ensures carved ==>
                InGrid(hole, config.gridSize) && InGrid(neighbour, config.gridSize) &&
                Adjacent(hole, neighbour) && maze[neighbour.y, neighbour.x].kind == Path &&
                maze[hole.y, hole.x] == Cell(Path, hole) &&
                forall y, x :: 0 <= y < maze.Length0 && 0 <= x < maze.Length1 && (y != hole.y || x != hole.x) ==>
                  maze[y, x] == old(maze[y, x])
    {
      var n := config.gridSize;
      carved, hole, neighbour := false, Position(0, 0), Position(0, 0);
      var x := rng.Index(n);
      var y := rng.Index(n);
      if maze[y, x].kind == Path {
        var k := rng.Index(|Directions|);
        var direction := Directions[k];
        var newX, newY := x + direction.x, y + direction.y;
        if 0 <= newX < n && 0 <= newY < n {
          if maze[newY, newX].kind == Wall {
            var open := rng.Below(0.3);
            if open {
              Carve(maze, Position(newX, newY));
              carved, hole, neighbour := true, Position(newX, newY), Position(x, y);
            }
          }
        }
      }
    }

    /**
     * `createInterestingPath`: applies a random strategy and, if the end is still unreachable, carves
     * a monotone staircase from `start` to `end` cell by cell. Afterwards `end` is reachable.
     */
    method CreateInterestingPath(maze: array2<Cell>, start: Position, end: Position, rng: Source)
      requires Valid(maze) && InGrid(start, config.gridSize) && InGrid(end, config.gridSize)
      requires start.x <= end.x && end.y <= start.y
      modifies maze, rng
      ensures Valid(maze) && old(Open(maze)) <= Open(maze)
      ensures Connected(Open(maze), start, end)
    {
      var k := rng.Index(|Strategies|);
      CreatePathStrategy(maze, start, end, Strategies[k], rng);
      var found := HasPath(maze, start, end);
      if !found {
        ghost var route := FallbackPath(maze, start, end, rng);
      }
    }

    /**
     * The fallback loop of `createInterestingPath`: steps right or up (a coin decides while both are
     * needed), carving every cell it enters. The cells form a passable staircase from `start` to `end`.
     */
    method FallbackPath(maze: array2<Cell>, start: Position, end: Position, rng: Source)
      returns (ghost route: seq<Position>)
      requires Valid(maze) && InGrid(start, config.gridSize) && InGrid(end, config.gridSize)
      requires start.x <= end.x && end.y <= start.y
      modifies maze
      ensures Valid(maze) && old(Open(maze)) <= Open(maze)
      ensures IsRoute(Open(maze), route, start, end) && IsStaircase(route, start, end)
      ensures Connected(Open(maze), start, end)
      ensures forall y, x :: 0 <= y < maze.Length0 && 0 <= x < maze.Length1 && Position(x, y) !in route ==>
                  maze[y, x] == old(maze[y, x])
    {
      var current := start;
      route := [start];
      while current.x < end.x || current.y > end.y
        invariant Valid(maze) && old(Open(maze)) <= Open(maze)
        invariant start.x <= current.x <= end.x && end.y <= current.y <= start.y
        invariant IsRoute(Open(maze), route, start, current) && IsStaircase(route, start, current)
        invariant forall y, x :: 0 <= y < maze.Length0 && 0 <= x < maze.Length1 && Position(x, y) !in route ==>
                    maze[y, x] == old(maze[y, x])
        decreases (end.x - current.x) + (current.y - end.y)
      {
        ghost var before, previous := Open(maze), current;
        if current.x < end.x && current.y > end.y {
          var right := rng.Below(0.5);
          if right {
            current := current.(x := current.x + 1);
          } else {
            current := current.(y := current.y - 1);
          }
        } else if current.x < end.x {
          current := current.(x := current.x + 1);
        } else if current.y > end.y {
          current := current.(y := current.y - 1);
        }
        if maze[current.y, current.x].kind == Wall {
          Carve(maze, current);
        }
        RouteExtend(before, Open(maze), route, start, previous, current);
        StaircaseExtend(route, start, previous, current);
        route := route + [current];
      }
    }

    /**
     * `hasPath`: breadth-first search from `start` over passable 4-neighbours. It answers whether
     * `end` is reachable, and so answers true at once when the two coincide.
     */
    method HasPath(maze: array2<Cell>, start: Position, end: Position) returns (found: bool)
      requires maze.Length0 == config.gridSize && maze.Length1 == config.gridSize
      requires InGrid(start, config.gridSize)
      ensures found <==> Connected(Open(maze), start, end)
    {
      var n := config.gridSize;
      ghost var open := Open(maze);
      ghost var cells := Cells(n);
      var visited: set<Position> := {};
      var queue := [start];
      SearchStarts(open, start, end, n);
      while |queue| > 0
        invariant SearchState(open, start, end, n, visited, queue)
        invariant visited <= cells
        decreases |cells - visited|, |queue|
      {
        var current := queue[0];
        SearchReaches(open, start, end, n, visited, queue);
        if current in visited {
          SearchSkips(open, start, end, n, visited, queue);
          queue := queue[1..];
          continue;
        }
        if current == end {
          SearchFinds(open, start, end, n, visited, queue);
          return true;
        }
        var grown := EnqueueNeighbours(maze, current, visited, queue[1..]);
        SearchExpands(open, start, end, n, visited, queue, grown);
        assert (cells - (visited + {current})) < (cells - visited);
        visited := visited + {current};
        queue := grown;
      }
      SearchFails(open, start, end, n, visited);
      return false;
    }

    /**
     * The neighbour loop of `hasPath`: appends to `queue`, in the order up, right, down, left, each
     * on-grid neighbour of `current` that is not a wall and not yet visited.
     */
    method EnqueueNeighbours(maze: array2<Cell>, current: Position, visited: set<Position>, queue: seq<Position>)
      returns (grown: seq<Position>)
      requires maze.Length0 == config.gridSize && maze.Length1 == config.gridSize
      ensures queue <= grown
      ensures forall p :: p in grown ==> p in queue || (p in Open(maze) && Adjacent(current, p) && InGrid(p, config.gridSize))
      ensures forall j :: 0 <= j < |Directions| ==>
                var q := Shift(current, Directions[j]); q in Open(maze) ==> q in visited || q in grown
    {
      var n := config.gridSize;
      grown := queue;
      for k := 0 to |Directions|
        invariant queue <= grown
        invariant forall p :: p in grown ==> p in queue || (p in Open(maze) && Adjacent(current, p) && InGrid(p, n))
        invariant forall j :: 0 <= j < k ==>
                    var q := Shift(current, Directions[j]); q in Open(maze) ==> q in visited || q in grown
      {
        var dir := Directions[k];
        var newX, newY := current.x + dir.x, current.y + dir.y;
        ghost var before := grown;
        ShiftIsAdjacent(current, k);
        if 0 <= newX < n && 0 <= newY < n {
          var cell := maze[newY, newX];
          if cell.kind != Wall && Position(newX, newY) !in visited {
            grown := grown + [Position(newX, newY)];
          }
        }
        assert Shift(current, Directions[k]) == Position(newX, newY);
        assert forall q :: q in before ==> q in grown;
      }
    }
  }
}
