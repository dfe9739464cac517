/**
 * Grid geometry and 4-neighbour reachability: the meaning of the breadth-first search `hasPath`
 * (src/utils/mazeGenerator.ts:301-339) and of "start is connected to end".
 */
module Reachability {
  import opened GameTypes

  /** `p` lies on the `n` x `n` grid. */
  predicate InGrid(p: Position, n: int) {
    0 <= p.x < n && 0 <= p.y < n
  }

  /** All positions of the `n` x `n` grid. */
  ghost function Cells(n: nat): (cells: set<Position>)
    ensures forall p :: p in cells <==> InGrid(p, n)
  {
    var cells := set x, y | 0 <= x < n && 0 <= y < n :: Position(x, y);
    assert forall p :: InGrid(p, n) ==> p == Position(p.x, p.y);
    cells
  }

  /** `p` and `q` differ by one in exactly one coordinate. */
  predicate Adjacent(p: Position, q: Position) {
    (p.x == q.x && (p.y - q.y == 1 || q.y - p.y == 1)) ||
    (p.y == q.y && (p.x - q.x == 1 || q.x - p.x == 1))
  }

  /** The four unit moves in the order the source tries them: up, right, down, left. */
  const Directions: seq<Position> := [Position(0, -1), Position(1, 0), Position(0, 1), Position(-1, 0)]

  function Shift(p: Position, d: Position): Position {
    Position(p.x + d.x, p.y + d.y)
  }

  /** The four neighbours of a cell are exactly its four shifts. */
  lemma AdjacentIsShift(p: Position, q: Position)
    ensures Adjacent(p, q) <==> exists k :: 0 <= k < |Directions| && q == Shift(p, Directions[k])
  {
    if Adjacent(p, q) {
      if q.y == p.y - 1 {
        assert q == Shift(p, Directions[0]);
      } else if q.x == p.x + 1 {
        assert q == Shift(p, Directions[1]);
      } else if q.y == p.y + 1 {
        assert q == Shift(p, Directions[2]);
      } else {
        assert q == Shift(p, Directions[3]);
      }
    }
  }

  /** Each of the four shifts of a cell is one of its neighbours. */
  lemma ShiftIsAdjacent(p: Position, k: nat)
    requires k < |Directions|
    ensures Adjacent(p, Shift(p, Directions[k]))
  {
  }

  /** A sequence of cells from `s` to `e` in which each cell is a 4-neighbour of the one before. */
  predicate IsWalk(route: seq<Position>, s: Position, e: Position) {
    |route| > 0 && route[0] == s && route[|route| - 1] == e &&
    forall i :: 1 <= i < |route| ==> Adjacent(route[i - 1], route[i])
  }

  /** A walk whose every cell after the first is passable (the search never inspects its own start). */
  ghost predicate IsRoute(open: iset<Position>, route: seq<Position>, s: Position, e: Position) {
    IsWalk(route, s, e) && forall i :: 1 <= i < |route| ==> route[i] in open
  }

  /** `e` can be reached from `s` through passable cells. */
  ghost predicate Connected(open: iset<Position>, s: Position, e: Position) {
    exists route :: IsRoute(open, route, s, e)
  }

  /** Every cell reaches itself: the search answers true at once when start and end coincide. */
  lemma ConnectedSelf(open: iset<Position>, s: Position)
    ensures Connected(open, s, s)
  {
    assert IsRoute(open, [s], s, s);
  }

  /** One more step onto a passable neighbour extends a connection. */
  lemma ConnectedStep(open: iset<Position>, s: Position, p: Position, q: Position)
    requires Connected(open, s, p) && q in open && Adjacent(p, q)
    ensures Connected(open, s, q)
  {
    var route :| IsRoute(open, route, s, p);
    assert IsRoute(open, route + [q], s, q);
  }

  /** Opening more cells never disconnects anything. */
  lemma ConnectedMono(small: iset<Position>, large: iset<Position>, s: Position, e: Position)
    requires small <= large && Connected(small, s, e)
    ensures Connected(large, s, e)
  {
    var route :| IsRoute(small, route, s, e);
    assert IsRoute(large, route, s, e);
  }

  /**
   * What the breadth-first search from `s` towards `e` keeps between rounds: visited and queued cells
   * are on the grid, queued cells are reachable from `s`, `e` has not been visited, `s` is visited or
   * queued, and every passable neighbour of a visited cell is visited or queued.
   */
  ghost predicate SearchState(open: iset<Position>, s: Position, e: Position, n: int,
                              visited: set<Position>, queue: seq<Position>)
  {
    (forall p :: p in visited ==> InGrid(p, n)) && e !in visited &&
    (forall p :: p in queue ==> InGrid(p, n) && Connected(open, s, p)) &&
    (s in visited || s in queue) &&
    (forall p, q :: p in visited && q in open && Adjacent(p, q) ==> q in visited || q in queue)
  }

  /** The search starts with nothing visited and `s` queued. */
  lemma SearchStarts(open: iset<Position>, s: Position, e: Position, n: int)
    requires InGrid(s, n)
    ensures SearchState(open, s, e, n, {}, [s])
  {
    ConnectedSelf(open, s);
  }

  /** Taking an already visited cell off the queue changes nothing that matters. */
  lemma SearchSkips(open: iset<Position>, s: Position, e: Position, n: int, visited: set<Position>, queue: seq<Position>)
    requires SearchState(open, s, e, n, visited, queue) && |queue| > 0 && queue[0] in visited
    ensures SearchState(open, s, e, n, visited, queue[1..])
  {
    forall p | p in queue[1..] ensures p in queue {
    }
    forall p, q | p in visited && q in open && Adjacent(p, q) ensures q in visited || q in queue[1..] {
      if q !in visited {
        assert q in queue && q != queue[0];
      }
    }
  }

  /** Whatever the front of the queue is, it is reachable from `s`. */
  lemma SearchReaches(open: iset<Position>, s: Position, e: Position, n: int, visited: set<Position>, queue: seq<Position>)
    requires SearchState(open, s, e, n, visited, queue) && |queue| > 0
    ensures InGrid(queue[0], n) && Connected(open, s, queue[0])
  {
    assert queue[0] in queue;
  }

  /**
   * Visiting the front cell `current` (not `e`) and queueing its passable, unvisited neighbours, as
   * `grown` does, keeps the search state.
   */
  lemma SearchExpands(open: iset<Position>, s: Position, e: Position, n: int, visited: set<Position>,
                      queue: seq<Position>, grown: seq<Position>)
    requires SearchState(open, s, e, n, visited, queue) && |queue| > 0
    requires queue[0] !in visited && queue[0] != e && queue[1..] <= grown
    requires forall p :: p in grown ==> p in queue[1..] || (p in open && Adjacent(queue[0], p) && InGrid(p, n))
    requires forall j :: 0 <= j < |Directions| ==>
               var q := Shift(queue[0], Directions[j]); q in open ==> q in visited + {queue[0]} || q in grown
    ensures SearchState(open, s, e, n, visited + {queue[0]}, grown)
  {
    var current := queue[0];
    SearchReaches(open, s, e, n, visited, queue);
    forall p | p in grown ensures InGrid(p, n) && Connected(open, s, p) {
      if p in queue[1..] {
        assert p in queue;
      } else {
        ConnectedStep(open, s, current, p);
      }
    }
    forall p, q | p in visited + {current} && q in open && Adjacent(p, q)
      ensures q in visited + {current} || q in grown
    {
      if p == current {
        AdjacentIsShift(current, q);
      } else if q !in visited && q != current {
        assert q in queue[1..];
      }
    }
    assert s in visited || s in queue;
    if s !in visited && s != current {
      assert s in queue[1..];
    }
  }

  /** Meeting `e` at the front of the queue proves it reachable. */
  lemma SearchFinds(open: iset<Position>, s: Position, e: Position, n: int, visited: set<Position>, queue: seq<Position>)
    requires SearchState(open, s, e, n, visited, queue) && |queue| > 0 && queue[0] == e
    ensures Connected(open, s, e)
  {
    SearchReaches(open, s, e, n, visited, queue);
  }

  /** An empty queue proves `e` unreachable. */
  lemma SearchFails(open: iset<Position>, s: Position, e: Position, n: int, visited: set<Position>)
    requires SearchState(open, s, e, n, visited, [])
    ensures !Connected(open, s, e)
  {
    ClosedSetSeparates(open, visited, s, e);
  }

  /** A set that holds `s`, is closed under passable neighbours and misses `e` cuts `e` off from `s`. */
  lemma ClosedSetSeparates(open: iset<Position>, reached: set<Position>, s: Position, e: Position)
    requires s in reached && e !in reached
    requires forall p, q :: p in reached && q in open && Adjacent(p, q) ==> q in reached
    ensures !Connected(open, s, e)
  {
    if Connected(open, s, e) {
      var route :| IsRoute(open, route, s, e);
      RouteStaysInside(open, reached, route, s, e, |route| - 1);
      assert false;
    }
  }

  lemma {:induction false} RouteStaysInside(open: iset<Position>, reached: set<Position>, route: seq<Position>,
                                            s: Position, e: Position, i: nat)
    requires IsRoute(open, route, s, e) && s in reached && i < |route|
    requires forall p, q :: p in reached && q in open && Adjacent(p, q) ==> q in reached
    ensures route[i] in reached
  {
    if i > 0 {
      RouteStaysInside(open, reached, route, s, e, i - 1);
      assert Adjacent(route[i - 1], route[i]) && route[i] in open;
    }
  }

  /** Appending a passable neighbour to a route, after more cells have opened, gives a route again. */
  lemma RouteExtend(open: iset<Position>, larger: iset<Position>, route: seq<Position>, s: Position, p: Position, q: Position)
    requires IsRoute(open, route, s, p) && open <= larger && q in larger && Adjacent(p, q)
    ensures IsRoute(larger, route + [q], s, q)
  {
    var extended := route + [q];
    forall i | 1 <= i < |extended| ensures extended[i] in larger && Adjacent(extended[i - 1], extended[i]) {
      if i < |route| {
        assert extended[i - 1] == route[i - 1] && extended[i] == route[i];
      }
    }
  }

  /** Appending a monotone step to a staircase gives a staircase. */
  lemma StaircaseExtend(route: seq<Position>, s: Position, p: Position, q: Position)
    requires IsStaircase(route, s, p) && MonotoneStep(p, q)
    ensures IsStaircase(route + [q], s, q)
  {
    var extended := route + [q];
    forall i | 1 <= i < |extended| ensures MonotoneStep(extended[i - 1], extended[i]) {
      if i < |route| {
        assert extended[i - 1] == route[i - 1] && extended[i] == route[i];
      }
    }
  }

  /** One step of a monotone staircase: one to the right or one up. */
  predicate MonotoneStep(p: Position, q: Position) {
    q == Position(p.x + 1, p.y) || q == Position(p.x, p.y - 1)
  }

  /** A walk from `s` to `e` made only of monotone steps. */
  predicate IsStaircase(route: seq<Position>, s: Position, e: Position) {
    |route| > 0 && route[0] == s && route[|route| - 1] == e &&
    forall i :: 1 <= i < |route| ==> MonotoneStep(route[i - 1], route[i])
  }

  /**
   * A staircase is a walk that lies in the rectangle spanned by its ends and takes exactly as many
   * steps as the Manhattan distance between them.
   */
  lemma {:induction false} StaircaseShape(route: seq<Position>, s: Position, e: Position)
    requires IsStaircase(route, s, e)
    ensures IsWalk(route, s, e)
    ensures |route| == (e.x - s.x) + (s.y - e.y) + 1
    ensures forall i :: 0 <= i < |route| ==> s.x <= route[i].x <= e.x && e.y <= route[i].y <= s.y
  {
    if |route| > 1 {
      var front := route[..|route| - 1];
      var last := route[|route| - 2];
      assert IsStaircase(front, s, last) by {
        forall i | 1 <= i < |front| ensures MonotoneStep(front[i - 1], front[i]) {
          assert front[i - 1] == route[i - 1] && front[i] == route[i];
        }
      }
      StaircaseShape(front, s, last);
      assert MonotoneStep(last, e);
      forall i | 0 <= i < |route| ensures s.x <= route[i].x <= e.x && e.y <= route[i].y <= s.y {
        if i < |front| {
          assert route[i] == front[i];
        }
      }
    }
  }
}
