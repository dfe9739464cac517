// The state logic of the game screen (src/components/Game.tsx): moving the player, adjusting the
// maze-change interval, the timer tick and the two resets. Each React state update is a pure
// function from the previous session to the next one; a maze that the generator produces is an
// input of the transition that consumes it.

module Game {
  import opened GameTypes

  /** The configuration the game screen hands to its maze generator. */
  const DefaultConfig: GameConfig := GameConfig(25, 5, 0.18)
  const GridSize: int := DefaultConfig.gridSize
  /** The score a round starts from; it counts down while the round runs. */
  const StartingScore: int := 100
  const DefaultInterval: int := 5
  const MinInterval: int := 2
  const MaxInterval: int := 10
  /** Seconds that pass on each timer tick (the timer fires every 100 ms). */
  const TickSeconds: real := 0.1

  datatype Direction = Up | Down | Left | Right

  /**
   * Everything the screen keeps in state: the game record, the tick counter, the interval the
   * player chose (seconds between maze changes) and whether the round is running.
   */
  datatype Session = Session(game: GameState, tickCounter: nat, intervalTime: int, isPlaying: bool)

  function StartPosition(): Position { Position(0, GridSize - 1) }
  function GoalPosition(): Position { Position(GridSize - 1, 0) }

  predicate OnBoard(p: Position) {
    0 <= p.x < GridSize && 0 <= p.y < GridSize
  }

  /** A maze the screen can index: `GridSize` rows of `GridSize` cells, each knowing its place. */
  predicate IsBoard(maze: seq<seq<Cell>>) {
    |maze| == GridSize &&
    forall y :: 0 <= y < GridSize ==>
      (|maze[y]| == GridSize && forall x :: 0 <= x < GridSize ==> maze[y][x].position == Position(x, y))
  }

  /** A round is live: not won, not lost, and the play button is on. */
  predicate Active(s: Session) {
    !s.game.isGameWon && !s.game.isGameLost && s.isPlaying
  }

  /** The neighbour one step away in direction `d`, with no regard for the board's edge. */
  function Neighbour(p: Position, d: Direction): Position {
    match d
    case Up => Position(p.x, p.y - 1)
    case Down => Position(p.x, p.y + 1)
    case Left => Position(p.x - 1, p.y)
    case Right => Position(p.x + 1, p.y)
  }

  function Min(a: int, b: int): int { if a <= b then a else b }
  function Max(a: int, b: int): int { if a <= b then b else a }

  /**
   * The position a key press aims at: the coordinate along `d` moves by one and is clamped into
   * the board. From a square on the board this is the neighbour when that is on the board, and
   * the square itself when the step would leave it.
   */
  function Candidate(p: Position, d: Direction): (q: Position)
    ensures OnBoard(p) ==> OnBoard(q) && q == (if OnBoard(Neighbour(p, d)) then Neighbour(p, d) else p)
  {
    match d
    case Up => p.(y := Max(0, p.y - 1))
    case Down => p.(y := Min(GridSize - 1, p.y + 1))
    case Left => p.(x := Max(0, p.x - 1))
    case Right => p.(x := Min(GridSize - 1, p.x + 1))
  }

  /** The candidate differs from the current square in at most one coordinate, by at most one. */
  lemma CandidateIsOneStep(p: Position, d: Direction)
    requires OnBoard(p)
    ensures OnBoard(Candidate(p, d))
    ensures Candidate(p, d).x == p.x || Candidate(p, d).y == p.y
    ensures -1 <= Candidate(p, d).x - p.x <= 1 && -1 <= Candidate(p, d).y - p.y <= 1
  {
  }

  /**
   * `movePlayer`: ignored unless the round is live; a wall on the candidate square blocks the
   * move; otherwise the player steps there and the round is won exactly when that square is the
   * top-right corner. Nothing else in the session changes.
   */
  function MovePlayer(s: Session, d: Direction): (r: Session)
    requires Active(s) ==> IsBoard(s.game.maze) && OnBoard(s.game.playerPosition)
    ensures !Active(s) ==> r == s
    ensures Active(s) ==>
      var q := Candidate(s.game.playerPosition, d);
      (s.game.maze[q.y][q.x].kind == Wall ==> r == s) &&
      (s.game.maze[q.y][q.x].kind != Wall ==>
        r.game.playerPosition == q &&
        (r.game.isGameWon <==> q == GoalPosition()) &&
        r.game.(playerPosition := s.game.playerPosition, isGameWon := s.game.isGameWon) == s.game &&
        r.(game := s.game) == s)
  {
    if !Active(s) then s
    else
      var q := Candidate(s.game.playerPosition, d);
      if s.game.maze[q.y][q.x].kind == Wall then s
      else s.(game := s.game.(playerPosition := q, isGameWon := q.x == GridSize - 1 && q.y == 0))
  }

  /** After a move the player stands either where they stood or on a square that is not a wall. */
  lemma MoveNeverEntersWall(s: Session, d: Direction)
    requires Active(s) && IsBoard(s.game.maze) && OnBoard(s.game.playerPosition)
    ensures var p := MovePlayer(s, d).game.playerPosition;
      p == s.game.playerPosition || (OnBoard(p) && s.game.maze[p.y][p.x].kind != Wall)
  {
  }

  /** `increaseInterval`: one second more, at most `MaxInterval`. */
  function IncreaseInterval(v: int): (r: int)
    ensures r <= MaxInterval && (v < MaxInterval ==> r == v + 1)
  {
    Min(MaxInterval, v + 1)
  }

  /** `decreaseInterval`: one second less, at least `MinInterval`. */
  function DecreaseInterval(v: int): (r: int)
    ensures MinInterval <= r && (MinInterval < v ==> r == v - 1)
  {
    Max(MinInterval, v - 1)
  }

  /** Both buttons keep an interval inside [MinInterval, MaxInterval] and undo each other inside it. */
  lemma IntervalButtons(v: int)
    requires MinInterval <= v <= MaxInterval
    ensures MinInterval <= IncreaseInterval(v) <= MaxInterval
    ensures MinInterval <= DecreaseInterval(v) <= MaxInterval
    ensures v < MaxInterval ==> DecreaseInterval(IncreaseInterval(v)) == v
    ensures MinInterval < v ==> IncreaseInterval(DecreaseInterval(v)) == v
    ensures IncreaseInterval(v) == v <==> v == MaxInterval
    ensures DecreaseInterval(v) == v <==> v == MinInterval
  {
  }

  /** The interval after pressing the buttons in order (`true` for more time, `false` for less). */
  function Presses(v: int, presses: seq<bool>): int
    decreases |presses|
  {
    if |presses| == 0 then v
    else Presses(if presses[0] then IncreaseInterval(v) else DecreaseInterval(v), presses[1..])
  }

  /** Starting from the default of 5 seconds, no sequence of presses leaves [2, 10]. */
  lemma {:induction false} PressesStayInRange(v: int, presses: seq<bool>)
    requires MinInterval <= v <= MaxInterval
    ensures MinInterval <= Presses(v, presses) <= MaxInterval
    decreases |presses|
  {
    if |presses| > 0 {
      IntervalButtons(v);
      PressesStayInRange(if presses[0] then IncreaseInterval(v) else DecreaseInterval(v), presses[1..]);
    }
  }

  /**
   * `initializeGame`: a fresh maze, the player back on the start square, both flags cleared, the
   * full interval on the clock, the starting score, the tick counter at zero and the round stopped.
   * The chosen interval is kept.
   */
  function InitializeGame(s: Session, maze: seq<seq<Cell>>): (r: Session)
    ensures r.game.maze == maze && r.game.playerPosition == StartPosition()
    ensures !r.game.isGameWon && !r.game.isGameLost
    ensures r.game.timeLeft == s.intervalTime as real && r.game.score == StartingScore
    ensures r.tickCounter == 0 && !r.isPlaying && r.intervalTime == s.intervalTime
  {
    Session(
      s.game.(maze := maze, playerPosition := Position(0, DefaultConfig.gridSize - 1),
              isGameWon := false, isGameLost := false,
              timeLeft := s.intervalTime as real, score := StartingScore),
      0, s.intervalTime, false)
  }

  /**
   * `togglePlay`: a running round is stopped and reset exactly as `initializeGame` resets it; a
   * stopped one is started and nothing else changes.
   */
  function TogglePlay(s: Session, maze: seq<seq<Cell>>): (r: Session)
    ensures s.isPlaying ==> r == InitializeGame(s, maze)
    ensures !s.isPlaying ==> r == s.(isPlaying := true)
  {
    if s.isPlaying then
      Session(
        s.game.(maze := maze, playerPosition := Position(0, DefaultConfig.gridSize - 1),
                timeLeft := s.intervalTime as real, score := StartingScore,
                isGameWon := false, isGameLost := false),
        0, s.intervalTime, false)
    else s.(isPlaying := true)
  }

  /**
   * A new interval: the reset routine depends on the interval, so a change of value re-runs it
   * (with a fresh maze) and stops the round; setting the same value changes nothing.
   */
  function SetInterval(s: Session, v: int, maze: seq<seq<Cell>>): (r: Session)
    ensures r.intervalTime == v
    ensures v == s.intervalTime ==> r == s
    ensures v != s.intervalTime ==> r == InitializeGame(s.(intervalTime := v), maze)
  {
    if v == s.intervalTime then s else InitializeGame(s.(intervalTime := v), maze)
  }

  /** The restart key: only a finished round (won or lost) is re-initialised. */
  function RestartKey(s: Session, maze: seq<seq<Cell>>): (r: Session)
    ensures (s.game.isGameWon || s.game.isGameLost) ==> r == InitializeGame(s, maze)
    ensures !(s.game.isGameWon || s.game.isGameLost) ==> r == s
  {
    if s.game.isGameWon || s.game.isGameLost then InitializeGame(s, maze) else s
  }

  /**
   * The timer's state updater for tick number `counter`: a tenth of a second comes off the clock
   * and one point off the score on every fifth tick. When the clock runs out the maze is replaced
   * and the clock refilled with the interval, and the player stays where they are.
   */
  function TickUpdate(g: GameState, counter: int, intervalTime: int, maze: seq<seq<Cell>>): (r: GameState)
    ensures r.score == g.score || r.score == g.score - 1
    ensures r.score == g.score - 1 <==> counter % 5 == 0
    ensures r.playerPosition == g.playerPosition
    ensures r.isGameWon == g.isGameWon && r.isGameLost == g.isGameLost
    ensures g.timeLeft <= TickSeconds ==> r.maze == maze && r.timeLeft == intervalTime as real
    ensures TickSeconds < g.timeLeft ==> r.maze == g.maze && r.timeLeft == g.timeLeft - TickSeconds
  {
    var timeLeft := g.timeLeft - TickSeconds;
    var score := if counter % 5 == 0 then g.score - 1 else g.score;
    if timeLeft <= 0.0 then g.(maze := maze, timeLeft := intervalTime as real, score := score)
    else g.(timeLeft := timeLeft, score := score)
  }

  /** One timer tick: the timer runs only while the round is live. */
  function Tick(s: Session, maze: seq<seq<Cell>>): (r: Session)
    ensures !Active(s) ==> r == s
    ensures Active(s) ==>
      r.tickCounter == s.tickCounter + 1 &&
      r.game == TickUpdate(s.game, s.tickCounter + 1, s.intervalTime, maze) &&
      r.intervalTime == s.intervalTime && r.isPlaying
  {
    if !Active(s) then s
    else
      var counter := s.tickCounter + 1;
      s.(game := TickUpdate(s.game, counter, s.intervalTime, maze), tickCounter := counter)
  }

  /** The timer firing once per maze in `mazes` (each maze is used only if the clock runs out). */
  function Ticks(s: Session, mazes: seq<seq<seq<Cell>>>): Session
    decreases |mazes|
  {
    if |mazes| == 0 then s else Ticks(Tick(s, mazes[0]), mazes[1..])
  }

  /**
   * While a round is live, `k` ticks from counter `c` take one point for each multiple of five in
   * (c, c + k], and leave the player where they were.
   */
  lemma {:induction false} TicksLowerScore(s: Session, mazes: seq<seq<seq<Cell>>>)
    requires Active(s)
    ensures Active(Ticks(s, mazes))
    ensures Ticks(s, mazes).tickCounter == s.tickCounter + |mazes|
    ensures Ticks(s, mazes).game.score ==
      s.game.score - ((s.tickCounter + |mazes|) / 5 - s.tickCounter / 5)
    ensures Ticks(s, mazes).game.playerPosition == s.game.playerPosition
    decreases |mazes|
  {
    if |mazes| > 0 {
      var next := Tick(s, mazes[0]);
      TicksLowerScore(next, mazes[1..]);
      CounterStep(s.tickCounter);
    }
  }

  /** Adding one to the tick counter passes a multiple of five exactly when it lands on one. */
  lemma CounterStep(c: nat)
    ensures (c + 1) / 5 == c / 5 + (if (c + 1) % 5 == 0 then 1 else 0)
  {
  }

  /**
   * The state before the screen's first reset: no maze yet, the player on the start square, the
   * default interval of 5 seconds (also the clock), the starting score, and the round stopped, so
   * neither a key press nor the timer can act on it.
   */
  function Mounted(): (r: Session)
    ensures r.game.maze == [] && r.game.playerPosition == StartPosition()
    ensures r.intervalTime == DefaultInterval && r.game.timeLeft == r.intervalTime as real
    ensures r.game.score == StartingScore && r.tickCounter == 0
    ensures !r.game.isGameWon && !r.game.isGameLost && !r.isPlaying
    ensures !Active(r)
  {
    Session(
      GameState([], Position(0, DefaultConfig.gridSize - 1), false, false,
                DefaultConfig.intervalTime as real, StartingScore),
      0, DefaultInterval, false)
  }

  /**
   * The invariant of a session once its first maze is in place: the board is indexable, the
   * player is on it, the interval is in range, the clock is positive and at most the interval,
   * the score is the starting score less one point per five ticks, nothing marks the round lost,
   * and a won round has the player on the goal.
   */
  ghost predicate Consistent(s: Session) {
    IsBoard(s.game.maze) && OnBoard(s.game.playerPosition) &&
    MinInterval <= s.intervalTime <= MaxInterval &&
    0.0 < s.game.timeLeft <= s.intervalTime as real &&
    s.game.score == StartingScore - s.tickCounter / 5 &&
    !s.game.isGameLost &&
    (s.game.isGameWon ==> s.game.playerPosition == GoalPosition())
  }

  /** The screen's mount effect runs the reset once; the session it produces is consistent. */
  lemma MountedThenInitialized(maze: seq<seq<Cell>>)
    requires IsBoard(maze)
    ensures Consistent(InitializeGame(Mounted(), maze))
    ensures !InitializeGame(Mounted(), maze).isPlaying
  {
  }

  /** What can happen to a session: a key press, a timer tick, a button, or the restart key. */
  datatype Event =
    | Key(direction: Direction)
    | TimerTick(maze: seq<seq<Cell>>)
    | MoreTime(maze: seq<seq<Cell>>)
    | LessTime(maze: seq<seq<Cell>>)
    | PlayButton(maze: seq<seq<Cell>>)
    | Restart(maze: seq<seq<Cell>>)

  /** Every maze an event carries is a board (the generator's output always is). */
  predicate WellFormed(e: Event) {
    e.Key? || IsBoard(e.maze)
  }

  /**
   * The screen's wiring of events to updates: the arrow and letter keys, the timer, the two
   * interval buttons, the play button and the restart key. Only the interval buttons change the
   * interval; only a key press moves the player anywhere but back to the start; and the score
   * never rises except when a reset restores it.
   */
  function Step(s: Session, e: Event): (r: Session)
    requires Consistent(s) && WellFormed(e)
    ensures !(e.MoreTime? || e.LessTime?) ==> r.intervalTime == s.intervalTime
    ensures e.Key? || r.game.playerPosition == s.game.playerPosition || r.game.playerPosition == StartPosition()
    ensures r.game.score <= s.game.score || (r.game.score == StartingScore && r.tickCounter == 0)
  {
    match e
    case Key(d) => MovePlayer(s, d)
    case TimerTick(maze) => Tick(s, maze)
    case MoreTime(maze) => SetInterval(s, IncreaseInterval(s.intervalTime), maze)
    case LessTime(maze) => SetInterval(s, DecreaseInterval(s.intervalTime), maze)
    case PlayButton(maze) => TogglePlay(s, maze)
    case Restart(maze) => RestartKey(s, maze)
  }

  /** Each kind of event keeps a session consistent. */
  lemma StepKeepsConsistent(s: Session, e: Event)
    requires Consistent(s) && WellFormed(e)
    ensures Consistent(Step(s, e))
  {
    match e
    case Key(d) =>
      CandidateIsOneStep(s.game.playerPosition, d);
    case TimerTick(maze) =>
      if Active(s) {
        CounterStep(s.tickCounter);
      }
    case MoreTime(maze) =>
      IntervalButtons(s.intervalTime);
    case LessTime(maze) =>
      IntervalButtons(s.intervalTime);
    case PlayButton(maze) =>
    case Restart(maze) =>
  }

  function Run(s: Session, events: seq<Event>): Session
    requires Consistent(s) && forall i :: 0 <= i < |events| ==> WellFormed(events[i])
    decreases |events|
  {
    if |events| == 0 then s
    else
      StepKeepsConsistent(s, events[0]);
      Run(Step(s, events[0]), events[1..])
  }

  /**
   * Over any run of events from a consistent session the invariant holds at the end: the player
   * is on the board, the interval in [2, 10], the clock positive and the score equal to the
   * starting score less one point per five ticks.
   */
  lemma {:induction false} RunKeepsConsistent(s: Session, events: seq<Event>)
    requires Consistent(s) && forall i :: 0 <= i < |events| ==> WellFormed(events[i])
    ensures Consistent(Run(s, events))
    decreases |events|
  {
    if |events| > 0 {
      StepKeepsConsistent(s, events[0]);
      RunKeepsConsistent(Step(s, events[0]), events[1..]);
    }
  }
}
