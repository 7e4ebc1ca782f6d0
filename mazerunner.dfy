/**
 * The maze solver's program: reading the maze file into a grid, the
 * breadth-first search over it, and the report of the goal's distance.
 */
module MazeRunner {
  import opened Wrappers
  import opened Maze

  /** Reading the file: every complete line becomes a row of vertices. */
  method Parse(lines: seq<string>) returns (maze: Grid)
    ensures Parsed(lines, maze)
  {
    maze := [];
    var i := 0;
    while i < |lines|
      invariant 0 <= i <= |lines|
      invariant Parsed(lines[..i], maze)
    {
      var buffer := lines[i];
      var row: seq<Vertex> := [];
      var j := 0;
      while j < |buffer|
        invariant 0 <= j <= |buffer|
        invariant |row| == j
        invariant forall t :: 0 <= t < j ==> row[t] == Vertex(buffer[t] == '0', i, t, 0)
      {
        row := row + [Vertex(buffer[j] == '0', i, j, 0)];
        j := j + 1;
      }
      maze := maze + [row];
      i := i + 1;
    }
    assert lines[..i] == lines;
  }

  /** One pass of the inner loop: neighbour (x, y) = (V.x + row, V.y + col)
      of the front V, the i-th the search inspects, is marked at the front's
      distance plus one and queued when it is an unvisited cell of the square;
      `found` reports that it is the goal, which ends the inner loop. The
      ghost `log` records the push. */
  method InspectNeighbour(ghost lines: seq<string>, N: int, maze0: Grid, Q0: seq<Vertex>, ghost done: set<Cell>,
                          ghost log0: seq<Cell>, V: Vertex, i: int, row: int, col: int)
    returns (maze: Grid, Q: seq<Vertex>, found: bool, ghost log: seq<Cell>)
    requires 0 <= i < 4 && Cell(row, col) == Offset(i) && Inner(lines, N, maze0, Q0, done, V, i)
    requires Logged(lines, N, maze0, Q0, log0)
    ensures Inner(lines, N, maze, Q, done, V, i + 1) && (found ==> Get(maze, Goal(N)).visited)
    ensures |Q| >= |Q0| && |Unvisited(lines, N, maze)| + |Q| == |Unvisited(lines, N, maze0)| + |Q0|
    ensures |log| - |log0| == |Q| - |Q0| && Q[..|Q0|] == Q0 && log[..|log0|] == log0
    ensures Logged(lines, N, maze, Q, log)
  {
    maze, Q, found, log := maze0, Q0, false, log0;
    // Step(Pos(V), i) is (x, y); `(x|y) < 0` is negative exactly when x or y is.
    var x := V.x + row;
    var y := V.y + col;
    assert Cell(x, y) == Step(Pos(V), i);
    if x < 0 || y < 0 || x >= N || y >= N || maze[x][y].visited {
      Skip(lines, N, maze, Q, done, V, i);
    } else {
      VisitLogged(lines, N, maze, Q, done, log, V, i, x, y);
      maze := Mark(maze, Cell(x, y), Get(maze, Pos(V)).d + 1);
      Q := Q + [maze[x][y]];
      log := log + [Cell(x, y)];
      GoalTest(N, x, y);
      found := BitAnd(x, y) == N - 1;
    }
  }

  /** The inner loop of the search: inspect the four neighbours of the front
      V in turn, and stop early once the goal is marked. Each newly visited
      cell adds one entry to the queue, and the ghost `log` records it. */
  method Inspect(ghost lines: seq<string>, N: int, maze0: Grid, Q0: seq<Vertex>, ghost done: set<Cell>,
                 ghost log0: seq<Cell>, V: Vertex)
    returns (maze: Grid, Q: seq<Vertex>, i: int, ghost log: seq<Cell>)
    requires Inner(lines, N, maze0, Q0, done, V, 0) && Logged(lines, N, maze0, Q0, log0)
    ensures 0 <= i <= 4 && Inner(lines, N, maze, Q, done, V, i) && (i == 4 || Get(maze, Goal(N)).visited)
    ensures |Q| >= |Q0| && |Unvisited(lines, N, maze)| + |Q| == |Unvisited(lines, N, maze0)| + |Q0|
    ensures |log| - |log0| == |Q| - |Q0| && Q[..|Q0|] == Q0 && log[..|log0|] == log0
    ensures Logged(lines, N, maze, Q, log)
  {
    maze, Q, log := maze0, Q0, log0;
    var pastCol, col, row := -1, -1, 0;
    i := 0;
    while i < 4
      invariant 0 <= i <= 4 && Cell(row, col) == Offset(i)
      invariant Inner(lines, N, maze, Q, done, V, i)
      invariant |Q| >= |Q0| && |Unvisited(lines, N, maze)| + |Q| == |Unvisited(lines, N, maze0)| + |Q0|
      invariant |log| - |log0| == |Q| - |Q0| && Q[..|Q0|] == Q0 && log[..|log0|] == log0
      invariant Logged(lines, N, maze, Q, log)
      decreases 4 - i
    {
      var found;
      maze, Q, found, log := InspectNeighbour(lines, N, maze, Q, done, log, V, i, row, col);
      if found {
        i := i + 1;
        return;
      }
      pastCol := col;
      col := row * -1;
      row := pastCol;
      i := i + 1;
    }
  }

  /** The breadth-first search of the program, from its initial queue holding
      the start to the empty queue. The ghost `log` records every push, in
      order: no cell is queued twice, except the start, queued before the
      search unmarked, which may be marked and queued once more. */
  method Search(ghost lines: seq<string>, maze0: Grid) returns (maze: Grid, ghost log: seq<Cell>)
    requires Square(lines, |lines|) && Parsed(lines, maze0)
    ensures |log| >= 1 && log[0] == Start
    ensures forall c :: multiset(log)[c] <= if c == Start then 2 else 1
    ensures Framed(lines, |lines|, maze) && GoalSettled(lines, |lines|, maze)
    ensures Get(maze, Goal(|lines|)).visited <==>
              Wall(lines, |lines|, Goal(|lines|)) ||
              (|lines| >= 2 && exists n: nat :: Reach(lines, |lines|, Goal(|lines|), n))
  {
    var N := |maze0|;
    maze := maze0;
    var Q: seq<Vertex> := [maze[0][0]];
    ghost var done: set<Cell> := {};
    log := [Start];
    Initial(lines, N, maze);
    LogInitial(lines, N, maze);
    while |Q| > 0
      invariant Outer(lines, N, maze, Q, done) && Logged(lines, N, maze, Q, log)
      decreases |Unvisited(lines, N, maze)|, |Q|
    {
      var V := Q[0];
      var i;
      maze, Q, i, log := Inspect(lines, N, maze, Q, done, log, V);
      Pop(lines, N, maze, Q, done, V, i);
      LogPop(lines, N, maze, Q, log);
      Q := Q[1..];
      done := done + {Pos(V)};
    }
    if !Get(maze, Goal(N)).visited && N >= 2 {
      Unreached(lines, N, maze, done);
    }
    PushedAtMost(log);
  }

  /** The whole program: read the maze, search it, and report the goal's
      distance when the goal is visited, or that there is no path. */
  method Solve(lines: seq<string>) returns (r: Option<int>)
    requires Square(lines, |lines|)
    ensures r.Some? <==>
              Wall(lines, |lines|, Goal(|lines|)) ||
              (|lines| >= 2 && exists n: nat :: Reach(lines, |lines|, Goal(|lines|), n))
    ensures r.Some? && Wall(lines, |lines|, Goal(|lines|)) ==> r.value == 0
    ensures r.Some? && !Wall(lines, |lines|, Goal(|lines|)) ==>
              r.value >= 1 && Reach(lines, |lines|, Goal(|lines|), r.value) &&
              forall n: nat :: n < r.value ==> !Reach(lines, |lines|, Goal(|lines|), n)
  {
    var maze0: Grid := Parse(lines);
    var maze: Grid;
    ghost var log;
    maze, log := Search(lines, maze0);
    var N := |maze|;
    if maze[N - 1][N - 1].visited {
      r := Some(maze[N - 1][N - 1].d);
      if !Wall(lines, N, Goal(N)) {
        ShortestIsMinimal(lines, N, Goal(N), r.value);
      }
    } else {
      r := None;
    }
  }
}
