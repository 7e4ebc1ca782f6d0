/**
 * The maze solver. A maze file holds rows of characters, '0' for a wall and
 * anything else for an open cell. It is read into a grid of vertices, a wall
 * being marked visited from the start, and a breadth-first search from the
 * top-left cell labels every cell it reaches with its distance. The program
 * reports the distance of the bottom-right cell, or that there is no path.
 *
 * The search reads `N` (the number of rows) as the side of a square maze and
 * always starts from cell (0, 0), which it queues without marking it visited.
 */
module Maze {
  import opened Wrappers

  /** A grid cell as the program stores it: `visited` is preset for walls, `d` is the search distance. */
  datatype Vertex = Vertex(visited: bool, x: int, y: int, d: int)

  type Grid = seq<seq<Vertex>>

  /** A (row, column) position. */
  datatype Cell = Cell(row: int, col: int)

  /** `maze` is the grid read from `lines`: one vertex per character, walls
      already visited, each vertex holding its own position, all distances 0. */
  predicate Parsed(lines: seq<string>, maze: Grid) {
    |maze| == |lines| &&
    (forall i :: 0 <= i < |lines| ==> |maze[i]| == |lines[i]|) &&
    forall i, j :: 0 <= i < |lines| && 0 <= j < |lines[i]| ==> maze[i][j] == Vertex(lines[i][j] == '0', i, j, 0)
  }

  /** The search treats the maze as N by N with N the number of rows; it
      indexes every row up to column N - 1 and reads cell (0, 0). */
  predicate Square(lines: seq<string>, N: int) {
    N == |lines| && N >= 1 && forall r :: 0 <= r < N ==> |lines[r]| >= N
  }

  /** The boundary check: a position inside the N by N square. */
  predicate InGrid(N: int, c: Cell) {
    0 <= c.row < N && 0 <= c.col < N
  }

  predicate Wall(lines: seq<string>, N: int, c: Cell)
    requires Square(lines, N) && InGrid(N, c)
  {
    lines[c.row][c.col] == '0'
  }

  const Start: Cell := Cell(0, 0)

  function Goal(N: int): Cell {
    Cell(N - 1, N - 1)
  }

  /** The (row, column) offset of the i-th neighbour the search inspects:
      left, up, right, down. The rotation in the loop's step brings i = 4
      back to the first offset. */
  function Offset(i: int): Cell {
    if i == 1 then Cell(-1, 0) else if i == 2 then Cell(0, 1) else if i == 3 then Cell(1, 0) else Cell(0, -1)
  }

  /** Neighbour i of c, in the search's order: c moved by `Offset(i)`. */
  function Step(c: Cell, i: int): (n: Cell)
    ensures n == Cell(c.row + Offset(i).row, c.col + Offset(i).col)
  {
    if i == 1 then Cell(c.row - 1, c.col)
    else if i == 2 then Cell(c.row, c.col + 1)
    else if i == 3 then Cell(c.row + 1, c.col)
    else Cell(c.row, c.col - 1)
  }

  /** The four steps of the rotation reach the four adjacent cells, each exactly once. */
  lemma StepsAreNeighbours(c: Cell)
    ensures forall i :: Adjacent(c, Step(c, i))
    ensures forall n :: Adjacent(c, n) <==> exists i :: 0 <= i < 4 && Step(c, i) == n
    ensures forall a, b :: 0 <= a < b < 4 ==> Step(c, a) != Step(c, b)
  {
    forall n | Adjacent(c, n) ensures exists i :: 0 <= i < 4 && Step(c, i) == n {
      if n.row == c.row - 1 {
        assert Step(c, 1) == n;
      } else if n.row == c.row + 1 {
        assert Step(c, 3) == n;
      } else if n.col == c.col + 1 {
        assert Step(c, 2) == n;
      } else {
        assert Step(c, 0) == n;
      }
    }
  }

  /** A step moves to another cell. */
  lemma StepMoves(c: Cell, i: int)
    ensures Step(c, i) != c
  {
  }

  /** Two cells are horizontally or vertically adjacent. */
  predicate Adjacent(a: Cell, b: Cell) {
    (a.row == b.row && (b.col == a.col - 1 || b.col == a.col + 1)) ||
    (a.col == b.col && (b.row == a.row - 1 || b.row == a.row + 1))
  }

  /** A walk from the start: every later cell is an open cell of the square
      adjacent to the one before. The start itself is taken whatever it holds. */
  ghost predicate Walk(lines: seq<string>, N: int, p: seq<Cell>)
    requires Square(lines, N)
  {
    |p| >= 1 && p[0] == Start &&
    forall t :: 1 <= t < |p| ==> InGrid(N, p[t]) && !Wall(lines, N, p[t]) && Adjacent(p[t - 1], p[t])
  }

  /** `p` is a walk of at most `n` moves from the start to `c`. */
  ghost predicate WalkTo(lines: seq<string>, N: int, p: seq<Cell>, c: Cell, n: nat)
    requires Square(lines, N)
  {
    Walk(lines, N, p) && |p| <= n + 1 && p[|p| - 1] == c
  }

  /** Cell `c` can be reached from the start in at most `n` moves. */
  ghost predicate Reach(lines: seq<string>, N: int, c: Cell, n: nat)
    requires Square(lines, N)
  {
    exists p :: WalkTo(lines, N, p, c, n)
  }

  /** The start is reached in no moves, and nothing else is. */
  lemma ReachZero(lines: seq<string>, N: int, c: Cell)
    requires Square(lines, N)
    ensures Reach(lines, N, c, 0) <==> c == Start
  {
    if c == Start {
      assert WalkTo(lines, N, [Start], Start, 0);
    }
  }

  /** What is reached in a moves is reached in any b >= a moves. */
  lemma ReachMonotone(lines: seq<string>, N: int, c: Cell, a: nat, b: nat)
    requires Square(lines, N) && a <= b && Reach(lines, N, c, a)
    ensures Reach(lines, N, c, b)
  {
    var p :| WalkTo(lines, N, p, c, a);
    assert WalkTo(lines, N, p, c, b);
  }

  /** A reached cell other than the start is an open cell of the square. */
  lemma ReachOpen(lines: seq<string>, N: int, c: Cell, n: nat)
    requires Square(lines, N) && Reach(lines, N, c, n)
    ensures InGrid(N, c)
    ensures c != Start ==> !Wall(lines, N, c)
  {
    var p :| WalkTo(lines, N, p, c, n);
    if |p| > 1 {
      assert InGrid(N, p[|p| - 1]);
    }
  }

  /** One more move from a reached cell to an adjacent open cell. */
  lemma ReachExtend(lines: seq<string>, N: int, p: Cell, i: int, n: nat)
    requires Square(lines, N) && 0 <= i < 4 && Reach(lines, N, p, n)
    requires InGrid(N, Step(p, i)) && !Wall(lines, N, Step(p, i))
    ensures Reach(lines, N, Step(p, i), n + 1)
  {
    var w :| WalkTo(lines, N, w, p, n);
    var w' := w + [Step(p, i)];
    forall t | 1 <= t < |w'|
      ensures InGrid(N, w'[t]) && !Wall(lines, N, w'[t]) && Adjacent(w'[t - 1], w'[t])
    {
      if t < |w| {
        assert w'[t] == w[t] && w'[t - 1] == w[t - 1];
      }
    }
    assert WalkTo(lines, N, w', Step(p, i), n + 1);
  }

  /** A cell first reached in n + 1 moves has a neighbour reached in n. */
  lemma ReachPredecessor(lines: seq<string>, N: int, c: Cell, n: nat)
    requires Square(lines, N) && Reach(lines, N, c, n + 1) && !Reach(lines, N, c, n)
    ensures InGrid(N, c) && !Wall(lines, N, c)
    ensures exists q :: Adjacent(q, c) && Reach(lines, N, q, n)
  {
    var w :| WalkTo(lines, N, w, c, n + 1);
    assert !WalkTo(lines, N, w, c, n);
    var q := w[n];
    assert WalkTo(lines, N, w[..n + 1], q, n);
    assert InGrid(N, w[n + 1]) && Adjacent(q, c);
  }

  /** Contrapositive of `ReachMonotone`: a count that does not reach a
      reached cell is below the count that does. */
  lemma ReachBelow(lines: seq<string>, N: int, c: Cell, a: nat, b: int)
    requires Square(lines, N) && Reach(lines, N, c, a) && (b < 0 || !Reach(lines, N, c, b))
    ensures b < a
  {
    if b >= a {
      ReachMonotone(lines, N, c, a, b);
      assert false;
    }
  }

  /** A distance d that reaches a cell when d - 1 does not is its shortest: no smaller count reaches it. */
  lemma ShortestIsMinimal(lines: seq<string>, N: int, c: Cell, d: nat)
    requires Square(lines, N) && d >= 1 && Reach(lines, N, c, d) && !Reach(lines, N, c, d - 1)
    ensures forall n: nat :: n < d ==> !Reach(lines, N, c, n)
  {
    forall n: nat | n < d ensures !Reach(lines, N, c, n) {
      if Reach(lines, N, c, n) {
        ReachMonotone(lines, N, c, n, d - 1);
      }
    }
  }

  /** `x & y` on non-negative ints: the bits set in both. */
  function BitAnd(x: nat, y: nat): (r: nat)
    ensures r <= x && r <= y
  {
    if x == 0 || y == 0 then 0
    else 2 * BitAnd(x / 2, y / 2) + (if x % 2 == 1 && y % 2 == 1 then 1 else 0)
  }

  lemma {:induction false} BitAndSelf(x: nat)
    ensures BitAnd(x, x) == x
  {
    if x > 0 {
      BitAndSelf(x / 2);
    }
  }

  /** The end-of-maze test `(x & y) == N - 1` holds, inside the square, exactly at the goal. */
  lemma GoalTest(N: int, x: nat, y: nat)
    requires x < N && y < N
    ensures BitAnd(x, y) == N - 1 <==> Cell(x, y) == Goal(N)
  {
    BitAndSelf(N - 1);
  }

  function Get(maze: Grid, c: Cell): Vertex
    requires 0 <= c.row < |maze| && 0 <= c.col < |maze[c.row]|
  {
    maze[c.row][c.col]
  }

  /** The position a (queued copy of a) vertex records. */
  function Pos(v: Vertex): Cell {
    Cell(v.x, v.y)
  }

  /** `maze[x][y].visited = true; maze[x][y].d = dist;` */
  function Mark(maze: Grid, c: Cell, dist: int): (m: Grid)
    requires 0 <= c.row < |maze| && 0 <= c.col < |maze[c.row]|
    ensures |m| == |maze| && forall r :: 0 <= r < |m| ==> |m[r]| == |maze[r]|
    ensures forall e: Cell {:trigger Get(m, e)} :: 0 <= e.row < |maze| && 0 <= e.col < |maze[e.row]| ==>
              Get(m, e) == if e == c then Get(maze, c).(visited := true, d := dist) else Get(maze, e)
  {
    maze[c.row := maze[c.row][c.col := maze[c.row][c.col].(visited := true, d := dist)]]
  }

  /** The grid during the search: the parsed shape, every vertex still holding
      its own position and a non-negative distance, walls visited at distance 0. */
  ghost predicate Framed(lines: seq<string>, N: int, maze: Grid) {
    Square(lines, N) && |maze| == N &&
    (forall r :: 0 <= r < N ==> |maze[r]| == |lines[r]|) &&
    forall c {:trigger Get(maze, c)} :: InGrid(N, c) ==>
      Pos(Get(maze, c)) == c && Get(maze, c).d >= 0 &&
      (Wall(lines, N, c) ==> Get(maze, c).visited && Get(maze, c).d == 0)
  }

  /** The cells of the square not yet visited. */
  ghost function Unvisited(lines: seq<string>, N: int, maze: Grid): set<Cell>
    requires Framed(lines, N, maze)
  {
    set x, y | 0 <= x < N && 0 <= y < N && !maze[x][y].visited :: Cell(x, y)
  }

  /** Every queued position lies in the square and is the start or a visited
      open cell; only the front may be the unvisited start. */
  ghost predicate Queued(lines: seq<string>, N: int, maze: Grid, Q: seq<Vertex>)
    requires Framed(lines, N, maze)
  {
    forall t :: 0 <= t < |Q| ==>
      InGrid(N, Pos(Q[t])) &&
      (Pos(Q[t]) == Start || (Get(maze, Pos(Q[t])).visited && !Wall(lines, N, Pos(Q[t])))) &&
      (t > 0 ==> Get(maze, Pos(Q[t])).visited)
  }

  /** Once the goal is visited its distance is final: 0 for a wall, otherwise
      the length of a shortest path from the start. */
  ghost predicate GoalSettled(lines: seq<string>, N: int, maze: Grid)
    requires Framed(lines, N, maze)
  {
    var g := Get(maze, Goal(N));
    g.visited ==>
      if Wall(lines, N, Goal(N)) then g.d == 0
      else N >= 2 && g.d >= 1 && Reach(lines, N, Goal(N), g.d) && !Reach(lines, N, Goal(N), g.d - 1)
  }

  predicate InQueue(Q: seq<Vertex>, c: Cell) {
    exists t :: 0 <= t < |Q| && Pos(Q[t]) == c
  }

  /** Cell `c` is a visited open cell other than the start: one whose distance the search has set. */
  ghost predicate Settled(lines: seq<string>, N: int, maze: Grid, c: Cell)
    requires Framed(lines, N, maze)
  {
    InGrid(N, c) && c != Start && Get(maze, c).visited && !Wall(lines, N, c)
  }

  /** Every settled cell carries its shortest distance. */
  ghost predicate Exact(lines: seq<string>, N: int, maze: Grid)
    requires Framed(lines, N, maze)
  {
    forall c {:trigger Settled(lines, N, maze, c)} :: Settled(lines, N, maze, c) ==>
      Get(maze, c).d >= 1 && Reach(lines, N, c, Get(maze, c).d) && !Reach(lines, N, c, Get(maze, c).d - 1)
  }

  /** Distances along the queue never decrease and span at most one level. */
  ghost predicate Sorted(lines: seq<string>, N: int, maze: Grid, Q: seq<Vertex>)
    requires Framed(lines, N, maze) && Queued(lines, N, maze, Q)
  {
    forall a, b :: 0 <= a < b < |Q| ==>
      Get(maze, Pos(Q[a])).d <= Get(maze, Pos(Q[b])).d <= Get(maze, Pos(Q[a])).d + 1
  }

  /** Neighbour i of p is visited or outside the square. */
  ghost predicate NeighbourVisited(lines: seq<string>, N: int, maze: Grid, p: Cell, i: int)
    requires Framed(lines, N, maze)
  {
    InGrid(N, Step(p, i)) ==> Get(maze, Step(p, i)).visited
  }

  /** The first `i` neighbours of p, in the order the search inspects them, are visited or outside the square. */
  ghost predicate VisitedUpTo(lines: seq<string>, N: int, maze: Grid, p: Cell, i: int)
    requires Framed(lines, N, maze)
  {
    (i > 0 ==> NeighbourVisited(lines, N, maze, p, 0)) && (i > 1 ==> NeighbourVisited(lines, N, maze, p, 1)) &&
    (i > 2 ==> NeighbourVisited(lines, N, maze, p, 2)) && (i > 3 ==> NeighbourVisited(lines, N, maze, p, 3))
  }

  /** Every dequeued position has all its neighbours in the square visited. */
  ghost predicate Closed(lines: seq<string>, N: int, maze: Grid, done: set<Cell>)
    requires Framed(lines, N, maze)
  {
    forall p {:trigger VisitedUpTo(lines, N, maze, p, 4)} :: p in done ==>
      InGrid(N, p) && (p == Start || Get(maze, p).visited) && VisitedUpTo(lines, N, maze, p, 4)
  }

  /** Cell `c` has entered the search: it is the start or a visited open cell. */
  ghost predicate Discovered(lines: seq<string>, N: int, maze: Grid, c: Cell)
    requires Framed(lines, N, maze)
  {
    InGrid(N, c) && (c == Start || (Get(maze, c).visited && !Wall(lines, N, c)))
  }

  /** Every discovered cell has been dequeued or is queued. */
  ghost predicate Tracked(lines: seq<string>, N: int, maze: Grid, Q: seq<Vertex>, done: set<Cell>)
    requires Framed(lines, N, maze)
  {
    forall c :: Discovered(lines, N, maze, c) ==> c in done || InQueue(Q, c)
  }

  /** Everything reached within the front's distance is already visited. */
  ghost predicate Level(lines: seq<string>, N: int, maze: Grid, Q: seq<Vertex>)
    requires Framed(lines, N, maze) && Queued(lines, N, maze, Q)
  {
    |Q| > 0 ==>
      forall c :: Reach(lines, N, c, Get(maze, Pos(Q[0])).d) ==> c == Start || (InGrid(N, c) && Get(maze, c).visited)
  }

  /** The start is dequeued first, at distance 0. */
  ghost predicate StartFirst(maze: Grid, Q: seq<Vertex>, done: set<Cell>)
    requires |maze| >= 1 && |maze[0]| >= 1
  {
    Start in done || (done == {} && |Q| > 0 && Pos(Q[0]) == Start && Get(maze, Start).d == 0)
  }

  /** The breadth-first invariants, which hold while the goal is unvisited. */
  ghost predicate Searching(lines: seq<string>, N: int, maze: Grid, Q: seq<Vertex>, done: set<Cell>)
    requires Framed(lines, N, maze) && Queued(lines, N, maze, Q)
  {
    Exact(lines, N, maze) && Sorted(lines, N, maze, Q) && Closed(lines, N, maze, done) &&
    Tracked(lines, N, maze, Q, done) && Level(lines, N, maze, Q) && StartFirst(maze, Q, done)
  }

  /** The state the search starts from. */
  lemma Initial(lines: seq<string>, N: int, maze: Grid)
    requires Square(lines, N) && Parsed(lines, maze)
    ensures Framed(lines, N, maze) && Queued(lines, N, maze, [maze[0][0]]) && GoalSettled(lines, N, maze)
    ensures Searching(lines, N, maze, [maze[0][0]], {})
  {
    var Q := [maze[0][0]];
    assert Pos(Q[0]) == Start;
    forall c | Reach(lines, N, c, 0) ensures c == Start {
      ReachZero(lines, N, c);
    }
    assert InQueue(Q, Start);
  }

  /** Marking an unvisited neighbour of the front and queueing it keeps the
      grid's frame, the queue's shape and a settled goal. */
  lemma MarkKeeps(lines: seq<string>, N: int, maze: Grid, Q: seq<Vertex>, i: int)
    requires Framed(lines, N, maze) && |Q| > 0 && Queued(lines, N, maze, Q) && GoalSettled(lines, N, maze)
    requires 0 <= i < 4 && InGrid(N, Step(Pos(Q[0]), i)) && !Get(maze, Step(Pos(Q[0]), i)).visited
    ensures var c := Step(Pos(Q[0]), i);
            var m := Mark(maze, c, Get(maze, Pos(Q[0])).d + 1);
            Framed(lines, N, m) && Queued(lines, N, m, Q + [Get(m, c)]) &&
            (Get(maze, Goal(N)).visited ==> GoalSettled(lines, N, m))
  {
    var c := Step(Pos(Q[0]), i);
    var m := Mark(maze, c, Get(maze, Pos(Q[0])).d + 1);
    StepMoves(Pos(Q[0]), i);
    var Q' := Q + [Get(m, c)];
    forall t | 0 <= t < |Q'|
      ensures InGrid(N, Pos(Q'[t])) &&
              (Pos(Q'[t]) == Start || (Get(m, Pos(Q'[t])).visited && !Wall(lines, N, Pos(Q'[t])))) &&
              (t > 0 ==> Get(m, Pos(Q'[t])).visited)
    {
      if t < |Q| {
        assert Q'[t] == Q[t];
      }
    }
  }

  /** Marking an unvisited cell removes it, and only it, from the unvisited ones. */
  lemma MarkUnvisited(lines: seq<string>, N: int, maze: Grid, c: Cell, dist: int)
    requires Framed(lines, N, maze) && InGrid(N, c) && !Get(maze, c).visited
    requires Framed(lines, N, Mark(maze, c, dist))
    ensures Unvisited(lines, N, Mark(maze, c, dist)) == Unvisited(lines, N, maze) - {c}
    ensures c in Unvisited(lines, N, maze)
  {
    var m := Mark(maze, c, dist);
    forall e | e in Unvisited(lines, N, maze) - {c} ensures e in Unvisited(lines, N, m) {
    }
    forall e | e in Unvisited(lines, N, m) ensures e in Unvisited(lines, N, maze) - {c} {
    }
  }

  /** Marking a cell first reached in `dist` moves keeps every visited open
      cell at its shortest distance. */
  lemma MarkExact(lines: seq<string>, N: int, maze: Grid, c: Cell, dist: int)
    requires Framed(lines, N, maze) && Exact(lines, N, maze) && InGrid(N, c)
    requires Framed(lines, N, Mark(maze, c, dist))
    requires c != Start && !Wall(lines, N, c) ==>
               dist >= 1 && Reach(lines, N, c, dist) && !Reach(lines, N, c, dist - 1)
    ensures Exact(lines, N, Mark(maze, c, dist))
  {
    var m := Mark(maze, c, dist);
    forall e | Settled(lines, N, m, e)
      ensures Get(m, e).d >= 1 && Reach(lines, N, e, Get(m, e).d) && !Reach(lines, N, e, Get(m, e).d - 1)
    {
      MarkExactAt(lines, N, maze, c, dist, e);
    }
  }

  /** One cell of `MarkExact`. */
  lemma MarkExactAt(lines: seq<string>, N: int, maze: Grid, c: Cell, dist: int, e: Cell)
    requires Framed(lines, N, maze) && Exact(lines, N, maze) && InGrid(N, c)
    requires Framed(lines, N, Mark(maze, c, dist)) && Settled(lines, N, Mark(maze, c, dist), e)
    requires c != Start && !Wall(lines, N, c) ==>
               dist >= 1 && Reach(lines, N, c, dist) && !Reach(lines, N, c, dist - 1)
    ensures var d := Get(Mark(maze, c, dist), e).d;
            d >= 1 && Reach(lines, N, e, d) && !Reach(lines, N, e, d - 1)
  {
    if e != c {
      assert Get(Mark(maze, c, dist), e) == Get(maze, e);
      assert Settled(lines, N, maze, e);
    }
  }

  /** Queueing a cell at the front's distance plus one keeps the queue sorted. */
  lemma MarkSorted(lines: seq<string>, N: int, maze: Grid, Q: seq<Vertex>, c: Cell)
    requires Framed(lines, N, maze) && |Q| > 0 && Queued(lines, N, maze, Q) && Sorted(lines, N, maze, Q)
    requires InGrid(N, c) && !Get(maze, c).visited && c != Pos(Q[0])
    requires var m := Mark(maze, c, Get(maze, Pos(Q[0])).d + 1);
             Framed(lines, N, m) && Queued(lines, N, m, Q + [Get(m, c)])
    ensures var m := Mark(maze, c, Get(maze, Pos(Q[0])).d + 1);
            Sorted(lines, N, m, Q + [Get(m, c)])
  {
    var m := Mark(maze, c, Get(maze, Pos(Q[0])).d + 1);
    var Q' := Q + [Get(m, c)];
    forall a, b | 0 <= a < b < |Q'|
      ensures Get(m, Pos(Q'[a])).d <= Get(m, Pos(Q'[b])).d <= Get(m, Pos(Q'[a])).d + 1
    {
      assert Q'[a] == Q[a];
      assert Get(m, Pos(Q[a])) == Get(maze, Pos(Q[a]));
      if b < |Q| {
        assert Q'[b] == Q[b];
        assert Get(m, Pos(Q[b])) == Get(maze, Pos(Q[b]));
      } else if a > 0 {
        assert Get(maze, Pos(Q[0])).d <= Get(maze, Pos(Q[a])).d;
      }
    }
  }

  /** Marking keeps every dequeued cell closed, and visits neighbour i of the front. */
  lemma MarkClosed(lines: seq<string>, N: int, maze: Grid, done: set<Cell>, v: Cell, i: int, dist: int)
    requires Framed(lines, N, maze) && Closed(lines, N, maze, done) && 0 <= i < 4 && InGrid(N, Step(v, i))
    requires Framed(lines, N, Mark(maze, Step(v, i), dist)) && VisitedUpTo(lines, N, maze, v, i)
    ensures Closed(lines, N, Mark(maze, Step(v, i), dist), done)
    ensures VisitedUpTo(lines, N, Mark(maze, Step(v, i), dist), v, i + 1)
  {
    var m := Mark(maze, Step(v, i), dist);
    assert forall e {:trigger Get(m, e)} :: InGrid(N, e) && Get(maze, e).visited ==> Get(m, e).visited;
    forall p | p in done
      ensures InGrid(N, p) && (p == Start || Get(m, p).visited) && VisitedUpTo(lines, N, m, p, 4)
    {
      assert VisitedUpTo(lines, N, maze, p, 4);
    }
  }

  /** Marking and queueing a cell keeps every discovered cell dequeued or queued. */
  lemma MarkTracked(lines: seq<string>, N: int, maze: Grid, Q: seq<Vertex>, done: set<Cell>, c: Cell, dist: int)
    requires Framed(lines, N, maze) && Tracked(lines, N, maze, Q, done) && InGrid(N, c)
    requires Framed(lines, N, Mark(maze, c, dist))
    ensures var m := Mark(maze, c, dist); Tracked(lines, N, m, Q + [Get(m, c)], done)
  {
    var m := Mark(maze, c, dist);
    var Q' := Q + [Get(m, c)];
    forall e | Discovered(lines, N, m, e) ensures e in done || InQueue(Q', e) {
      if e == c {
        assert Pos(Q'[|Q|]) == e;
      } else if e !in done {
        assert Get(m, e) == Get(maze, e);
        assert Discovered(lines, N, maze, e);
        var t :| 0 <= t < |Q| && Pos(Q[t]) == e;
        assert Pos(Q'[t]) == e;
      }
    }
  }

  /** Marking keeps everything reached within the front's distance visited. */
  lemma MarkLevel(lines: seq<string>, N: int, maze: Grid, Q: seq<Vertex>, c: Cell, dist: int)
    requires Framed(lines, N, maze) && |Q| > 0 && Queued(lines, N, maze, Q) && Level(lines, N, maze, Q)
    requires InGrid(N, c) && c != Pos(Q[0])
    requires var m := Mark(maze, c, dist); Framed(lines, N, m) && Queued(lines, N, m, Q + [Get(m, c)])
    ensures var m := Mark(maze, c, dist); Level(lines, N, m, Q + [Get(m, c)])
  {
    var m := Mark(maze, c, dist);
    var Q' := Q + [Get(m, c)];
    assert Q'[0] == Q[0];
    assert Get(m, Pos(Q[0])) == Get(maze, Pos(Q[0]));
    assert forall e {:trigger Get(m, e)} :: InGrid(N, e) && Get(maze, e).visited ==> Get(m, e).visited;
  }

  /** The front of the queue was reached in its recorded number of moves. */
  lemma FrontReached(lines: seq<string>, N: int, maze: Grid, Q: seq<Vertex>, done: set<Cell>)
    requires Framed(lines, N, maze) && |Q| > 0 && Queued(lines, N, maze, Q) && Searching(lines, N, maze, Q, done)
    ensures Reach(lines, N, Pos(Q[0]), Get(maze, Pos(Q[0])).d)
  {
    if Pos(Q[0]) == Start {
      ReachZero(lines, N, Start);
      ReachMonotone(lines, N, Start, 0, Get(maze, Start).d);
    } else {
      assert Settled(lines, N, maze, Pos(Q[0]));
    }
  }

  /** An unvisited neighbour of the front, other than the start, is an open
      cell first reached in one move more than the front. */
  lemma FirstReached(lines: seq<string>, N: int, maze: Grid, Q: seq<Vertex>, done: set<Cell>, i: int)
    requires Framed(lines, N, maze) && |Q| > 0 && Queued(lines, N, maze, Q) && Searching(lines, N, maze, Q, done)
    requires 0 <= i < 4 && InGrid(N, Step(Pos(Q[0]), i)) && !Get(maze, Step(Pos(Q[0]), i)).visited
    ensures var c := Step(Pos(Q[0]), i);
            var k := Get(maze, Pos(Q[0])).d;
            c != Start ==> !Wall(lines, N, c) && Reach(lines, N, c, k + 1) && !Reach(lines, N, c, k)
  {
    var c := Step(Pos(Q[0]), i);
    if c != Start {
      FrontReached(lines, N, maze, Q, done);
      ReachExtend(lines, N, Pos(Q[0]), i, Get(maze, Pos(Q[0])).d);
    }
  }

  /** Marking keeps the goal unvisited or, when it is the marked cell, settles it. */
  lemma MarkGoal(lines: seq<string>, N: int, maze: Grid, Q: seq<Vertex>, done: set<Cell>, i: int)
    requires Framed(lines, N, maze) && |Q| > 0 && Queued(lines, N, maze, Q) && Searching(lines, N, maze, Q, done)
    requires !Get(maze, Goal(N)).visited
    requires 0 <= i < 4 && InGrid(N, Step(Pos(Q[0]), i)) && !Get(maze, Step(Pos(Q[0]), i)).visited
    requires Framed(lines, N, Mark(maze, Step(Pos(Q[0]), i), Get(maze, Pos(Q[0])).d + 1))
    ensures GoalSettled(lines, N, Mark(maze, Step(Pos(Q[0]), i), Get(maze, Pos(Q[0])).d + 1))
  {
    var c := Step(Pos(Q[0]), i);
    var m := Mark(maze, c, Get(maze, Pos(Q[0])).d + 1);
    StepMoves(Pos(Q[0]), i);
    FirstReached(lines, N, maze, Q, done, i);
    if c != Goal(N) {
      assert Get(m, Goal(N)) == Get(maze, Goal(N));
    }
  }

  /** Marking a cell other than the front keeps the start first. */
  lemma MarkStartFirst(maze: Grid, Q: seq<Vertex>, done: set<Cell>, c: Cell, dist: int)
    requires |maze| >= 1 && |maze[0]| >= 1 && 0 <= c.row < |maze| && 0 <= c.col < |maze[c.row]|
    requires |Q| > 0 && c != Pos(Q[0]) && StartFirst(maze, Q, done)
    ensures var m := Mark(maze, c, dist); StartFirst(m, Q + [Get(m, c)], done)
  {
    var m := Mark(maze, c, dist);
    assert (Q + [Get(m, c)])[0] == Q[0];
    if Start !in done {
      assert Get(m, Start) == Get(maze, Start);
    }
  }

  /** The distance and queue-order parts of `MarkSearching`. */
  lemma MarkSearchingOrder(lines: seq<string>, N: int, maze: Grid, Q: seq<Vertex>, done: set<Cell>, i: int)
    requires Framed(lines, N, maze) && |Q| > 0 && Queued(lines, N, maze, Q)
    requires !Get(maze, Goal(N)).visited && Searching(lines, N, maze, Q, done)
    requires 0 <= i < 4 && InGrid(N, Step(Pos(Q[0]), i)) && !Get(maze, Step(Pos(Q[0]), i)).visited
    requires VisitedUpTo(lines, N, maze, Pos(Q[0]), i)
    requires var c := Step(Pos(Q[0]), i);
             var m := Mark(maze, c, Get(maze, Pos(Q[0])).d + 1);
             Framed(lines, N, m) && Queued(lines, N, m, Q + [Get(m, c)])
    ensures var c := Step(Pos(Q[0]), i);
            var m := Mark(maze, c, Get(maze, Pos(Q[0])).d + 1);
            Exact(lines, N, m) && Sorted(lines, N, m, Q + [Get(m, c)])
  {
    var v := Pos(Q[0]);
    var k := Get(maze, v).d;
    var c := Step(v, i);
    StepMoves(v, i);
    FirstReached(lines, N, maze, Q, done, i);
    MarkExact(lines, N, maze, c, k + 1);
    MarkSorted(lines, N, maze, Q, c);
  }

  /** The closure part of `MarkSearching`. */
  lemma MarkSearchingClosed(lines: seq<string>, N: int, maze: Grid, done: set<Cell>, v: Cell, i: int)
    requires Framed(lines, N, maze) && Closed(lines, N, maze, done) && VisitedUpTo(lines, N, maze, v, i)
    requires 0 <= i < 4 && InGrid(N, v) && InGrid(N, Step(v, i))
    requires Framed(lines, N, Mark(maze, Step(v, i), Get(maze, v).d + 1))
    ensures var m := Mark(maze, Step(v, i), Get(maze, v).d + 1);
            Closed(lines, N, m, done) && VisitedUpTo(lines, N, m, v, i + 1)
  {
    MarkClosed(lines, N, maze, done, v, i, Get(maze, v).d + 1);
  }

  /** `MarkTracked` for neighbour i of the front. */
  lemma MarkSearchingTracked(lines: seq<string>, N: int, maze: Grid, Q: seq<Vertex>, done: set<Cell>, i: int)
    requires Framed(lines, N, maze) && |Q| > 0 && Tracked(lines, N, maze, Q, done)
    requires 0 <= i < 4 && InGrid(N, Pos(Q[0])) && InGrid(N, Step(Pos(Q[0]), i))
    requires Framed(lines, N, Mark(maze, Step(Pos(Q[0]), i), Get(maze, Pos(Q[0])).d + 1))
    ensures var c := Step(Pos(Q[0]), i);
            var m := Mark(maze, c, Get(maze, Pos(Q[0])).d + 1);
            Tracked(lines, N, m, Q + [Get(m, c)], done)
  {
    MarkTracked(lines, N, maze, Q, done, Step(Pos(Q[0]), i), Get(maze, Pos(Q[0])).d + 1);
  }

  /** `MarkLevel` for neighbour i of the front. */
  lemma MarkSearchingLevel(lines: seq<string>, N: int, maze: Grid, Q: seq<Vertex>, i: int)
    requires Framed(lines, N, maze) && |Q| > 0 && Queued(lines, N, maze, Q) && Level(lines, N, maze, Q)
    requires 0 <= i < 4 && InGrid(N, Step(Pos(Q[0]), i))
    requires var c := Step(Pos(Q[0]), i);
             var m := Mark(maze, c, Get(maze, Pos(Q[0])).d + 1);
             Framed(lines, N, m) && Queued(lines, N, m, Q + [Get(m, c)])
    ensures var c := Step(Pos(Q[0]), i);
            var m := Mark(maze, c, Get(maze, Pos(Q[0])).d + 1);
            Level(lines, N, m, Q + [Get(m, c)])
  {
    StepMoves(Pos(Q[0]), i);
    MarkLevel(lines, N, maze, Q, Step(Pos(Q[0]), i), Get(maze, Pos(Q[0])).d + 1);
  }

  /** `MarkStartFirst` for neighbour i of the front. */
  lemma MarkSearchingStart(lines: seq<string>, N: int, maze: Grid, Q: seq<Vertex>, done: set<Cell>, i: int)
    requires Framed(lines, N, maze) && |Q| > 0 && StartFirst(maze, Q, done)
    requires 0 <= i < 4 && InGrid(N, Step(Pos(Q[0]), i)) && InGrid(N, Pos(Q[0]))
    ensures var c := Step(Pos(Q[0]), i);
            var m := Mark(maze, c, Get(maze, Pos(Q[0])).d + 1);
            StartFirst(m, Q + [Get(m, c)], done)
  {
    StepMoves(Pos(Q[0]), i);
    MarkStartFirst(maze, Q, done, Step(Pos(Q[0]), i), Get(maze, Pos(Q[0])).d + 1);
  }

  /** While the goal is unvisited, marking an unvisited neighbour of the front
      at the front's distance plus one keeps the breadth-first invariants. */
  lemma MarkSearching(lines: seq<string>, N: int, maze: Grid, Q: seq<Vertex>, done: set<Cell>, i: int)
    requires Framed(lines, N, maze) && |Q| > 0 && Queued(lines, N, maze, Q)
    requires !Get(maze, Goal(N)).visited && Searching(lines, N, maze, Q, done)
    requires 0 <= i < 4 && InGrid(N, Step(Pos(Q[0]), i)) && !Get(maze, Step(Pos(Q[0]), i)).visited
    requires VisitedUpTo(lines, N, maze, Pos(Q[0]), i)
    requires var c := Step(Pos(Q[0]), i);
             var m := Mark(maze, c, Get(maze, Pos(Q[0])).d + 1);
             Framed(lines, N, m) && Queued(lines, N, m, Q + [Get(m, c)])
    ensures var c := Step(Pos(Q[0]), i);
            var m := Mark(maze, c, Get(maze, Pos(Q[0])).d + 1);
            Searching(lines, N, m, Q + [Get(m, c)], done) && VisitedUpTo(lines, N, m, Pos(Q[0]), i + 1)
  {
    MarkSearchingOrder(lines, N, maze, Q, done, i);
    MarkSearchingClosed(lines, N, maze, done, Pos(Q[0]), i);
    MarkSearchingTracked(lines, N, maze, Q, done, i);
    MarkSearchingLevel(lines, N, maze, Q, i);
    MarkSearchingStart(lines, N, maze, Q, done, i);
  }

  /** Dequeuing the front, once all its neighbours are visited, keeps the
      breadth-first invariants; when the front distance moves to the next
      level, every cell of that level is already visited. */
  lemma PopSearching(lines: seq<string>, N: int, maze: Grid, Q: seq<Vertex>, done: set<Cell>)
    requires Framed(lines, N, maze) && |Q| > 0 && Queued(lines, N, maze, Q) && Searching(lines, N, maze, Q, done)
    requires VisitedUpTo(lines, N, maze, Pos(Q[0]), 4)
    ensures Queued(lines, N, maze, Q[1..]) && Searching(lines, N, maze, Q[1..], done + {Pos(Q[0])})
  {
    var v := Pos(Q[0]);
    var Q' := Q[1..];
    var done' := done + {v};
    forall t | 0 <= t < |Q'|
      ensures InGrid(N, Pos(Q'[t])) &&
              (Pos(Q'[t]) == Start || (Get(maze, Pos(Q'[t])).visited && !Wall(lines, N, Pos(Q'[t])))) &&
              (t > 0 ==> Get(maze, Pos(Q'[t])).visited)
    {
      assert Q'[t] == Q[t + 1];
    }
    forall a, b | 0 <= a < b < |Q'|
      ensures Get(maze, Pos(Q'[a])).d <= Get(maze, Pos(Q'[b])).d <= Get(maze, Pos(Q'[a])).d + 1
    {
      assert Q'[a] == Q[a + 1] && Q'[b] == Q[b + 1];
    }
    forall e | Discovered(lines, N, maze, e) ensures e in done' || InQueue(Q', e) {
      if e !in done {
        var t :| 0 <= t < |Q| && Pos(Q[t]) == e;
        if t > 0 {
          assert Pos(Q'[t - 1]) == e;
        }
      }
    }
    forall p | p in done'
      ensures InGrid(N, p) && (p == Start || Get(maze, p).visited) && VisitedUpTo(lines, N, maze, p, 4)
    {
      if p != v {
        assert VisitedUpTo(lines, N, maze, p, 4);
      }
    }
    assert Tracked(lines, N, maze, Q', done');
    assert StartFirst(maze, Q', done');
    if |Q'| > 0 {
      var k := Get(maze, v).d;
      var k' := Get(maze, Pos(Q'[0])).d;
      assert Q'[0] == Q[1];
      if k' != k {
        forall c | Reach(lines, N, c, k') ensures c == Start || (InGrid(N, c) && Get(maze, c).visited) {
          NextLevel(lines, N, maze, Q, done, c);
        }
      }
    }
  }

  /** A cell reached within the front's distance k, when the next queued
      entry is at k + 1, is the front or has been dequeued. */
  lemma LevelDequeued(lines: seq<string>, N: int, maze: Grid, Q: seq<Vertex>, done: set<Cell>, p: Cell)
    requires Framed(lines, N, maze) && |Q| > 1 && Queued(lines, N, maze, Q) && Searching(lines, N, maze, Q, done)
    requires Get(maze, Pos(Q[1])).d == Get(maze, Pos(Q[0])).d + 1
    requires Reach(lines, N, p, Get(maze, Pos(Q[0])).d)
    ensures p == Pos(Q[0]) || p in done
  {
    var k := Get(maze, Pos(Q[0])).d;
    ReachOpen(lines, N, p, k);
    if p != Start && p != Pos(Q[0]) {
      assert Settled(lines, N, maze, p);
      ReachBelow(lines, N, p, k, Get(maze, p).d - 1);
      forall t | 0 <= t < |Q| ensures Pos(Q[t]) != p {
        if t > 1 {
          assert Get(maze, Pos(Q[1])).d <= Get(maze, Pos(Q[t])).d;
        }
      }
      assert Discovered(lines, N, maze, p) && !InQueue(Q, p);
    }
  }

  /** Every neighbour in the square of a cell whose four neighbours have been inspected is visited. */
  lemma ClosedNeighbour(lines: seq<string>, N: int, maze: Grid, p: Cell, c: Cell)
    requires Framed(lines, N, maze) && VisitedUpTo(lines, N, maze, p, 4) && Adjacent(p, c) && InGrid(N, c)
    ensures Get(maze, c).visited
  {
    if c.row == p.row - 1 {
      assert NeighbourVisited(lines, N, maze, p, 1);
    } else if c.col == p.col + 1 {
      assert NeighbourVisited(lines, N, maze, p, 2);
    } else if c.row == p.row + 1 {
      assert NeighbourVisited(lines, N, maze, p, 3);
    } else {
      assert NeighbourVisited(lines, N, maze, p, 0);
    }
  }

  /** The level step of `PopSearching`: a cell reached in one move more than
      the old front's distance is visited, because its predecessor has been
      dequeued and all neighbours of a dequeued cell are visited. */
  lemma NextLevel(lines: seq<string>, N: int, maze: Grid, Q: seq<Vertex>, done: set<Cell>, c: Cell)
    requires Framed(lines, N, maze) && |Q| > 1 && Queued(lines, N, maze, Q) && Searching(lines, N, maze, Q, done)
    requires VisitedUpTo(lines, N, maze, Pos(Q[0]), 4)
    requires Get(maze, Pos(Q[1])).d == Get(maze, Pos(Q[0])).d + 1
    requires Reach(lines, N, c, Get(maze, Pos(Q[1])).d)
    ensures c == Start || (InGrid(N, c) && Get(maze, c).visited)
  {
    var k := Get(maze, Pos(Q[0])).d;
    if c != Start && !Reach(lines, N, c, k) {
      ReachPredecessor(lines, N, c, k);
      var p :| Adjacent(p, c) && Reach(lines, N, p, k);
      LevelDequeued(lines, N, maze, Q, done, p);
      assert VisitedUpTo(lines, N, maze, p, 4);
      ClosedNeighbour(lines, N, maze, p, c);
    }
  }

  /** With the queue empty, every cell reached in any number of moves has been dequeued. */
  lemma {:induction false} DoneHoldsReached(lines: seq<string>, N: int, maze: Grid, done: set<Cell>, c: Cell, n: nat)
    requires Framed(lines, N, maze) && Closed(lines, N, maze, done) && Tracked(lines, N, maze, [], done)
    requires Reach(lines, N, c, n)
    ensures c in done && (c == Start || Get(maze, c).visited)
    decreases n
  {
    if n == 0 {
      ReachZero(lines, N, c);
      assert Discovered(lines, N, maze, Start);
      assert !InQueue([], Start);
    } else if Reach(lines, N, c, n - 1) {
      DoneHoldsReached(lines, N, maze, done, c, n - 1);
    } else {
      ReachPredecessor(lines, N, c, n - 1);
      var p :| Adjacent(p, c) && Reach(lines, N, p, n - 1);
      DoneHoldsReached(lines, N, maze, done, p, n - 1);
      assert VisitedUpTo(lines, N, maze, p, 4);
      ClosedNeighbour(lines, N, maze, p, c);
      assert Discovered(lines, N, maze, c);
      assert !InQueue([], c);
    }
    assert VisitedUpTo(lines, N, maze, c, 4);
  }

  /** When the queue runs empty with the goal unvisited, no walk reaches the goal. */
  lemma Unreached(lines: seq<string>, N: int, maze: Grid, done: set<Cell>)
    requires Framed(lines, N, maze) && Closed(lines, N, maze, done) && Tracked(lines, N, maze, [], done)
    requires N >= 2 && !Get(maze, Goal(N)).visited
    ensures forall n: nat :: !Reach(lines, N, Goal(N), n)
  {
    forall n: nat ensures !Reach(lines, N, Goal(N), n) {
      if Reach(lines, N, Goal(N), n) {
        DoneHoldsReached(lines, N, maze, done, Goal(N), n);
      }
    }
  }

  /** Dropping the front keeps the queue's shape. */
  lemma QueuedTail(lines: seq<string>, N: int, maze: Grid, Q: seq<Vertex>)
    requires Framed(lines, N, maze) && |Q| > 0 && Queued(lines, N, maze, Q)
    ensures Queued(lines, N, maze, Q[1..])
  {
    forall t | 0 <= t < |Q| - 1
      ensures InGrid(N, Pos(Q[1..][t])) &&
              (Pos(Q[1..][t]) == Start || (Get(maze, Pos(Q[1..][t])).visited && !Wall(lines, N, Pos(Q[1..][t])))) &&
              (t > 0 ==> Get(maze, Pos(Q[1..][t])).visited)
    {
      assert Q[1..][t] == Q[t + 1];
    }
  }

  /** The invariant of the search's outer loop. */
  ghost predicate Outer(lines: seq<string>, N: int, maze: Grid, Q: seq<Vertex>, done: set<Cell>) {
    Framed(lines, N, maze) && Queued(lines, N, maze, Q) && GoalSettled(lines, N, maze) &&
    (!Get(maze, Goal(N)).visited ==> Searching(lines, N, maze, Q, done))
  }

  /** The invariant of the search's inner loop, once i neighbours of the front V have been inspected. */
  ghost predicate Inner(lines: seq<string>, N: int, maze: Grid, Q: seq<Vertex>, done: set<Cell>, V: Vertex, i: int) {
    Framed(lines, N, maze) && |Q| > 0 && Q[0] == V && Queued(lines, N, maze, Q) && GoalSettled(lines, N, maze) &&
    (!Get(maze, Goal(N)).visited ==> Searching(lines, N, maze, Q, done) && VisitedUpTo(lines, N, maze, Pos(Q[0]), i))
  }

  /** Neighbour i of the front, outside the square or already visited, is skipped. */
  lemma Skip(lines: seq<string>, N: int, maze: Grid, Q: seq<Vertex>, done: set<Cell>, V: Vertex, i: int)
    requires 0 <= i < 4 && Inner(lines, N, maze, Q, done, V, i)
    requires InGrid(N, Step(Pos(Q[0]), i)) ==> Get(maze, Step(Pos(Q[0]), i)).visited
    ensures Inner(lines, N, maze, Q, done, V, i + 1)
  {
    if !Get(maze, Goal(N)).visited {
      assert NeighbourVisited(lines, N, maze, Pos(Q[0]), i);
    }
  }

  /** Neighbour i of the front, an unvisited cell (x, y) of the square, is
      marked at the front's distance plus one and queued: one cell fewer is
      unvisited, the grid keeps its frame, a visited goal is settled and,
      while the goal is unvisited, the breadth-first invariants hold. */
  lemma Visit(lines: seq<string>, N: int, maze: Grid, Q: seq<Vertex>, done: set<Cell>, V: Vertex, i: int)
    requires 0 <= i < 4 && Inner(lines, N, maze, Q, done, V, i)
    requires InGrid(N, Step(Pos(Q[0]), i)) && !Get(maze, Step(Pos(Q[0]), i)).visited
    ensures var c := Step(Pos(Q[0]), i);
            var m := Mark(maze, c, Get(maze, Pos(Q[0])).d + 1);
            Inner(lines, N, m, Q + [Get(m, c)], done, V, i + 1) &&
            |Unvisited(lines, N, m)| == |Unvisited(lines, N, maze)| - 1
  {
    var c := Step(Pos(Q[0]), i);
    var dist := Get(maze, Pos(Q[0])).d + 1;
    var m := Mark(maze, c, dist);
    MarkKeeps(lines, N, maze, Q, i);
    MarkUnvisited(lines, N, maze, c, dist);
    if !Get(maze, Goal(N)).visited {
      MarkGoal(lines, N, maze, Q, done, i);
      MarkSearching(lines, N, maze, Q, done, i);
    } else {
      assert Get(m, Goal(N)).visited;
    }
  }

  /** `Visit` for the neighbour (x, y) the loop computes, at the distance it reads from the front V. */
  lemma VisitAt(lines: seq<string>, N: int, maze: Grid, Q: seq<Vertex>, done: set<Cell>, V: Vertex, i: int, x: int, y: int)
    requires 0 <= i < 4 && Inner(lines, N, maze, Q, done, V, i)
    requires Cell(x, y) == Step(Pos(V), i) && InGrid(N, Cell(x, y)) && !Get(maze, Cell(x, y)).visited
    ensures var m := Mark(maze, Cell(x, y), Get(maze, Pos(V)).d + 1);
            Inner(lines, N, m, Q + [m[x][y]], done, V, i + 1) &&
            |Unvisited(lines, N, m)| == |Unvisited(lines, N, maze)| - 1
  {
    Visit(lines, N, maze, Q, done, V, i);
  }

  /** Dequeuing the front once its neighbours are inspected, or once the goal
      is visited, restores the outer invariant. */
  lemma Pop(lines: seq<string>, N: int, maze: Grid, Q: seq<Vertex>, done: set<Cell>, V: Vertex, i: int)
    requires Inner(lines, N, maze, Q, done, V, i) && (i == 4 || Get(maze, Goal(N)).visited)
    ensures Outer(lines, N, maze, Q[1..], done + {Pos(V)})
  {
    QueuedTail(lines, N, maze, Q);
    if !Get(maze, Goal(N)).visited {
      PopSearching(lines, N, maze, Q, done);
    }
  }

  /** The record of every push: the start, queued before the search, then each
      cell marked and queued, in push order. The queue is the record's tail,
      every cell pushed by the search is visited, and none is pushed twice. */
  ghost predicate Logged(lines: seq<string>, N: int, maze: Grid, Q: seq<Vertex>, log: seq<Cell>)
    requires Framed(lines, N, maze)
  {
    |log| >= |Q| && |log| >= 1 && log[0] == Start &&
    (forall t :: 0 <= t < |Q| ==> Pos(Q[t]) == log[|log| - |Q| + t]) &&
    (forall t :: 1 <= t < |log| ==> InGrid(N, log[t]) && Get(maze, log[t]).visited) &&
    (forall a, b :: 1 <= a < b < |log| ==> log[a] != log[b])
  }

  /** Before the search, the record holds the queued start. */
  lemma LogInitial(lines: seq<string>, N: int, maze: Grid)
    requires Framed(lines, N, maze)
    ensures Logged(lines, N, maze, [maze[0][0]], [Start])
  {
    assert Pos(Get(maze, Start)) == Start;
  }

  /** Marking an unvisited cell and queueing it extends the record by that cell. */
  lemma LogPush(lines: seq<string>, N: int, maze: Grid, Q: seq<Vertex>, log: seq<Cell>, x: int, y: int, dist: int)
    requires Framed(lines, N, maze) && Logged(lines, N, maze, Q, log)
    requires InGrid(N, Cell(x, y)) && !Get(maze, Cell(x, y)).visited && Framed(lines, N, Mark(maze, Cell(x, y), dist))
    ensures var m := Mark(maze, Cell(x, y), dist);
            Logged(lines, N, m, Q + [m[x][y]], log + [Cell(x, y)])
  {
    var c := Cell(x, y);
    var m := Mark(maze, c, dist);
    assert m[x][y] == Get(m, c);
    var Q', log' := Q + [Get(m, c)], log + [c];
    forall t | 0 <= t < |Q'| ensures Pos(Q'[t]) == log'[|log'| - |Q'| + t] {
      if t < |Q| {
        assert Q'[t] == Q[t];
      }
    }
    forall a, b | 1 <= a < b < |log'| ensures log'[a] != log'[b] {
      if b == |log| {
        assert Get(maze, log[a]).visited;
      }
    }
  }

  /** `VisitAt` with the push recorded: the state after marking and queueing neighbour (x, y). */
  lemma VisitLogged(lines: seq<string>, N: int, maze: Grid, Q: seq<Vertex>, done: set<Cell>, log: seq<Cell>,
                    V: Vertex, i: int, x: int, y: int)
    requires 0 <= i < 4 && Inner(lines, N, maze, Q, done, V, i) && Logged(lines, N, maze, Q, log)
    requires Cell(x, y) == Step(Pos(V), i) && InGrid(N, Cell(x, y)) && !Get(maze, Cell(x, y)).visited
    ensures var m := Mark(maze, Cell(x, y), Get(maze, Pos(V)).d + 1);
            Inner(lines, N, m, Q + [m[x][y]], done, V, i + 1) &&
            |Unvisited(lines, N, m)| + |Q + [m[x][y]]| == |Unvisited(lines, N, maze)| + |Q| &&
            Logged(lines, N, m, Q + [m[x][y]], log + [Cell(x, y)])
  {
    VisitAt(lines, N, maze, Q, done, V, i, x, y);
    LogPush(lines, N, maze, Q, log, x, y, Get(maze, Pos(V)).d + 1);
  }

  /** Dequeuing the front leaves the record as it is. */
  lemma LogPop(lines: seq<string>, N: int, maze: Grid, Q: seq<Vertex>, log: seq<Cell>)
    requires Framed(lines, N, maze) && Logged(lines, N, maze, Q, log) && |Q| > 0
    ensures Logged(lines, N, maze, Q[1..], log)
  {
    forall t | 0 <= t < |Q| - 1 ensures Pos(Q[1..][t]) == log[|log| - (|Q| - 1) + t] {
      assert Q[1..][t] == Q[t + 1];
    }
  }

  /** A sequence without repeats holds each element at most once. */
  lemma {:induction false} DistinctCount(s: seq<Cell>, c: Cell)
    requires forall a, b :: 0 <= a < b < |s| ==> s[a] != s[b]
    ensures multiset(s)[c] <= 1
  {
    if |s| > 0 {
      var n := |s| - 1;
      assert s == s[..n] + [s[n]];
      DistinctCount(s[..n], c);
      if s[n] == c {
        assert c !in s[..n];
      }
    }
  }

  /** No cell is pushed twice, except the start, which is queued once before
      the search and may be marked and queued once more. */
  lemma PushedAtMost(log: seq<Cell>)
    requires |log| >= 1 && log[0] == Start
    requires forall a, b :: 1 <= a < b < |log| ==> log[a] != log[b]
    ensures forall c :: multiset(log)[c] <= if c == Start then 2 else 1
  {
    assert log == [Start] + log[1..];
    forall c ensures multiset(log)[c] <= if c == Start then 2 else 1 {
      DistinctCount(log[1..], c);
    }
  }
}
