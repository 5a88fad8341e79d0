/**
 * The `Maze` object: built from the text of a maze file, it answers `neighbors` queries
 * and `solve` runs a depth-first search that records the solution, the explored cells
 * and the number of nodes removed from the frontier.
 */
module Mazes {
  import opened Wrappers
  import opened Nodes
  import opened Frontiers
  import opened Grids
  import opened Search

  /** A grid as a successfully parsed maze has it: start and goal distinct and open. */
  type ParsedGrid = g: Grid | WellFormed(g) witness Grid(1, 2, [[false, false]], (0, 0), (0, 1))

  /** `s` backwards. */
  function Reverse<T>(s: seq<T>): (r: seq<T>)
    ensures |r| == |s|
    ensures forall i :: 0 <= i < |s| ==> r[i] == s[|s| - 1 - i]
  {
    if s == [] then [] else Reverse(s[1..]) + [s[0]]
  }

  /** Reversing a sequence with one more element at its end puts that element first. */
  lemma ReverseSnoc<T>(s: seq<T>, x: T)
    ensures Reverse(s + [x]) == [x] + Reverse(s)
  {
    var r := Reverse(s + [x]);
    var q := [x] + Reverse(s);
    assert |r| == |q|;
    forall i | 0 <= i < |r| ensures r[i] == q[i] {
      if i > 0 {
        assert (s + [x])[|s| - i] == s[|s| - i];
      }
    }
  }

  /**
   * One step of the walk back: moving from `cur` to its parent and collecting `cur`'s
   * action and cell keeps the collected lists, reversed, the tail of the full walk.
   */
  lemma WalkBackStep(g: Grid, arena: seq<Node>, cur: Node, bound: nat, actions: seq<Action>, cells: seq<Cell>)
    requires WellLinked(g, arena) && Linked(g, arena, cur, bound) && cur.parent.Some?
    ensures Linked(g, arena, arena[cur.parent.value], cur.parent.value)
    ensures var k := cur.parent.value;
      var t := TraceFrom(g, arena, cur, bound);
      var u := TraceFrom(g, arena, arena[k], k);
      t.actions + Reverse(actions) == u.actions + Reverse(actions + [cur.action.value]) &&
      t.cells + Reverse(cells) == u.cells + Reverse(cells + [cur.state])
  {
    var k := cur.parent.value;
    TraceStep(g, arena, cur, k, bound);
    ReverseSnoc(actions, cur.action.value);
    ReverseSnoc(cells, cur.state);
    var u := TraceFrom(g, arena, arena[k], k);
    assert u.actions + [cur.action.value] + Reverse(actions) == u.actions + ([cur.action.value] + Reverse(actions));
    assert u.cells + [cur.state] + Reverse(cells) == u.cells + ([cur.state] + Reverse(cells));
  }

  /**
   * The walk back of `solve`: follow parent links from `node` to the root, collecting the
   * actions and cells, then reverse both lists. The result is the arena's `TraceFrom`.
   */
  method WalkBack(g: Grid, arena: seq<Node>, node: Node) returns (sol: Solution)
    requires WellLinked(g, arena) && Linked(g, arena, node, |arena|)
    ensures sol == TraceFrom(g, arena, node, |arena|)
  {
    var actions: seq<Action> := [];
    var cells: seq<Cell> := [];
    var cur := node;
    ghost var bound: nat := |arena|;
    while cur.parent.Some?
      invariant Linked(g, arena, cur, bound)
      invariant TraceFrom(g, arena, node, |arena|) == Solution(
        TraceFrom(g, arena, cur, bound).actions + Reverse(actions),
        TraceFrom(g, arena, cur, bound).cells + Reverse(cells))
      decreases bound
    {
      var k := cur.parent.value;
      WalkBackStep(g, arena, cur, bound, actions, cells);
      actions := actions + [cur.action.value];
      cells := cells + [cur.state];
      cur := arena[k];
      bound := k;
    }
    actions := Reverse(actions);
    cells := Reverse(cells);
    sol := Solution(actions, cells);
  }

  /**
   * The inner loop of `solve`: each move whose cell is neither on the frontier nor explored
   * becomes a child of arena node `parent` on the frontier, in the order of the moves.
   */
  method PushChildren(frontier: Frontier, explored: set<Cell>, parent: nat, moves: seq<(Action, Cell)>)
    modifies frontier
    ensures frontier.nodes == Expand(old(frontier.nodes), explored, parent, moves)
  {
    ghost var before := frontier.nodes;
    for i := 0 to |moves|
      invariant Expand(frontier.nodes, explored, parent, moves[i..]) == Expand(before, explored, parent, moves)
    {
      assert moves[i..][1..] == moves[i + 1..];
      var (action, state) := moves[i];
      if !frontier.ContainsState(state) && state !in explored {
        frontier.Add(Node(state, Some(parent), Some(action)));
      }
    }
  }

  /**
   * `Maze.neighbors` on the maze's grid: the four candidate moves, up, down, left, right, kept when their cell is
   * inside the grid and not a wall.
   */
  method Neighbors(g: Grid, s: Cell) returns (result: seq<(Action, Cell)>)
    ensures result == OpenMoves(g, s)
  {
    var (row, col) := s;
    var candidates := [(Up, (row - 1, col)), (Down, (row + 1, col)), (Left, (row, col - 1)), (Right, (row, col + 1))];
    assert candidates == Candidates(s);
    result := [];
    for i := 0 to |candidates|
      invariant result == OpenAmong(g, candidates[..i])
    {
      assert candidates[..i + 1][..i] == candidates[..i];
      var (action, (r, c)) := candidates[i];
      if 0 <= r < g.height && 0 <= c < g.width && !g.walls[r][c] {
        result := result + [(action, (r, c))];
      }
    }
    assert candidates[..|candidates|] == candidates;
  }

  class Maze {
    const grid: ParsedGrid
    var solution: Option<Solution>
    var explored: set<Cell>
    var numExplored: nat

    /** A maze on a parsed grid, not yet solved. */
    constructor(g: ParsedGrid)
      ensures grid == g && solution == None && explored == {} && numExplored == 0
    {
      grid := g;
      solution := None;
      explored := {};
      numExplored := 0;
    }

    /**
     * `solve`: records what the depth-first search computes (`Run` from `Init`): the
     * explored cells, the number of nodes removed and, when the goal is reached, the walk
     * to it as the solution. When the frontier runs dry the program raises "no solution",
     * here `Err(NoSolution)`, and the old solution stays. `RunSpec` and
     * `SolvedIffReachable` say what this outcome guarantees.
     */
    method Solve() returns (r: Result<Solution>)
      modifies this
      ensures var o := Run(grid, Init(grid));
        explored == o.explored && numExplored == o.count &&
        (o.Found? ==> r == Ok(o.solution) && solution == Some(o.solution)) &&
        (o.Exhausted? ==> r == Err(NoSolution) && solution == old(solution))
    {
      var found, seen, count := DepthFirst(grid);
      explored := seen;
      numExplored := count;
      if found.Ok? {
        solution := Some(found.value);
      }
      r := found;
    }
  }

  /**
   * The loop of `solve` on a parsed grid: a stack frontier holding the start node, an
   * empty explored set and a zero counter; each round fails on an empty frontier, else
   * removes and counts the newest node, returns the walk back to it if it is the goal,
   * and otherwise explores it and pushes its new neighbours. The results are what `Run`
   * computes from `Init`.
   */
  method DepthFirst(g: ParsedGrid) returns (r: Result<Solution>, explored: set<Cell>, count: nat)
    ensures var o := Run(g, Init(g));
      explored == o.explored && count == o.count &&
      (o.Found? ==> r == Ok(o.solution)) &&
      (o.Exhausted? ==> r == Err(NoSolution))
  {
    ghost var outcome := Run(g, Init(g));
    count := 0;
    var start := Node(g.start, None, None);
    var frontier := new Frontier.Stack();
    frontier.Add(start);
    explored := {};
    var arena: seq<Node> := [];
    while true
      invariant fresh(frontier) && frontier.policy == Lifo
      invariant Inv(g, SearchState(frontier.nodes, explored, arena, count))
      invariant Run(g, SearchState(frontier.nodes, explored, arena, count)) == outcome
      decreases |OpenCells(g) - explored|
    {
      ghost var st := SearchState(frontier.nodes, explored, arena, count);
      if frontier.Empty() {
        RunEmpty(g, st);
        r := Err(NoSolution);
        return;
      }
      var removed := frontier.Remove();
      var node := removed.value;
      count := count + 1;
      if node.state == g.goal {
        RunGoal(g, st);
        var sol := WalkBack(g, arena, node);
        r := Ok(sol);
        return;
      }
      explored := explored + {node.state};
      var parent := |arena|;
      arena := arena + [node];
      var moves := Neighbors(g, node.state);
      PushChildren(frontier, explored, parent, moves);
      assert SearchState(frontier.nodes, explored, arena, count) == Next(g, st);
      RunStep(g, st);
    }
  }

  /**
   * `Maze.__init__`: fails when the text does not hold exactly one `A` (checked first) or
   * exactly one `B`; otherwise the new, unsolved maze holds the grid the text describes.
   */
  method Load(contents: string) returns (r: Result<Maze>)
    ensures CountChar(contents, 'A') != 1 ==> r == Err(BadStartCount)
    ensures CountChar(contents, 'A') == 1 && CountChar(contents, 'B') != 1 ==> r == Err(BadGoalCount)
    ensures CountChar(contents, 'A') == 1 && CountChar(contents, 'B') == 1 ==>
      r.Ok? && fresh(r.value) && Describes(r.value.grid, contents) &&
      r.value.solution == None && r.value.explored == {} && r.value.numExplored == 0
  {
    var parsed := Parse(contents);
    match parsed
    case Err(e) => r := Err(e);
    case Ok(g) =>
      var m := new Maze(g);
      r := Ok(m);
  }

  /** Text without line breaks runs to its end. */
  lemma {:induction false} LineEndNoBreak(s: string)
    requires forall i :: 0 <= i < |s| ==> !IsLineBreak(s[i])
    ensures LineEnd(s) == |s|
  {
    if s != [] {
      LineEndNoBreak(s[1..]);
    }
  }

  /** The one-row maze `A B` describes the grid `SampleGrid`. */
  lemma SampleDescribes()
    ensures CountChar("A B", 'A') == 1 && CountChar("A B", 'B') == 1
    ensures Describes(SampleGrid(), "A B")
  {
    var text := "A B";
    assert text == ['A', ' ', 'B'];
    LineEndNoBreak(text);
    assert SplitLines(text) == [text];
    assert multiset(text) == multiset{'A', ' ', 'B'};
  }

  /** Loading and solving `A B` gives two moves right after removing three nodes. */
  method SolveSample() returns (r: Result<Solution>, count: nat)
    ensures r == Ok(Solution([Right, Right], [(0, 1), (0, 2)])) && count == 3
  {
    SampleDescribes();
    var loaded := Load("A B");
    var m := loaded.value;
    DescribesUnique(m.grid, SampleGrid(), "A B");
    SampleRun(m.grid);
    r := m.Solve();
    count := m.numExplored;
  }
}
