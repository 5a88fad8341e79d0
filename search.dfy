/**
 * The search engine as a value: `Run` performs the worklist loop of `Maze.solve` with a
 * stack frontier, an explored set, an explored counter and an arena of expanded nodes in
 * which parents are indices. The imperative `Maze.Solve` is proved to compute `Run`; the
 * lemmas here say what `Run` guarantees.
 */
module Search {
  import opened Wrappers
  import opened Nodes
  import opened Frontiers
  import opened Grids

  /** The moves taken and the cells entered, from just after the start up to the goal. */
  datatype Solution = Solution(actions: seq<Action>, cells: seq<Cell>)

  /** How a search ends: with a solution, or with an empty frontier. */
  datatype Outcome =
    | Found(solution: Solution, explored: set<Cell>, count: nat)
    | Exhausted(explored: set<Cell>, count: nat)

  /** The cell a path is in before its `k`-th move. */
  function Before(from: Cell, cells: seq<Cell>, k: nat): Cell
    requires k <= |cells|
  {
    if k == 0 then from else cells[k - 1]
  }

  /** `p` is a walk from `from`: each move is an entry of `neighbors` at the cell before it. */
  ghost predicate IsPath(g: Grid, from: Cell, p: Solution)
  {
    |p.actions| == |p.cells| &&
    forall k {:trigger p.actions[k]} :: 0 <= k < |p.cells| ==>
      (p.actions[k], p.cells[k]) in OpenMoves(g, Before(from, p.cells, k))
  }

  /** Some walk from the start ends at `c`. */
  ghost predicate Reachable(g: Grid, c: Cell)
  {
    exists p :: IsPath(g, g.start, p) && |p.cells| > 0 && p.cells[|p.cells| - 1] == c
  }

  /** A walk extended by one `neighbors` entry at its end is a walk. */
  lemma PathExtend(g: Grid, from: Cell, p: Solution, a: Action, c: Cell)
    requires IsPath(g, from, p)
    requires (a, c) in OpenMoves(g, Before(from, p.cells, |p.cells|))
    ensures IsPath(g, from, Solution(p.actions + [a], p.cells + [c]))
  {
    var q := Solution(p.actions + [a], p.cells + [c]);
    forall k | 0 <= k < |q.cells|
      ensures (q.actions[k], q.cells[k]) in OpenMoves(g, Before(from, q.cells, k))
    {
      assert Before(from, q.cells, k) == Before(from, p.cells, k);
      if k < |p.cells| {
        assert q.actions[k] == p.actions[k] && q.cells[k] == p.cells[k];
      }
    }
  }

  // ---------------------------------------------------------------------------
  // The arena of expanded nodes
  // ---------------------------------------------------------------------------

  /**
   * Node `n` hangs below arena index `bound`: the root is the start cell without an action;
   * any other node has a parent below `bound` and arrived by one of its parent's
   * `neighbors` entries.
   */
  predicate Linked(g: Grid, arena: seq<Node>, n: Node, bound: nat)
  {
    bound <= |arena| &&
    match n.parent
    case None => n.action.None? && n.state == g.start
    case Some(k) => k < bound && n.action.Some? && (n.action.value, n.state) in OpenMoves(g, arena[k].state)
  }

  /** Every arena node's parent comes before it. */
  predicate WellLinked(g: Grid, arena: seq<Node>)
  {
    forall k :: 0 <= k < |arena| ==> Linked(g, arena, arena[k], k)
  }

  /** Growing the arena or the bound keeps a node linked. */
  lemma LinkedGrow(g: Grid, arena: seq<Node>, more: seq<Node>, n: Node, bound: nat, bound': nat)
    requires Linked(g, arena, n, bound) && bound <= bound' <= |arena + more|
    ensures Linked(g, arena + more, n, bound')
  {
    if n.parent.Some? {
      assert (arena + more)[n.parent.value] == arena[n.parent.value];
    }
  }

  /**
   * The walk back up the parent links from `n` to the root, reversed into start-to-`n`
   * order: a walk from the start that ends at `n` (or is empty, when `n` is the root).
   */
  function TraceFrom(g: Grid, arena: seq<Node>, n: Node, bound: nat): (p: Solution)
    requires WellLinked(g, arena) && Linked(g, arena, n, bound)
    decreases bound
    ensures IsPath(g, g.start, p)
    ensures |p.cells| == 0 ==> n.state == g.start
    ensures |p.cells| > 0 ==> p.cells[|p.cells| - 1] == n.state
  {
    match n.parent
    case None => Solution([], [])
    case Some(k) =>
      var q := TraceFrom(g, arena, arena[k], k);
      assert Before(g.start, q.cells, |q.cells|) == arena[k].state;
      PathExtend(g, g.start, q, n.action.value, n.state);
      Solution(q.actions + [n.action.value], q.cells + [n.state])
  }

  // ---------------------------------------------------------------------------
  // Search states and their invariant
  // ---------------------------------------------------------------------------

  /** The variables of the loop in `solve`. */
  datatype SearchState = SearchState(frontier: seq<Node>, explored: set<Cell>, arena: seq<Node>, count: nat)

  /** Before the first iteration: the root alone on the frontier, nothing explored. */
  function Init(g: Grid): (st: SearchState)
    ensures WellFormed(g) ==> Inv(g, st)
  {
    var root := Node(g.start, None, None);
    assert States([root]) == [g.start];
    SearchState([root], {}, [], 0)
  }

  /** No cell occurs twice. */
  predicate Distinct(cs: seq<Cell>)
  {
    forall i, j :: 0 <= i < j < |cs| ==> cs[i] != cs[j]
  }

  /** Every open neighbour of an explored cell is explored or pending. */
  ghost predicate Closed(g: Grid, explored: set<Cell>, pending: seq<Cell>)
  {
    forall e, m :: e in explored && m in OpenMoves(g, e) ==> m.1 in explored || m.1 in pending
  }

  /** A pending node: open, not explored, linked into the arena. */
  predicate Pending(g: Grid, st: SearchState, n: Node)
  {
    IsOpen(g, n.state) && n.state !in st.explored && Linked(g, st.arena, n, |st.arena|)
  }

  /**
   * The loop invariant of `solve`: frontier states are distinct, open and unexplored;
   * explored cells are open, exclude the goal and number `count`; the start is explored
   * or pending; and every open neighbour of an explored cell is explored or pending.
   */
  ghost predicate Inv(g: Grid, st: SearchState)
  {
    WellFormed(g) &&
    WellLinked(g, st.arena) &&
    (forall i :: 0 <= i < |st.frontier| ==> Pending(g, st, st.frontier[i])) &&
    Distinct(States(st.frontier)) &&
    st.explored <= OpenCells(g) &&
    g.goal !in st.explored &&
    st.count == |st.explored| &&
    (g.start in st.explored || g.start in States(st.frontier)) &&
    Closed(g, st.explored, States(st.frontier))
  }

  // ---------------------------------------------------------------------------
  // One iteration
  // ---------------------------------------------------------------------------

  /**
   * The inner loop of `solve`: for each move, in order, a child of arena node `parent`
   * is added when its cell is neither pending nor explored.
   */
  function Expand(front: seq<Node>, explored: set<Cell>, parent: nat, moves: seq<(Action, Cell)>): seq<Node>
    decreases |moves|
  {
    if moves == [] then front
    else
      var m := moves[0];
      var front' :=
        if m.1 !in States(front) && m.1 !in explored
        then front + [Node(m.1, Some(parent), Some(m.0))]
        else front;
      Expand(front', explored, parent, moves[1..])
  }

  /** A prefix of a prefix is a prefix. */
  lemma PrefixTrans<T>(a: seq<T>, b: seq<T>, c: seq<T>)
    requires |a| <= |b| <= |c| && c[..|b|] == b && b[..|a|] == a
    ensures c[..|a|] == a
  {
    assert c[..|a|] == c[..|b|][..|a|];
  }

  /** Adding a cell not yet present keeps the cells distinct. */
  lemma DistinctSnoc(cs: seq<Cell>, c: Cell)
    requires Distinct(cs) && c !in cs
    ensures Distinct(cs + [c])
  {
    forall i, j | 0 <= i < j < |cs + [c]| ensures (cs + [c])[i] != (cs + [c])[j] {
      assert (cs + [c])[i] == cs[i];
      if j < |cs| {
        assert (cs + [c])[j] == cs[j];
      }
    }
  }

  /**
   * Expanding only appends, and each appended node is an unexplored child of `parent`
   * reached by one of the moves.
   */
  lemma {:induction false} ExpandAppends(front: seq<Node>, explored: set<Cell>, parent: nat, moves: seq<(Action, Cell)>)
    decreases |moves|
    ensures var r := Expand(front, explored, parent, moves);
      |front| <= |r| && r[..|front|] == front &&
      (forall i :: |front| <= i < |r| ==>
        r[i].state !in explored && r[i].parent == Some(parent) && r[i].action.Some? &&
        (r[i].action.value, r[i].state) in moves)
  {
    if moves != [] {
      var m := moves[0];
      var isNew := m.1 !in States(front) && m.1 !in explored;
      var front' := if isNew then front + [Node(m.1, Some(parent), Some(m.0))] else front;
      ExpandAppends(front', explored, parent, moves[1..]);
      var r := Expand(front', explored, parent, moves[1..]);
      assert front'[..|front|] == front;
      PrefixTrans(front, front', r);
      forall i | |front| <= i < |r|
        ensures r[i].state !in explored && r[i].parent == Some(parent) && r[i].action.Some? &&
          (r[i].action.value, r[i].state) in moves
      {
        if i < |front'| {
          assert r[i] == front'[i] == Node(m.1, Some(parent), Some(m.0));
        } else {
          assert (r[i].action.value, r[i].state) in moves[1..];
        }
      }
    }
  }

  /** Expanding keeps the frontier states distinct. */
  lemma {:induction false} ExpandDistinct(front: seq<Node>, explored: set<Cell>, parent: nat, moves: seq<(Action, Cell)>)
    requires Distinct(States(front))
    decreases |moves|
    ensures Distinct(States(Expand(front, explored, parent, moves)))
  {
    if moves != [] {
      var m := moves[0];
      var isNew := m.1 !in States(front) && m.1 !in explored;
      var front' := if isNew then front + [Node(m.1, Some(parent), Some(m.0))] else front;
      if isNew {
        StatesAppend(front, [Node(m.1, Some(parent), Some(m.0))]);
        assert States([Node(m.1, Some(parent), Some(m.0))]) == [m.1];
        DistinctSnoc(States(front), m.1);
      }
      ExpandDistinct(front', explored, parent, moves[1..]);
    }
  }

  /** After expanding, every move's cell is explored or on the frontier. */
  lemma {:induction false} ExpandCovers(front: seq<Node>, explored: set<Cell>, parent: nat, moves: seq<(Action, Cell)>)
    decreases |moves|
    ensures forall m :: m in moves ==> m.1 in explored || m.1 in States(Expand(front, explored, parent, moves))
  {
    if moves != [] {
      var m := moves[0];
      var isNew := m.1 !in States(front) && m.1 !in explored;
      var front' := if isNew then front + [Node(m.1, Some(parent), Some(m.0))] else front;
      var r := Expand(front', explored, parent, moves[1..]);
      ExpandCovers(front', explored, parent, moves[1..]);
      ExpandAppends(front', explored, parent, moves[1..]);
      PrefixSplit(front', r);
      StatesAppend(front', r[|front'|..]);
      if isNew {
        StatesAppend(front, [Node(m.1, Some(parent), Some(m.0))]);
        assert States([Node(m.1, Some(parent), Some(m.0))]) == [m.1];
      }
      assert m.1 in explored || m.1 in States(front');
      forall m' | m' in moves ensures m'.1 in explored || m'.1 in States(r) {
        if m' != m {
          assert m' in moves[1..];
        }
      }
    }
  }

  /** The non-goal iteration: explore the removed node, file it in the arena, expand it. */
  function Next(g: Grid, st: SearchState): SearchState
    requires st.frontier != []
  {
    var node := st.frontier[|st.frontier| - 1];
    var rest := st.frontier[..|st.frontier| - 1];
    var explored := st.explored + {node.state};
    SearchState(
      Expand(rest, explored, |st.arena|, OpenMoves(g, node.state)),
      explored,
      st.arena + [node],
      st.count + 1)
  }

  lemma SplitLast<T>(s: seq<T>)
    requires s != []
    ensures s == s[..|s| - 1] + [s[|s| - 1]]
  {
  }

  /** The cells of a sequence with distinct cells, minus a suffix, are still distinct. */
  lemma DistinctPrefix(a: seq<Cell>, b: seq<Cell>)
    requires Distinct(a + b)
    ensures Distinct(a)
  {
    forall i, j | 0 <= i < j < |a| ensures a[i] != a[j] {
      assert a[i] == (a + b)[i] && a[j] == (a + b)[j];
    }
  }

  /** A non-empty frontier is its prefix followed by its newest node; the prefix keeps distinct states. */
  lemma DropLast(ns: seq<Node>)
    requires ns != []
    ensures ns == ns[..|ns| - 1] + [ns[|ns| - 1]]
    ensures States(ns) == States(ns[..|ns| - 1]) + [ns[|ns| - 1].state]
    ensures Distinct(States(ns)) ==> Distinct(States(ns[..|ns| - 1]))
  {
    var rest := ns[..|ns| - 1];
    SplitLast(ns);
    StatesAppend(rest, [ns[|ns| - 1]]);
    assert States([ns[|ns| - 1]]) == [ns[|ns| - 1].state];
    if Distinct(States(ns)) {
      DistinctPrefix(States(rest), [ns[|ns| - 1].state]);
    }
  }

  /** The removed node goes to the end of the arena, which stays well linked. */
  lemma NextArena(g: Grid, st: SearchState)
    requires WellLinked(g, st.arena) && st.frontier != []
    requires Linked(g, st.arena, st.frontier[|st.frontier| - 1], |st.arena|)
    ensures WellLinked(g, Next(g, st).arena)
  {
    var node := st.frontier[|st.frontier| - 1];
    var arena := Next(g, st).arena;
    forall k | 0 <= k < |arena| ensures Linked(g, arena, arena[k], k) {
      if k < |st.arena| {
        LinkedGrow(g, st.arena, [node], st.arena[k], k, k);
      } else {
        LinkedGrow(g, st.arena, [node], node, |st.arena|, |st.arena|);
      }
    }
  }

  /** A sequence that starts with `a` is `a` followed by the rest. */
  lemma PrefixSplit<T>(a: seq<T>, b: seq<T>)
    requires |a| <= |b| && b[..|a|] == a
    ensures b == a + b[|a|..]
  {
  }

  /** A pending node whose cell stays unexplored is still pending after the arena grows by one node. */
  lemma KeptPending(g: Grid, st: SearchState, st': SearchState, n: Node, added: Node)
    requires Pending(g, st, n) && n.state !in st'.explored && st'.arena == st.arena + [added]
    ensures Pending(g, st', n)
  {
    LinkedGrow(g, st.arena, [added], n, |st.arena|, |st'.arena|);
  }

  /** A child of the newest arena node, reached by one of its moves to an unexplored cell, is pending. */
  lemma ChildPending(g: Grid, st': SearchState, n: Node)
    requires |st'.arena| > 0 && n.state !in st'.explored
    requires n.parent == Some(|st'.arena| - 1) && n.action.Some?
    requires (n.action.value, n.state) in OpenMoves(g, st'.arena[|st'.arena| - 1].state)
    ensures Pending(g, st', n)
  {
  }

  /** After an iteration the `i`-th frontier node is pending. */
  lemma NextPendingAt(g: Grid, st: SearchState, i: nat)
    requires st.frontier != [] && Distinct(States(st.frontier))
    requires forall k :: 0 <= k < |st.frontier| ==> Pending(g, st, st.frontier[k])
    requires i < |Next(g, st).frontier|
    ensures Pending(g, Next(g, st), Next(g, st).frontier[i])
  {
    var node := st.frontier[|st.frontier| - 1];
    var rest := st.frontier[..|st.frontier| - 1];
    var st' := Next(g, st);
    var front := st'.frontier;
    ExpandAppends(rest, st'.explored, |st.arena|, OpenMoves(g, node.state));
    if i < |rest| {
      DropLast(st.frontier);
      assert front[i] == rest[i] == st.frontier[i];
      assert front[i].state != node.state by {
        assert States(st.frontier)[i] == front[i].state;
        assert States(st.frontier)[|rest|] == node.state;
      }
      KeptPending(g, st, st', st.frontier[i], node);
    } else {
      ChildPending(g, st', front[i]);
    }
  }

  /** After an iteration the frontier states are distinct and every frontier node is pending. */
  lemma NextPending(g: Grid, st: SearchState)
    requires st.frontier != [] && Distinct(States(st.frontier))
    requires forall i :: 0 <= i < |st.frontier| ==> Pending(g, st, st.frontier[i])
    ensures var st' := Next(g, st);
      (forall i :: 0 <= i < |st'.frontier| ==> Pending(g, st', st'.frontier[i])) &&
      Distinct(States(st'.frontier))
  {
    var node := st.frontier[|st.frontier| - 1];
    var rest := st.frontier[..|st.frontier| - 1];
    DropLast(st.frontier);
    ExpandDistinct(rest, st.explored + {node.state}, |st.arena|, OpenMoves(g, node.state));
    forall i | 0 <= i < |Next(g, st).frontier| ensures Pending(g, Next(g, st), Next(g, st).frontier[i]) {
      NextPendingAt(g, st, i);
    }
  }

  /**
   * After an iteration every cell that was pending is explored or still pending, and so is
   * every open neighbour of the expanded node.
   */
  lemma NextCovers(g: Grid, st: SearchState)
    requires st.frontier != []
    ensures var st' := Next(g, st);
      (forall c :: c in States(st.frontier) ==> c in st'.explored || c in States(st'.frontier)) &&
      (forall m :: m in OpenMoves(g, st.frontier[|st.frontier| - 1].state) ==>
        m.1 in st'.explored || m.1 in States(st'.frontier))
  {
    var node := st.frontier[|st.frontier| - 1];
    var rest := st.frontier[..|st.frontier| - 1];
    var st' := Next(g, st);
    var front := st'.frontier;
    ExpandAppends(rest, st'.explored, |st.arena|, OpenMoves(g, node.state));
    ExpandCovers(rest, st'.explored, |st.arena|, OpenMoves(g, node.state));
    DropLast(st.frontier);
    PrefixSplit(rest, front);
    StatesAppend(rest, front[|rest|..]);
  }

  /** Expanding the removed node keeps every open neighbour of an explored cell explored or pending. */
  lemma NextClosed(g: Grid, st: SearchState)
    requires st.frontier != [] && Closed(g, st.explored, States(st.frontier))
    requires var st' := Next(g, st);
      (forall c :: c in States(st.frontier) ==> c in st'.explored || c in States(st'.frontier)) &&
      (forall m :: m in OpenMoves(g, st.frontier[|st.frontier| - 1].state) ==>
        m.1 in st'.explored || m.1 in States(st'.frontier))
    ensures Closed(g, Next(g, st).explored, States(Next(g, st).frontier))
  {
    var node := st.frontier[|st.frontier| - 1];
    var st' := Next(g, st);
    forall e, m | e in st'.explored && m in OpenMoves(g, e)
      ensures m.1 in st'.explored || m.1 in States(st'.frontier)
    {
      if e != node.state {
        assert m.1 in st.explored || m.1 in States(st.frontier);
      }
    }
  }

  /** Exploring one more open cell shrinks the set of unexplored open cells. */
  lemma NextMeasure(g: Grid, st: SearchState)
    requires st.frontier != [] && st.frontier[|st.frontier| - 1].state in OpenCells(g) - st.explored
    ensures |OpenCells(g) - Next(g, st).explored| < |OpenCells(g) - st.explored|
  {
    var x := st.frontier[|st.frontier| - 1].state;
    assert OpenCells(g) - Next(g, st).explored == (OpenCells(g) - st.explored) - {x};
  }

  /** An iteration that does not reach the goal keeps the invariant and explores one more open cell. */
  lemma NextInv(g: Grid, st: SearchState)
    requires Inv(g, st) && st.frontier != [] && st.frontier[|st.frontier| - 1].state != g.goal
    ensures Inv(g, Next(g, st))
    ensures |OpenCells(g) - Next(g, st).explored| < |OpenCells(g) - st.explored|
  {
    var node := st.frontier[|st.frontier| - 1];
    var st' := Next(g, st);
    assert Pending(g, st, node);
    NextArena(g, st);
    NextPending(g, st);
    NextCovers(g, st);
    NextClosed(g, st);
    NextMeasure(g, st);
    assert g.start in st'.explored || g.start in States(st'.frontier);
  }

  /**
   * `solve` from state `st`: when the frontier is empty the search fails; otherwise the
   * newest node is removed and counted; the goal ends the search with the walk back
   * from it, any other node is expanded.
   */
  function Run(g: Grid, st: SearchState): Outcome
    requires Inv(g, st)
    decreases |OpenCells(g) - st.explored|
  {
    if st.frontier == [] then Exhausted(st.explored, st.count)
    else
      var node := st.frontier[|st.frontier| - 1];
      if node.state == g.goal then
        Found(TraceFrom(g, st.arena, node, |st.arena|), st.explored, st.count + 1)
      else
        NextInv(g, st);
        Run(g, Next(g, st))
  }

  /** A subset has at most as many elements. */
  lemma SubsetCard(a: set<Cell>, b: set<Cell>)
    requires a <= b
    ensures |a| <= |b|
  {
    assert b == a + (b - a);
  }

  /** A run from an empty frontier fails at once. */
  lemma RunEmpty(g: Grid, st: SearchState)
    requires Inv(g, st) && st.frontier == []
    ensures Run(g, st) == Exhausted(st.explored, st.count)
  {
  }

  /** A run whose newest frontier node is the goal succeeds with the walk back from it. */
  lemma RunGoal(g: Grid, st: SearchState)
    requires Inv(g, st) && st.frontier != [] && st.frontier[|st.frontier| - 1].state == g.goal
    ensures Linked(g, st.arena, st.frontier[|st.frontier| - 1], |st.arena|)
    ensures Run(g, st) ==
      Found(TraceFrom(g, st.arena, st.frontier[|st.frontier| - 1], |st.arena|), st.explored, st.count + 1)
  {
    assert Pending(g, st, st.frontier[|st.frontier| - 1]);
  }

  /** Any other run continues with one iteration. */
  lemma RunStep(g: Grid, st: SearchState)
    requires Inv(g, st) && st.frontier != [] && st.frontier[|st.frontier| - 1].state != g.goal
    ensures Inv(g, Next(g, st)) && Run(g, Next(g, st)) == Run(g, st)
    ensures |OpenCells(g) - Next(g, st).explored| < |OpenCells(g) - st.explored|
  {
    NextInv(g, st);
  }

  // ---------------------------------------------------------------------------
  // What a run guarantees
  // ---------------------------------------------------------------------------

  /** Under a closed explored set that holds the start, every walk from the start stays inside it. */
  lemma {:induction false} ClosedHoldsPath(g: Grid, explored: set<Cell>, p: Solution, k: nat)
    requires Closed(g, explored, []) && g.start in explored
    requires IsPath(g, g.start, p) && k < |p.cells|
    ensures p.cells[k] in explored
  {
    if k > 0 {
      ClosedHoldsPath(g, explored, p, k - 1);
    }
    assert (p.actions[k], p.cells[k]) in OpenMoves(g, Before(g.start, p.cells, k));
  }

  /**
   * What an outcome promises: the explored cells are open and exclude the goal, and the
   * counter is at most the number of open cells. On success the solution is a walk from
   * the start that ends at the goal, with one action per cell, and the counter is one more
   * than the explored cells (the goal was removed but not explored). On failure the goal
   * cannot be reached at all and the counter equals the explored cells.
   */
  ghost predicate Sound(g: Grid, o: Outcome)
  {
    o.explored <= OpenCells(g) && g.goal !in o.explored && o.count <= |OpenCells(g)| &&
    (o.Found? ==>
      IsPath(g, g.start, o.solution) && |o.solution.actions| == |o.solution.cells| &&
      |o.solution.cells| > 0 && o.solution.cells[|o.solution.cells| - 1] == g.goal &&
      o.count == |o.explored| + 1) &&
    (o.Exhausted? ==> !Reachable(g, g.goal) && o.count == |o.explored|)
  }

  /** Stopping on an empty frontier is sound: nothing outside the explored cells is reachable. */
  lemma EmptySound(g: Grid, st: SearchState)
    requires Inv(g, st) && st.frontier == []
    ensures Sound(g, Exhausted(st.explored, st.count))
  {
    SubsetCard(st.explored, OpenCells(g));
    if Reachable(g, g.goal) {
      var p :| IsPath(g, g.start, p) && |p.cells| > 0 && p.cells[|p.cells| - 1] == g.goal;
      assert States(st.frontier) == [];
      ClosedHoldsPath(g, st.explored, p, |p.cells| - 1);
    }
  }

  /** Stopping at the goal is sound: the walk back reaches it, and the goal was open and unexplored. */
  lemma GoalSound(g: Grid, st: SearchState)
    requires Inv(g, st) && st.frontier != [] && st.frontier[|st.frontier| - 1].state == g.goal
    ensures Linked(g, st.arena, st.frontier[|st.frontier| - 1], |st.arena|)
    ensures Sound(g, Found(TraceFrom(g, st.arena, st.frontier[|st.frontier| - 1], |st.arena|), st.explored, st.count + 1))
  {
    var node := st.frontier[|st.frontier| - 1];
    assert Pending(g, st, node);
    var t := TraceFrom(g, st.arena, node, |st.arena|);
    assert |t.cells| > 0 && t.cells[|t.cells| - 1] == g.goal;
    SubsetCard(st.explored + {g.goal}, OpenCells(g));
  }

  /** Every run only adds cells to the explored set and ends in a sound outcome. */
  lemma {:induction false} RunSpec(g: Grid, st: SearchState)
    requires Inv(g, st)
    decreases |OpenCells(g) - st.explored|
    ensures st.explored <= Run(g, st).explored
    ensures Sound(g, Run(g, st))
  {
    if st.frontier == [] {
      RunEmpty(g, st);
      EmptySound(g, st);
    } else if st.frontier[|st.frontier| - 1].state == g.goal {
      RunGoal(g, st);
      GoalSound(g, st);
    } else {
      RunStep(g, st);
      RunSpec(g, Next(g, st));
    }
  }

  /** The search from the start succeeds exactly when the goal is reachable. */
  lemma SolvedIffReachable(g: Grid)
    requires WellFormed(g)
    ensures Run(g, Init(g)).Found? <==> Reachable(g, g.goal)
  {
    RunSpec(g, Init(g));
    var o := Run(g, Init(g));
    if o.Found? {
      assert IsPath(g, g.start, o.solution);
    }
  }

  // ---------------------------------------------------------------------------
  // A worked example
  // ---------------------------------------------------------------------------

  /** The grid of the one-row maze `A B`: start, an open cell, goal. */
  function SampleGrid(): (g: Grid)
    ensures WellFormed(g)
  {
    Grid(1, 3, [[false, false, false]], (0, 0), (0, 2))
  }

  /** At the start of `A B`, `neighbors` offers only the move right. */
  lemma SampleMovesAtStart()
    ensures OpenMoves(SampleGrid(), (0, 0)) == [(Right, (0, 1))]
  {
    var g := SampleGrid();
    OpenMovesInOrder(g, (0, 0));
    assert KeepIfOpen(g, (0, 0), Up) == [] && KeepIfOpen(g, (0, 0), Down) == [];
    assert KeepIfOpen(g, (0, 0), Left) == [] && KeepIfOpen(g, (0, 0), Right) == [(Right, (0, 1))];
  }

  /** At the middle cell of `A B`, `neighbors` offers left, then right. */
  lemma SampleMovesAtMiddle()
    ensures OpenMoves(SampleGrid(), (0, 1)) == [(Left, (0, 0)), (Right, (0, 2))]
  {
    var g := SampleGrid();
    OpenMovesInOrder(g, (0, 1));
    assert KeepIfOpen(g, (0, 1), Up) == [] && KeepIfOpen(g, (0, 1), Down) == [];
    assert KeepIfOpen(g, (0, 1), Left) == [(Left, (0, 0))];
    assert KeepIfOpen(g, (0, 1), Right) == [(Right, (0, 2))];
  }

  /** An iteration from a one-node frontier expands that node into an empty frontier. */
  lemma NextOfSingle(g: Grid, st: SearchState, n: Node)
    requires st.frontier == [n]
    ensures Next(g, st) == SearchState(Expand([], st.explored + {n.state}, |st.arena|, OpenMoves(g, n.state)),
      st.explored + {n.state}, st.arena + [n], st.count + 1)
  {
    assert st.frontier[..0] == [];
  }

  /** Expanding an empty frontier by one move to an unexplored cell adds that one child. */
  lemma ExpandOneNew(explored: set<Cell>, parent: nat, a: Action, c: Cell)
    requires c !in explored
    ensures Expand([], explored, parent, [(a, c)]) == [Node(c, Some(parent), Some(a))]
  {
    assert States([]) == [];
    assert [(a, c)][1..] == [];
  }

  /** A move to an explored cell adds nothing. */
  lemma ExpandSkipExplored(front: seq<Node>, explored: set<Cell>, parent: nat, a: Action, c: Cell,
                           moves: seq<(Action, Cell)>)
    requires c in explored
    ensures Expand(front, explored, parent, [(a, c)] + moves) == Expand(front, explored, parent, moves)
  {
    assert ([(a, c)] + moves)[1..] == moves;
  }

  /** The walk back from a node with a parent is the parent's walk plus this node's move. */
  lemma TraceStep(g: Grid, arena: seq<Node>, n: Node, k: nat, bound: nat)
    requires WellLinked(g, arena) && Linked(g, arena, n, bound) && n.parent == Some(k)
    ensures TraceFrom(g, arena, n, bound) == Solution(
      TraceFrom(g, arena, arena[k], k).actions + [n.action.value],
      TraceFrom(g, arena, arena[k], k).cells + [n.state])
  {
  }

  /** First iteration on `A B`: the start is expanded and offers the middle cell. */
  lemma SampleFirst(g: Grid, st: SearchState)
    requires g == SampleGrid() && st == SearchState([Node((0, 0), None, None)], {}, [], 0)
    ensures Next(g, st) ==
      SearchState([Node((0, 1), Some(0), Some(Right))], {(0, 0)}, [Node((0, 0), None, None)], 1)
  {
    NextOfSingle(g, st, Node((0, 0), None, None));
    SampleMovesAtStart();
    ExpandOneNew({(0, 0)}, 0, Right, (0, 1));
  }

  /** Second iteration on `A B`: the middle cell is expanded; the start is already explored. */
  lemma SampleSecond(g: Grid, st: SearchState)
    requires g == SampleGrid()
    requires st == SearchState([Node((0, 1), Some(0), Some(Right))], {(0, 0)}, [Node((0, 0), None, None)], 1)
    ensures Next(g, st) ==
      SearchState([Node((0, 2), Some(1), Some(Right))], {(0, 0), (0, 1)},
        [Node((0, 0), None, None), Node((0, 1), Some(0), Some(Right))], 2)
  {
    NextOfSingle(g, st, Node((0, 1), Some(0), Some(Right)));
    SampleMovesAtMiddle();
    ExpandSkipExplored([], {(0, 0), (0, 1)}, 1, Left, (0, 0), [(Right, (0, 2))]);
    ExpandOneNew({(0, 0), (0, 1)}, 1, Right, (0, 2));
  }

  /** A walk back over two parent links collects the two moves in start-to-goal order. */
  lemma TraceTwo(g: Grid, arena: seq<Node>, n: Node)
    requires WellLinked(g, arena) && |arena| == 2 && Linked(g, arena, n, 2)
    requires n.parent == Some(1) && arena[1].parent == Some(0) && arena[0].parent.None?
    ensures TraceFrom(g, arena, n, 2) ==
      Solution([arena[1].action.value, n.action.value], [arena[1].state, n.state])
  {
    assert Linked(g, arena, arena[1], 1) && Linked(g, arena, arena[0], 0);
    TraceStep(g, arena, n, 1, 2);
    TraceStep(g, arena, arena[1], 0, 1);
  }

  /** The arena after two iterations on `A B` is well linked, and so is the goal node below it. */
  lemma SampleLinked(g: Grid, arena: seq<Node>, n: Node)
    requires g == SampleGrid() && n == Node((0, 2), Some(1), Some(Right))
    requires arena == [Node((0, 0), None, None), Node((0, 1), Some(0), Some(Right))]
    ensures WellLinked(g, arena) && Linked(g, arena, n, 2)
  {
    assert IsOpen(g, (0, 1)) && IsOpen(g, (0, 2));
    assert (Right, (0, 1)) in OpenMoves(g, (0, 0)) && (Right, (0, 2)) in OpenMoves(g, (0, 1));
    assert Linked(g, arena, arena[0], 0) && Linked(g, arena, arena[1], 1);
  }

  /** Third iteration on `A B`: the goal is removed and the walk back gives two moves right. */
  lemma SampleThird(g: Grid, arena: seq<Node>, n: Node)
    requires g == SampleGrid() && n == Node((0, 2), Some(1), Some(Right))
    requires arena == [Node((0, 0), None, None), Node((0, 1), Some(0), Some(Right))]
    ensures WellLinked(g, arena) && Linked(g, arena, n, 2)
    ensures TraceFrom(g, arena, n, 2) == Solution([Right, Right], [(0, 1), (0, 2)])
  {
    SampleLinked(g, arena, n);
    TraceTwo(g, arena, n);
  }

  /** A run from the start whose first two iterations miss the goal and whose third removes it. */
  lemma RunThree(g: Grid, st1: SearchState, st2: SearchState)
    requires WellFormed(g) && Next(g, Init(g)) == st1
    requires st1.frontier != [] && st1.frontier[|st1.frontier| - 1].state != g.goal && Next(g, st1) == st2
    requires st2.frontier != [] && st2.frontier[|st2.frontier| - 1].state == g.goal
    requires WellLinked(g, st2.arena) && Linked(g, st2.arena, st2.frontier[|st2.frontier| - 1], |st2.arena|)
    ensures Run(g, Init(g)) ==
      Found(TraceFrom(g, st2.arena, st2.frontier[|st2.frontier| - 1], |st2.arena|), st2.explored, st2.count + 1)
  {
    RunStep(g, Init(g));
    RunStep(g, st1);
    RunGoal(g, st2);
  }

  /**
   * Depth-first search on `A B` expands the start and the middle cell, then removes the
   * goal: two moves right, three nodes removed, the goal left unexplored.
   */
  lemma SampleRun(g: Grid)
    requires g == SampleGrid()
    ensures Run(g, Init(g)) ==
      Found(Solution([Right, Right], [(0, 1), (0, 2)]), {(0, 0), (0, 1)}, 3)
  {
    var n0 := Node((0, 0), None, None);
    var n1 := Node((0, 1), Some(0), Some(Right));
    var n2 := Node((0, 2), Some(1), Some(Right));
    var st1 := SearchState([n1], {(0, 0)}, [n0], 1);
    var st2 := SearchState([n2], {(0, 0), (0, 1)}, [n0, n1], 2);
    SampleFirst(g, Init(g));
    SampleSecond(g, st1);
    SampleThird(g, st2.arena, n2);
    RunThree(g, st1, st2);
  }
}
