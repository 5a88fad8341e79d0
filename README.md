# Depth-first maze solver, modelled in Dafny

The program reads a maze drawn as text: `A` marks the start, `B` the goal, a space is an
open cell, and every other character is a wall. A line shorter than the longest one is
open past its end. `Maze.solve` runs a depth-first search from the start. Its frontier
is a stack of nodes, and each node remembers its cell, its parent node and the move that
led to it. The search keeps a set of explored cells and counts every node it removes from
the frontier. When it removes the goal, it follows the parent links back to the start and
stores the moves and cells as the solution. When the frontier runs empty, it raises
"no solution".

The model has six modules:

- `Wrappers` holds `Option`, `Result` and the error values that stand for the program's
  exceptions.
- `Nodes` holds cells, the four moves and search nodes.
- `Frontiers` is the frontier class. The program's stack frontier and queue frontier
  differ only in `remove`, so here they are one class with a constant `policy`.
- `Grids` covers the maze text and the grid:
  - `str.splitlines` with Python's full set of line-break characters;
  - the counts of `A` and `B`, and the nested loops that build the wall grid;
  - `neighbors`, as the function `OpenMoves`.
- `Search` holds `Run`, a functional statement of the `solve` loop over an arena of
  removed nodes. A node's parent is an index into that arena. The module also holds the
  loop's invariant and what a run guarantees:
  - every solution is a walk from the start through open neighbours and ends at the goal;
  - the search fails exactly when the goal is unreachable;
  - the counter is bounded by the number of open cells.
- `Mazes` holds the `Maze` class, its loader, and the imperative loops of `neighbors` and
  `solve`. Those loops are proved to compute `OpenMoves` and `Run`.

For the one-row maze `A B`, `SolveSample` shows what the code does. The search removes
three nodes: the start, the middle cell and then the goal. The solution is two moves
right, through `(0, 1)` and `(0, 2)`. Only the start and the middle cell end up explored.

## Model

| member | source | states |
|---|---|---|
| `Frontiers.Frontier.Stack` | final_Code_Explanation.py:10-11 | a new stack frontier is empty and takes from the newest end |
| `Frontiers.Frontier.Queue` | final_Code_Explanation.py:31-38 | a new queue frontier is empty and takes from the oldest end |
| `Frontiers.Frontier.Add` | final_Code_Explanation.py:13-14 | the node is appended after all pending nodes, which are unchanged |
| `Frontiers.Frontier.ContainsState` | final_Code_Explanation.py:16-18 | true exactly when some pending node has the given cell |
| `Frontiers.Frontier.Empty` | final_Code_Explanation.py:20-21 | true exactly when no node is pending |
| `Frontiers.Frontier.Remove` | final_Code_Explanation.py:23-38 | an empty frontier gives `EmptyFrontier` and is unchanged; a stack gives its last node and keeps the others in order; a queue gives its first node and keeps the rest in order |
| `Frontiers.StackAddRemove` | final_Code_Explanation.py:13-29 | on a stack, removing right after adding gives back the added node and restores the old frontier |
| `Frontiers.QueueOrder` | final_Code_Explanation.py:32-38 | a queue gives back two added nodes in the order they were added |
| `Grids.LineEnd` | final_Code_Explanation.py:53 | the first line runs up to the first line-break character, or to the end of the text |
| `Grids.SplitLines` | final_Code_Explanation.py:53 | no line holds a line-break character, and there are no lines exactly when the text is empty; `SplitLinesJoin` and `SplitLinesCount` tie the lines to the text |
| `Grids.LineBreaks` | final_Code_Explanation.py:53 | no contract: the line breaks `splitlines` cuts at, in order, with `"\r\n"` taken as one break; `LineBreaksShape`, `SplitLinesJoin` and `SplitLinesCount` state its properties |
| `Grids.LineBreaksShape` | final_Code_Explanation.py:53 | every break is `"\r\n"` or a single line-break character |
| `Grids.SplitLinesJoin` | final_Code_Explanation.py:53 | joining the lines with their breaks gives back the text, so the lines are the pieces between breaks, in order |
| `Grids.SplitLinesCount` | final_Code_Explanation.py:53 | one line per break, plus one when the text is non-empty and does not end in a break; a final break starts no empty line |
| `Grids.CountChar` | final_Code_Explanation.py:47-50 | `contents.count(c)` for one character is positive exactly when `c` occurs in the text |
| `Grids.SplitCount` | final_Code_Explanation.py:47-53 | a character that is not a line break occurs as often in the text as in all its lines together |
| `Grids.OccursOnce` | final_Code_Explanation.py:47-50 | a character that occurs exactly once in the text occupies exactly one cell of the lines |
| `Grids.MaxLength` | final_Code_Explanation.py:55 | the width is at least every line's length and equals some line's length |
| `Grids.IsWallChar` | final_Code_Explanation.py:62-72 | no contract: every character other than `A`, `B` and space is a wall; used by `WallAt` |
| `Grids.WallAt` | final_Code_Explanation.py:62-74 | no contract: a cell is a wall exactly when its line reaches that column and holds a wall character, so a short line is open past its end (the `IndexError` branch); `ScanRow` and `ScanLines` are proved to build exactly this |
| `Grids.Describes` | final_Code_Explanation.py:53-75 | no contract: the grid a text describes, with one row per line, the longest line's width, walls at `WallAt` and start and goal on an `A` and a `B`; `Parse` is proved to return it and `DescribesUnique` shows it is unique |
| `Grids.ScanRow` | final_Code_Explanation.py:60-75 | row `i` has `width` entries, each a wall exactly at a wall character and open past the end of a short line; the last `A` and `B` seen so far are still recorded after the row |
| `Grids.ScanLines` | final_Code_Explanation.py:54-75 | one row per line, each as wide as the longest line, with walls exactly at wall characters; start and goal are the last `A` and the last `B` in row-major order, or absent |
| `Grids.Parse` | final_Code_Explanation.py:46-75 | not exactly one `A` gives `BadStartCount`, checked first; otherwise not exactly one `B` gives `BadGoalCount`; otherwise the text describes the grid, whose start and goal are distinct open cells |
| `Grids.DescribedIsWellFormed` | final_Code_Explanation.py:63-68 | the cells of the `A` and the `B` in a described grid are open and distinct |
| `Grids.DescribesUnique` | final_Code_Explanation.py:47-75 | with one `A` and one `B`, at most one grid fits the text, so `Parse` is determined by its input |
| `Grids.CandidatesAreSteps` | final_Code_Explanation.py:99-104 | the candidates are exactly the four single steps, each labelled with its direction, in the order up, down, left, right |
| `Grids.Candidates` | final_Code_Explanation.py:99-104 | no contract: the four candidate moves; `CandidatesAreSteps` states what they are |
| `Grids.OpenAmong` | final_Code_Explanation.py:106-111 | no contract: the filter loop as a value; `OpenAmongMembers` and `OpenAmongOrder` state what it keeps and in which order |
| `Grids.OpenAmongMembers` | final_Code_Explanation.py:106-111 | the filter keeps exactly the candidates whose cell is inside the grid and not a wall |
| `Grids.OpenAmongOrder` | final_Code_Explanation.py:106-111 | the filter keeps the candidates' order |
| `Grids.OpenMoves` | final_Code_Explanation.py:97-111 | at most four moves; a move is listed exactly when it is one step in its direction to an open cell; moves come in the order up, down, left, right |
| `Grids.OpenMovesInOrder` | final_Code_Explanation.py:99-111 | the neighbours are the open ones among up, down, left and right, concatenated in that order |
| `Search.TraceFrom` | final_Code_Explanation.py:131-138 | the walk back from a node, put in start-to-node order, is a walk from the start through neighbours that ends at the node, and an empty walk means the node is the start |
| `Search.Init` | final_Code_Explanation.py:116-121 | the initial state, with the start node alone on the frontier and nothing explored, satisfies the loop invariant |
| `Search.Inv` | final_Code_Explanation.py:123-147 | no contract: the loop invariant; frontier cells distinct, open, unexplored and linked to the arena; explored cells open, without the goal and as many as the counter; the start explored or pending; every open neighbour of an explored cell explored or pending. `Init` and `NextInv` prove it is kept |
| `Search.Expand` | final_Code_Explanation.py:144-147 | no contract: the `for` loop over the neighbours as a value; `ExpandAppends`, `ExpandDistinct` and `ExpandCovers` state what it does, and `PushChildren` is proved to compute it |
| `Search.Next` | final_Code_Explanation.py:127-147 | no contract: one iteration that does not remove the goal (remove the newest node, count it, explore it, expand it); `NextInv` states what it keeps |
| `Search.Run` | final_Code_Explanation.py:123-147 | no contract: the `while True` loop of `solve` as a recursive function; its guarantees are `RunSpec` and `SolvedIffReachable`, and `DepthFirst` is proved to compute it |
| `Search.ExpandAppends` | final_Code_Explanation.py:144-147 | expanding only appends to the frontier; each new node is an unexplored child of the removed node, reached by one of its moves |
| `Search.ExpandDistinct` | final_Code_Explanation.py:144-147 | the `contains_state` test keeps the frontier's cells distinct |
| `Search.ExpandCovers` | final_Code_Explanation.py:144-147 | after expanding, every neighbour is explored or on the frontier |
| `Search.NextInv` | final_Code_Explanation.py:127-147 | an iteration that does not remove the goal keeps the loop invariant and explores one more open cell, so the loop terminates |
| `Search.RunSpec` | final_Code_Explanation.py:113-147 | the explored set only grows, and the outcome is sound: a solution is a walk from the start to the goal with one action per cell; failure means the goal is unreachable; counts agree with the explored set |
| `Search.EmptySound` | final_Code_Explanation.py:124-125 | when the frontier runs empty, every walk from the start stays inside the explored cells, so the goal is unreachable |
| `Search.GoalSound` | final_Code_Explanation.py:130-140 | when the goal is removed, the walk back reaches it, and the goal was open and never explored |
| `Search.SolvedIffReachable` | final_Code_Explanation.py:113-147 | the search from the start succeeds exactly when some walk from the start reaches the goal |
| `Search.SampleRun` | final_Code_Explanation.py:113-147 | on `A B` the search finds two moves right, removes three nodes and explores the start and the middle cell |
| `Mazes.Reverse` | final_Code_Explanation.py:137-138 | the result has the same length and holds the elements in the opposite order |
| `Mazes.WalkBack` | final_Code_Explanation.py:131-139 | following parent links from the goal node and then reversing the lists gives the arena's walk back, `TraceFrom` |
| `Mazes.PushChildren` | final_Code_Explanation.py:144-147 | the frontier becomes exactly the expansion `Expand` of the old frontier by the moves |
| `Mazes.Neighbors` | final_Code_Explanation.py:97-111 | the loop over the four candidates computes `OpenMoves` |
| `Mazes.Maze.constructor` | final_Code_Explanation.py:77 | a new maze has no solution yet |
| `Mazes.DepthFirst` | final_Code_Explanation.py:116-147 | the loop returns the explored cells, the counter and either the solution or `NoSolution`, exactly as `Run` from `Init` |
| `Mazes.Maze.Solve` | final_Code_Explanation.py:113-147 | the maze records the explored cells and the counter of `Run` from `Init`; on success it stores and returns the solution; otherwise it returns `NoSolution` and keeps the old solution |
| `Mazes.Load` | final_Code_Explanation.py:41-77 | the two count errors in the program's order; otherwise a new, unsolved maze on the grid the text describes |
| `Mazes.SampleDescribes` | final_Code_Explanation.py:47-75 | the text `A B` has one start and one goal and describes the one-row grid with three open cells |
| `Mazes.SolveSample` | final_Code_Explanation.py:113-147 | loading and solving `A B` gives two moves right after three removals |

## Left out

- Reading the maze file, the command-line check, `Maze.print` and `Maze.output_image` are
  I/O and drawing, so they are not modelled. `Load` takes the file's contents as a string.
- The program's exceptions are modelled as `Err` values from the `Error` datatype (the
  two count errors, the empty-frontier error and the no-solution error). Their message
  strings are not part of the model.
- The program keeps `height`, `width`, `walls`, `start` and `goal` as separate attributes.
  Here they are one constant `grid` of the maze, and `neighbors` is a method over that grid.
- A parent node reference is modelled as an index into the arena of removed nodes.
  Python object identity and aliasing are not modelled.
- The program creates `explored` and `num_explored` only inside `solve`. The constructor
  here starts them at the empty set and zero.
- Action strings `"up"`, `"down"`, `"left"` and `"right"` are modelled as the `Action`
  datatype.
- `QueueFrontier` is modelled, but `solve` uses only the stack. So there is no
  breadth-first search and no claim that paths are shortest.
- `max()` on an empty list of lines raises `ValueError` in Python. That case cannot arise
  here: one `A` makes the text non-empty, and non-empty text has a line.
- Mazes.Maze.Solve: its contract ties the new state to `Run` from `Init`. The
  guarantees about that outcome (walk validity, reachability, counts) are proved as
  `RunSpec` and `SolvedIffReachable` instead of being repeated in the method's `ensures`.
- Grids.SplitLinesJoin: with `LineBreaksShape`, it does not rule out reading `"\r\n"` as a
  `"\r"` break, an empty line and a `"\n"` break. That `"\r\n"` is one break is stated only by
  the definition of `BreakWidth`, not by a lemma.
