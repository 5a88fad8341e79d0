/**
 * The grid model: how maze text becomes a wall grid with one start and one goal, and
 * which moves lead from a cell to an open neighbour.
 */
module Grids {
  import opened Wrappers
  import opened Nodes

  // ---------------------------------------------------------------------------
  // Maze text
  // ---------------------------------------------------------------------------

  /** The characters at which Python's `str.splitlines` ends a line. */
  predicate IsLineBreak(ch: char)
  {
    ch == '\n' || ch == '\r' || ch == '\U{0B}' || ch == '\U{0C}' ||
    ch == '\U{1C}' || ch == '\U{1D}' || ch == '\U{1E}' || ch == '\U{85}' ||
    ch == '\U{2028}' || ch == '\U{2029}'
  }

  /** The length of the first line of `s`: the index of its first line break, or `|s|`. */
  function LineEnd(s: string): (k: nat)
    ensures k <= |s|
    ensures forall i :: 0 <= i < k ==> !IsLineBreak(s[i])
    ensures k < |s| ==> IsLineBreak(s[k])
  {
    if s == [] || IsLineBreak(s[0]) then 0 else 1 + LineEnd(s[1..])
  }

  /** How many characters the line break at `k` takes: two for "\r\n", one otherwise. */
  function BreakWidth(s: string, k: nat): (w: nat)
    requires k < |s| && IsLineBreak(s[k])
    ensures 1 <= w && k + w <= |s|
    ensures forall i :: k <= i < k + w ==> IsLineBreak(s[i])
  {
    if s[k] == '\r' && k + 1 < |s| && s[k + 1] == '\n' then 2 else 1
  }

  /**
   * Python's `str.splitlines()`: the lines of `s` without their line breaks; a final line
   * break does not start an empty last line.
   */
  function SplitLines(s: string): (lines: seq<string>)
    decreases |s|
    ensures s == [] <==> lines == []
    ensures forall i, j :: 0 <= i < |lines| && 0 <= j < |lines[i]| ==> !IsLineBreak(lines[i][j])
  {
    if s == [] then []
    else
      var k := LineEnd(s);
      if k == |s| then [s]
      else [s[..k]] + SplitLines(s[k + BreakWidth(s, k)..])
  }

  /** The line breaks of `s` in order, each as the text spells it: `"\r\n"` or one character. */
  function LineBreaks(s: string): seq<string>
    decreases |s|
  {
    if s == [] then []
    else
      var k := LineEnd(s);
      if k == |s| then []
      else
        var w := BreakWidth(s, k);
        [s[k..k + w]] + LineBreaks(s[k + w..])
  }

  /** The text ends in a line break (an empty text does not). */
  predicate EndsInBreak(s: string)
  {
    s != [] && IsLineBreak(s[|s| - 1])
  }

  /** Every break `LineBreaks` reports is `"\r\n"` or a single line-break character. */
  lemma {:induction false} LineBreaksShape(s: string)
    decreases |s|
    ensures forall i :: 0 <= i < |LineBreaks(s)| ==>
      LineBreaks(s)[i] == "\r\n" || (|LineBreaks(s)[i]| == 1 && IsLineBreak(LineBreaks(s)[i][0]))
  {
    if s != [] && LineEnd(s) < |s| {
      var k := LineEnd(s);
      var w := BreakWidth(s, k);
      LineBreaksShape(s[k + w..]);
      var bs := LineBreaks(s[k + w..]);
      assert LineBreaks(s) == [s[k..k + w]] + bs;
      assert forall i :: 1 <= i <= |bs| ==> LineBreaks(s)[i] == bs[i - 1];
    }
  }

  /** Lines joined back into text, each followed by its line break while breaks remain. */
  function Join(lines: seq<string>, breaks: seq<string>): string
  {
    if lines == [] then []
    else if breaks == [] then lines[0] + Join(lines[1..], [])
    else lines[0] + breaks[0] + Join(lines[1..], breaks[1..])
  }

  /** Joining a first line and its break in front of more lines. */
  lemma {:induction false} JoinStep(l: string, b: string, ls: seq<string>, bs: seq<string>)
    ensures Join([l] + ls, [b] + bs) == l + b + Join(ls, bs)
  {
    assert ([l] + ls)[1..] == ls && ([b] + bs)[1..] == bs;
  }

  /** A sequence is its three pieces cut at `a` and `b`. */
  lemma CutThree<T>(s: seq<T>, a: nat, b: nat)
    requires a <= b <= |s|
    ensures s == s[..a] + s[a..b] + s[b..]
  {
  }

  /** The first line of text with a line break, its break and the text after it. */
  lemma {:induction false} SplitFirst(s: string)
    requires s != [] && LineEnd(s) < |s|
    ensures var k := LineEnd(s); var w := BreakWidth(s, k);
      SplitLines(s) == [s[..k]] + SplitLines(s[k + w..]) &&
      LineBreaks(s) == [s[k..k + w]] + LineBreaks(s[k + w..]) &&
      s == s[..k] + s[k..k + w] + s[k + w..]
  {
    var k := LineEnd(s);
    var w := BreakWidth(s, k);
    CutThree(s, k, k + w);
    assert LineBreaks(s) == [s[k..k + w]] + LineBreaks(s[k + w..]);
    assert SplitLines(s) == [s[..k]] + SplitLines(s[k + w..]);
  }

  /**
   * `SplitLines` cuts the text at its line breaks and loses nothing else: joining the
   * lines with the breaks gives the text back.
   */
  lemma {:induction false} SplitLinesJoin(s: string)
    decreases |s|
    ensures Join(SplitLines(s), LineBreaks(s)) == s
  {
    if s != [] {
      var k := LineEnd(s);
      if k == |s| {
        assert SplitLines(s) == [s] && LineBreaks(s) == [];
        assert Join([s], []) == s + Join([], []);
      } else {
        var w := BreakWidth(s, k);
        var rest := s[k + w..];
        SplitFirst(s);
        SplitLinesJoin(rest);
        JoinStep(s[..k], s[k..k + w], SplitLines(rest), LineBreaks(rest));
      }
    }
  }

  /**
   * There is one line per line break, plus one more when the text is not empty and does
   * not end in a break: a final break does not start an empty line.
   */
  lemma {:induction false} SplitLinesCount(s: string)
    decreases |s|
    ensures |SplitLines(s)| == |LineBreaks(s)| + (if s == [] || EndsInBreak(s) then 0 else 1)
  {
    if s == [] {
    } else if LineEnd(s) == |s| {
      assert !IsLineBreak(s[|s| - 1]);
      assert SplitLines(s) == [s] && LineBreaks(s) == [];
    } else {
      var k := LineEnd(s);
      var w := BreakWidth(s, k);
      var rest := s[k + w..];
      SplitFirst(s);
      SplitLinesCount(rest);
      if rest == [] {
        assert s[|s| - 1] == s[k + w - 1];
      } else {
        assert s[|s| - 1] == rest[|rest| - 1];
      }
    }
  }

  /** Python's `s.count(c)` for a single character: positive exactly when `c` occurs. */
  function CountChar(s: string, c: char): (n: nat)
    ensures n > 0 <==> c in s
  {
    multiset(s)[c]
  }

  /** The sum of `CountChar(line, c)` over the lines. */
  function SumCounts(lines: seq<string>, c: char): nat
  {
    if lines == [] then 0 else CountChar(lines[0], c) + SumCounts(lines[1..], c)
  }

  /** A character that is not a line break is counted the same in the text and in its lines. */
  lemma {:induction false} SplitCount(s: string, c: char)
    requires !IsLineBreak(c)
    ensures CountChar(s, c) == SumCounts(SplitLines(s), c)
    decreases |s|
  {
    if s != [] {
      var k := LineEnd(s);
      if k == |s| {
        assert SplitLines(s) == [s];
        assert SumCounts([s], c) == CountChar(s, c) + SumCounts([], c);
      } else {
        var w := BreakWidth(s, k);
        var rest := s[k + w..];
        assert s == s[..k] + s[k..k + w] + rest;
        assert c !in s[k..k + w];
        assert multiset(s[k..k + w])[c] == 0;
        assert CountChar(s, c) == CountChar(s[..k], c) + CountChar(rest, c);
        SplitCount(rest, c);
        assert SplitLines(s) == [s[..k]] + SplitLines(rest);
      }
    }
  }

  /** Line `i` has character `c` at column `j`. */
  predicate HasChar(lines: seq<string>, i: int, j: int, c: char)
  {
    0 <= i < |lines| && 0 <= j < |lines[i]| && lines[i][j] == c
  }

  /** If the lines count `c` at least once, some line holds it. */
  lemma {:induction false} SomeLineHas(lines: seq<string>, c: char)
    requires SumCounts(lines, c) >= 1
    ensures exists i, j :: HasChar(lines, i, j, c)
  {
    if CountChar(lines[0], c) >= 1 {
      assert c in lines[0];
      var j :| 0 <= j < |lines[0]| && lines[0][j] == c;
      assert HasChar(lines, 0, j, c);
    } else {
      SomeLineHas(lines[1..], c);
      var i, j :| HasChar(lines[1..], i, j, c);
      assert HasChar(lines, i + 1, j, c);
    }
  }

  /** A line holding `c` at column `j` counts it at least once, at two columns twice. */
  lemma CountAtLeast(s: string, c: char, j1: int, j2: int)
    requires 0 <= j1 < |s| && 0 <= j2 < |s| && s[j1] == c && s[j2] == c
    ensures CountChar(s, c) >= if j1 == j2 then 1 else 2
  {
    if j1 < j2 {
      assert s == s[..j2] + s[j2..];
      assert s[..j2][j1] == c && s[j2..][0] == c;
    } else if j2 < j1 {
      assert s == s[..j1] + s[j1..];
      assert s[..j1][j2] == c && s[j1..][0] == c;
    } else {
      assert s[j1] in multiset(s);
    }
  }

  /** Line `i` contributes its count to the sum; two distinct lines contribute both. */
  lemma {:induction false} SumAtLeast(lines: seq<string>, c: char, i1: nat, i2: nat)
    requires i1 < |lines| && i2 < |lines|
    ensures SumCounts(lines, c) >=
      CountChar(lines[i1], c) + (if i1 == i2 then 0 else CountChar(lines[i2], c))
  {
    if i1 > 0 && i2 > 0 {
      SumAtLeast(lines[1..], c, i1 - 1, i2 - 1);
    } else if i1 == 0 && i2 > 0 {
      SumAtLeast(lines[1..], c, i2 - 1, i2 - 1);
    } else if i1 > 0 && i2 == 0 {
      SumAtLeast(lines[1..], c, i1 - 1, i1 - 1);
    }
  }

  /** Exactly one `c` in the text, which is not a line break, means exactly one cell holds it. */
  lemma OccursOnce(s: string, c: char)
    requires !IsLineBreak(c) && CountChar(s, c) == 1
    ensures exists i, j :: HasChar(SplitLines(s), i, j, c)
    ensures forall i1, j1, i2, j2 ::
      HasChar(SplitLines(s), i1, j1, c) && HasChar(SplitLines(s), i2, j2, c) ==> i1 == i2 && j1 == j2
  {
    var lines := SplitLines(s);
    SplitCount(s, c);
    SomeLineHas(lines, c);
    forall i1, j1, i2, j2 | HasChar(lines, i1, j1, c) && HasChar(lines, i2, j2, c)
      ensures i1 == i2 && j1 == j2
    {
      SumAtLeast(lines, c, i1, i2);
      CountAtLeast(lines[i1], c, j1, j1);
      CountAtLeast(lines[i2], c, j2, j2);
      if i1 == i2 {
        CountAtLeast(lines[i1], c, j1, j2);
      }
    }
  }

  /** `max(len(line) for line in lines)`. */
  function MaxLength(lines: seq<string>): (w: nat)
    requires |lines| > 0
    ensures forall i :: 0 <= i < |lines| ==> |lines[i]| <= w
    ensures exists i :: 0 <= i < |lines| && |lines[i]| == w
  {
    if |lines| == 1 then |lines[0]|
    else
      var m := MaxLength(lines[1..]);
      assert forall i :: 1 <= i < |lines| ==> lines[i] == lines[1..][i - 1];
      if |lines[0]| >= m then |lines[0]| else m
  }

  /** Every character other than `A`, `B` and space is a wall. */
  predicate IsWallChar(ch: char)
  {
    ch != 'A' && ch != 'B' && ch != ' '
  }

  /** Whether column `j` of line `i` is a wall; past the end of a short line it is open. */
  predicate WallAt(lines: seq<string>, i: nat, j: nat)
    requires i < |lines|
  {
    j < |lines[i]| && IsWallChar(lines[i][j])
  }

  /** Row-major order on cells: `a` is scanned no later than `b`. */
  predicate RowMajorLe(a: Cell, b: Cell)
  {
    a.0 < b.0 || (a.0 == b.0 && a.1 <= b.1)
  }

  /**
   * `o` is what the scan records for character `c`: the last cell holding `c` in row-major
   * order, or nothing when no cell holds it.
   */
  ghost predicate LastOccurrence(lines: seq<string>, c: char, o: Option<Cell>)
  {
    match o
    case None => forall i, j :: !HasChar(lines, i, j, c)
    case Some(p) =>
      HasChar(lines, p.0, p.1, c) && forall i, j :: HasChar(lines, i, j, c) ==> RowMajorLe((i, j), p)
  }

  // ---------------------------------------------------------------------------
  // The grid
  // ---------------------------------------------------------------------------

  datatype GridData = Grid(height: nat, width: nat, walls: seq<seq<bool>>, start: Cell, goal: Cell)

  /** `walls` has `height` rows of `width` entries each. */
  predicate Shaped(g: GridData)
  {
    |g.walls| == g.height && forall i :: 0 <= i < |g.walls| ==> |g.walls[i]| == g.width
  }

  type Grid = g: GridData | Shaped(g) witness Grid(0, 0, [], (0, 0), (0, 0))

  /** `c` is inside the grid and not a wall. */
  predicate IsOpen(g: Grid, c: Cell)
  {
    0 <= c.0 < g.height && 0 <= c.1 < g.width && !g.walls[c.0][c.1]
  }

  /** What a parsed maze guarantees: start and goal are distinct open cells. */
  predicate WellFormed(g: Grid)
  {
    IsOpen(g, g.start) && IsOpen(g, g.goal) && g.start != g.goal
  }

  /** The open cells of the grid. */
  function OpenCells(g: Grid): (r: set<Cell>)
    ensures forall c :: c in r <==> IsOpen(g, c)
  {
    set i, j | 0 <= i < g.height && 0 <= j < g.width && !g.walls[i][j] :: (i, j)
  }

  /**
   * `g` is the grid the text `contents` describes: one row per line, as wide as the longest
   * line, walls exactly at the wall characters, and start and goal at an `A` and a `B`.
   */
  ghost predicate Describes(g: Grid, contents: string)
  {
    var lines := SplitLines(contents);
    g.height == |lines| && |lines| > 0 && g.width == MaxLength(lines) &&
    (forall i, j :: 0 <= i < g.height && 0 <= j < g.width ==> g.walls[i][j] == WallAt(lines, i, j)) &&
    HasChar(lines, g.start.0, g.start.1, 'A') && HasChar(lines, g.goal.0, g.goal.1, 'B')
  }

  /** A described grid has its start and goal on distinct open cells. */
  lemma DescribedIsWellFormed(g: Grid, contents: string)
    requires Describes(g, contents)
    ensures WellFormed(g)
  {
    var lines := SplitLines(contents);
    assert |lines[g.start.0]| <= g.width && |lines[g.goal.0]| <= g.width;
    assert !g.walls[g.start.0][g.start.1] && !g.walls[g.goal.0][g.goal.1];
  }

  /** With exactly one `A` and one `B`, the text describes at most one grid. */
  lemma DescribesUnique(g1: Grid, g2: Grid, contents: string)
    requires CountChar(contents, 'A') == 1 && CountChar(contents, 'B') == 1
    requires Describes(g1, contents) && Describes(g2, contents)
    ensures g1 == g2
  {
    var lines := SplitLines(contents);
    OccursOnce(contents, 'A');
    OccursOnce(contents, 'B');
    assert g1.start == g2.start && g1.goal == g2.goal;
    assert |g1.walls| == |g2.walls|;
    forall i | 0 <= i < g1.height
      ensures g1.walls[i] == g2.walls[i]
    {
      assert forall j :: 0 <= j < g1.width ==> g1.walls[i][j] == g2.walls[i][j];
    }
  }

  // ---------------------------------------------------------------------------
  // Parsing
  // ---------------------------------------------------------------------------

  /** The cells scanned before `(i0, j0)` in row-major order. */
  predicate Scanned(i: int, j: int, i0: int, j0: int)
  {
    i < i0 || (i == i0 && j < j0)
  }

  /** `LastOccurrence`, restricted to the cells scanned before `(i0, j0)`. */
  ghost predicate LastSoFar(lines: seq<string>, c: char, o: Option<Cell>, i0: int, j0: int)
  {
    match o
    case None => forall i, j :: HasChar(lines, i, j, c) ==> !Scanned(i, j, i0, j0)
    case Some(p) =>
      HasChar(lines, p.0, p.1, c) && Scanned(p.0, p.1, i0, j0) &&
      forall i, j :: HasChar(lines, i, j, c) && Scanned(i, j, i0, j0) ==> RowMajorLe((i, j), p)
  }

  /** Scanning cell `(i, j)` extends `LastSoFar` by one cell. */
  lemma ScanCell(lines: seq<string>, c: char, o: Option<Cell>, i: nat, j: nat)
    requires i < |lines| && LastSoFar(lines, c, o, i, j)
    ensures LastSoFar(lines, c, if HasChar(lines, i, j, c) then Some((i, j)) else o, i, j + 1)
  {
  }

  /** A row scanned up to the longest line is scanned completely. */
  lemma ScanRowDone(lines: seq<string>, c: char, o: Option<Cell>, i: nat, width: nat)
    requires i < |lines| && |lines[i]| <= width && LastSoFar(lines, c, o, i, width)
    ensures LastSoFar(lines, c, o, i + 1, 0)
  {
    forall i', j' | HasChar(lines, i', j', c) && Scanned(i', j', i + 1, 0)
      ensures Scanned(i', j', i, width)
    {
    }
  }

  /**
   * The inner loop of the grid scan: row `i` of the wall grid, `width` entries long, while
   * `start` and `goal` keep recording the last `A` and `B` seen.
   */
  method ScanRow(lines: seq<string>, i: nat, width: nat, start0: Option<Cell>, goal0: Option<Cell>)
    returns (row: seq<bool>, start: Option<Cell>, goal: Option<Cell>)
    requires i < |lines| && |lines[i]| <= width
    requires LastSoFar(lines, 'A', start0, i, 0) && LastSoFar(lines, 'B', goal0, i, 0)
    ensures |row| == width && forall j :: 0 <= j < width ==> row[j] == WallAt(lines, i, j)
    ensures LastSoFar(lines, 'A', start, i + 1, 0) && LastSoFar(lines, 'B', goal, i + 1, 0)
  {
    row, start, goal := [], start0, goal0;
    for j := 0 to width
      invariant |row| == j
      invariant forall k :: 0 <= k < j ==> row[k] == WallAt(lines, i, k)
      invariant LastSoFar(lines, 'A', start, i, j) && LastSoFar(lines, 'B', goal, i, j)
    {
      ScanCell(lines, 'A', start, i, j);
      ScanCell(lines, 'B', goal, i, j);
      if j < |lines[i]| {
        if lines[i][j] == 'A' {
          start := Some((i, j));
          row := row + [false];
        } else if lines[i][j] == 'B' {
          goal := Some((i, j));
          row := row + [false];
        } else if lines[i][j] == ' ' {
          row := row + [false];
        } else {
          row := row + [true];
        }
      } else {
        // past the end of a short line: open space
        row := row + [false];
      }
    }
    ScanRowDone(lines, 'A', start, i, width);
    ScanRowDone(lines, 'B', goal, i, width);
  }

  /**
   * The two nested loops that build the wall grid, and record the last `A` and the last
   * `B` as start and goal, from the lines of a maze; `height` and `width` are the number
   * of lines and the longest line's length.
   */
  method ScanLines(lines: seq<string>)
    returns (height: nat, width: nat, walls: seq<seq<bool>>, start: Option<Cell>, goal: Option<Cell>)
    requires |lines| > 0
    ensures height == |lines| && width == MaxLength(lines)
    ensures |walls| == height && forall i :: 0 <= i < height ==> |walls[i]| == width
    ensures forall i, j :: 0 <= i < height && 0 <= j < width ==> walls[i][j] == WallAt(lines, i, j)
    ensures LastOccurrence(lines, 'A', start) && LastOccurrence(lines, 'B', goal)
  {
    height := |lines|;
    width := MaxLength(lines);
    walls := [];
    start, goal := None, None;
    for i := 0 to height
      invariant |walls| == i
      invariant forall k :: 0 <= k < i ==> |walls[k]| == width
      invariant forall k, j :: 0 <= k < i && 0 <= j < width ==> walls[k][j] == WallAt(lines, k, j)
      invariant LastSoFar(lines, 'A', start, i, 0) && LastSoFar(lines, 'B', goal, i, 0)
    {
      var row;
      row, start, goal := ScanRow(lines, i, width, start, goal);
      walls := walls + [row];
    }
  }

  /**
   * `Maze.__init__` on the text of a maze file: fails unless the text holds exactly one `A`
   * (checked first) and exactly one `B`; otherwise yields the grid the text describes.
   */
  method Parse(contents: string) returns (r: Result<Grid>)
    ensures CountChar(contents, 'A') != 1 ==> r == Err(BadStartCount)
    ensures CountChar(contents, 'A') == 1 && CountChar(contents, 'B') != 1 ==> r == Err(BadGoalCount)
    ensures CountChar(contents, 'A') == 1 && CountChar(contents, 'B') == 1 ==>
      r.Ok? && Describes(r.value, contents) && WellFormed(r.value)
  {
    if CountChar(contents, 'A') != 1 {
      return Err(BadStartCount);
    }
    if CountChar(contents, 'B') != 1 {
      return Err(BadGoalCount);
    }
    var lines := SplitLines(contents);
    OccursOnce(contents, 'A');
    OccursOnce(contents, 'B');
    var height, width, walls, start, goal := ScanLines(lines);
    var g := Grid(height, width, walls, start.value, goal.value);
    assert Describes(g, contents);
    DescribedIsWellFormed(g, contents);
    r := Ok(g);
  }

  // ---------------------------------------------------------------------------
  // Neighbours
  // ---------------------------------------------------------------------------

  /** The cell one move `a` away from `s`. */
  function Step(s: Cell, a: Action): Cell
  {
    match a
    case Up => (s.0 - 1, s.1)
    case Down => (s.0 + 1, s.1)
    case Left => (s.0, s.1 - 1)
    case Right => (s.0, s.1 + 1)
  }

  /** Position of a move in the order the program tries them. */
  function Rank(a: Action): nat
  {
    match a
    case Up => 0
    case Down => 1
    case Left => 2
    case Right => 3
  }

  /** Move labels strictly increase in `Rank` along `ms`. */
  predicate RankIncreasing(ms: seq<(Action, Cell)>)
  {
    forall i, j :: 0 <= i < j < |ms| ==> Rank(ms[i].0) < Rank(ms[j].0)
  }

  /** The four candidate moves from `s`, as the program lists them. */
  function Candidates(s: Cell): seq<(Action, Cell)>
  {
    var (row, col) := s;
    [(Up, (row - 1, col)), (Down, (row + 1, col)), (Left, (row, col - 1)), (Right, (row, col + 1))]
  }

  /** The candidates are the four moves, each labelled with the step it makes, in rank order. */
  lemma CandidatesAreSteps(s: Cell)
    ensures forall m :: m in Candidates(s) <==> m.1 == Step(s, m.0)
    ensures RankIncreasing(Candidates(s))
  {
    var cs := Candidates(s);
    forall m ensures m in cs <==> m.1 == Step(s, m.0) {
      match m.0
      case Up => assert m in cs <==> m == cs[0];
      case Down => assert m in cs <==> m == cs[1];
      case Left => assert m in cs <==> m == cs[2];
      case Right => assert m in cs <==> m == cs[3];
    }
  }

  /** The candidates whose cell is open, in their original order. */
  function OpenAmong(g: Grid, cs: seq<(Action, Cell)>): seq<(Action, Cell)>
  {
    if cs == [] then []
    else
      var last := cs[|cs| - 1];
      OpenAmong(g, cs[..|cs| - 1]) + (if IsOpen(g, last.1) then [last] else [])
  }

  /** Filtering keeps exactly the open candidates and adds none. */
  lemma {:induction false} OpenAmongMembers(g: Grid, cs: seq<(Action, Cell)>)
    ensures |OpenAmong(g, cs)| <= |cs|
    ensures forall m :: m in OpenAmong(g, cs) <==> m in cs && IsOpen(g, m.1)
  {
    if cs != [] {
      var init := cs[..|cs| - 1];
      OpenAmongMembers(g, init);
      assert cs == init + [cs[|cs| - 1]];
    }
  }

  /** Filtering keeps the candidates in their order. */
  lemma {:induction false} OpenAmongOrder(g: Grid, cs: seq<(Action, Cell)>)
    requires RankIncreasing(cs)
    ensures RankIncreasing(OpenAmong(g, cs))
  {
    if cs != [] {
      var init := cs[..|cs| - 1];
      var last := cs[|cs| - 1];
      assert RankIncreasing(init) by {
        forall i, j | 0 <= i < j < |init| ensures Rank(init[i].0) < Rank(init[j].0) {
          assert init[i] == cs[i] && init[j] == cs[j];
        }
      }
      OpenAmongOrder(g, init);
      OpenAmongMembers(g, init);
      var r := OpenAmong(g, init);
      forall i | 0 <= i < |r| ensures Rank(r[i].0) < Rank(last.0) {
        assert r[i] in init;
        var k :| 0 <= k < |init| && init[k] == r[i];
        assert cs[k] == r[i];
      }
    }
  }

  /**
   * `Maze.neighbors` as a value: the moves from `s` to an open cell one step away, in the
   * order up, down, left, right.
   */
  function OpenMoves(g: Grid, s: Cell): (r: seq<(Action, Cell)>)
    ensures |r| <= 4
    ensures forall m :: m in r <==> m.1 == Step(s, m.0) && IsOpen(g, m.1)
    ensures RankIncreasing(r)
  {
    var cs := Candidates(s);
    CandidatesAreSteps(s);
    OpenAmongMembers(g, cs);
    OpenAmongOrder(g, cs);
    OpenAmong(g, cs)
  }

  /** The move `a` from `s` if its cell is open, else nothing. */
  function KeepIfOpen(g: Grid, s: Cell, a: Action): seq<(Action, Cell)>
  {
    if IsOpen(g, Step(s, a)) then [(a, Step(s, a))] else []
  }

  /** The neighbours are the open ones among up, down, left and right, in that order. */
  lemma OpenMovesInOrder(g: Grid, s: Cell)
    ensures OpenMoves(g, s) ==
      KeepIfOpen(g, s, Up) + KeepIfOpen(g, s, Down) + KeepIfOpen(g, s, Left) + KeepIfOpen(g, s, Right)
  {
    var cs := Candidates(s);
    assert [cs[0]][..0] == [];
    assert [cs[0], cs[1]][..1] == [cs[0]];
    assert [cs[0], cs[1], cs[2]][..2] == [cs[0], cs[1]];
    assert cs[..3] == [cs[0], cs[1], cs[2]];
    assert OpenAmong(g, [cs[0]]) == KeepIfOpen(g, s, Up);
    assert OpenAmong(g, [cs[0], cs[1]]) == KeepIfOpen(g, s, Up) + KeepIfOpen(g, s, Down);
    assert OpenAmong(g, [cs[0], cs[1], cs[2]]) ==
      KeepIfOpen(g, s, Up) + KeepIfOpen(g, s, Down) + KeepIfOpen(g, s, Left);
  }
}
