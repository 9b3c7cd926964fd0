/**
 * The search engine object (`Find`): the board, the start and goal squares
 * it locates, the direction and cost settings, and the `explored` list that
 * every driver appends to. Successor generation deep-copies the parent's
 * table and marks the child's own square; the drivers `dls`, `iddfs`,
 * `a_star` and `bfs` are proved to agree with the value-level runs of
 * FindSpec, both in what they report and in the cells they append to
 * `explored`.
 */
module Search {
  import opened Grid
  import opened Cells
  import opened FindRules
  import opened FindSpec
  import opened Seqs

  /** p lies before q in row-major order. */
  predicate Before(p: Pos, q: Pos)
  {
    p.row < q.row || (p.row == q.row && p.col < q.col)
  }

  /**
   * `__find_source` / `__find_goal`: the first square in row-major order
   * whose operator is `target`, or None when no square has it.
   */
  method FindFirst(board: Board, target: char) returns (r: Option<Pos>)
    requires Valid(board)
    ensures r.Some? ==> InBounds(board, r.value) && OptAt(board, r.value.row, r.value.col) == target
    ensures r.Some? ==> forall p :: InBounds(board, p) && Before(p, r.value) ==> OptAt(board, p.row, p.col) != target
    ensures r.None? ==> forall p :: InBounds(board, p) ==> OptAt(board, p.row, p.col) != target
  {
    var row := 0;
    while row < board.m
      invariant 0 <= row <= board.m
      invariant forall p :: InBounds(board, p) && p.row < row ==> OptAt(board, p.row, p.col) != target
    {
      var col := 0;
      while col < board.n
        invariant 0 <= col <= board.n
        invariant forall p :: InBounds(board, p) && (p.row < row || (p.row == row && p.col < col)) ==>
                    OptAt(board, p.row, p.col) != target
      {
        if Lower(OptAt(board, row, col)) == target {
          return Some(Pos(row, col));
        }
        col := col + 1;
      }
      row := row + 1;
    }
    return None;
  }

  /** `copy.deepcopy` of a table: a new table with the same shape and contents. */
  method DeepCopy(t: array2<bool>) returns (u: array2<bool>)
    ensures fresh(u)
    ensures u.Length0 == t.Length0 && u.Length1 == t.Length1
    ensures forall i, j :: 0 <= i < t.Length0 && 0 <= j < t.Length1 ==> u[i, j] == t[i, j]
  {
    u := new bool[t.Length0, t.Length1]((i, j) reads t =>
           if 0 <= i < t.Length0 && 0 <= j < t.Length1 then t[i, j] else false);
  }

  /** A fresh table of the given shape with no square marked. */
  method EmptyTable(m: nat, n: nat) returns (t: array2<bool>)
    ensures fresh(t) && t.Length0 == m && t.Length1 == n
    ensures forall i, j :: 0 <= i < m && 0 <= j < n ==> !t[i, j]
  {
    t := new bool[m, n]((i, j) => false);
  }

  /**
   * c is a successor of parent as `__successor` builds it: on the board,
   * its path is the parent's followed by itself, no cost recorded, and its
   * table is the parent's with c's own square marked.
   */
  predicate IsChild(board: Board, parent: Cell, c: Cell)
    reads parent, c, parent.table, c.table
  {
    && Fits(c, board)
    && parent.table.Length0 == c.table.Length0 && parent.table.Length1 == c.table.Length1
    && c.path == parent.path + [c]
    && c.pathCost == 0
    && (forall i, j :: 0 <= i < c.table.Length0 && 0 <= j < c.table.Length1 ==>
          c.table[i, j] == (parent.table[i, j] || (i == c.row && j == c.col)))
  }

  /** A successor of a cell whose table marks its path marks its own path too. */
  lemma MarksChild(board: Board, parent: Cell, c: Cell)
    requires IsChild(board, parent, c) && Marks(parent)
    ensures Marks(c)
  {
    PositionsAppend(parent.path, c);
  }

  /** What `bfs` looks at for a successor c of a cell: whether its square is on the cell's path, as the table says. */
  lemma Neighbour(board: Board, cell: Cell, c: Cell)
    requires Fits(cell, board) && Marks(cell) && IsChild(board, cell, c)
    ensures 0 <= c.row < cell.table.Length0 && 0 <= c.col < cell.table.Length1
    ensures cell.table[c.row, c.col] <==> Snap(c).pos in Snap(cell).trail
    ensures Queued(board, [c], [Snap(c)])
  {
    MarksChild(board, cell, c);
  }

  /** The cells of the `bfs` queue stand for the nodes, lie on the board and mark their paths. */
  ghost predicate Queued(board: Board, cells: seq<Cell>, nodes: seq<Node>)
    reads set c | c in cells, set c | c in cells :: c.table
  {
    && |cells| == |nodes|
    && forall i {:trigger cells[i]} :: 0 <= i < |cells| ==> Fits(cells[i], board) && Marks(cells[i]) && Snap(cells[i]) == nodes[i]
  }

  lemma QueuedTail(board: Board, cells: seq<Cell>, nodes: seq<Node>)
    requires Queued(board, cells, nodes) && cells != []
    ensures Queued(board, cells[1..], nodes[1..])
  {
    forall i | 0 <= i < |cells| - 1
      ensures Fits(cells[1..][i], board) && Marks(cells[1..][i]) && Snap(cells[1..][i]) == nodes[1..][i]
    {
      assert cells[1..][i] == cells[i + 1];
    }
  }

  lemma QueuedAppend(board: Board, a: seq<Cell>, na: seq<Node>, b: seq<Cell>, nb: seq<Node>)
    requires Queued(board, a, na) && Queued(board, b, nb)
    ensures Queued(board, a + b, na + nb)
  {
    forall i | 0 <= i < |a| + |b|
      ensures Fits((a + b)[i], board) && Marks((a + b)[i]) && Snap((a + b)[i]) == (na + nb)[i]
    {
      if i >= |a| {
        assert (a + b)[i] == b[i - |a|];
      }
    }
  }

  /** No two cells of the list are the same cell or share a table. */
  predicate Distinct(cells: seq<Cell>)
  {
    forall i, j :: 0 <= i < j < |cells| ==> cells[i] != cells[j] && cells[i].table != cells[j].table
  }

  /** The cell an `if` of `__successor` appended, as a list of zero or one cells. */
  function Present(c: Cell?): (r: seq<Cell>)
    ensures |r| <= 1 && (c != null ==> r == [c])
  {
    if c == null then [] else [c]
  }

  /** A cell that differs from every cell and table of a distinct list keeps it distinct. */
  lemma DistinctAppend(cells: seq<Cell>, c: Cell?)
    requires Distinct(cells)
    requires c != null ==> forall i :: 0 <= i < |cells| ==> cells[i] != c && cells[i].table != c.table
    ensures Distinct(cells + Present(c))
  {
  }

  /** The four `if`s' appends are fresh cells on fresh tables when the cells they considered are. */
  twostate lemma AllFresh(new cells: seq<Cell>, new up: Cell?, new left: Cell?, new down: Cell?, new right: Cell?)
    requires cells == [] + Present(up) + Present(left) + Present(down) + Present(right)
    requires up != null ==> fresh(up) && fresh(up.table)
    requires left != null ==> fresh(left) && fresh(left.table)
    requires down != null ==> fresh(down) && fresh(down.table)
    requires right != null ==> fresh(right) && fresh(right.table)
    ensures forall i :: 0 <= i < |cells| ==> fresh(cells[i]) && fresh(cells[i].table)
  {
    Among(cells, up, left, down, right);
  }

  /** Each cell of the four `if`s' appends is one of the cells they considered. */
  lemma Among(cells: seq<Cell>, up: Cell?, left: Cell?, down: Cell?, right: Cell?)
    requires cells == [] + Present(up) + Present(left) + Present(down) + Present(right)
    ensures forall i :: 0 <= i < |cells| ==> cells[i] == up || cells[i] == left || cells[i] == down || cells[i] == right
  {
  }

  class Find {
    const board: Board
    const source: Option<Pos>
    const goal: Option<Pos>
    var explored: seq<Cell>
    /** What each cell of `explored` stood for when it was appended. */
    ghost var trace: seq<Node>
    const isBackward: bool
    const applyCost: bool

    function Cfg(): Config
    {
      Config(board, isBackward, applyCost)
    }

    /** The settings are well formed and both the start and the goal square were found. */
    predicate Ready()
    {
      && Cfg().Wf()
      && source.Some? && InBounds(board, source.value)
      && goal.Some? && InBounds(board, goal.value)
    }

    /** Locates the start (`s`) and goal (`g`) squares; `explored` starts empty. */
    constructor(board: Board, isBackward: bool := false, applyCost: bool := false)
      requires Valid(board) && (isBackward ==> ScaleFree(board))
      ensures this.board == board && this.isBackward == isBackward && this.applyCost == applyCost
      ensures Cfg().Wf()
      ensures source.Some? ==> InBounds(board, source.value) && OptAt(board, source.value.row, source.value.col) == 's'
      ensures source.Some? ==> forall p :: InBounds(board, p) && Before(p, source.value) ==> OptAt(board, p.row, p.col) != 's'
      ensures source.None? ==> forall p :: InBounds(board, p) ==> OptAt(board, p.row, p.col) != 's'
      ensures goal.Some? ==> InBounds(board, goal.value) && OptAt(board, goal.value.row, goal.value.col) == 'g'
      ensures goal.Some? ==> forall p :: InBounds(board, p) && Before(p, goal.value) ==> OptAt(board, p.row, p.col) != 'g'
      ensures goal.None? ==> forall p :: InBounds(board, p) ==> OptAt(board, p.row, p.col) != 'g'
      ensures explored == [] && trace == [] && Recorded()
    {
      this.board := board;
      var s := FindFirst(board, 's');
      var g := FindFirst(board, 'g');
      this.source := s;
      this.goal := g;
      this.explored := [];
      this.trace := [];
      this.isBackward := isBackward;
      this.applyCost := applyCost;
    }

    /** The last cell appended to `explored` stood for the last node of `trace`. */
    ghost predicate LastRecorded()
      reads this, if explored == [] then {} else {explored[|explored| - 1]}
    {
      explored != [] && trace != [] && Snap(explored[|explored| - 1]) == trace[|trace| - 1]
    }

    /** Each cell of `explored` stands for the node recorded for it in `trace`. */
    ghost predicate Recorded()
      reads this, set c | c in explored
    {
      |trace| == |explored| && forall i :: 0 <= i < |explored| ==> Snap(explored[i]) == trace[i]
    }

    /** The threshold test of `__check_goal` on a cell's running values. */
    predicate CheckGoal(cell: Cell)
      reads cell
      ensures CheckGoal(cell) <==> (cell.pathValue > cell.goalValue) != isBackward
      ensures CheckGoal(cell) <==> IsGoalAt(Cfg(), Pos(cell.row, cell.col), Snap(cell))
    {
      GoalReached(isBackward, cell.pathValue, cell.goalValue)
    }

    /**
     * One successor of `parent` on square q: a cell on a deep copy of the
     * parent's table, its path the parent's followed by itself
     * (`common_part`), its two values the parent's after q's operator.
     */
    method MakeChild(parent: Cell, q: Pos) returns (c: Cell)
      requires Cfg().Wf() && Fits(parent, board)
      requires InBounds(board, q) && OptAt(board, q.row, q.col) != 'w'
      ensures fresh(c) && fresh(c.table)
      ensures IsChild(board, parent, c) && Pos(c.row, c.col) == q
      ensures Snap(c) == Child(Cfg(), Snap(parent), q)
    {
      var t := DeepCopy(parent.table);
      c := new Cell(q.row, q.col, t, 0, 0, parent.path);
      c.path := c.path + [c];
      CostsCoverPassableSquares(board, q.row, q.col);
      var v := if isBackward then CalReversedOpt(board, parent.pathValue, parent.goalValue, q.row, q.col)
               else CalOpt(board, applyCost, parent.pathValue, parent.goalValue, q.row, q.col);
      c.pathValue, c.goalValue := v.0, v.1;
      PositionsAppend(parent.path, c);
    }

    /**
     * One `if` of `__successor`, the d-th of up, left, down, right, with
     * `common_part`: if its guard admits a square, make the child on it and
     * keep it unless the novelty check finds its hash key in `explored`,
     * which it never does. Returns the cell it appends, or null.
     */
    method Consider(parent: Cell, d: nat) returns (c: Cell?)
      requires Cfg().Wf() && Fits(parent, board) && d < 4
      ensures Produced(parent, c, d)
      ensures c != null ==> fresh(c) && fresh(c.table)
    {
      c := null;
      var qs := Toward(board, Pos(parent.row, parent.col), d);
      if qs != [] {
        var child := MakeChild(parent, qs[0]);
        HashStringNeverInCellList(explored, child.Hash());
        if !ListContains(explored, HashString(child.Hash())) {
          c := child;
        }
      }
    }

    /** c is what the d-th `if` of `__successor` appends for parent, as Consider promises. */
    ghost predicate Produced(parent: Cell, c: Cell?, d: nat)
      requires Cfg().Wf() && Fits(parent, board) && d < 4
      reads parent, parent.table, c, if c == null then {} else {c.table}
    {
      && (c == null <==> ChildToward(Cfg(), Snap(parent), d) == [])
      && (c != null ==> IsChild(board, parent, c) && ChildToward(Cfg(), Snap(parent), d) == [Snap(c)])
    }

    /** cells stand for the successors of the first d `if`s. */
    ghost predicate Built(parent: Cell, cells: seq<Cell>, d: nat)
      requires Cfg().Wf() && Fits(parent, board) && d <= 4
      reads parent, parent.table, set c | c in cells, set c | c in cells :: c.table
    {
      && |cells| == |ExpandUpTo(Cfg(), Snap(parent), d)|
      && (forall i :: 0 <= i < |cells| ==>
            IsChild(board, parent, cells[i]) && Snap(cells[i]) == ExpandUpTo(Cfg(), Snap(parent), d)[i])
    }

    /** The cell of the d-th `if`, if any, extends the successors of the earlier `if`s. */
    lemma Extended(parent: Cell, cells: seq<Cell>, c: Cell?, d: nat)
      requires Cfg().Wf() && Fits(parent, board) && d < 4
      requires Built(parent, cells, d) && Produced(parent, c, d)
      ensures Built(parent, cells + Present(c), d + 1)
    {
      var x := Snap(parent);
      assert ExpandUpTo(Cfg(), x, d + 1) == ExpandUpTo(Cfg(), x, d) + ChildToward(Cfg(), x, d);
      if c == null {
        assert cells + Present(c) == cells;
      }
    }

    /**
     * `__successor`: the successors of `cell` in the order up, left, down,
     * right, skipping walls and the border. Each is a fresh cell on a fresh
     * table; the novelty check looks a hash key up in a list of cells and
     * never finds it, so every admissible neighbour is returned.
     */
    method Successor(cell: Cell) returns (cells: seq<Cell>)
      requires Cfg().Wf() && Fits(cell, board)
      ensures |cells| == |Expand(Cfg(), Snap(cell))|
      ensures forall i :: 0 <= i < |cells| ==>
                IsChild(board, cell, cells[i]) && Snap(cells[i]) == Expand(Cfg(), Snap(cell))[i]
      ensures forall i :: 0 <= i < |cells| ==> fresh(cells[i]) && fresh(cells[i].table)
      ensures Distinct(cells)
    {
      var up, left, down, right;
      cells, up, left, down, right := Gather(cell);
      BuiltAll(cell, cells);
      AllFresh(cells, up, left, down, right);
    }

    /** What all four `if`s built are the successors of the cell. */
    lemma BuiltAll(cell: Cell, cells: seq<Cell>)
      requires Cfg().Wf() && Fits(cell, board) && Built(cell, cells, 4)
      ensures |cells| == |Expand(Cfg(), Snap(cell))|
      ensures forall i :: 0 <= i < |cells| ==>
                IsChild(board, cell, cells[i]) && Snap(cells[i]) == Expand(Cfg(), Snap(cell))[i]
    {
    }

    /** The four `if`s of `__successor`, each with the cell it appended, if any. */
    method Gather(cell: Cell) returns (cells: seq<Cell>, up: Cell?, left: Cell?, down: Cell?, right: Cell?)
      requires Cfg().Wf() && Fits(cell, board)
      ensures Built(cell, cells, 4) && Distinct(cells)
      ensures cells == [] + Present(up) + Present(left) + Present(down) + Present(right)
      ensures up != null ==> fresh(up) && fresh(up.table)
      ensures left != null ==> fresh(left) && fresh(left.table)
      ensures down != null ==> fresh(down) && fresh(down.table)
      ensures right != null ==> fresh(right) && fresh(right.table)
    {
      var none: seq<Cell> := [];
      var one, two;
      one, up := Add(cell, none, 0);
      two, left := Add(cell, one, 1);
      cells, down, right := Downward(cell, two);
    }

    /** The last two `if`s of `__successor`, down and right, after up and left built `cells`. */
    method Downward(cell: Cell, cells: seq<Cell>) returns (more: seq<Cell>, down: Cell?, right: Cell?)
      requires Cfg().Wf() && Fits(cell, board)
      requires Built(cell, cells, 2) && Distinct(cells)
      ensures Built(cell, more, 4) && Distinct(more)
      ensures more == cells + Present(down) + Present(right)
      ensures down != null ==> fresh(down) && fresh(down.table)
      ensures right != null ==> fresh(right) && fresh(right.table)
    {
      var three;
      three, down := Add(cell, cells, 2);
      more, right := Add(cell, three, 3);
    }

    /**
     * One `if` of `__successor` with its `common_part`: the cell it appends,
     * if any, joins the successors of the earlier `if`s. That cell and its
     * table are fresh, so no two successors share a cell or a table.
     */
    method Add(parent: Cell, cells: seq<Cell>, d: nat) returns (more: seq<Cell>, c: Cell?)
      requires Cfg().Wf() && Fits(parent, board) && d < 4
      requires Built(parent, cells, d) && Distinct(cells)
      ensures Built(parent, more, d + 1) && Distinct(more)
      ensures more == cells + Present(c)
      ensures c != null ==> fresh(c) && fresh(c.table)
    {
      c := Consider(parent, d);
      assert Built(parent, cells, d);
      Extended(parent, cells, c, d);
      DistinctAppend(cells, c);
      more := cells + Present(c);
    }

    /** `self.explored.append(cell)`, with `trace` recording the node the cell stands for. */
    method Record(cell: Cell, ghost x: Node)
      requires Recorded() && Snap(cell) == x
      modifies this
      ensures explored == old(explored) + [cell] && trace == old(trace) + [x] && Recorded()
    {
      explored := explored + [cell];
      trace := trace + [x];
    }

    /**
     * `dls`: record `src` in `explored`; succeed if it stands on the goal
     * square (the target parameters are not used) and passes the goal test;
     * otherwise, while depth remains, search each successor in turn with one
     * less depth and stop at the first success.
     */
    method Dls(src: Cell, targetRow: int, targetCol: int, maxDepth: int, ghost x: Node) returns (found: bool)
      requires Cfg().Wf() && goal.Some? && Fits(src, board) && x == Snap(src)
      requires Recorded()
      modifies this
      decreases maxDepth, 2
      ensures Recorded() && old(explored) < explored
      ensures trace == old(trace) + DepthLimited(Cfg(), goal.value, x, maxDepth).trace
      ensures found == DepthLimited(Cfg(), goal.value, x, maxDepth).outcome.Solved?
      ensures LastRecorded()
    {
      Record(src, x);
      if src.row == goal.value.row && src.col == goal.value.col {
        if CheckGoal(src) {
          DepthLimitedAtGoal(Cfg(), goal.value, x, maxDepth);
          return true;
        }
      }
      if maxDepth <= 0 {
        DepthLimitedAtLeaf(Cfg(), goal.value, x, maxDepth);
        return false;
      }
      ghost var mid, midTrace := explored, trace;
      found := Descend(src, targetRow, targetCol, maxDepth - 1, x);
      DepthLimitedInside(Cfg(), goal.value, x, maxDepth, old(trace), midTrace, trace);
      PrefixExtends(old(explored), mid, explored);
    }

    /** The successors of `src` and the search below each of them, one level deeper. */
    method Descend(src: Cell, targetRow: int, targetCol: int, depth: nat, ghost x: Node) returns (found: bool)
      requires Cfg().Wf() && goal.Some? && Fits(src, board) && x == Snap(src)
      requires Recorded() && LastRecorded()
      modifies this
      decreases depth + 1, 1
      ensures Recorded() && old(explored) <= explored
      ensures trace == old(trace) + DepthLimitedFrom(Cfg(), goal.value, x, 0, depth).trace
      ensures found == DepthLimitedFrom(Cfg(), goal.value, x, 0, depth).outcome.Solved?
      ensures LastRecorded()
    {
      var neighbors := Successor(src);
      found := DlsEach(x, neighbors, targetRow, targetCol, depth);
    }

    /**
     * `iddfs`: run `dls` from a fresh start cell with the depth bounds 0, 1,
     * ..., maxDepth - 1 in turn and stop at the first success. The start
     * cell's path is left empty, so a reported path does not include the
     * start square. Returns the path of the cell whose goal test succeeded.
     */
    method Iddfs(maxDepth: int) returns (solution: Option<seq<Pos>>)
      requires Ready() && Recorded()
      modifies this
      ensures Recorded() && old(explored) <= explored
      ensures trace == old(trace) + Deepening(Cfg(), goal.value, StartNode(board, source.value, goal.value, []), 0, maxDepth).trace
      ensures solution == Reported(Deepening(Cfg(), goal.value, StartNode(board, source.value, goal.value, []), 0, maxDepth).outcome)
    {
      var start, end := source.value, goal.value;
      var table := EmptyTable(board.m, board.n);
      var src := new Cell(start.row, start.col, table, NumberAt(board, start.row, start.col), NumberAt(board, end.row, end.col), []);
      solution := Deepen(src, maxDepth, Snap(src));
    }

    /** The `for i in range(max_depth)` loop of `iddfs`, from the start cell src. */
    method Deepen(src: Cell, maxDepth: int, ghost root: Node) returns (solution: Option<seq<Pos>>)
      requires Cfg().Wf() && goal.Some? && Fits(src, board) && root == Snap(src)
      requires Recorded()
      modifies this
      ensures Recorded() && old(explored) <= explored
      ensures trace == old(trace) + Deepening(Cfg(), goal.value, root, 0, maxDepth).trace
      ensures solution == Reported(Deepening(Cfg(), goal.value, root, 0, maxDepth).outcome)
    {
      ghost var whole := Deepening(Cfg(), goal.value, root, 0, maxDepth);
      ghost var acc: seq<Node> := [];
      AfterStart(whole);
      AppendEmpty(trace);
      var i := 0;
      while i < maxDepth
        invariant 0 <= i
        invariant Fits(src, board) && Snap(src) == root
        invariant Recorded() && old(explored) <= explored && trace == old(trace) + acc
        invariant whole == After(acc, Deepening(Cfg(), goal.value, root, i, maxDepth))
      {
        solution := Attempt(src, i, root);
        ghost var r := DepthLimited(Cfg(), goal.value, root, i);
        if solution.Some? {
          DeepeningFound(Cfg(), goal.value, root, i, maxDepth, whole, old(trace), acc, trace);
          return;
        }
        AppendAssoc(old(trace), acc, r.trace);
        var j := i + 1;
        DeepeningNext(Cfg(), goal.value, root, i, j, maxDepth, whole, acc);
        acc := acc + r.trace;
        i := j;
      }
      AfterNothing(acc);
      solution := None;
    }

    /** One round of the `iddfs` loop: `dls` from src with bound i, and the path it reports if it succeeds. */
    method Attempt(src: Cell, i: int, ghost root: Node) returns (solution: Option<seq<Pos>>)
      requires Cfg().Wf() && goal.Some? && Fits(src, board) && root == Snap(src)
      requires Recorded()
      modifies this
      ensures Recorded() && old(explored) <= explored
      ensures trace == old(trace) + DepthLimited(Cfg(), goal.value, root, i).trace
      ensures solution == Reported(DepthLimited(Cfg(), goal.value, root, i).outcome)
    {
      var found := Dls(src, goal.value.row, goal.value.col, i, root);
      if found {
        LastOfAppend(old(trace), DepthLimited(Cfg(), goal.value, root, i).trace);
        solution := Some(Positions(explored[|explored| - 1].path));
      } else {
        solution := None;
      }
    }

    /** The `for c in neighbors` loop of `dls`: search each successor of parent in turn, stopping at the first success. */
    method DlsEach(ghost parent: Node, neighbors: seq<Cell>, targetRow: int, targetCol: int, depth: nat) returns (found: bool)
      requires Cfg().Wf() && goal.Some? && InBounds(board, parent.pos)
      requires |neighbors| == |Expand(Cfg(), parent)|
      requires forall i :: 0 <= i < |neighbors| ==> Fits(neighbors[i], board) && Snap(neighbors[i]) == Expand(Cfg(), parent)[i]
      requires Recorded() && LastRecorded()
      modifies this
      decreases depth + 1, 0
      ensures Recorded() && old(explored) <= explored
      ensures trace == old(trace) + DepthLimitedFrom(Cfg(), goal.value, parent, 0, depth).trace
      ensures found == DepthLimitedFrom(Cfg(), goal.value, parent, 0, depth).outcome.Solved?
      ensures LastRecorded()
    {
      ghost var acc: seq<Node> := [];
      AfterStart(DepthLimitedFrom(Cfg(), goal.value, parent, 0, depth));
      AppendEmpty(trace);
      var k := 0;
      while k < |neighbors|
        invariant 0 <= k <= |neighbors|
        invariant Recorded() && old(explored) <= explored
        invariant trace == old(trace) + acc
        invariant LastRecorded()
        invariant DepthLimitedFrom(Cfg(), goal.value, parent, 0, depth) ==
                    After(acc, DepthLimitedFrom(Cfg(), goal.value, parent, k, depth))
      {
        ghost var y := Expand(Cfg(), parent)[k];
        found := Dls(neighbors[k], targetRow, targetCol, depth, y);
        ghost var r := DepthLimited(Cfg(), goal.value, y, depth).trace;
        AppendAssoc(old(trace), acc, r);
        if found {
          DepthLimitedFromHit(Cfg(), goal.value, parent, k, depth);
          return;
        }
        DepthLimitedFromMiss(Cfg(), goal.value, parent, k, depth);
        AfterAfter(acc, r, DepthLimitedFrom(Cfg(), goal.value, parent, k + 1, depth));
        acc := acc + r;
        k := k + 1;
      }
      DepthLimitedFromEnd(Cfg(), goal.value, parent, depth);
      AfterNothing(acc);
      return false;
    }
  
    /**
     * `a_star`: start from a cell on the start square whose path is itself,
     * and walk greedily: each round pops the one cell of the open list,
     * appends it to `explored`, stops at the first neighbour that stands on
     * the goal square and passes the goal test, and otherwise puts the best
     * neighbour (if any) on the open list. At most `fuel` rounds are run.
     * Returns the path of the neighbour whose goal test succeeded.
     */
    method AStar(fuel: nat) returns (solution: Option<seq<Pos>>)
      requires Ready() && Recorded()
      modifies this
      ensures Recorded() && old(explored) <= explored
      ensures trace == old(trace) + GreedyWalk(Cfg(), goal.value, StartNode(board, source.value, goal.value, [source.value]), fuel).trace
      ensures solution == Reported(GreedyWalk(Cfg(), goal.value, StartNode(board, source.value, goal.value, [source.value]), fuel).outcome)
    {
      var start, end := source.value, goal.value;
      var table := EmptyTable(board.m, board.n);
      var root := new Cell(start.row, start.col, table, NumberAt(board, start.row, start.col), NumberAt(board, end.row, end.col), []);
      root.path := root.path + [root];
      assert [] + [root] == [root];
      PositionsAppend([], root);
      solution := WalkFrom(root, fuel, StartNode(board, start, end, [start]));
    }

    /** The `while len(open_list) > 0` loop of `a_star`, from the cell `root`, for at most `fuel` rounds. */
    method WalkFrom(root: Cell, fuel: nat, ghost x0: Node) returns (solution: Option<seq<Pos>>)
      requires Cfg().Wf() && goal.Some? && Fits(root, board) && x0 == Snap(root)
      requires Recorded()
      modifies this
      ensures Recorded() && old(explored) <= explored
      ensures trace == old(trace) + GreedyWalk(Cfg(), goal.value, x0, fuel).trace
      ensures solution == Reported(GreedyWalk(Cfg(), goal.value, x0, fuel).outcome)
    {
      var openList: seq<Cell> := [root];
      ghost var cur := x0;
      ghost var acc: seq<Node> := [];
      ghost var whole := GreedyWalk(Cfg(), goal.value, x0, fuel);
      AfterStart(whole);
      AppendEmpty(trace);
      var rounds := 0;
      while |openList| > 0 && rounds < fuel
        invariant |openList| <= 1 && rounds <= fuel
        invariant InBounds(board, cur.pos)
        invariant openList != [] ==> Fits(openList[0], board) && Snap(openList[0]) == cur
        invariant Recorded() && old(explored) <= explored && trace == old(trace) + acc
        invariant openList != [] ==> whole == After(acc, GreedyWalk(Cfg(), goal.value, cur, fuel - rounds))
        invariant openList == [] ==> whole == After(acc, Run(NoSolution, []))
      {
        ghost var x := cur;
        var cell := openList[0];
        openList := openList[1..];
        assert openList == [];
        var hit, best := Round(cell, x);
        ghost var left := fuel - rounds;
        if hit != null {
          GreedyFound(Cfg(), goal.value, x0, fuel, x, left, acc, old(trace), trace, Snap(hit));
          solution := Some(Positions(hit.path));
          return;
        }
        AppendAssoc(old(trace), acc, [x]);
        if best != null {
          openList := openList + [best];
          cur := Snap(best);
          GreedyMove(Cfg(), goal.value, x0, fuel, x, left, acc, cur);
        } else {
          GreedyStuck(Cfg(), goal.value, x0, fuel, x, left, acc);
        }
        acc := acc + [x];
        rounds := rounds + 1;
      }
      if openList == [] {
        AfterNothing(acc);
      } else {
        GreedyExhausted(Cfg(), goal.value, x0, fuel, cur, acc);
      }
      solution := None;
    }

    /**
     * One round of the `a_star` loop: record the popped cell in `explored`,
     * then scan its successors for the goal and for the best neighbour.
     */
    method Round(cell: Cell, ghost x: Node) returns (hit: Cell?, best: Cell?)
      requires Cfg().Wf() && goal.Some? && Fits(cell, board) && Snap(cell) == x
      requires Recorded()
      modifies this
      ensures explored == old(explored) + [cell] && trace == old(trace) + [x] && Recorded()
      ensures hit != null ==> FirstGoal(Cfg(), goal.value, Expand(Cfg(), x)) == Some(Snap(hit))
      ensures hit == null ==> FirstGoal(Cfg(), goal.value, Expand(Cfg(), x)) == None
      ensures hit == null ==> BestOf(goal.value, Expand(Cfg(), x)).node == if best == null then None else Some(Snap(best))
      ensures best != null ==> Fits(best, board)
    {
      Record(cell, x);
      var neighbors := Successor(cell);
      hit, best := ScanNeighbours(x, neighbors);
    }

    /**
     * The `for neighbor in neighbors` loop of `a_star`: the first neighbour
     * on the goal square that passes the goal test, if any; otherwise the
     * last neighbour whose f-value is at least the best so far, starting
     * from no neighbour and f = 0.
     */
    method ScanNeighbours(ghost x: Node, neighbors: seq<Cell>) returns (hit: Cell?, best: Cell?)
      requires Cfg().Wf() && goal.Some? && InBounds(board, x.pos)
      requires |neighbors| == |Expand(Cfg(), x)|
      requires forall i :: 0 <= i < |neighbors| ==> Fits(neighbors[i], board) && Snap(neighbors[i]) == Expand(Cfg(), x)[i]
      ensures hit != null ==> FirstGoal(Cfg(), goal.value, Expand(Cfg(), x)) == Some(Snap(hit))
      ensures hit == null ==> FirstGoal(Cfg(), goal.value, Expand(Cfg(), x)) == None
      ensures hit == null ==> BestOf(goal.value, Expand(Cfg(), x)).node == if best == null then None else Some(Snap(best))
      ensures best != null ==> Fits(best, board)
    {
      ghost var xs := Expand(Cfg(), x);
      ghost var bestNode: Option<Node> := None;
      hit, best := null, null;
      var bestF := 0;
      var k := 0;
      while k < |neighbors|
        invariant 0 <= k <= |neighbors|
        invariant NoGoalIn(Cfg(), goal.value, xs, k)
        invariant BestOf(goal.value, xs[..k]) == Best(bestNode, bestF)
        invariant best == null <==> bestNode.None?
        invariant best != null ==> Fits(best, board) && Snap(best) == bestNode.value
      {
        var found;
        var j := k + 1;
        found, best, bestF, bestNode := Weigh(xs, k, j, neighbors[k], best, bestF, bestNode);
        if found {
          hit := neighbors[k];
          return;
        }
        k := j;
      }
      ScanEnd(Cfg(), goal.value, xs);
    }

    /**
     * One neighbour of the `a_star` scan: stop if it is the goal, otherwise
     * take it as the best so far when its f-value is at least the best one.
     */
    method Weigh(ghost xs: seq<Node>, ghost k: nat, ghost j: nat, neighbor: Cell, best: Cell?, bestF: int, ghost bestNode: Option<Node>)
      returns (found: bool, newBest: Cell?, newF: int, ghost newNode: Option<Node>)
      requires Cfg().Wf() && goal.Some?
      requires k < |xs| && j == k + 1 && NoGoalIn(Cfg(), goal.value, xs, k)
      requires Fits(neighbor, board) && Snap(neighbor) == xs[k]
      requires BestOf(goal.value, xs[..k]) == Best(bestNode, bestF)
      requires best == null <==> bestNode.None?
      requires best != null ==> Fits(best, board) && Snap(best) == bestNode.value
      ensures found == IsGoalAt(Cfg(), goal.value, xs[k])
      ensures found ==> FirstGoal(Cfg(), goal.value, xs) == Some(Snap(neighbor)) && newBest == best
      ensures !found ==> NoGoalIn(Cfg(), goal.value, xs, j) && BestOf(goal.value, xs[..j]) == Best(newNode, newF)
      ensures !found ==> (newBest == null <==> newNode.None?)
      ensures !found && newBest != null ==> Fits(newBest, board) && Snap(newBest) == newNode.value
    {
      ghost var y := Snap(neighbor);
      var neighborF := neighbor.pathValue - Heuristic(goal.value, neighbor.row, neighbor.col);
      if neighbor.row == goal.value.row && neighbor.col == goal.value.col && CheckGoal(neighbor) {
        ScanHit(Cfg(), goal.value, xs, k, y);
        return true, best, bestF, bestNode;
      }
      ScanStep(Cfg(), goal.value, xs, k, y, bestNode, bestF);
      found, newBest, newF, newNode := false, best, bestF, bestNode;
      if neighborF >= bestF {
        newBest, newF, newNode := neighbor, neighborF, Some(y);
      }
    }

    /** The square `bfs` starts from: the start square, or the goal square in backward mode. */
    function BfsStart(): (p: Pos)
      requires Ready()
      ensures InBounds(board, p) && p in {source.value, goal.value}
    {
      if isBackward then goal.value else source.value
    }

    /** The square `bfs` searches for: the goal square, or the start square in backward mode. */
    function BfsEnd(): (p: Pos)
      requires Ready()
      ensures InBounds(board, p) && {BfsStart(), p} == {source.value, goal.value}
    {
      if isBackward then source.value else goal.value
    }

    /**
     * `bfs`: breadth-first search from BfsStart for BfsEnd on a queue of
     * cells. Each cell taken from the front of the queue is appended to
     * `explored`; the search ends when a successor stands on BfsEnd and the
     * cell taken passes the goal test, and otherwise appends the successors
     * not yet on that cell's path. At most `fuel` cells are taken. Returns
     * the path of the cell whose goal test succeeded.
     */
    method Bfs(fuel: nat) returns (solution: Option<seq<Pos>>)
      requires Ready() && Recorded()
      modifies this
      ensures Recorded() && old(explored) <= explored
      ensures trace == old(trace) + Breadth(Cfg(), BfsEnd(), [StartNode(board, BfsStart(), BfsEnd(), [BfsStart()])], fuel).trace
      ensures solution == Reported(Breadth(Cfg(), BfsEnd(), [StartNode(board, BfsStart(), BfsEnd(), [BfsStart()])], fuel).outcome)
    {
      var start, end := source.value, goal.value;
      if isBackward {
        start, end := goal.value, source.value;
      }
      var table := EmptyTable(board.m, board.n);
      var root := new Cell(start.row, start.col, table, NumberAt(board, start.row, start.col), NumberAt(board, end.row, end.col), []);
      root.path := root.path + [root];
      assert [] + [root] == [root];
      PositionsAppend([], root);
      solution := BreadthFrom(root, end, fuel, StartNode(board, start, end, [start]));
    }

    /** The `while len(queue) > 0` loop of `bfs`, from the queue [root], searching for `end`, for at most `fuel` rounds. */
    method BreadthFrom(root: Cell, end: Pos, fuel: nat, ghost x0: Node) returns (solution: Option<seq<Pos>>)
      requires Cfg().Wf() && Fits(root, board) && Marks(root) && x0 == Snap(root)
      requires Recorded()
      modifies this
      ensures Recorded() && old(explored) <= explored
      ensures trace == old(trace) + Breadth(Cfg(), end, [x0], fuel).trace
      ensures solution == Reported(Breadth(Cfg(), end, [x0], fuel).outcome)
    {
      var queue: seq<Cell> := [root];
      ghost var q: seq<Node> := [x0];
      ghost var whole := Breadth(Cfg(), end, q, fuel);
      ghost var acc: seq<Node> := [];
      AfterStart(whole);
      AppendEmpty(trace);
      var rounds := 0;
      ghost var left: nat := fuel;
      while |queue| > 0 && rounds < fuel
        invariant rounds <= fuel && left == fuel - rounds
        invariant OnBoard(board, q) && Queued(board, queue, q)
        invariant Recorded() && old(explored) <= explored && trace == old(trace) + acc
        invariant whole == After(acc, Breadth(Cfg(), end, q, left))
        decreases fuel - rounds
      {
        var cell := queue[0];
        ghost var x := q[0];
        QueuedTail(board, queue, q);
        var reached;
        reached, queue := Visit(cell, x, end, queue[1..], q[1..]);
        if reached {
          BreadthFound(Cfg(), end, whole, q, left, acc, old(trace), trace);
          solution := Some(Positions(cell.path));
          return;
        }
        AppendAssoc(old(trace), acc, [x]);
        ghost var f: nat := left - 1;
        BreadthAdvance(Cfg(), end, whole, q, left, f, acc);
        assert NextQueue(Cfg(), end, q) == q[1..] + Enqueued(end, x, Expand(Cfg(), x));
        q := NextQueue(Cfg(), end, q);
        acc := acc + [x];
        rounds := rounds + 1;
        left := f;
      }
      BreadthStops(Cfg(), end, whole, q, left, acc);
      solution := None;
    }

    /**
     * The body of the `bfs` loop for the cell taken from the queue: record
     * it in `explored`, generate its successors and look at each of them,
     * appending to the rest of the queue.
     */
    method Visit(cell: Cell, ghost x: Node, end: Pos, queue: seq<Cell>, ghost rest: seq<Node>) returns (reached: bool, out: seq<Cell>)
      requires Cfg().Wf() && Fits(cell, board) && Marks(cell) && x == Snap(cell)
      requires Queued(board, queue, rest) && Recorded()
      modifies this
      ensures explored == old(explored) + [cell] && trace == old(trace) + [x] && Recorded()
      ensures reached == Hits(Cfg(), end, x)
      ensures !reached ==> Queued(board, out, rest + Enqueued(end, x, Expand(Cfg(), x)))
    {
      Record(cell, x);
      var neighbors := Successor(cell);
      reached, out := BfsEach(cell, x, neighbors, end, queue, rest);
    }

    /**
     * The `for c in neighbors` loop of `bfs` for the cell taken from the
     * queue: a neighbour on `end` ends the search if `cell` passes the goal
     * test; a neighbour elsewhere whose square `cell`'s table has not marked
     * is appended to the queue. Returns whether the search ended and, if it
     * did not, the queue with those neighbours appended.
     */
    method BfsEach(cell: Cell, ghost x: Node, neighbors: seq<Cell>, end: Pos, queue: seq<Cell>, ghost rest: seq<Node>)
      returns (reached: bool, out: seq<Cell>)
      requires Cfg().Wf() && Fits(cell, board) && Marks(cell) && x == Snap(cell)
      requires |neighbors| == |Expand(Cfg(), x)|
      requires forall i :: 0 <= i < |neighbors| ==> IsChild(board, cell, neighbors[i]) && Snap(neighbors[i]) == Expand(Cfg(), x)[i]
      requires Queued(board, queue, rest)
      ensures reached == Hits(Cfg(), end, x)
      ensures !reached ==> Queued(board, out, rest + Enqueued(end, x, Expand(Cfg(), x)))
    {
      ghost var xs := Expand(Cfg(), x);
      ghost var kept: seq<Node> := [];
      AppendEmpty(rest);
      out := queue;
      var k := 0;
      while k < |neighbors|
        invariant 0 <= k <= |neighbors|
        invariant CheckGoal(cell) ==> !Reaches(end, xs[..k])
        invariant kept == Enqueued(end, x, xs[..k]) && Queued(board, out, rest + kept)
        decreases |neighbors| - k
      {
        var c := neighbors[k];
        ghost var y := xs[k];
        var hit;
        hit, out := Look(cell, x, c, y, end, out, rest + kept);
        ReachesStep(end, xs, k);
        if hit {
          return true, out;
        }
        EnqueuedStep(end, x, xs, k);
        AppendAssoc(rest, kept, Kept(end, x, y));
        kept := kept + Kept(end, x, y);
        k := k + 1;
      }
      assert xs[..k] == xs;
      reached := false;
    }

    /**
     * The body of the `for c in neighbors` loop of `bfs` for one successor c
     * of `cell`: a hit if c stands on `end` and `cell` passes the goal test;
     * otherwise c is appended to the queue when it stands elsewhere than on
     * `end` and `cell`'s table has not marked its square.
     */
    method Look(cell: Cell, ghost x: Node, c: Cell, ghost y: Node, end: Pos, queue: seq<Cell>, ghost q: seq<Node>)
      returns (hit: bool, out: seq<Cell>)
      requires Fits(cell, board) && Marks(cell) && x == Snap(cell)
      requires IsChild(board, cell, c) && y == Snap(c)
      requires Queued(board, queue, q)
      ensures hit == (y.pos == end && CheckGoal(cell))
      ensures !hit ==> Queued(board, out, q + Kept(end, x, y))
    {
      Neighbour(board, cell, c);
      out := queue;
      if c.row == end.row && c.col == end.col {
        hit := CheckGoal(cell);
        AppendEmpty(q);
      } else {
        hit := false;
        if !cell.table[c.row, c.col] {
          QueuedAppend(board, queue, q, [c], [y]);
          out := queue + [c];
        } else {
          AppendEmpty(q);
        }
      }
    }
  }
}
