/**
 * The pure rules of the search engine: what a square's operator does to the
 * two running values (forward and in reverse), the per-operator step costs,
 * the goal test, the Euclidean heuristic and the f-value, and which
 * neighbours a node may move to.
 */
module FindRules {
  import opened Grid
  import opened Cells

  /** `Find.Costs`: the step cost of entering a square, by operator. */
  const Costs: map<char, int> :=
    map['+' := 2, '-' := 1, '*' := 5, '^' := 11, 'a' := 1, 'b' := 2, 's' := 1, 'g' := 1]

  /** The settings of one search: the board, the direction, and whether step costs are charged. */
  datatype Config = Config(board: Board, isBackward: bool, applyCost: bool)
  {
    /** Backward search works only on boards without `*` and `^` squares (see README). */
    predicate Wf()
    {
      Valid(board) && (isBackward ==> ScaleFree(board))
    }
  }

  lemma CostsCoverPassableSquares(b: Board, row: int, col: int)
    requires Valid(b) && InBounds(b, Pos(row, col)) && OptAt(b, row, col) != 'w'
    ensures OptAt(b, row, col) in Costs
  {
  }

  /** Every operator but the wall has a step cost, and every step cost is positive. */
  lemma CostsPositive()
    ensures Costs.Keys == Operators - {'w'}
    ensures forall op :: op in Costs ==> Costs[op] > 0
  {
  }

  /** Python's `**` on a non-negative integer exponent. */
  function Pow(base: int, exp: nat): int
    decreases exp
  {
    if exp == 0 then 1 else base * Pow(base, exp - 1)
  }

  /** The step cost charged for a square, or nothing when costs are off. */
  function StepCost(applyCost: bool, op: char): int
    requires applyCost ==> op in Costs
  {
    if applyCost then Costs[op] else 0
  }

  /**
   * `__cal_opt`: enter square (row, col) going forward. Only `a` and `b`
   * touch the goal value; `a`, `b`, `s` and `g` leave the path value alone
   * except for the step cost.
   */
  function CalOpt(board: Board, applyCost: bool, pathSum: int, goalValue: int, row: int, col: int): (r: (int, int))
    requires Valid(board) && InBounds(board, Pos(row, col))
    requires applyCost ==> OptAt(board, row, col) in Costs
    ensures r.1 != goalValue ==> OptAt(board, row, col) in {'a', 'b'}
    ensures OptAt(board, row, col) in {'a', 'b', 's', 'g'} ==>
              r.0 == pathSum - StepCost(applyCost, OptAt(board, row, col))
  {
    var operation := OptAt(board, row, col);
    var amount := NumberAt(board, row, col);
    var (p, g) :=
      if operation == '+' then (pathSum + amount, goalValue)
      else if operation == '-' then (pathSum - amount, goalValue)
      else if operation == '*' then (pathSum * amount, goalValue)
      else if operation == '^' then (Pow(pathSum, amount), goalValue)
      else if operation == 'a' then (pathSum, goalValue + amount)
      else if operation == 'b' then (pathSum, goalValue - amount)
      else (pathSum, goalValue);
    if applyCost then (p - Costs[operation], g) else (p, g)
  }

  /**
   * `__cal_reversed_opt` for every operator but `*` and `^`, whose reverse
   * divides or takes a root in floating point. It never charges a step cost.
   */
  function CalReversedOpt(board: Board, pathSum: int, goalValue: int, row: int, col: int): (r: (int, int))
    requires Valid(board) && InBounds(board, Pos(row, col))
    requires OptAt(board, row, col) != '*' && OptAt(board, row, col) != '^'
    ensures r.1 != goalValue ==> OptAt(board, row, col) in {'a', 'b'}
    ensures r.0 != pathSum ==> OptAt(board, row, col) in {'+', '-'}
  {
    var opt := OptAt(board, row, col);
    var amount := NumberAt(board, row, col);
    if opt == '+' then (pathSum - amount, goalValue)
    else if opt == '-' then (pathSum + amount, goalValue)
    else if opt == 'a' then (pathSum, goalValue - amount)
    else if opt == 'b' then (pathSum, goalValue + amount)
    else (pathSum, goalValue)
  }

  /** With costs off, reversing a forward step restores both values. */
  lemma ReversedUndoesForward(board: Board, pathSum: int, goalValue: int, row: int, col: int)
    requires Valid(board) && InBounds(board, Pos(row, col))
    requires OptAt(board, row, col) != '*' && OptAt(board, row, col) != '^'
    ensures var v := CalOpt(board, false, pathSum, goalValue, row, col);
            CalReversedOpt(board, v.0, v.1, row, col) == (pathSum, goalValue)
  {
  }

  /** And the other way round: a forward step undoes a reversed one. */
  lemma ForwardUndoesReversed(board: Board, pathSum: int, goalValue: int, row: int, col: int)
    requires Valid(board) && InBounds(board, Pos(row, col))
    requires OptAt(board, row, col) != '*' && OptAt(board, row, col) != '^'
    ensures var v := CalReversedOpt(board, pathSum, goalValue, row, col);
            CalOpt(board, false, v.0, v.1, row, col) == (pathSum, goalValue)
  {
  }

  /** Charging costs lowers the forward path value by exactly the square's cost and changes nothing else. */
  lemma CostOnlyLowersPathValue(board: Board, pathSum: int, goalValue: int, row: int, col: int)
    requires Valid(board) && InBounds(board, Pos(row, col)) && OptAt(board, row, col) != 'w'
    ensures OptAt(board, row, col) in Costs
    ensures CalOpt(board, true, pathSum, goalValue, row, col)
         == (CalOpt(board, false, pathSum, goalValue, row, col).0 - Costs[OptAt(board, row, col)],
             CalOpt(board, false, pathSum, goalValue, row, col).1)
  {
  }

  /** The reverse step does not give the cost back: with costs on, the round trip is short by the cost. */
  lemma CostSurvivesReversal(board: Board, pathSum: int, goalValue: int, row: int, col: int)
    requires Valid(board) && InBounds(board, Pos(row, col))
    requires OptAt(board, row, col) != '*' && OptAt(board, row, col) != '^' && OptAt(board, row, col) != 'w'
    ensures OptAt(board, row, col) in Costs
    ensures var v := CalOpt(board, true, pathSum, goalValue, row, col);
            CalReversedOpt(board, v.0, v.1, row, col) == (pathSum - Costs[OptAt(board, row, col)], goalValue)
  {
  }

  /** The operator of the square in the direction of travel (`isBackward` picks the reverse). */
  function Apply(cfg: Config, pathSum: int, goalValue: int, q: Pos): (v: (int, int))
    requires cfg.Wf() && InBounds(cfg.board, q) && OptAt(cfg.board, q.row, q.col) != 'w'
    ensures OptAt(cfg.board, q.row, q.col) !in {'a', 'b'} ==> v.1 == goalValue
    ensures OptAt(cfg.board, q.row, q.col) in {'a', 'b'} ==> v.0 == pathSum || (cfg.applyCost && !cfg.isBackward)
  {
    if cfg.isBackward then CalReversedOpt(cfg.board, pathSum, goalValue, q.row, q.col)
    else CalOpt(cfg.board, cfg.applyCost, pathSum, goalValue, q.row, q.col)
  }

  /** Backward mode never charges step costs: its step is the same with costs on or off. */
  lemma BackwardChargesNoCost(cfg: Config, pathSum: int, goalValue: int, q: Pos)
    requires cfg.Wf() && cfg.isBackward && InBounds(cfg.board, q) && OptAt(cfg.board, q.row, q.col) != 'w'
    ensures Apply(cfg, pathSum, goalValue, q) == Apply(cfg.(applyCost := !cfg.applyCost), pathSum, goalValue, q)
  {
  }

  /** The threshold test of `__check_goal`. */
  predicate GoalReached(isBackward: bool, pathValue: int, goalValue: int)
    ensures GoalReached(isBackward, pathValue, goalValue) <==> (pathValue > goalValue) != isBackward
  {
    (pathValue <= goalValue && isBackward) || (pathValue > goalValue && !isBackward)
  }

  /** The backward test is exactly the negation of the forward one. */
  lemma GoalTestsComplementary(pathValue: int, goalValue: int)
    ensures GoalReached(true, pathValue, goalValue) <==> !GoalReached(false, pathValue, goalValue)
    ensures GoalReached(false, pathValue, goalValue) <==> pathValue > goalValue
  {
  }

  /** A node on `end` that passes the goal test. */
  predicate IsGoalAt(cfg: Config, end: Pos, x: Node)
  {
    x.pos == end && GoalReached(cfg.isBackward, x.pathValue, x.goalValue)
  }

  /** The floor square root; `int(math.sqrt(x))` agrees with it for grid-sized x. */
  function ISqrt(x: nat): (r: nat)
    ensures r * r <= x < (r + 1) * (r + 1)
  {
    if x == 0 then 0
    else
      var s := ISqrt(x - 1);
      if (s + 1) * (s + 1) <= x then s + 1 else s
  }

  lemma SquaresOrdered(a: nat, b: nat)
    requires a < b
    ensures a * a < b * b
  {
    assert a * a <= a * b;
  }

  function Abs(x: int): nat
  {
    if x < 0 then -x else x
  }

  /** `__get_euclidean_heuristic_distance`: the floor of the straight-line distance to `goal`. */
  function Heuristic(goal: Pos, row: int, col: int): (h: nat)
    ensures var d := (goal.row - row) * (goal.row - row) + (goal.col - col) * (goal.col - col);
            h * h <= d < (h + 1) * (h + 1)
  {
    ISqrt((goal.row - row) * (goal.row - row) + (goal.col - col) * (goal.col - col))
  }

  lemma AbsSquare(x: int)
    ensures Abs(x) * Abs(x) == x * x
  {
  }

  /** A square below x bounds the root from below. */
  lemma ISqrtAtLeast(x: nat, a: nat)
    requires a * a <= x
    ensures a <= ISqrt(x)
  {
    var h := ISqrt(x);
    if h < a {
      if h + 1 < a { SquaresOrdered(h + 1, a); }
    }
  }

  /** A square above x bounds the root from above. */
  lemma ISqrtAtMost(x: nat, b: nat)
    requires x <= b * b
    ensures ISqrt(x) <= b
  {
    var h := ISqrt(x);
    if b < h { SquaresOrdered(b, h); }
  }

  lemma SumOfSquaresBetween(a: nat, b: nat)
    ensures a * a <= a * a + b * b <= (a + b) * (a + b)
    ensures b * b <= a * a + b * b
  {
    assert (a + b) * (a + b) == a * a + 2 * a * b + b * b;
  }

  /**
   * The heuristic lies between the larger coordinate difference and their
   * sum, and is zero exactly on the goal square.
   */
  lemma HeuristicBounds(goal: Pos, row: int, col: int)
    ensures Abs(goal.row - row) <= Heuristic(goal, row, col) <= Abs(goal.row - row) + Abs(goal.col - col)
    ensures Abs(goal.col - col) <= Heuristic(goal, row, col)
    ensures Heuristic(goal, row, col) == 0 <==> (row == goal.row && col == goal.col)
  {
    var dr, dc := Abs(goal.row - row), Abs(goal.col - col);
    var x := HeuristicIsRoot(goal, row, col);
    RootBounds(dr, dc, x);
  }

  /** The heuristic is the floor root of the sum of the squared coordinate differences, taken as absolute values. */
  lemma HeuristicIsRoot(goal: Pos, row: int, col: int) returns (x: nat)
    ensures x == Abs(goal.row - row) * Abs(goal.row - row) + Abs(goal.col - col) * Abs(goal.col - col)
    ensures Heuristic(goal, row, col) == ISqrt(x)
  {
    AbsSquare(goal.row - row);
    AbsSquare(goal.col - col);
    x := Abs(goal.row - row) * Abs(goal.row - row) + Abs(goal.col - col) * Abs(goal.col - col);
  }

  /** The floor root of x = a² + b² lies between the larger of a and b and their sum, and is 0 only when both are. */
  lemma RootBounds(a: nat, b: nat, x: nat)
    requires x == a * a + b * b
    ensures a <= ISqrt(x) <= a + b && b <= ISqrt(x)
    ensures ISqrt(x) == 0 <==> a == 0 && b == 0
  {
    SumOfSquaresBetween(a, b);
    ISqrtAtLeast(x, a);
    ISqrtAtLeast(x, b);
    ISqrtAtMost(x, a + b);
  }

  /** `__calculate_f_value`: the path value less the heuristic. */
  function FValue(goal: Pos, x: Node): (f: int)
    ensures f <= x.pathValue
    ensures x.pos == goal ==> f == x.pathValue
  {
    x.pathValue - Heuristic(goal, x.pos.row, x.pos.col)
  }

  /** The f-value never exceeds the path value, and equals it on the goal square. */
  lemma FValueBounds(goal: Pos, x: Node)
    ensures FValue(goal, x) <= x.pathValue
    ensures FValue(goal, x) == x.pathValue <==> x.pos == goal
  {
    HeuristicBounds(goal, x.pos.row, x.pos.col);
  }

  /** The rank of a neighbour in the order `__successor` tries them: up, left, down, right. */
  function Rank(p: Pos, q: Pos): nat
  {
    if q.row < p.row then 0 else if q.col < p.col then 1 else if q.row > p.row then 2 else 3
  }

  /**
   * The squares `__successor` moves to from p: the in-bounds neighbours that
   * are not walls, in the order up, left, down, right.
   */
  function NeighbourPositions(board: Board, p: Pos): (r: seq<Pos>)
    requires Valid(board) && InBounds(board, p)
    ensures |r| <= 4
    ensures forall i :: 0 <= i < |r| ==> InBounds(board, r[i]) && Adjacent(p, r[i]) && OptAt(board, r[i].row, r[i].col) != 'w'
  {
    Up(board, p) + Left(board, p) + Down(board, p) + Right(board, p)
  }

  /** The square above p, if there is one and it is not a wall. */
  function Up(board: Board, p: Pos): (r: seq<Pos>)
    requires Valid(board) && InBounds(board, p)
  {
    if p.row > 0 && OptAt(board, p.row - 1, p.col) != 'w' then [Pos(p.row - 1, p.col)] else []
  }

  function Left(board: Board, p: Pos): (r: seq<Pos>)
    requires Valid(board) && InBounds(board, p)
  {
    if p.col > 0 && OptAt(board, p.row, p.col - 1) != 'w' then [Pos(p.row, p.col - 1)] else []
  }

  function Down(board: Board, p: Pos): (r: seq<Pos>)
    requires Valid(board) && InBounds(board, p)
  {
    if p.row < board.m - 1 && OptAt(board, p.row + 1, p.col) != 'w' then [Pos(p.row + 1, p.col)] else []
  }

  function Right(board: Board, p: Pos): (r: seq<Pos>)
    requires Valid(board) && InBounds(board, p)
  {
    if p.col < board.n - 1 && OptAt(board, p.row, p.col + 1) != 'w' then [Pos(p.row, p.col + 1)] else []
  }

  /** Every admissible neighbour is among the successors. */
  lemma NeighboursComplete(board: Board, p: Pos, q: Pos)
    requires Valid(board) && InBounds(board, p)
    requires InBounds(board, q) && Adjacent(p, q) && OptAt(board, q.row, q.col) != 'w'
    ensures q in NeighbourPositions(board, p)
  {
    var up, left, down, right := Up(board, p), Left(board, p), Down(board, p), Right(board, p);
    assert NeighbourPositions(board, p) == up + left + down + right;
    if q.row == p.row - 1 {
      assert q in up;
    } else if q.col == p.col - 1 {
      assert q in left;
    } else if q.row == p.row + 1 {
      assert q in down;
    } else {
      assert q in right;
    }
  }

  /** The squares of qs strictly increase in rank around p. */
  predicate Ranked(p: Pos, qs: seq<Pos>)
  {
    forall i, j :: 0 <= i < j < |qs| ==> Rank(p, qs[i]) < Rank(p, qs[j])
  }

  lemma RankedConcat(p: Pos, a: seq<Pos>, b: seq<Pos>)
    requires Ranked(p, a) && Ranked(p, b)
    requires forall x, y :: x in a && y in b ==> Rank(p, x) < Rank(p, y)
    ensures Ranked(p, a + b)
  {
    forall i, j | 0 <= i < j < |a + b|
      ensures Rank(p, (a + b)[i]) < Rank(p, (a + b)[j])
    {
      if j < |a| {
        assert (a + b)[i] == a[i] && (a + b)[j] == a[j];
      } else if i >= |a| {
        assert (a + b)[i] == b[i - |a|] && (a + b)[j] == b[j - |a|];
      } else {
        assert (a + b)[i] in a && (a + b)[j] in b;
      }
    }
  }

  /** The successors come in the order up, left, down, right. */
  lemma NeighboursOrdered(board: Board, p: Pos)
    requires Valid(board) && InBounds(board, p)
    ensures Ranked(p, NeighbourPositions(board, p))
  {
    var up, left, down, right := Up(board, p), Left(board, p), Down(board, p), Right(board, p);
    assert forall x :: x in up ==> Rank(p, x) == 0;
    assert forall x :: x in left ==> Rank(p, x) == 1;
    assert forall x :: x in down ==> Rank(p, x) == 2;
    assert forall x :: x in right ==> Rank(p, x) == 3;
    RankedConcat(p, up, left);
    assert forall x :: x in up + left ==> Rank(p, x) <= 1;
    RankedConcat(p, up + left, down);
    assert forall x :: x in up + left + down ==> Rank(p, x) <= 2;
    RankedConcat(p, up + left + down, right);
  }

  /** The node reached by moving from x onto square q. */
  function Child(cfg: Config, x: Node, q: Pos): (y: Node)
    requires cfg.Wf() && InBounds(cfg.board, q) && OptAt(cfg.board, q.row, q.col) != 'w'
    ensures y.pos == q && y.trail == x.trail + [q]
    ensures OptAt(cfg.board, q.row, q.col) !in {'a', 'b'} ==> y.goalValue == x.goalValue
  {
    var v := Apply(cfg, x.pathValue, x.goalValue, q);
    Node(q, v.0, v.1, x.trail + [q])
  }

  /** The guard of the d-th `if` of `__successor` (0 up, 1 left, 2 down, 3 right): the square it admits, if any. */
  function Toward(board: Board, p: Pos, d: nat): (r: seq<Pos>)
    requires Valid(board) && InBounds(board, p) && d < 4
    ensures |r| <= 1
    ensures forall i :: 0 <= i < |r| ==> InBounds(board, r[i]) && Adjacent(p, r[i]) && OptAt(board, r[i].row, r[i].col) != 'w'
  {
    if d == 0 then Up(board, p) else if d == 1 then Left(board, p) else if d == 2 then Down(board, p) else Right(board, p)
  }

  /** The squares the first d guards of `__successor` admit, in order. */
  function TowardUpTo(board: Board, p: Pos, d: nat): (r: seq<Pos>)
    requires Valid(board) && InBounds(board, p) && d <= 4
    ensures |r| <= d
    ensures forall i :: 0 <= i < |r| ==> InBounds(board, r[i]) && OptAt(board, r[i].row, r[i].col) != 'w'
  {
    if d == 0 then [] else TowardUpTo(board, p, d - 1) + Toward(board, p, d - 1)
  }

  /** All four guards together admit exactly the squares NeighbourPositions lists. */
  lemma AllFourGuards(board: Board, p: Pos)
    requires Valid(board) && InBounds(board, p)
    ensures TowardUpTo(board, p, 4) == NeighbourPositions(board, p)
  {
    var up, left, down, right := Up(board, p), Left(board, p), Down(board, p), Right(board, p);
    assert TowardUpTo(board, p, 1) == up by {
      assert TowardUpTo(board, p, 0) == [];
      assert [] + up == up;
    }
    assert TowardUpTo(board, p, 2) == up + left;
    assert TowardUpTo(board, p, 3) == up + left + down;
  }

  /** What the d-th `if` of `__successor` contributes: the child on the square it admits, if any. */
  function ChildToward(cfg: Config, x: Node, d: nat): (r: seq<Node>)
    requires cfg.Wf() && InBounds(cfg.board, x.pos) && d < 4
    ensures |r| <= 1
    ensures forall i :: 0 <= i < |r| ==>
              InBounds(cfg.board, r[i].pos) && Adjacent(x.pos, r[i].pos) && r[i].trail == x.trail + [r[i].pos]
  {
    var qs := Toward(cfg.board, x.pos, d);
    if qs == [] then [] else [Child(cfg, x, qs[0])]
  }

  /** The successors of x that the first d `if`s of `__successor` produce. */
  function ExpandUpTo(cfg: Config, x: Node, d: nat): (r: seq<Node>)
    requires cfg.Wf() && InBounds(cfg.board, x.pos) && d <= 4
    ensures |r| <= d
    ensures forall i :: 0 <= i < |r| ==>
              InBounds(cfg.board, r[i].pos) && Adjacent(x.pos, r[i].pos) && r[i].trail == x.trail + [r[i].pos]
  {
    if d == 0 then [] else ExpandUpTo(cfg, x, d - 1) + ChildToward(cfg, x, d - 1)
  }

  /**
   * The successors of x as values: the children the four `if`s of
   * `__successor` produce, in order, each on a square next to x and one
   * square further along x's trail.
   */
  function Expand(cfg: Config, x: Node): (r: seq<Node>)
    requires cfg.Wf() && InBounds(cfg.board, x.pos)
    ensures |r| <= 4
    ensures forall i :: 0 <= i < |r| ==>
              InBounds(cfg.board, r[i].pos) && Adjacent(x.pos, r[i].pos) && r[i].trail == x.trail + [r[i].pos]
  {
    ExpandUpTo(cfg, x, 4)
  }

  /** The first d guards produce one child per square they admit, on that square. */
  lemma {:induction false} ChildrenAlongGuards(cfg: Config, x: Node, d: nat)
    requires cfg.Wf() && InBounds(cfg.board, x.pos) && d <= 4
    ensures |ExpandUpTo(cfg, x, d)| == |TowardUpTo(cfg.board, x.pos, d)|
    ensures forall i :: 0 <= i < |ExpandUpTo(cfg, x, d)| ==>
              ExpandUpTo(cfg, x, d)[i] == Child(cfg, x, TowardUpTo(cfg.board, x.pos, d)[i])
  {
    if d > 0 {
      ChildrenAlongGuards(cfg, x, d - 1);
    }
  }

  /** The successors are the children of x on the squares NeighbourPositions lists, one each, in the same order. */
  lemma ExpandFollowsNeighbours(cfg: Config, x: Node)
    requires cfg.Wf() && InBounds(cfg.board, x.pos)
    ensures |Expand(cfg, x)| == |NeighbourPositions(cfg.board, x.pos)|
    ensures forall i :: 0 <= i < |Expand(cfg, x)| ==>
              Expand(cfg, x)[i] == Child(cfg, x, NeighbourPositions(cfg.board, x.pos)[i])
  {
    ChildrenAlongGuards(cfg, x, 4);
    AllFourGuards(cfg.board, x.pos);
  }
}
