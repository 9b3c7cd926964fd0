/**
 * Reference definitions, on values, of what the search drivers compute:
 * which node (if any) passes the goal test, and the sequence of nodes each
 * driver appends to `explored` on the way. The imperative drivers in module
 * Find are proved to agree with these.
 */
module FindSpec {
  import opened Grid
  import opened Cells
  import opened Seqs
  import opened FindRules

  /**
   * How a search ends: with the node whose goal test succeeded (its trail is
   * the path that gets printed), with no solution, or out of fuel.
   */
  datatype Outcome = Solved(last: Node) | NoSolution | OutOfFuel

  /** A search's outcome and the nodes it appended to `explored`, in order. */
  datatype Run = Run(outcome: Outcome, trace: seq<Node>)

  /** A run that first appends `done` to `explored` and then goes on as r. */
  function After(done: seq<Node>, r: Run): Run
  {
    Run(r.outcome, done + r.trace)
  }

  /** Appending two stretches one after the other is appending both at once. */
  lemma AfterAfter(a: seq<Node>, b: seq<Node>, r: Run)
    ensures After(a, After(b, r)) == After(a + b, r)
  {
    assert a + (b + r.trace) == (a + b) + r.trace;
  }


  /** Nothing before a run leaves it as it is. */
  lemma AfterStart(r: Run)
    ensures After([], r) == r
  {
    assert [] + r.trace == r.trace;
  }

  /** The path a run reports: the trail of the node whose goal test succeeded, if any. */
  function Reported(o: Outcome): Option<seq<Pos>>
  {
    if o.Solved? then Some(o.last.trail) else None
  }

  /** A run that appends nothing and finds nothing adds nothing after `done`. */
  lemma AfterNothing(done: seq<Node>)
    ensures After(done, Run(NoSolution, [])) == Run(NoSolution, done)
  {
    assert done + [] == done;
  }

  /**
   * The node a driver starts from: on `start`, with the start square's
   * operand as its path value, the end square's operand as its goal value,
   * and the given trail.
   */
  function StartNode(b: Board, start: Pos, end: Pos, trail: seq<Pos>): (x: Node)
    requires Valid(b) && InBounds(b, start) && InBounds(b, end)
    ensures x.pos == start && x.trail == trail
    ensures Token(b.cells[start.row][start.col].op, x.pathValue) == b.cells[start.row][start.col]
    ensures Token(b.cells[end.row][end.col].op, x.goalValue) == b.cells[end.row][end.col]
  {
    Node(start, NumberAt(b, start.row, start.col), NumberAt(b, end.row, end.col), trail)
  }

  function Max0(d: int): nat
  {
    if d > 0 then d else 0
  }

  // Depth-limited search (`dls`) and iterative deepening (`iddfs`)

  /**
   * `dls` on values: visit x; succeed if x stands on the goal square and
   * passes the goal test; otherwise, while depth remains, search each
   * successor in turn with one less depth and stop at the first success.
   */
  function DepthLimited(cfg: Config, goal: Pos, x: Node, maxDepth: int): (r: Run)
    requires cfg.Wf() && InBounds(cfg.board, x.pos)
    decreases Max0(maxDepth), 0, 0
    ensures r.trace != [] && r.trace[0] == x
    ensures r.outcome != OutOfFuel
    ensures r.outcome.Solved? ==> IsGoalAt(cfg, goal, r.outcome.last) && r.trace[|r.trace| - 1] == r.outcome.last
  {
    if x.pos == goal && GoalReached(cfg.isBackward, x.pathValue, x.goalValue) then Run(Solved(x), [x])
    else if maxDepth <= 0 then Run(NoSolution, [x])
    else
      var rest := DepthLimitedFrom(cfg, goal, x, 0, maxDepth - 1);
      Run(rest.outcome, [x] + rest.trace)
  }

  /**
   * The `for c in neighbors` loop of `dls` from the k-th successor of
   * parent on: search each in order with the given depth, stopping at the
   * first success.
   */
  function DepthLimitedFrom(cfg: Config, goal: Pos, parent: Node, k: nat, depth: nat): (r: Run)
    requires cfg.Wf() && InBounds(cfg.board, parent.pos) && k <= |Expand(cfg, parent)|
    decreases depth, 1, |Expand(cfg, parent)| - k
    ensures r.outcome != OutOfFuel
    ensures r.outcome.Solved? ==>
              IsGoalAt(cfg, goal, r.outcome.last) && r.trace != [] && r.trace[|r.trace| - 1] == r.outcome.last
  {
    var xs := Expand(cfg, parent);
    if k == |xs| then Run(NoSolution, [])
    else
      var first := DepthLimited(cfg, goal, xs[k], depth);
      if first.outcome.Solved? then first
      else
        var rest := DepthLimitedFrom(cfg, goal, parent, k + 1, depth);
        Run(rest.outcome, first.trace + rest.trace)
  }

  /** One call of `dls` on a node that passes the goal test reports it and visits nothing else. */
  lemma DepthLimitedAtGoal(cfg: Config, goal: Pos, x: Node, maxDepth: int)
    requires cfg.Wf() && InBounds(cfg.board, x.pos) && IsGoalAt(cfg, goal, x)
    ensures DepthLimited(cfg, goal, x, maxDepth) == Run(Solved(x), [x])
  {
  }

  /** Otherwise, with no depth left, it visits x alone and finds nothing. */
  lemma DepthLimitedAtLeaf(cfg: Config, goal: Pos, x: Node, maxDepth: int)
    requires cfg.Wf() && InBounds(cfg.board, x.pos) && !IsGoalAt(cfg, goal, x) && maxDepth <= 0
    ensures DepthLimited(cfg, goal, x, maxDepth) == Run(NoSolution, [x])
  {
  }

  /**
   * Otherwise it visits x and then runs the loop over x's successors with
   * one less depth: appending x and then what that loop appends is
   * appending what the call appends.
   */
  lemma DepthLimitedInside(cfg: Config, goal: Pos, x: Node, maxDepth: int, before: seq<Node>, mid: seq<Node>, t: seq<Node>)
    requires cfg.Wf() && InBounds(cfg.board, x.pos) && !IsGoalAt(cfg, goal, x) && maxDepth > 0
    requires mid == before + [x] && t == mid + DepthLimitedFrom(cfg, goal, x, 0, maxDepth - 1).trace
    ensures t == before + DepthLimited(cfg, goal, x, maxDepth).trace
    ensures DepthLimited(cfg, goal, x, maxDepth).outcome == DepthLimitedFrom(cfg, goal, x, 0, maxDepth - 1).outcome
  {
    AppendAssoc(before, [x], DepthLimitedFrom(cfg, goal, x, 0, maxDepth - 1).trace);
  }

  /** One step of the `for c in neighbors` loop of `dls`: a successful k-th successor ends it. */
  lemma DepthLimitedFromHit(cfg: Config, goal: Pos, parent: Node, k: nat, depth: nat)
    requires cfg.Wf() && InBounds(cfg.board, parent.pos) && k < |Expand(cfg, parent)|
    requires DepthLimited(cfg, goal, Expand(cfg, parent)[k], depth).outcome.Solved?
    ensures DepthLimitedFrom(cfg, goal, parent, k, depth) == DepthLimited(cfg, goal, Expand(cfg, parent)[k], depth)
  {
  }

  /** Otherwise the loop goes on with the successor after it. */
  lemma DepthLimitedFromMiss(cfg: Config, goal: Pos, parent: Node, k: nat, depth: nat)
    requires cfg.Wf() && InBounds(cfg.board, parent.pos) && k < |Expand(cfg, parent)|
    requires !DepthLimited(cfg, goal, Expand(cfg, parent)[k], depth).outcome.Solved?
    ensures DepthLimitedFrom(cfg, goal, parent, k, depth) ==
              After(DepthLimited(cfg, goal, Expand(cfg, parent)[k], depth).trace, DepthLimitedFrom(cfg, goal, parent, k + 1, depth))
  {
  }

  /** The loop of `dls` past the last successor finds nothing and visits nothing. */
  lemma DepthLimitedFromEnd(cfg: Config, goal: Pos, parent: Node, depth: nat)
    requires cfg.Wf() && InBounds(cfg.board, parent.pos)
    ensures DepthLimitedFrom(cfg, goal, parent, |Expand(cfg, parent)|, depth) == Run(NoSolution, [])
  {
  }

  /** Once the depth is used up, `dls` visits x and expands nothing. */
  lemma NoExpansionWithoutDepth(cfg: Config, goal: Pos, x: Node, maxDepth: int)
    requires cfg.Wf() && InBounds(cfg.board, x.pos) && maxDepth <= 0
    ensures DepthLimited(cfg, goal, x, maxDepth).trace == [x]
    ensures DepthLimited(cfg, goal, x, maxDepth).outcome.Solved? <==> IsGoalAt(cfg, goal, x)
  {
  }

  /** Every node `dls` visits lies at most maxDepth squares further along than the node it started from. */
  lemma {:induction false} DepthLimitedBound(cfg: Config, goal: Pos, x: Node, maxDepth: int)
    requires cfg.Wf() && InBounds(cfg.board, x.pos)
    decreases Max0(maxDepth), 0, 0
    ensures forall y :: y in DepthLimited(cfg, goal, x, maxDepth).trace ==>
              |x.trail| <= |y.trail| <= |x.trail| + Max0(maxDepth)
  {
    if x.pos == goal && GoalReached(cfg.isBackward, x.pathValue, x.goalValue) {
    } else if maxDepth <= 0 {
    } else {
      DepthLimitedFromBound(cfg, goal, x, 0, maxDepth - 1);
    }
  }

  lemma {:induction false} DepthLimitedFromBound(cfg: Config, goal: Pos, parent: Node, k: nat, depth: nat)
    requires cfg.Wf() && InBounds(cfg.board, parent.pos) && k <= |Expand(cfg, parent)|
    decreases depth, 1, |Expand(cfg, parent)| - k
    ensures forall y :: y in DepthLimitedFrom(cfg, goal, parent, k, depth).trace ==>
              |parent.trail| < |y.trail| <= |parent.trail| + 1 + depth
  {
    var xs := Expand(cfg, parent);
    if k < |xs| {
      DepthLimitedBound(cfg, goal, xs[k], depth);
      if !DepthLimited(cfg, goal, xs[k], depth).outcome.Solved? {
        DepthLimitedFromBound(cfg, goal, parent, k + 1, depth);
      }
    }
  }

  /** `iddfs` on values: run `dls` from root with depth i, i+1, ..., maxDepth-1 and stop at the first success. */
  function Deepening(cfg: Config, goal: Pos, root: Node, i: nat, maxDepth: int): (r: Run)
    requires cfg.Wf() && InBounds(cfg.board, root.pos)
    decreases maxDepth - i
    ensures r.outcome != OutOfFuel
    ensures r.outcome.Solved? ==> IsGoalAt(cfg, goal, r.outcome.last) && r.trace != [] && r.trace[|r.trace| - 1] == r.outcome.last
  {
    if i >= maxDepth then Run(NoSolution, [])
    else
      var attempt := DepthLimited(cfg, goal, root, i);
      if attempt.outcome.Solved? then attempt
      else
        var rest := Deepening(cfg, goal, root, i + 1, maxDepth);
        Run(rest.outcome, attempt.trace + rest.trace)
  }

  /** A round of iterative deepening whose `dls` succeeds ends the search with that run. */
  lemma DeepeningHit(cfg: Config, goal: Pos, root: Node, i: nat, maxDepth: int)
    requires cfg.Wf() && InBounds(cfg.board, root.pos) && i < maxDepth
    requires DepthLimited(cfg, goal, root, i).outcome.Solved?
    ensures Deepening(cfg, goal, root, i, maxDepth) == DepthLimited(cfg, goal, root, i)
  {
  }

  /**
   * When the round with depth bound i succeeds after the earlier rounds
   * appended acc, everything appended since `before` is what iterative
   * deepening appends, and the last node appended is the one it reports.
   */
  lemma DeepeningFound(cfg: Config, goal: Pos, root: Node, i: nat, maxDepth: int, whole: Run,
                       before: seq<Node>, acc: seq<Node>, t: seq<Node>)
    requires cfg.Wf() && InBounds(cfg.board, root.pos) && i < maxDepth
    requires Reported(DepthLimited(cfg, goal, root, i).outcome).Some?
    requires whole == After(acc, Deepening(cfg, goal, root, i, maxDepth))
    requires t == (before + acc) + DepthLimited(cfg, goal, root, i).trace
    ensures t == before + whole.trace
    ensures Reported(whole.outcome) == Reported(DepthLimited(cfg, goal, root, i).outcome)
  {
    DeepeningHit(cfg, goal, root, i, maxDepth);
    AppendAssoc(before, acc, DepthLimited(cfg, goal, root, i).trace);
  }

  /** Otherwise the search goes on with the next depth bound after what this round appended. */
  lemma DeepeningMiss(cfg: Config, goal: Pos, root: Node, i: nat, maxDepth: int)
    requires cfg.Wf() && InBounds(cfg.board, root.pos) && i < maxDepth
    requires !DepthLimited(cfg, goal, root, i).outcome.Solved?
    ensures Deepening(cfg, goal, root, i, maxDepth) ==
              After(DepthLimited(cfg, goal, root, i).trace, Deepening(cfg, goal, root, i + 1, maxDepth))
  {
  }

  /**
   * The branch of the `iddfs` loop where the search with bound i fails:
   * what it appended joins acc and the loop goes on with bound j = i + 1.
   */
  lemma DeepeningNext(cfg: Config, goal: Pos, root: Node, i: nat, j: nat, maxDepth: int, whole: Run, acc: seq<Node>)
    requires cfg.Wf() && InBounds(cfg.board, root.pos) && i < maxDepth && j == i + 1
    requires Reported(DepthLimited(cfg, goal, root, i).outcome).None?
    requires whole == After(acc, Deepening(cfg, goal, root, i, maxDepth))
    ensures whole == After(acc + DepthLimited(cfg, goal, root, i).trace, Deepening(cfg, goal, root, j, maxDepth))
  {
    var r := DepthLimited(cfg, goal, root, i);
    DeepeningMiss(cfg, goal, root, i, maxDepth);
    AfterAfter(acc, r.trace, Deepening(cfg, goal, root, j, maxDepth));
  }

  /** The outcome of `dls` with depth bound d, whose trail is at most d squares longer than the root's on success. */
  lemma SolvedWithinDepth(cfg: Config, goal: Pos, root: Node, d: nat)
    requires cfg.Wf() && InBounds(cfg.board, root.pos)
    requires DepthLimited(cfg, goal, root, d).outcome.Solved?
    ensures |DepthLimited(cfg, goal, root, d).outcome.last.trail| <= |root.trail| + d
  {
    var r := DepthLimited(cfg, goal, root, d);
    DepthLimitedBound(cfg, goal, root, d);
    assert r.outcome.last == r.trace[|r.trace| - 1];
  }

  /** d is the smallest depth bound from i on that makes `dls` succeed, and o is what it reports. */
  ghost predicate FirstSuccessAt(cfg: Config, goal: Pos, root: Node, i: nat, d: int, o: Outcome)
    requires cfg.Wf() && InBounds(cfg.board, root.pos)
  {
    && i <= d
    && DepthLimited(cfg, goal, root, d).outcome == o
    && o.Solved?
    && |o.last.trail| <= |root.trail| + d
    && (forall e :: i <= e < d ==> DepthLimited(cfg, goal, root, e).outcome == NoSolution)
  }

  /**
   * When iterative deepening succeeds, it reports what the smallest
   * succeeding depth bound d finds, every smaller bound finds nothing, and
   * the reported node's trail is at most d squares longer than the root's.
   */
  lemma {:induction false} DeepeningFirstSuccess(cfg: Config, goal: Pos, root: Node, i: nat, maxDepth: int)
    requires cfg.Wf() && InBounds(cfg.board, root.pos)
    decreases maxDepth - i
    ensures Deepening(cfg, goal, root, i, maxDepth).outcome.Solved? ==>
              exists d :: d < maxDepth && FirstSuccessAt(cfg, goal, root, i, d, Deepening(cfg, goal, root, i, maxDepth).outcome)
  {
    if i < maxDepth {
      var attempt := DepthLimited(cfg, goal, root, i);
      if attempt.outcome.Solved? {
        SolvedWithinDepth(cfg, goal, root, i);
        assert FirstSuccessAt(cfg, goal, root, i, i, attempt.outcome);
      } else {
        DeepeningFirstSuccess(cfg, goal, root, i + 1, maxDepth);
        var o := Deepening(cfg, goal, root, i + 1, maxDepth).outcome;
        assert Deepening(cfg, goal, root, i, maxDepth).outcome == o;
        if o.Solved? {
          var d :| d < maxDepth && FirstSuccessAt(cfg, goal, root, i + 1, d, o);
          assert FirstSuccessAt(cfg, goal, root, i, d, o);
        }
      }
    }
  }

  /** One round of iterative deepening: the attempt at depth i decides, or the rounds after it do. */
  lemma DeepeningStep(cfg: Config, goal: Pos, root: Node, i: nat, maxDepth: int)
    requires cfg.Wf() && InBounds(cfg.board, root.pos) && i < maxDepth
    ensures Deepening(cfg, goal, root, i, maxDepth).outcome ==
              if DepthLimited(cfg, goal, root, i).outcome.Solved? then DepthLimited(cfg, goal, root, i).outcome
              else Deepening(cfg, goal, root, i + 1, maxDepth).outcome
  {
  }

  /** If some depth bound from i up to maxDepth makes `dls` succeed, iterative deepening succeeds. */
  lemma {:induction false} DeepeningComplete(cfg: Config, goal: Pos, root: Node, i: nat, maxDepth: int, d: int)
    requires cfg.Wf() && InBounds(cfg.board, root.pos)
    requires i <= d < maxDepth && DepthLimited(cfg, goal, root, d).outcome.Solved?
    decreases d - i
    ensures Deepening(cfg, goal, root, i, maxDepth).outcome.Solved?
  {
    DeepeningStep(cfg, goal, root, i, maxDepth);
    if !DepthLimited(cfg, goal, root, i).outcome.Solved? {
      DeepeningComplete(cfg, goal, root, i + 1, maxDepth, d);
    }
  }

  /** Raising the depth ceiling does not change a search that already succeeds. */
  lemma {:induction false} DeepeningStable(cfg: Config, goal: Pos, root: Node, i: nat, maxDepth: int, larger: int)
    requires cfg.Wf() && InBounds(cfg.board, root.pos)
    requires maxDepth <= larger
    requires Deepening(cfg, goal, root, i, maxDepth).outcome.Solved?
    decreases maxDepth - i
    ensures Deepening(cfg, goal, root, i, larger) == Deepening(cfg, goal, root, i, maxDepth)
  {
    if !DepthLimited(cfg, goal, root, i).outcome.Solved? {
      DeepeningStable(cfg, goal, root, i + 1, maxDepth, larger);
    }
  }

  // Greedy walk (`a_star`)

  /** The first of xs that stands on `end` and passes the goal test. */
  function FirstGoal(cfg: Config, end: Pos, xs: seq<Node>): (r: Option<Node>)
    ensures r.Some? ==> IsGoalAt(cfg, end, r.value)
  {
    if xs == [] then None
    else if IsGoalAt(cfg, end, xs[0]) then Some(xs[0])
    else FirstGoal(cfg, end, xs[1..])
  }

  /** The first goal is one of xs and passes the goal test; there is none only when no node of xs passes it. */
  lemma {:induction false} FirstGoalSound(cfg: Config, end: Pos, xs: seq<Node>)
    ensures FirstGoal(cfg, end, xs).Some? ==>
              FirstGoal(cfg, end, xs).value in xs && IsGoalAt(cfg, end, FirstGoal(cfg, end, xs).value)
    ensures FirstGoal(cfg, end, xs).None? ==> forall y :: y in xs ==> !IsGoalAt(cfg, end, y)
  {
    if xs != [] && !IsGoalAt(cfg, end, xs[0]) {
      FirstGoalSound(cfg, end, xs[1..]);
      assert forall y :: y in xs ==> y == xs[0] || y in xs[1..];
    }
  }

  /** Skipping a prefix with no goal in it does not change the first goal. */
  lemma {:induction false} FirstGoalSkip(cfg: Config, end: Pos, xs: seq<Node>, k: nat)
    requires k <= |xs|
    requires forall j :: 0 <= j < k ==> !IsGoalAt(cfg, end, xs[j])
    ensures FirstGoal(cfg, end, xs) == FirstGoal(cfg, end, xs[k..])
  {
    if k > 0 {
      assert xs[1..][k - 1..] == xs[k..];
      FirstGoalSkip(cfg, end, xs[1..], k - 1);
    }
  }

  /** The best neighbour so far and its f-value, as the `a_star` scan keeps them. */
  datatype Best = Best(node: Option<Node>, f: int)

  /**
   * The scan of `a_star` over its neighbours: starting from no neighbour and
   * f = 0, take each neighbour whose f-value is at least the best so far.
   */
  function BestOf(goal: Pos, xs: seq<Node>): (r: Best)
    decreases |xs|
    ensures r.node.None? ==> r.f == 0
    ensures r.node.Some? ==> r.f == FValue(goal, r.node.value)
  {
    if xs == [] then Best(None, 0)
    else
      var prev := BestOf(goal, xs[..|xs| - 1]);
      var y := xs[|xs| - 1];
      if FValue(goal, y) >= prev.f then Best(Some(y), FValue(goal, y)) else prev
  }

  /** The scan's pick is one of xs and its f-value is the one kept; with no pick the kept value is 0. */
  lemma {:induction false} BestOfSound(goal: Pos, xs: seq<Node>)
    decreases |xs|
    ensures BestOf(goal, xs).node.Some? ==>
              BestOf(goal, xs).node.value in xs && FValue(goal, BestOf(goal, xs).node.value) == BestOf(goal, xs).f
    ensures BestOf(goal, xs).node.None? ==> BestOf(goal, xs).f == 0
  {
    if xs != [] {
      var init := xs[..|xs| - 1];
      BestOfSound(goal, init);
      assert forall y :: y in init ==> y in xs;
    }
  }

  /** xs[i] has the largest f-value in xs, a non-negative one, and every later node's is smaller. */
  ghost predicate LastMaximal(goal: Pos, xs: seq<Node>, i: int)
  {
    && 0 <= i < |xs|
    && FValue(goal, xs[i]) >= 0
    && (forall j :: 0 <= j < |xs| ==> FValue(goal, xs[j]) <= FValue(goal, xs[i]))
    && (forall j :: i < j < |xs| ==> FValue(goal, xs[j]) < FValue(goal, xs[i]))
  }

  /**
   * The scan picks the last neighbour of maximal f-value among those with a
   * non-negative f-value, and nothing when every f-value is negative.
   */
  lemma {:induction false} BestIsLastMaximal(goal: Pos, xs: seq<Node>)
    ensures BestOf(goal, xs).node.None? <==> forall j :: 0 <= j < |xs| ==> FValue(goal, xs[j]) < 0
    ensures BestOf(goal, xs).node.Some? ==>
              exists i :: LastMaximal(goal, xs, i) && xs[i] == BestOf(goal, xs).node.value
    decreases |xs|
  {
    if xs != [] {
      var init := xs[..|xs| - 1];
      BestIsLastMaximal(goal, init);
      BestOfSound(goal, init);
      var prev := BestOf(goal, init);
      var y := xs[|xs| - 1];
      if FValue(goal, y) >= prev.f {
        if prev.node.Some? {
          var i :| LastMaximal(goal, init, i) && init[i] == prev.node.value;
          MaximalBelow(goal, init, i, prev.f);
        }
        LastIsMaximal(goal, xs, init, prev.f);
      } else if prev.node.Some? {
        var i :| LastMaximal(goal, init, i) && init[i] == prev.node.value;
        MaximalKept(goal, xs, init, i);
      }
    }
  }

  /** A last maximal node's f-value bounds every f-value of xs. */
  lemma MaximalBelow(goal: Pos, xs: seq<Node>, i: int, f: int)
    requires LastMaximal(goal, xs, i) && FValue(goal, xs[i]) == f
    ensures f >= 0 && forall j :: 0 <= j < |xs| ==> FValue(goal, xs[j]) <= f
  {
  }

  /** A last node whose f-value is non-negative and reaches every earlier one's is the last maximal one. */
  lemma LastIsMaximal(goal: Pos, xs: seq<Node>, init: seq<Node>, f: int)
    requires xs != [] && init == xs[..|xs| - 1] && 0 <= f <= FValue(goal, xs[|xs| - 1])
    requires forall j :: 0 <= j < |init| ==> FValue(goal, init[j]) <= f
    ensures LastMaximal(goal, xs, |xs| - 1)
  {
    assert forall j :: 0 <= j < |init| ==> init[j] == xs[j];
  }

  /** A last node below the maximum of the others leaves the last maximal node where it was. */
  lemma MaximalKept(goal: Pos, xs: seq<Node>, init: seq<Node>, i: int)
    requires xs != [] && init == xs[..|xs| - 1] && LastMaximal(goal, init, i)
    requires FValue(goal, xs[|xs| - 1]) < FValue(goal, init[i])
    ensures LastMaximal(goal, xs, i)
  {
    assert forall j :: 0 <= j < |init| ==> init[j] == xs[j];
  }

  /** None of the first k nodes of xs stands on `end` and passes the goal test. */
  ghost predicate NoGoalIn(cfg: Config, end: Pos, xs: seq<Node>, k: nat)
    requires k <= |xs|
  {
    forall j :: 0 <= j < k ==> !IsGoalAt(cfg, end, xs[j])
  }

  /** The scan of `a_star` meets its first goal at xs[k]: that is the first goal of xs. */
  lemma ScanHit(cfg: Config, end: Pos, xs: seq<Node>, k: nat, y: Node)
    requires k < |xs| && NoGoalIn(cfg, end, xs, k) && xs[k] == y && IsGoalAt(cfg, end, y)
    ensures FirstGoal(cfg, end, xs) == Some(y)
  {
    FirstGoalSkip(cfg, end, xs, k);
  }

  /** Otherwise the scan takes xs[k] into the best so far. */
  lemma ScanStep(cfg: Config, end: Pos, xs: seq<Node>, k: nat, y: Node, best: Option<Node>, f: int)
    requires k < |xs| && NoGoalIn(cfg, end, xs, k) && xs[k] == y && !IsGoalAt(cfg, end, y)
    requires BestOf(end, xs[..k]) == Best(best, f)
    ensures NoGoalIn(cfg, end, xs, k + 1)
    ensures BestOf(end, xs[..k + 1]) == if FValue(end, y) >= f then Best(Some(y), FValue(end, y)) else Best(best, f)
  {
    assert xs[..k + 1][..k] == xs[..k];
  }

  /** A scan past the last node met no goal and took every node into the best. */
  lemma ScanEnd(cfg: Config, end: Pos, xs: seq<Node>)
    requires NoGoalIn(cfg, end, xs, |xs|)
    ensures FirstGoal(cfg, end, xs) == None
    ensures BestOf(end, xs[..|xs|]) == BestOf(end, xs)
  {
    FirstGoalSkip(cfg, end, xs, |xs|);
    assert xs[..|xs|] == xs;
  }

  /**
   * `a_star` on values: from x, stop at the first neighbour that stands on
   * the goal square and passes the goal test; otherwise move to the best
   * neighbour (BestOf) and go on, or give up when there is none. Each step
   * uses one unit of fuel.
   */
  function GreedyWalk(cfg: Config, goal: Pos, x: Node, fuel: nat): (r: Run)
    requires cfg.Wf() && InBounds(cfg.board, x.pos)
    decreases fuel
    ensures |r.trace| <= fuel
    ensures r.outcome == OutOfFuel ==> |r.trace| == fuel
    ensures r.outcome.Solved? ==> IsGoalAt(cfg, goal, r.outcome.last)
  {
    if fuel == 0 then Run(OutOfFuel, [])
    else
      var xs := Expand(cfg, x);
      match FirstGoal(cfg, goal, xs)
      case Some(y) => FirstGoalSound(cfg, goal, xs); Run(Solved(y), [x])
      case None =>
        BestOfSound(goal, xs);
        match BestOf(goal, xs).node
        case None => Run(NoSolution, [x])
        case Some(b) =>
          var w := GreedyWalk(cfg, goal, b, fuel - 1);
          Run(w.outcome, [x] + w.trace)
  }

  /**
   * A walk that reached x after appending acc, where a neighbour y of x
   * passes the goal test: it ends by reporting y, and everything appended
   * since `before` is what the whole walk appends.
   */
  lemma GreedyFound(cfg: Config, goal: Pos, x0: Node, fuel: nat, x: Node, left: nat, acc: seq<Node>,
                    before: seq<Node>, t: seq<Node>, y: Node)
    requires cfg.Wf() && InBounds(cfg.board, x0.pos) && InBounds(cfg.board, x.pos) && left > 0
    requires GreedyWalk(cfg, goal, x0, fuel) == After(acc, GreedyWalk(cfg, goal, x, left))
    requires FirstGoal(cfg, goal, Expand(cfg, x)) == Some(y)
    requires t == (before + acc) + [x]
    ensures t == before + GreedyWalk(cfg, goal, x0, fuel).trace
    ensures Reported(GreedyWalk(cfg, goal, x0, fuel).outcome) == Some(y.trail)
  {
    AppendAssoc(before, acc, [x]);
  }

  /** Otherwise the walk moves on to the best neighbour b, one unit of fuel later. */
  lemma GreedyMove(cfg: Config, goal: Pos, x0: Node, fuel: nat, x: Node, left: nat, acc: seq<Node>, b: Node)
    requires cfg.Wf() && InBounds(cfg.board, x0.pos) && InBounds(cfg.board, x.pos) && left > 0
    requires GreedyWalk(cfg, goal, x0, fuel) == After(acc, GreedyWalk(cfg, goal, x, left))
    requires FirstGoal(cfg, goal, Expand(cfg, x)) == None && BestOf(goal, Expand(cfg, x)).node == Some(b)
    ensures InBounds(cfg.board, b.pos)
    ensures GreedyWalk(cfg, goal, x0, fuel) == After(acc + [x], GreedyWalk(cfg, goal, b, left - 1))
  {
    BestOfSound(goal, Expand(cfg, x));
    AfterAfter(acc, [x], GreedyWalk(cfg, goal, b, left - 1));
  }

  /** Or, with no neighbour of non-negative f-value, it ends with no solution. */
  lemma GreedyStuck(cfg: Config, goal: Pos, x0: Node, fuel: nat, x: Node, left: nat, acc: seq<Node>)
    requires cfg.Wf() && InBounds(cfg.board, x0.pos) && InBounds(cfg.board, x.pos) && left > 0
    requires GreedyWalk(cfg, goal, x0, fuel) == After(acc, GreedyWalk(cfg, goal, x, left))
    requires FirstGoal(cfg, goal, Expand(cfg, x)) == None && BestOf(goal, Expand(cfg, x)).node == None
    ensures GreedyWalk(cfg, goal, x0, fuel) == After(acc + [x], Run(NoSolution, []))
  {
    AfterAfter(acc, [x], Run(NoSolution, []));
  }

  /** A walk with no fuel left appends nothing and runs out of fuel. */
  lemma GreedyExhausted(cfg: Config, goal: Pos, x0: Node, fuel: nat, x: Node, acc: seq<Node>)
    requires cfg.Wf() && InBounds(cfg.board, x0.pos) && InBounds(cfg.board, x.pos)
    requires GreedyWalk(cfg, goal, x0, fuel) == After(acc, GreedyWalk(cfg, goal, x, 0))
    ensures GreedyWalk(cfg, goal, x0, fuel) == Run(OutOfFuel, acc)
  {
    AppendEmpty(acc);
  }

  // Breadth-first search (`bfs`)

  /** Every node of xs stands on the board. */
  predicate OnBoard(b: Board, xs: seq<Node>)
  {
    forall i :: 0 <= i < |xs| ==> InBounds(b, xs[i].pos)
  }

  /** Some node of xs stands on `end`. */
  predicate Reaches(end: Pos, xs: seq<Node>)
  {
    exists i :: 0 <= i < |xs| && xs[i].pos == end
  }

  /**
   * The successors xs of x that `bfs` puts on its queue, in order: those
   * not on `end` whose square is not already on x's path.
   */
  function Enqueued(end: Pos, x: Node, xs: seq<Node>): (r: seq<Node>)
    ensures |r| <= |xs|
    ensures forall y :: y in r ==> y in xs && y.pos != end && y.pos !in x.trail
  {
    if xs == [] then []
    else Enqueued(end, x, xs[..|xs| - 1]) + Kept(end, x, xs[|xs| - 1])
  }

  /** What `bfs` appends for the successor y of x: y, unless it stands on `end` or on x's path. */
  function Kept(end: Pos, x: Node, y: Node): seq<Node>
  {
    if y.pos != end && y.pos !in x.trail then [y] else []
  }

  /** One more successor considered: Enqueued keeps it or not. */
  lemma EnqueuedStep(end: Pos, x: Node, xs: seq<Node>, k: nat)
    requires k < |xs|
    ensures Enqueued(end, x, xs[..k + 1]) == Enqueued(end, x, xs[..k]) + Kept(end, x, xs[k])
  {
    assert xs[..k + 1][..k] == xs[..k];
  }

  /** One more successor considered: the prefix reaches `end` if it did before or the new one stands on it. */
  lemma ReachesStep(end: Pos, xs: seq<Node>, k: nat)
    requires k < |xs|
    ensures Reaches(end, xs[..k + 1]) <==> Reaches(end, xs[..k]) || xs[k].pos == end
  {
    if Reaches(end, xs[..k + 1]) && xs[k].pos != end {
      var i :| 0 <= i < k + 1 && xs[..k + 1][i].pos == end;
      assert xs[..k][i] == xs[i];
    }
    if Reaches(end, xs[..k]) {
      var i :| 0 <= i < k && xs[..k][i].pos == end;
      assert xs[..k + 1][i] == xs[i];
    }
    if xs[k].pos == end {
      assert xs[..k + 1][k] == xs[k];
    }
  }

  /** The test `bfs` applies to the node x it took from the queue: a successor is on `end` and x passes the goal test. */
  predicate Hits(cfg: Config, end: Pos, x: Node)
    requires cfg.Wf() && InBounds(cfg.board, x.pos)
    ensures Hits(cfg, end, x) ==> Adjacent(x.pos, end)
  {
    Reaches(end, Expand(cfg, x)) && GoalReached(cfg.isBackward, x.pathValue, x.goalValue)
  }

  /** The queue after `bfs` takes its first node x: the rest, followed by what Enqueued keeps of x's successors. */
  function NextQueue(cfg: Config, end: Pos, queue: seq<Node>): (r: seq<Node>)
    requires cfg.Wf() && OnBoard(cfg.board, queue) && queue != []
    ensures OnBoard(cfg.board, r)
  {
    var xs := Expand(cfg, queue[0]);
    var added := Enqueued(end, queue[0], xs);
    var r := queue[1..] + added;
    assert forall i :: |queue| - 1 <= i < |r| ==> r[i] in added;
    r
  }

  /** The next queue starts with the rest of the old one. */
  lemma NextQueueKeepsRest(cfg: Config, end: Pos, queue: seq<Node>, i: nat)
    requires cfg.Wf() && OnBoard(cfg.board, queue) && queue != [] && 0 < i < |queue|
    ensures i - 1 < |NextQueue(cfg, end, queue)| && NextQueue(cfg, end, queue)[i - 1] == queue[i]
  {
  }

  /**
   * `bfs` on values, with `end` the square it searches for: take the first
   * node x of the queue and visit it; if Hits holds of x, report x;
   * otherwise go on with NextQueue. Each node taken from the queue uses one
   * unit of fuel.
   */
  function Breadth(cfg: Config, end: Pos, queue: seq<Node>, fuel: nat): (r: Run)
    requires cfg.Wf() && OnBoard(cfg.board, queue)
    decreases fuel
    ensures r.outcome.Solved? ==> r.trace != [] && r.trace[|r.trace| - 1] == r.outcome.last
  {
    if queue == [] then Run(NoSolution, [])
    else if fuel == 0 then Run(OutOfFuel, [])
    else if Hits(cfg, end, queue[0]) then Run(Solved(queue[0]), [queue[0]])
    else
      var rest := Breadth(cfg, end, NextQueue(cfg, end, queue), fuel - 1);
      Run(rest.outcome, [queue[0]] + rest.trace)
  }

  /** A step of `bfs` that does not report: it visits the first node and goes on with the next queue. */
  lemma BreadthStep(cfg: Config, end: Pos, queue: seq<Node>, fuel: nat, f: nat)
    requires cfg.Wf() && OnBoard(cfg.board, queue) && queue != [] && fuel > 0 && f == fuel - 1
    requires !Hits(cfg, end, queue[0])
    ensures Breadth(cfg, end, queue, fuel) == After([queue[0]], Breadth(cfg, end, NextQueue(cfg, end, queue), f))
  {
  }

  /**
   * Branch lemmas for the loop of `bfs`. `whole` is the whole search, which
   * has so far appended acc and is left with queue q and `left` units of
   * fuel. If the first node of q hits, the search ends by reporting it.
   */
  lemma BreadthFound(cfg: Config, end: Pos, whole: Run, q: seq<Node>, left: nat, acc: seq<Node>,
                     before: seq<Node>, t: seq<Node>)
    requires cfg.Wf() && OnBoard(cfg.board, q) && q != [] && left > 0
    requires whole == After(acc, Breadth(cfg, end, q, left))
    requires Hits(cfg, end, q[0])
    requires t == (before + acc) + [q[0]]
    ensures t == before + whole.trace
    ensures Reported(whole.outcome) == Some(q[0].trail)
  {
    AppendAssoc(before, acc, [q[0]]);
  }

  /** Otherwise the search goes on with the next queue, one unit of fuel later. */
  lemma BreadthAdvance(cfg: Config, end: Pos, whole: Run, q: seq<Node>, left: nat, f: nat, acc: seq<Node>)
    requires cfg.Wf() && OnBoard(cfg.board, q) && q != [] && left > 0
    requires whole == After(acc, Breadth(cfg, end, q, left))
    requires !Hits(cfg, end, q[0]) && f == left - 1
    ensures whole == After(acc + [q[0]], Breadth(cfg, end, NextQueue(cfg, end, q), f))
  {
    BreadthStep(cfg, end, q, left, f);
    var rest := Breadth(cfg, end, NextQueue(cfg, end, q), f);
    assert Breadth(cfg, end, q, left) == After([q[0]], rest);
    AfterAfter(acc, [q[0]], rest);
    assert whole == After(acc, After([q[0]], rest));
  }

  /** With the queue empty or no fuel left, the search has appended acc and reports nothing. */
  lemma BreadthStops(cfg: Config, end: Pos, whole: Run, q: seq<Node>, left: nat, acc: seq<Node>)
    requires cfg.Wf() && OnBoard(cfg.board, q) && (q == [] || left == 0)
    requires whole == After(acc, Breadth(cfg, end, q, left))
    ensures whole.trace == acc
    ensures Reported(whole.outcome) == None
  {
    AppendEmpty(acc);
  }

  /**
   * `bfs` runs its goal test on the node it took from the queue, not on the
   * successor that reached `end`: a reported node passes the goal test and
   * has a successor on `end`.
   */
  lemma {:induction false} BreadthReportsParent(cfg: Config, end: Pos, queue: seq<Node>, fuel: nat)
    requires cfg.Wf() && OnBoard(cfg.board, queue)
    decreases fuel
    ensures var r := Breadth(cfg, end, queue, fuel);
            r.outcome.Solved? ==>
              && InBounds(cfg.board, r.outcome.last.pos)
              && GoalReached(cfg.isBackward, r.outcome.last.pathValue, r.outcome.last.goalValue)
              && Reaches(end, Expand(cfg, r.outcome.last))
  {
    if queue != [] && fuel > 0 && !Hits(cfg, end, queue[0]) {
      var f: nat := fuel - 1;
      BreadthStep(cfg, end, queue, fuel, f);
      BreadthReportsParent(cfg, end, NextQueue(cfg, end, queue), f);
    }
  }

  /** No square occurs twice on the trail. */
  predicate NoRepeat(t: seq<Pos>)
  {
    forall i, j :: 0 <= i < j < |t| ==> t[i] != t[j]
  }

  /** Every node of xs has a trail without repeated squares. */
  predicate AllNoRepeat(xs: seq<Node>)
  {
    forall i :: 0 <= i < |xs| ==> NoRepeat(xs[i].trail)
  }

  /** Putting a node whose trail repeats no square in front keeps AllNoRepeat. */
  lemma AllNoRepeatCons(x: Node, xs: seq<Node>)
    requires NoRepeat(x.trail) && AllNoRepeat(xs)
    ensures AllNoRepeat([x] + xs)
  {
    var t := [x] + xs;
    forall i | 0 <= i < |t|
      ensures NoRepeat(t[i].trail)
    {
      if i > 0 {
        assert t[i] == xs[i - 1];
      }
    }
  }

  /** What `bfs` enqueues after x never stands on `end` and extends x's trail by a square not already on it. */
  lemma EnqueuedNoRepeat(cfg: Config, end: Pos, x: Node)
    requires cfg.Wf() && InBounds(cfg.board, x.pos) && NoRepeat(x.trail)
    ensures forall y :: y in Enqueued(end, x, Expand(cfg, x)) ==> NoRepeat(y.trail) && y.pos != end
  {
    var xs := Expand(cfg, x);
    forall y | y in Enqueued(end, x, xs)
      ensures NoRepeat(y.trail) && y.pos != end
    {
      var k :| 0 <= k < |xs| && xs[k] == y;
      assert y.trail == x.trail + [y.pos];
    }
  }

  /** The next queue of `bfs` keeps every trail free of repeated squares. */
  lemma NextQueueNoRepeat(cfg: Config, end: Pos, queue: seq<Node>)
    requires cfg.Wf() && OnBoard(cfg.board, queue) && queue != [] && AllNoRepeat(queue)
    ensures AllNoRepeat(NextQueue(cfg, end, queue))
  {
    var added := Enqueued(end, queue[0], Expand(cfg, queue[0]));
    EnqueuedNoRepeat(cfg, end, queue[0]);
    var next := NextQueue(cfg, end, queue);
    assert next == queue[1..] + added;
    forall i | 0 <= i < |next|
      ensures NoRepeat(next[i].trail)
    {
      if i >= |queue| - 1 {
        assert next[i] in added;
      }
    }
  }

  /** Starting from a queue whose trails repeat no square, no node `bfs` visits has a trail that repeats a square. */
  lemma {:induction false} BreadthVisitsNoRepeat(cfg: Config, end: Pos, queue: seq<Node>, fuel: nat)
    requires cfg.Wf() && OnBoard(cfg.board, queue) && AllNoRepeat(queue)
    decreases fuel
    ensures AllNoRepeat(Breadth(cfg, end, queue, fuel).trace)
  {
    if queue != [] && fuel > 0 && !Hits(cfg, end, queue[0]) {
      var f: nat := fuel - 1;
      var next := NextQueue(cfg, end, queue);
      BreadthStep(cfg, end, queue, fuel, f);
      NextQueueNoRepeat(cfg, end, queue);
      BreadthVisitsNoRepeat(cfg, end, next, f);
      AllNoRepeatCons(queue[0], Breadth(cfg, end, next, f).trace);
    }
  }

  /**
   * The queue is first in, first out: the first k nodes `bfs` visits are
   * the first k nodes of its queue, unless it reports a node before that.
   */
  lemma {:induction false} BreadthFifo(cfg: Config, end: Pos, queue: seq<Node>, fuel: nat, k: nat)
    requires cfg.Wf() && OnBoard(cfg.board, queue) && k <= |queue| && k <= fuel
    decreases fuel
    ensures |Breadth(cfg, end, queue, fuel).trace| >= k || Breadth(cfg, end, queue, fuel).outcome.Solved?
    ensures forall i :: 0 <= i < k && i < |Breadth(cfg, end, queue, fuel).trace| ==>
              Breadth(cfg, end, queue, fuel).trace[i] == queue[i]
  {
    if k > 0 && !Hits(cfg, end, queue[0]) {
      var f: nat, j: nat := fuel - 1, k - 1;
      var next := NextQueue(cfg, end, queue);
      BreadthStep(cfg, end, queue, fuel, f);
      BreadthFifo(cfg, end, next, f, j);
      forall i | 0 < i < k
        ensures i - 1 < |next| && next[i - 1] == queue[i]
      {
        NextQueueKeepsRest(cfg, end, queue, i);
      }
      HeadThenFollows(queue, next, Breadth(cfg, end, next, f).trace, k);
    }
  }

  /** The head of a queue followed by a trace that follows its next queue follows the queue itself. */
  lemma HeadThenFollows(queue: seq<Node>, next: seq<Node>, rest: seq<Node>, k: nat)
    requires 0 < k <= |queue|
    requires forall i :: 0 < i < k ==> i - 1 < |next| && next[i - 1] == queue[i]
    requires forall i :: 0 <= i < k - 1 && i < |rest| && i < |next| ==> rest[i] == next[i]
    ensures forall i :: 0 <= i < k && i < |[queue[0]] + rest| ==> ([queue[0]] + rest)[i] == queue[i]
  {
    forall i | 0 < i < k && i < |[queue[0]] + rest|
      ensures ([queue[0]] + rest)[i] == queue[i]
    {
      assert ([queue[0]] + rest)[i] == rest[i - 1];
    }
  }
}
