/**
 * The bidirectional iterative-deepening agent of 1/implemented_agents.py:
 * a depth-limited depth-first search from the start towards the goal and
 * one from the goal towards the start, repeated with a limit that grows by
 * one until the two searches have visited a common cell; the path is the
 * start tree's branch to that cell followed by the goal tree's branch
 * from it.
 *
 * The search walks get_neighbors directly (no cost table). Its cost map
 * counts cells, not steps: the root is recorded as one more than its
 * initial zero, so every recorded cost is the depth plus one.
 */
module GridIddfs {
  import opened Wrappers
  import opened GridEnv
  import opened GridAgent

  /** v is one of u's neighbours: a king move onto a free board cell, or u's teleport exit. */
  predicate Step(env: Env, u: Cell, v: Cell) {
    (KingOffset(Offset(u, v)) && InBounds(v) && v !in env.obs) || (u in env.teleports && v == env.teleports[u])
  }

  lemma StepNeighbours(env: Env, u: Cell, v: Cell)
    ensures Step(env, u, v) <==> v in Neighbours(env, u)
  {
  }

  /** The lists a depth-first search fills in: VISITED order, parent links and costs. */
  datatype Dfs = Dfs(visited: seq<Cell>, parents: map<Cell, Cell>, costs: map<Cell, nat>)

  /** A search's final lists and its return value: the goal's depth, or None. */
  datatype Run = Run(st: Dfs, ret: Option<nat>)

  /** The lists before a search from root: nothing visited, the root priced zero. */
  function Fresh(root: Cell): Dfs {
    Dfs([], map[], map[root := 0])
  }

  /**
   * What a search from root keeps: no cell visited twice, the root first
   * and its own parent at cost one, and every cell's entries as Recorded says.
   */
  ghost predicate Good(env: Env, root: Cell, limit: nat, st: Dfs) {
    NoDup(st.visited) &&
    (|st.visited| > 0 ==> st.visited[0] == root) &&
    (root in st.visited ==> root in st.parents && st.parents[root] == root && root in st.costs && st.costs[root] == 1) &&
    (root !in st.visited ==> st.visited == [] && root in st.costs && st.costs[root] == 0) &&
    forall c {:trigger Recorded(env, root, limit, st, c)} :: Recorded(env, root, limit, st, c)
  }

  /**
   * A cell has a parent exactly when visited and a cost exactly when
   * visited or the root; a visited cell costs between one and limit + 1,
   * and one more than its parent, of which it is a neighbour.
   */
  ghost predicate Recorded(env: Env, root: Cell, limit: nat, st: Dfs, c: Cell) {
    (c in st.parents <==> c in st.visited) &&
    (c in st.costs <==> c == root || c in st.visited) &&
    (c in st.visited ==> c in st.costs && 1 <= st.costs[c] <= limit + 1) &&
    (c in st.parents && c != root ==>
      st.parents[c] in st.parents && Step(env, st.parents[c], c) &&
      c in st.costs && st.parents[c] in st.costs && st.costs[c] == st.costs[st.parents[c]] + 1)
  }

  /**
   * How limit_dfs is entered: at the root with nothing visited, or at an
   * unvisited neighbour of a visited cell, one level below it.
   */
  ghost predicate Entering(env: Env, root: Cell, st: Dfs, point: Cell, parent: Cell, cost: nat) {
    point !in st.visited &&
    ((st.visited == [] && point == root && parent == root && cost == 0) ||
     (parent in st.visited && Step(env, parent, point) && parent in st.costs && cost == st.costs[parent]))
  }

  /** A later state of the same search: VISITED only grows and recorded cells keep their entries. */
  ghost predicate Extends(st: Dfs, st': Dfs) {
    st.visited <= st'.visited &&
    forall c {:trigger Kept(st, st', c)} :: Kept(st, st', c)
  }

  ghost predicate Kept(st: Dfs, st': Dfs, c: Cell) {
    c in st.visited ==>
      c in st.parents && c in st'.parents && st'.parents[c] == st.parents[c] &&
      c in st.costs && c in st'.costs && st'.costs[c] == st.costs[c]
  }

  lemma ExtendsTrans(a: Dfs, b: Dfs, c: Dfs)
    requires Extends(a, b) && Extends(b, c)
    ensures Extends(a, c)
  {
    forall x ensures Kept(a, c, x) {
      assert Kept(a, b, x) && Kept(b, c, x);
      if x in a.visited {
        var i :| 0 <= i < |a.visited| && a.visited[i] == x;
        assert b.visited[i] == x;
      }
    }
  }

  /** Recording one cell: appended to VISITED, its parent stored, its cost one more than the parent's. */
  function Visit(st: Dfs, point: Cell, parent: Cell): Dfs
    requires parent in st.costs
  {
    Dfs(st.visited + [point], st.parents[point := parent], st.costs[point := st.costs[parent] + 1])
  }

  lemma VisitKeeps(env: Env, root: Cell, limit: nat, st: Dfs, point: Cell, parent: Cell, cost: nat)
    requires Good(env, root, limit, st) && Entering(env, root, st, point, parent, cost) && cost <= limit
    ensures parent in st.costs
    ensures Good(env, root, limit, Visit(st, point, parent)) && Extends(st, Visit(st, point, parent))
    ensures Visit(st, point, parent).costs[point] == cost + 1
  {
    var st' := Visit(st, point, parent);
    assert NoDup(st'.visited) by {
      NoDupConcat(st.visited, [point]);
    }
    if st.visited != [] {
      assert st'.visited[0] == st.visited[0];
      assert point != root;
    }
    forall c ensures Recorded(env, root, limit, st', c) && Kept(st, st', c) {
      assert Recorded(env, root, limit, st, c);
      if c == point && st.visited != [] {
        assert Recorded(env, root, limit, st, parent);
      } else if c in st.parents && c != root {
        assert Recorded(env, root, limit, st, st.parents[c]);
      }
    }
  }

  lemma ExtendsSelf(env: Env, root: Cell, limit: nat, st: Dfs)
    requires Good(env, root, limit, st)
    ensures Extends(st, st)
  {
    forall c ensures Kept(st, st, c) {
      assert Recorded(env, root, limit, st, c);
    }
  }

  /** The depth still allowed below a node at depth cost. */
  function Budget(limit: nat, cost: nat): nat {
    if cost > limit then 0 else limit + 1 - cost
  }

  /**
   * limit_dfs at node (point, parent, cost): nothing beyond the limit;
   * otherwise point is recorded, the search stops with its depth when it is
   * the goal, and goes on through its unvisited neighbours in turn.
   */
  function DfsFrom(env: Env, limit: nat, root: Cell, goal: Cell, point: Cell, parent: Cell, cost: nat, st: Dfs): (r: Run)
    requires Good(env, root, limit, st) && Entering(env, root, st, point, parent, cost) && goal !in st.visited
    ensures Good(env, root, limit, r.st) && Extends(st, r.st)
    ensures point in r.st.visited <==> cost <= limit
    ensures r.ret.Some? ==>
      r.ret.value >= cost && goal in r.st.visited && goal in r.st.costs && r.st.costs[goal] == r.ret.value + 1 &&
      r.st.visited[|r.st.visited| - 1] == goal
    ensures r.ret.None? ==> goal !in r.st.visited
    decreases Budget(limit, cost), 1
  {
    if cost > limit then ExtendsSelf(env, root, limit, st); Run(st, None)
    else
      VisitKeeps(env, root, limit, st, point, parent, cost);
      var st1 := Visit(st, point, parent);
      assert Recorded(env, root, limit, st1, point);
      if point == goal then Run(st1, Some(cost))
      else
        var r := DfsLoop(env, limit, root, goal, point, cost, 0, st1);
        ExtendsTrans(st, st1, r.st);
        assert point in r.st.visited by {
          assert st1.visited[|st.visited|] == point;
          assert r.st.visited[|st.visited|] == point;
        }
        r
  }

  /**
   * The loop over point's neighbours from the i-th on: each is tried in
   * turn, and a truthy return ends the loop with that value.
   */
  function DfsLoop(env: Env, limit: nat, root: Cell, goal: Cell, point: Cell, cost: nat, i: nat, st: Dfs): (r: Run)
    requires Good(env, root, limit, st) && point in st.visited && point in st.costs && cost + 1 == st.costs[point]
    requires cost <= limit && goal !in st.visited
    ensures Good(env, root, limit, r.st) && Extends(st, r.st)
    ensures r.ret.Some? ==>
      r.ret.value > cost && goal in r.st.visited && goal in r.st.costs && r.st.costs[goal] == r.ret.value + 1 &&
      r.st.visited[|r.st.visited| - 1] == goal
    ensures r.ret.None? ==> goal !in r.st.visited
    decreases Budget(limit, cost), 0, |Neighbours(env, point)| - i, 1
  {
    if i >= |Neighbours(env, point)| then ExtendsSelf(env, root, limit, st); Run(st, None)
    else
      var r := DfsTry(env, limit, root, goal, point, cost, i, st);
      if r.ret.Some? && r.ret.value != 0 then r
      else
        assert point in r.st.visited && r.st.costs[point] == cost + 1 by {
          var j :| 0 <= j < |st.visited| && st.visited[j] == point;
          assert r.st.visited[j] == point;
          assert Kept(st, r.st, point);
        }
        var r' := DfsLoop(env, limit, root, goal, point, cost, i + 1, r.st);
        ExtendsTrans(st, r.st, r'.st);
        r'
  }

  /** The loop body for the i-th neighbour: skipped when visited, otherwise searched one level deeper. */
  function DfsTry(env: Env, limit: nat, root: Cell, goal: Cell, point: Cell, cost: nat, i: nat, st: Dfs): (r: Run)
    requires Good(env, root, limit, st) && point in st.visited && point in st.costs && cost + 1 == st.costs[point]
    requires cost <= limit && goal !in st.visited && i < |Neighbours(env, point)|
    ensures Good(env, root, limit, r.st) && Extends(st, r.st)
    ensures r.ret.Some? ==>
      r.ret.value > cost && goal in r.st.visited && goal in r.st.costs && r.st.costs[goal] == r.ret.value + 1 &&
      r.st.visited[|r.st.visited| - 1] == goal
    ensures r.ret.None? ==> goal !in r.st.visited
    decreases Budget(limit, cost), 0, |Neighbours(env, point)| - i, 0
  {
    var nbrs := Neighbours(env, point);
    if nbrs[i] in st.visited then ExtendsSelf(env, root, limit, st); Run(st, None)
    else
      assert Step(env, point, nbrs[i]) by {
        assert nbrs[i] in nbrs;
      }
      DfsFrom(env, limit, root, goal, nbrs[i], point, cost + 1, st)
  }

  /** The call limit_dfs((root, root, 0), [], goal, {}, {root: 0}). */
  function LimitDfs(env: Env, limit: nat, root: Cell, goal: Cell): (r: Run)
    ensures Good(env, root, limit, r.st) && |r.st.visited| > 0
    ensures r.ret.Some? <==> goal in r.st.visited
    ensures r.ret.Some? ==> r.st.visited[|r.st.visited| - 1] == goal && goal in r.st.costs && r.st.costs[goal] == r.ret.value + 1
  {
    DfsFrom(env, limit, root, goal, root, root, 0, Fresh(root))
  }

  /** A search that records the root makes the parent links lead back to it, with costs as the rank. */
  lemma GoodRanked(env: Env, root: Cell, limit: nat, st: Dfs)
    requires Good(env, root, limit, st) && |st.visited| > 0
    ensures Ranked(st.parents, root, st.costs)
  {
    assert st.visited[0] == root;
    forall c | c in st.parents ensures c in st.costs && (c != root ==> st.parents[c] in st.parents && st.parents[c] in st.costs && st.costs[st.parents[c]] < st.costs[c]) {
      assert Recorded(env, root, limit, st, c);
    }
  }

  /** The parent links lead back to root: each other cell's parent is recorded and cheaper. */
  ghost predicate Rooted(root: Cell, st: Dfs) {
    forall c {:trigger Descends(root, st, c)} :: Descends(root, st, c)
  }

  ghost predicate Descends(root: Cell, st: Dfs, c: Cell) {
    c in st.parents ==> (c in st.costs &&
      (c != root ==> st.parents[c] in st.parents && st.parents[c] in st.costs && st.costs[st.parents[c]] < st.costs[c]))
  }

  lemma GoodRooted(env: Env, root: Cell, limit: nat, st: Dfs)
    requires Good(env, root, limit, st)
    ensures Rooted(root, st)
  {
    forall c ensures Descends(root, st, c) {
      assert Recorded(env, root, limit, st, c);
    }
  }

  /** The cells both searches of one round visited. */
  function Meeting(a: Dfs, b: Dfs): (m: set<Cell>)
    ensures forall c :: c in m <==> c in a.visited && c in b.visited
  {
    set c | c in a.visited && c in b.visited
  }

  /** The round with limit l: the start side searching for the goal, the goal side for the start. */
  function Forward(env: Env, start: Cell, goal: Cell, l: nat): Dfs {
    LimitDfs(env, l, start, goal).st
  }

  function Backward(env: Env, start: Cell, goal: Cell, l: nat): Dfs {
    LimitDfs(env, l, goal, start).st
  }

  /** The cells common to both searches of the round with limit l. */
  function Meets(env: Env, start: Cell, goal: Cell, l: nat): set<Cell> {
    Meeting(Forward(env, start, goal, l), Backward(env, start, goal, l))
  }

  /** One more round without a common cell extends the run of rounds that met nowhere. */
  lemma ApartUpTo(env: Env, start: Cell, goal: Cell, limit: nat)
    requires limit >= 1 && ApartUntil(env, start, goal, limit - 1)
    requires Meeting(Forward(env, start, goal, limit), Backward(env, start, goal, limit)) == {}
    ensures ApartUntil(env, start, goal, limit)
  {
  }

  /** all_visited after the rounds with limits 1 to l. */
  function Trail(env: Env, start: Cell, goal: Cell, l: nat): (t: seq<Cell>)
    ensures l > 0 ==> |t| >= 2 * l
  {
    if l == 0 then []
    else Trail(env, start, goal, l - 1) + Forward(env, start, goal, l).visited + Backward(env, start, goal, l).visited
  }

  /** When the start-side search reaches the goal, the round ends there: the goal side always visits its root. */
  lemma GoalMeets(env: Env, start: Cell, goal: Cell, l: nat)
    requires LimitDfs(env, l, start, goal).ret.Some?
    ensures goal in Meets(env, start, goal, l)
  {
    var b := Backward(env, start, goal, l);
    assert b.visited[0] == goal;
  }

  /** Start and goal coincide: the first round already meets. */
  lemma SameCellMeets(env: Env, start: Cell)
    ensures start in Meets(env, start, start, 1)
  {
    assert Forward(env, start, start, 1).visited[0] == start;
    assert Backward(env, start, start, 1).visited[0] == start;
  }

  // ------------------------------------------------------------ the path

  /** Costs along a chain of parent links rise by one per cell from one at the root. */
  lemma {:induction false} Rising(env: Env, root: Cell, limit: nat, st: Dfs, p: seq<Cell>, k: nat)
    requires Good(env, root, limit, st) && |p| >= 1 && p[0] == root && root in st.visited && k < |p|
    requires forall i :: 0 < i < |p| ==> p[i] != root && p[i] in st.parents && st.parents[p[i]] == p[i - 1]
    ensures p[k] in st.costs && st.costs[p[k]] == k + 1
  {
    if k > 0 {
      Rising(env, root, limit, st, p, k - 1);
      assert Recorded(env, root, limit, st, p[k]);
    }
  }

  /** Costs along a chain of parent links fall by one per cell down to one at the root. */
  lemma {:induction false} Falling(env: Env, root: Cell, limit: nat, st: Dfs, p: seq<Cell>, k: nat)
    requires Good(env, root, limit, st) && |p| >= 1 && p[|p| - 1] == root && root in st.visited && k < |p|
    requires forall i :: 0 <= i < |p| - 1 ==> p[i] != root && p[i] in st.parents && st.parents[p[i]] == p[i + 1]
    ensures p[k] in st.costs && st.costs[p[k]] == |p| - k
    decreases |p| - k
  {
    if k < |p| - 1 {
      Falling(env, root, limit, st, p, k + 1);
      assert Recorded(env, root, limit, st, p[k]);
    }
  }

  /**
   * extract_path_re: the goal side's parent links followed from the
   * meeting cell to the goal, collected in that order. Every cell after
   * the meeting cell, and then the goal itself, gets the meeting cell's
   * cost plus one in the agent's cost map; those assignments do not steer
   * the walk, so they are made in one go once the walk is done.
   */
  method ExtractPathRe(goal: Cell, m: Cell, b: Dfs, cost: map<Cell, nat>)
    returns (path: seq<Cell>, cost': map<Cell, nat>)
    requires Rooted(goal, b) && m in b.parents && m in cost
    ensures |path| >= 1 && path[0] == m && path[|path| - 1] == goal
    ensures forall i :: 0 <= i < |path| - 1 ==> path[i] != goal && path[i] in b.parents && b.parents[path[i]] == path[i + 1]
    ensures cost' == Reprice(cost, path[1..] + [goal], cost[m] + 1)
  {
    path := WalkBack(goal, m, b);
    cost' := Reprice(cost, path[1..] + [goal], cost[m] + 1);
  }

  /** The while loop of extract_path_re: the links from m, each cell collected, up to the goal. */
  method WalkBack(goal: Cell, m: Cell, b: Dfs) returns (path: seq<Cell>)
    requires Rooted(goal, b) && m in b.parents
    ensures |path| >= 1 && path[0] == m && path[|path| - 1] == goal
    ensures forall i :: 0 <= i < |path| - 1 ==> path[i] != goal && path[i] in b.parents && b.parents[path[i]] == path[i + 1]
  {
    path := [];
    var s := m;
    assert Descends(goal, b, m);
    while s != goal
      invariant s in b.parents && s in b.costs
      invariant forall i :: 0 <= i < |path| ==> path[i] != goal && path[i] in b.parents
      invariant |path| == 0 ==> s == m
      invariant |path| > 0 ==> path[0] == m && b.parents[path[|path| - 1]] == s
      invariant forall i :: 0 <= i < |path| - 1 ==> b.parents[path[i]] == path[i + 1]
      decreases b.costs[s]
    {
      assert Descends(goal, b, s);
      path := path + [s];
      s := b.parents[s];
    }
    path := path + [goal];
  }

  /** The map with every cell of cells priced v. */
  function Reprice(cost: map<Cell, nat>, cells: seq<Cell>, v: nat): (r: map<Cell, nat>)
    ensures forall c :: c in r <==> c in cost || c in cells
    ensures forall c :: c in r ==> r[c] == if c in cells then v else cost[c]
  {
    if |cells| == 0 then cost
    else
      var k := |cells| - 1;
      assert forall c :: c in cells <==> c in cells[..k] || c == cells[k] by {
        assert cells == cells[..k] + [cells[k]];
      }
      Reprice(cost, cells[..k], v)[cells[k] := v]
  }

  /**
   * The joined path: the start's branch to meet ends at index half - 1 and
   * the goal's branch starts at index half with meet again; steps before
   * the seam follow neighbour links forwards, steps after it backwards.
   */
  ghost predicate Spliced(env: Env, start: Cell, goal: Cell, meet: Cell, limit: nat, path: seq<Cell>, half: nat) {
    1 <= half < |path| && half <= limit + 1 && |path| - half <= limit + 1 &&
    path[0] == start && path[|path| - 1] == goal && path[half - 1] == meet && path[half] == meet &&
    (forall i :: 0 < i < half ==> Step(env, path[i - 1], path[i])) &&
    forall i :: half <= i < |path| - 1 ==> Step(env, path[i + 1], path[i])
  }

  /** The agent's cost map after the join: the start side's costs, every cell after the seam priced half + 1. */
  ghost predicate Priced(start: Cell, goal: Cell, path: seq<Cell>, half: nat, cost: map<Cell, nat>) {
    half < |path| &&
    (forall c :: c in path ==> c in cost) &&
    (forall i :: half < i < |path| ==> cost[path[i]] == half + 1) &&
    goal in cost && cost[goal] == half + 1 &&
    forall i :: 0 <= i < half && path[i] !in path[half + 1..] && path[i] != goal ==> cost[path[i]] == i + 1
  }

  datatype Outcome =
    | Joined(path: seq<Cell>, half: nat, meet: Cell, limit: nat, cost: map<Cell, nat>, trail: seq<Cell>)
    | Exhausted(trail: seq<Cell>)

  /** The start side's branch to a visited cell: one cell per level, each a neighbour of the one before. */
  lemma FrontHalf(env: Env, start: Cell, limit: nat, a: Dfs, front: seq<Cell>)
    requires Good(env, start, limit, a) && start in a.visited
    requires |front| >= 1 && front[0] == start
    requires forall i :: 0 < i < |front| ==> front[i] != start && front[i] in a.parents && a.parents[front[i]] == front[i - 1]
    ensures |front| <= limit + 1
    ensures forall i :: 0 < i < |front| ==> Step(env, front[i - 1], front[i])
    ensures forall i :: 0 <= i < |front| ==> front[i] in a.costs && a.costs[front[i]] == i + 1
  {
    forall i | 0 <= i < |front| ensures front[i] in a.costs && a.costs[front[i]] == i + 1 {
      Rising(env, start, limit, a, front, i);
    }
    forall i | 0 < i < |front| ensures Step(env, front[i - 1], front[i]) {
      assert Recorded(env, start, limit, a, front[i]);
    }
    var k := |front| - 1;
    assert Recorded(env, start, limit, a, front[k]);
  }

  /** The goal side's branch from a visited cell: one cell per level, each a neighbour of the one after. */
  lemma BackHalf(env: Env, goal: Cell, limit: nat, b: Dfs, back: seq<Cell>)
    requires Good(env, goal, limit, b) && goal in b.visited
    requires |back| >= 1 && back[|back| - 1] == goal
    requires forall i :: 0 <= i < |back| - 1 ==> back[i] != goal && back[i] in b.parents && b.parents[back[i]] == back[i + 1]
    ensures |back| <= limit + 1
    ensures forall i :: 0 <= i < |back| - 1 ==> Step(env, back[i + 1], back[i])
  {
    Falling(env, goal, limit, b, back, 0);
    forall i | 0 <= i < |back| - 1 ensures Step(env, back[i + 1], back[i]) {
      assert Recorded(env, goal, limit, b, back[i]);
    }
    assert Recorded(env, goal, limit, b, back[0]);
  }

  lemma JoinSpliced(env: Env, start: Cell, goal: Cell, meet: Cell, limit: nat, front: seq<Cell>, back: seq<Cell>)
    requires 1 <= |front| <= limit + 1 && 1 <= |back| <= limit + 1
    requires front[0] == start && front[|front| - 1] == meet && back[0] == meet && back[|back| - 1] == goal
    requires forall i :: 0 < i < |front| ==> Step(env, front[i - 1], front[i])
    requires forall i :: 0 <= i < |back| - 1 ==> Step(env, back[i + 1], back[i])
    ensures Spliced(env, start, goal, meet, limit, front + back, |front|)
  {
    var path, half := front + back, |front|;
    forall i | half <= i < |path| - 1 ensures Step(env, path[i + 1], path[i]) {
      assert path[i] == back[i - half] && path[i + 1] == back[i - half + 1];
    }
    forall i | 0 < i < half ensures Step(env, path[i - 1], path[i]) {
      assert path[i] == front[i] && path[i - 1] == front[i - 1];
    }
  }

  lemma JoinPriced(start: Cell, goal: Cell, meet: Cell, front: seq<Cell>, back: seq<Cell>, cost: map<Cell, nat>)
    requires 1 <= |front| && 1 <= |back| && front[|front| - 1] == meet && back[0] == meet && back[|back| - 1] == goal
    requires forall i :: 0 <= i < |front| ==> front[i] in cost && cost[front[i]] == i + 1
    ensures Priced(start, goal, front + back, |front|, Reprice(cost, back[1..] + [goal], cost[meet] + 1))
  {
    var path, half := front + back, |front|;
    var cost' := Reprice(cost, back[1..] + [goal], cost[meet] + 1);
    assert path[half + 1..] == back[1..];
    assert cost[meet] == half;
    forall c | c in path ensures c in cost' {
      if c in front {
        var i :| 0 <= i < |front| && front[i] == c;
      }
    }
    forall i | half < i < |path| ensures cost'[path[i]] == half + 1 {
      assert path[i] == back[1..][i - half - 1];
    }
    forall i | 0 <= i < half && path[i] !in path[half + 1..] && path[i] != goal
      ensures cost'[path[i]] == i + 1
    {
      assert path[i] == front[i];
    }
  }

  /** The last statement of searching, once meet is common to both rounds' VISITED lists. */
  method Join(env: Env, start: Cell, goal: Cell, limit: nat, a: Dfs, b: Dfs, meet: Cell)
    returns (path: seq<Cell>, half: nat, cost: map<Cell, nat>)
    requires Good(env, start, limit, a) && Good(env, goal, limit, b) && |a.visited| > 0 && |b.visited| > 0
    requires meet in a.visited && meet in b.visited
    ensures Spliced(env, start, goal, meet, limit, path, half)
    ensures Priced(start, goal, path, half, cost)
  {
    GoodRanked(env, start, limit, a);
    GoodRooted(env, goal, limit, b);
    assert a.visited[0] == start && b.visited[0] == goal;
    assert Recorded(env, start, limit, a, meet) && Recorded(env, goal, limit, b, meet);
    var front := ExtractPath(a.parents, start, meet, a.costs);
    var back;
    back, cost := ExtractPathRe(goal, meet, b, a.costs);
    FrontHalf(env, start, limit, a, front);
    BackHalf(env, goal, limit, b, back);
    JoinSpliced(env, start, goal, meet, limit, front, back);
    JoinPriced(start, goal, meet, front, back, a.costs);
    path := front + back;
    half := |front|;
  }

  /** No round with a limit from 1 to l had a common cell. */
  ghost predicate ApartUntil(env: Env, start: Cell, goal: Cell, l: nat) {
    forall k :: 1 <= k <= l ==> Meets(env, start, goal, k) == {}
  }

  /**
   * The outer loop of searching: rounds with limits 1, 2, ... until both
   * searches share a cell, here cut off after maxLimit rounds; every
   * round's VISITED lists are appended to all_visited.
   */
  method Rounds(env: Env, start: Cell, goal: Cell, maxLimit: nat) returns (limit: nat, trail: seq<Cell>, met: bool)
    ensures met ==> 1 <= limit <= maxLimit && ApartUntil(env, start, goal, limit - 1) && Meets(env, start, goal, limit) != {}
    ensures !met ==> limit == maxLimit && ApartUntil(env, start, goal, maxLimit)
    ensures trail == Trail(env, start, goal, limit)
  {
    limit := 1;
    trail := [];
    while limit <= maxLimit
      invariant 1 <= limit <= maxLimit + 1
      invariant trail == Trail(env, start, goal, limit - 1)
      invariant ApartUntil(env, start, goal, limit - 1)
    {
      var a := Forward(env, start, goal, limit);
      var b := Backward(env, start, goal, limit);
      trail := trail + a.visited + b.visited;
      assert trail == Trail(env, start, goal, limit);
      if Meeting(a, b) != {} {
        met := true;
        return;
      }
      ApartUpTo(env, start, goal, limit);
      limit := limit + 1;
    }
    met := false;
    limit := maxLimit;
  }

  /**
   * searching: the rounds, then the path through a cell common to the
   * last round's searches, the start side's cost map as amended by
   * extract_path_re, and all_visited.
   */
  method Search(env: Env, start: Cell, goal: Cell, maxLimit: nat) returns (out: Outcome)
    ensures out.Joined? ==>
      1 <= out.limit <= maxLimit && ApartUntil(env, start, goal, out.limit - 1) &&
      out.meet in Meets(env, start, goal, out.limit) &&
      Spliced(env, start, goal, out.meet, out.limit, out.path, out.half) &&
      Priced(start, goal, out.path, out.half, out.cost) &&
      out.trail == Trail(env, start, goal, out.limit)
    ensures out.Exhausted? ==> ApartUntil(env, start, goal, maxLimit) && out.trail == Trail(env, start, goal, maxLimit)
  {
    var limit, trail, met := Rounds(env, start, goal, maxLimit);
    if !met {
      return Exhausted(trail);
    }
    var a := Forward(env, start, goal, limit);
    var b := Backward(env, start, goal, limit);
    var meet := Pick(Meeting(a, b));
    var path, half, cost := Join(env, start, goal, limit, a, b, meet);
    out := Joined(path, half, meet, limit, cost, trail);
  }
}
