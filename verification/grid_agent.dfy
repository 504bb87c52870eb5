/**
 * The search-agent base class of 1/agent.py: neighbours of a cell, the
 * price of a step, the neighbour-cost table built once per agent, and the
 * reconstruction of a path from the PARENT links.
 *
 * Costs are integers in hundredths (1.0 is 100, 1.4 is 140): the
 * teleport price is a distance rounded to two decimals, so hundredths
 * hold every price exactly. The noisy teleport price is the parameter
 * `tc`, any non-negative function of the two cells.
 */
module GridAgent {
  import opened Wrappers
  import opened GridEnv

  type Table = map<Cell, map<Cell, nat>>

  const Straight: nat := 100
  const Diagonal: nat := 140

  function Offset(s: Cell, c: Cell): Cell {
    (c.0 - s.0, c.1 - s.1)
  }

  /** The cells reached from s by the motions of ms that stay in bounds and off obstacles, in order. */
  function MoveTargets(env: Env, s: Cell, ms: seq<Cell>): (r: seq<Cell>)
    ensures forall c :: c in r <==> Offset(s, c) in ms && InBounds(c) && c !in env.obs
  {
    if |ms| == 0 then []
    else
      var c := (s.0 + ms[0].0, s.1 + ms[0].1);
      assert Offset(s, c) == ms[0];
      assert forall m :: m in ms <==> m == ms[0] || m in ms[1..];
      (if InBounds(c) && c !in env.obs then [c] else []) + MoveTargets(env, s, ms[1..])
  }

  /**
   * get_neighbors: the king moves that stay on the board and off
   * obstacles, then the teleport exit when s is a teleporter. The exit is
   * neither bounds- nor obstacle-checked.
   */
  function Neighbours(env: Env, s: Cell): (r: seq<Cell>)
    ensures forall c :: c in r <==>
      (KingOffset(Offset(s, c)) && InBounds(c) && c !in env.obs) || (s in env.teleports && c == env.teleports[s])
  {
    MotionsAreKingMoves();
    MoveTargets(env, s, Motions) + if s in env.teleports then [env.teleports[s]] else []
  }

  /**
   * get_cost: one unit for every step without Euclidean costs; otherwise
   * the teleport price for s's own teleporter link, even when the exit is
   * also a king move away, and 1.4 for a diagonal and 1.0 for any other step.
   */
  function StepCost(env: Env, euclid: bool, tc: (Cell, Cell) -> nat, s: Cell, c: Cell): (r: nat)
    ensures !euclid ==> r == Straight
    ensures euclid && s in env.teleports && env.teleports[s] == c ==> r == tc(s, c)
    ensures euclid && !(s in env.teleports && env.teleports[s] == c) && KingOffset(Offset(s, c)) ==>
      (r == Diagonal <==> Offset(s, c).0 != 0 && Offset(s, c).1 != 0) && (r == Straight || r == Diagonal)
  {
    if !euclid then Straight
    else if s in env.teleports && env.teleports[s] == c then tc(s, c)
    else if Abs(c.0 - s.0) == 1 && Abs(c.1 - s.1) == 1 then Diagonal
    else Straight
  }

  /** The inner loop of precompute_neighbor_costs: one entry per neighbour. */
  function CostMap(env: Env, euclid: bool, tc: (Cell, Cell) -> nat, s: Cell, nbrs: seq<Cell>): (m: map<Cell, nat>)
    ensures forall c :: c in m <==> c in nbrs
    ensures forall c :: c in m ==> m[c] == StepCost(env, euclid, tc, s, c)
  {
    if |nbrs| == 0 then map[]
    else
      var k := |nbrs| - 1;
      assert forall c :: c in nbrs <==> c in nbrs[..k] || c == nbrs[k] by {
        assert nbrs == nbrs[..k] + [nbrs[k]];
      }
      CostMap(env, euclid, tc, s, nbrs[..k])[nbrs[k] := StepCost(env, euclid, tc, s, nbrs[k])]
  }

  /** The precomputed entry of one free cell: its neighbours, each priced. */
  function Entry(env: Env, euclid: bool, tc: (Cell, Cell) -> nat, s: Cell): map<Cell, nat> {
    CostMap(env, euclid, tc, s, Neighbours(env, s))
  }

  /** The in-bounds cells that are not obstacles. */
  function FreeCells(env: Env): (r: set<Cell>)
    ensures forall s :: s in r <==> InBounds(s) && s !in env.obs
  {
    var r := set x: int, y: int | 0 <= x < XRange && 0 <= y < YRange && (x, y) !in env.obs :: (x, y);
    assert forall s :: InBounds(s) && s !in env.obs ==> s in r by {
      forall s | InBounds(s) && s !in env.obs ensures s in r {
        assert s == (s.0, s.1);
      }
    }
    r
  }

  /**
   * precompute_neighbor_costs: exactly one entry per in-bounds free cell,
   * whose keys are that cell's neighbours, each priced by get_cost.
   */
  function NeighbourCosts(env: Env, euclid: bool, tc: (Cell, Cell) -> nat): (t: Table)
    ensures forall s :: s in t <==> InBounds(s) && s !in env.obs
    ensures forall s, c :: s in t ==> (c in t[s] <==> c in Neighbours(env, s))
    ensures forall s, c :: s in t && c in t[s] ==> t[s][c] == StepCost(env, euclid, tc, s, c)
  {
    var t := map s | s in FreeCells(env) :: Entry(env, euclid, tc, s);
    TableEntries(env, euclid, tc, t);
    t
  }

  lemma TableEntries(env: Env, euclid: bool, tc: (Cell, Cell) -> nat, t: Table)
    requires forall s :: s in t ==> t[s] == Entry(env, euclid, tc, s)
    ensures forall s, c :: s in t ==> (c in t[s] <==> c in Neighbours(env, s))
    ensures forall s, c :: s in t && c in t[s] ==> t[s][c] == StepCost(env, euclid, tc, s, c)
  {
    forall s | s in t
      ensures forall c :: c in t[s] <==> c in Neighbours(env, s)
      ensures forall c :: c in t[s] ==> t[s][c] == StepCost(env, euclid, tc, s, c)
    {
      var m := CostMap(env, euclid, tc, s, Neighbours(env, s));
      assert t[s] == m;
    }
  }

  /** Every price in the table is 1.0 or 1.4 unless it is the price of the cell's own teleporter link. */
  lemma TablePrices(env: Env, euclid: bool, tc: (Cell, Cell) -> nat, s: Cell, c: Cell)
    requires s in NeighbourCosts(env, euclid, tc) && c in NeighbourCosts(env, euclid, tc)[s]
    ensures var p := NeighbourCosts(env, euclid, tc)[s][c];
      p == Straight || p == Diagonal || (euclid && s in env.teleports && c == env.teleports[s] && p == tc(s, c))
  {
  }

  // ------------------------------------------------------------ paths

  /** A step along the table: u is a table cell and v one of its neighbours. */
  predicate Edge(table: Table, u: Cell, v: Cell) {
    u in table && v in table[u]
  }

  /** A walk of at least one cell along table edges. */
  ghost predicate Walk(table: Table, w: seq<Cell>) {
    |w| >= 1 && forall i :: 0 <= i < |w| - 1 ==> Edge(table, w[i], w[i + 1])
  }

  /** The length of one step: one when counting steps, its table price otherwise. */
  function Price(table: Table, unit: bool, u: Cell, v: Cell): nat
    requires Edge(table, u, v)
  {
    if unit then 1 else table[u][v]
  }

  /** The summed lengths of a walk's steps. */
  function Weight(table: Table, unit: bool, w: seq<Cell>): nat
    requires forall i :: 0 <= i < |w| - 1 ==> Edge(table, w[i], w[i + 1])
  {
    if |w| <= 1 then 0
    else
      var k := |w| - 1;
      assert Edge(table, w[k - 1], w[k]);
      Weight(table, unit, w[..k]) + Price(table, unit, w[k - 1], w[k])
  }

  /** Counted in steps, a walk is one shorter than its list of cells. */
  lemma {:induction false} StepWeight(table: Table, w: seq<Cell>)
    requires Walk(table, w)
    ensures Weight(table, true, w) == |w| - 1
  {
    if |w| > 1 {
      var k := |w| - 1;
      assert Walk(table, w[..k]);
      StepWeight(table, w[..k]);
    }
  }

  /** Every PARENT link but the start's points to a cell of lower rank; the start is its own parent. */
  ghost predicate Ranked(parent: map<Cell, Cell>, start: Cell, rank: map<Cell, nat>) {
    start in parent && parent[start] == start && parent.Keys <= rank.Keys &&
    forall c :: c in parent && c != start ==> parent[c] in parent && rank[parent[c]] < rank[c]
  }

  /**
   * extract_path: the PARENT links followed from the goal back to the
   * start, collected and reversed. The links must lead to the start,
   * which `rank` witnesses; the start occurs only at the front.
   */
  method ExtractPath(parent: map<Cell, Cell>, start: Cell, goal: Cell, ghost rank: map<Cell, nat>)
    returns (path: seq<Cell>)
    requires Ranked(parent, start, rank) && goal in parent
    ensures |path| >= 1 && path[0] == start && path[|path| - 1] == goal
    ensures forall i :: 0 < i < |path| ==> path[i] != start && path[i] in parent && parent[path[i]] == path[i - 1]
  {
    path := [];
    var s := goal;
    while s != start
      invariant s in parent
      invariant |path| == 0 ==> s == goal
      invariant forall i :: 0 <= i < |path| ==> path[i] != start && path[i] in parent
      invariant |path| > 0 ==> path[|path| - 1] == goal && parent[path[0]] == s
      invariant forall i :: 0 < i < |path| ==> parent[path[i]] == path[i - 1]
      decreases rank[s]
    {
      path := [s] + path;
      s := parent[s];
    }
    path := [start] + path;
  }

  /**
   * A path of PARENT links whose links are table edges is a walk, and a
   * map that grows along every link by the link's length gives each cell
   * of the path the length of the path up to it.
   */
  lemma {:induction false} ChainWeight(table: Table, unit: bool, parent: map<Cell, Cell>, g: map<Cell, nat>, start: Cell, path: seq<Cell>)
    requires |path| >= 1 && path[0] == start && start in g && g[start] == 0
    requires forall i :: 0 < i < |path| ==> path[i] != start && path[i] in parent && parent[path[i]] == path[i - 1]
    requires forall c :: c in parent && c != start ==>
      (Edge(table, parent[c], c) && c in g && parent[c] in g && g[c] == g[parent[c]] + Price(table, unit, parent[c], c))
    ensures Walk(table, path)
    ensures path[|path| - 1] in g && g[path[|path| - 1]] == Weight(table, unit, path)
  {
    if |path| > 1 {
      var k := |path| - 1;
      ChainWeight(table, unit, parent, g, start, path[..k]);
      assert path[..k][..k - 1] == path[..k - 1];
      assert path[k - 1] == path[..k][k - 1];
    }
  }
}
