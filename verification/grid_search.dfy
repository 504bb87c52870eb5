/**
 * The three queue-driven agents of 1/implemented_agents.py: BFSAgent,
 * UCSAgent and AStarAgent. All three pop a tuple, skip it when its cell
 * is already in VISITED, otherwise finalise the cell (PARENT, COST,
 * VISITED, seened), stop at the goal, and push a tuple per neighbour
 * priced from the neighbour-cost table.
 *
 * The first pass of every loop, which pops (start, start, 0), is done
 * before the loop, so every queued tuple has a finalised parent. A*'s
 * pushed priority f is g plus the heuristic at the pushed cell, so a
 * tuple is stored as (point, parent, g) and f is recomputed; UCS is A*
 * with the zero heuristic, whose tuples (g, g, point, parent) are ordered
 * exactly as UCS's (g, point, parent).
 */
module GridSearch {
  import opened Wrappers
  import opened GridEnv
  import opened GridAgent

  /** Where s is a table cell, c is one of its table neighbours exactly when it is one of its neighbours. */
  ghost predicate Adjacent(env: Env, table: Table, s: Cell, c: Cell) {
    s in table ==> (c in table[s] <==> c in Neighbours(env, s))
  }

  /** The table holds, for each of its cells, exactly that cell's neighbours. */
  ghost predicate Fits(env: Env, table: Table) {
    forall s, c {:trigger Adjacent(env, table, s, c)} :: Adjacent(env, table, s, c)
  }

  lemma NeighbourCostsFit(env: Env, euclid: bool, tc: (Cell, Cell) -> nat)
    ensures Fits(env, NeighbourCosts(env, euclid, tc))
  {
  }

  lemma FitsEdges(env: Env, table: Table, p: Cell)
    requires Fits(env, table) && p in table
    ensures forall i :: 0 <= i < |Neighbours(env, p)| ==> Neighbours(env, p)[i] in table[p]
    ensures forall v :: Edge(table, p, v) ==> v in Neighbours(env, p)
  {
    forall i | 0 <= i < |Neighbours(env, p)| ensures Neighbours(env, p)[i] in table[p] {
      assert Neighbours(env, p)[i] in Neighbours(env, p);
      assert Adjacent(env, table, p, Neighbours(env, p)[i]);
    }
    forall v | Edge(table, p, v) ensures v in Neighbours(env, p) {
      assert Adjacent(env, table, p, v);
    }
  }

  /** A queued tuple: the cell, the finalised cell it was reached from, and the summed cost g. */
  datatype Entry = Entry(point: Cell, parent: Cell, g: nat)

  /** An agent's VISITED, seened, PARENT and COST, with its queue. */
  datatype State = State(visited: set<Cell>, seen: seq<Cell>, parent: map<Cell, Cell>, cost: map<Cell, nat>, queue: seq<Entry>)

  /**
   * What searching() ends with: the extracted path and seened, with the
   * agent's PARENT and COST; or the KeyError of extract_path when the goal
   * was never finalised; or the KeyError of the cost lookup at a
   * finalised cell outside the table that has neighbours.
   */
  datatype Outcome =
    | Found(path: seq<Cell>, seen: seq<Cell>, parent: map<Cell, Cell>, cost: map<Cell, nat>)
    | Unreached(seen: seq<Cell>)
    | Crashed(at: Cell)

  /** The queue without its i-th tuple. */
  function Pop(q: seq<Entry>, i: nat): (r: seq<Entry>)
    requires i < |q|
    ensures |r| == |q| - 1 && forall j :: 0 <= j < |r| ==> r[j] == if j < i then q[j] else q[j + 1]
  {
    q[..i] + q[i + 1..]
  }

  /** The tuples pushed for the neighbours of p, reached at cost gp. */
  function Pushes(table: Table, p: Cell, gp: nat, nbrs: seq<Cell>): (r: seq<Entry>)
    requires p in table && forall i :: 0 <= i < |nbrs| ==> nbrs[i] in table[p]
    ensures |r| == |nbrs| && forall i :: 0 <= i < |nbrs| ==> r[i] == Entry(nbrs[i], p, gp + table[p][nbrs[i]])
  {
    seq(|nbrs|, i requires 0 <= i < |nbrs| => Entry(nbrs[i], p, gp + table[p][nbrs[i]]))
  }

  /**
   * One pass of a search loop on the popped tuple e, rest being the queue
   * without it. None is the KeyError of NEIGHBOR_COSTS[point], raised for
   * a fresh cell other than the goal that is not a table key but has
   * neighbours.
   */
  function Settle(env: Env, table: Table, st: State, e: Entry, rest: seq<Entry>, goal: Cell): (r: Option<State>)
    requires Fits(env, table)
    ensures r.None? <==> e.point !in st.visited && e.point != goal && e.point !in table && |Neighbours(env, e.point)| > 0
    ensures r.Some? && e.point in st.visited ==> r.value == st.(queue := rest)
    ensures r.Some? && e.point !in st.visited ==>
      r.value.visited == st.visited + {e.point} && r.value.seen == st.seen + [e.point] &&
      r.value.parent == st.parent[e.point := e.parent] && r.value.cost == st.cost[e.point := e.g]
    ensures r.Some? && e.point !in st.visited && (e.point == goal || e.point !in table) ==> r.value.queue == rest
    ensures r.Some? && e.point !in st.visited && e.point != goal && e.point in table ==>
      |r.value.queue| == |rest| + |Neighbours(env, e.point)| && r.value.queue[..|rest|] == rest &&
      forall k :: 0 <= k < |Neighbours(env, e.point)| ==>
        (Neighbours(env, e.point)[k] in table[e.point] &&
         r.value.queue[|rest| + k] == Entry(Neighbours(env, e.point)[k], e.point, e.g + table[e.point][Neighbours(env, e.point)[k]]))
  {
    var p := e.point;
    if p in st.visited then Some(st.(queue := rest))
    else
      var st' := Finalise(st, e, rest);
      if p == goal then Some(st')
      else if p in table then
        FitsEdges(env, table, p);
        var q := rest + Pushes(table, p, e.g, Neighbours(env, p));
        assert q[..|rest|] == rest;
        Some(st'.(queue := q))
      else if |Neighbours(env, p)| > 0 then None
      else Some(st')
  }

  /** The popped cell recorded in VISITED, seened, PARENT and COST. */
  function Finalise(st: State, e: Entry, rest: seq<Entry>): State {
    State(st.visited + {e.point}, st.seen + [e.point], st.parent[e.point := e.parent], st.cost[e.point := e.g], rest)
  }

  /** The state after the first pass, which pops (start, start, 0). */
  function Begin(env: Env, table: Table, start: Cell, goal: Cell): (r: Option<State>)
    requires Fits(env, table)
    ensures r.None? <==> start != goal && start !in table && |Neighbours(env, start)| > 0
    ensures r.Some? ==>
      r.value.visited == {start} && r.value.seen == [start] &&
      r.value.parent == map[start := start] && r.value.cost == map[start := 0]
    ensures r.Some? && (start == goal || start !in table) ==> r.value.queue == []
  {
    Settle(env, table, State({}, [], map[], map[], []), Entry(start, start, 0), [], goal)
  }

  // ------------------------------------------------------------ the search tree

  /**
   * seened lists VISITED once each, from the start; PARENT and COST are
   * defined exactly on VISITED; the start is its own parent at cost 0; and
   * every other cell hangs from an earlier finalised cell by a table edge
   * whose price its cost adds. rank orders the cells as they were finalised.
   */
  ghost predicate Tree(table: Table, start: Cell, st: State, rank: map<Cell, nat>) {
    TreeShape(start, st, rank) && TreeLinks(table, start, st, rank)
  }

  ghost predicate TreeShape(start: Cell, st: State, rank: map<Cell, nat>) {
    NoDup(st.seen) && |st.seen| > 0 && st.seen[0] == start && start in st.visited &&
    (forall c :: c in st.visited <==> c in st.seen) &&
    st.parent.Keys == st.visited && st.cost.Keys == st.visited && rank.Keys == st.visited &&
    st.parent[start] == start && st.cost[start] == 0 &&
    forall c :: c in rank ==> rank[c] < |st.seen|
  }

  ghost predicate TreeLinks(table: Table, start: Cell, st: State, rank: map<Cell, nat>)
    requires TreeShape(start, st, rank)
  {
    forall c :: c in st.visited && c != start ==>
      st.parent[c] in st.visited && Edge(table, st.parent[c], c) &&
      st.cost[c] == st.cost[st.parent[c]] + table[st.parent[c]][c] &&
      rank[st.parent[c]] < rank[c]
  }

  /** The ranks after popping e: a fresh cell ranks after every finalised one. */
  ghost function Rerank(rank: map<Cell, nat>, st: State, e: Entry): map<Cell, nat> {
    if e.point in st.visited then rank else rank[e.point := |st.seen|]
  }

  /** Every queued tuple hangs from a finalised cell by a table edge, at that cell's cost plus the price. */
  ghost predicate Queued(table: Table, st: State) {
    st.cost.Keys == st.visited &&
    forall i :: 0 <= i < |st.queue| ==>
      st.queue[i].parent in st.visited && Edge(table, st.queue[i].parent, st.queue[i].point) &&
      st.queue[i].g == st.cost[st.queue[i].parent] + table[st.queue[i].parent][st.queue[i].point]
  }

  /** The cells a search can ever finalise: the start and every table neighbour. */
  ghost function Universe(table: Table, start: Cell): set<Cell> {
    {start} + set u, v | u in table && v in table[u] :: v
  }

  lemma Shrinks(u: set<Cell>, a: set<Cell>, b: set<Cell>)
    requires a < b <= u
    ensures |u - b| < |u - a|
  {
    assert !(b <= a);
    var x :| x in b && x !in a;
    assert u - a == (u - b) + (b - a);
    assert (u - b) * (b - a) == {};
    assert x in b - a;
  }

  /** Finalising a fresh cell hanging from a finalised one by a priced table edge keeps the tree. */
  lemma FinaliseTree(table: Table, start: Cell, st: State, rank: map<Cell, nat>, e: Entry, rest: seq<Entry>)
    requires Tree(table, start, st, rank) && e.point !in st.visited && e.parent in st.visited
    requires Edge(table, e.parent, e.point) && e.g == st.cost[e.parent] + table[e.parent][e.point]
    ensures Tree(table, start, Finalise(st, e, rest), Rerank(rank, st, e))
  {
    FinaliseShape(start, st, rank, e, rest);
    FinaliseLinks(table, start, st, rank, e, rest);
  }

  lemma FinaliseShape(start: Cell, st: State, rank: map<Cell, nat>, e: Entry, rest: seq<Entry>)
    requires TreeShape(start, st, rank) && e.point !in st.visited
    ensures TreeShape(start, Finalise(st, e, rest), Rerank(rank, st, e))
  {
    var st' := Finalise(st, e, rest);
    assert NoDup(st'.seen) by {
      assert e.point !in st.seen;
      NoDupConcat(st.seen, [e.point]);
    }
  }

  lemma FinaliseLinks(table: Table, start: Cell, st: State, rank: map<Cell, nat>, e: Entry, rest: seq<Entry>)
    requires TreeShape(start, st, rank) && TreeShape(start, Finalise(st, e, rest), Rerank(rank, st, e))
    requires TreeLinks(table, start, st, rank) && e.point !in st.visited && e.parent in st.visited
    requires Edge(table, e.parent, e.point) && e.g == st.cost[e.parent] + table[e.parent][e.point]
    ensures TreeLinks(table, start, Finalise(st, e, rest), Rerank(rank, st, e))
  {
  }

  /** Dropping a tuple keeps the queue well formed. */
  lemma PopQueued(table: Table, st: State, i: nat)
    requires Queued(table, st) && i < |st.queue|
    ensures Queued(table, st.(queue := Pop(st.queue, i)))
  {
  }

  /** Finalising a fresh cell keeps the remaining tuples well formed. */
  lemma FinaliseQueued(table: Table, st: State, e: Entry, rest: seq<Entry>)
    requires Queued(table, st.(queue := rest)) && e.point !in st.visited
    ensures Queued(table, Finalise(st, e, rest))
  {
  }

  /** The tuples pushed for a finalised table cell's neighbours are well formed. */
  lemma PushQueued(table: Table, st: State, p: Cell, nbrs: seq<Cell>)
    requires Queued(table, st) && p in st.visited && p in table && forall i :: 0 <= i < |nbrs| ==> nbrs[i] in table[p]
    ensures Queued(table, st.(queue := st.queue + Pushes(table, p, st.cost[p], nbrs)))
  {
    var q := st.queue + Pushes(table, p, st.cost[p], nbrs);
    forall j | |st.queue| <= j < |q|
      ensures q[j].parent in st.visited && Edge(table, q[j].parent, q[j].point) &&
        q[j].g == st.cost[q[j].parent] + table[q[j].parent][q[j].point]
    {
      assert q[j] == Pushes(table, p, st.cost[p], nbrs)[j - |st.queue|];
    }
  }

  lemma BeginTree(env: Env, table: Table, start: Cell, goal: Cell)
    requires Fits(env, table) && Begin(env, table, start, goal).Some?
    ensures var st := Begin(env, table, start, goal).value;
      Tree(table, start, st, map[start := 0]) && Queued(table, st) && st.visited == {start} && st.seen == [start] &&
      st.visited <= Universe(table, start)
  {
    var e := Entry(start, start, 0);
    var st0 := Finalise(State({}, [], map[], map[], []), e, []);
    assert Tree(table, start, st0, map[start := 0]);
    if start in table && start != goal {
      FitsEdges(env, table, start);
      PushQueued(table, st0, start, Neighbours(env, start));
    }
  }

  /** A pass keeps the tree and the queue well formed, and either grows VISITED or shortens the queue. */
  lemma SettleTree(env: Env, table: Table, start: Cell, goal: Cell, st: State, rank: map<Cell, nat>, i: nat)
    requires Fits(env, table) && Tree(table, start, st, rank) && Queued(table, st) && st.visited <= Universe(table, start)
    requires i < |st.queue| && Settle(env, table, st, st.queue[i], Pop(st.queue, i), goal).Some?
    ensures var st' := Settle(env, table, st, st.queue[i], Pop(st.queue, i), goal).value;
      Tree(table, start, st', Rerank(rank, st, st.queue[i])) && Queued(table, st') && st'.visited <= Universe(table, start) &&
      (st.queue[i].point in st.visited ==> st'.visited == st.visited && |st'.queue| < |st.queue|) &&
      (st.queue[i].point !in st.visited ==> st.visited < st'.visited) &&
      (goal !in st.visited && goal in st'.visited ==> st'.seen[|st'.seen| - 1] == goal)
  {
    var e := st.queue[i];
    var p := e.point;
    var rest := Pop(st.queue, i);
    PopQueued(table, st, i);
    if p !in st.visited {
      assert p in Universe(table, start) by {
        assert Edge(table, e.parent, p);
      }
      var st1 := Finalise(st, e, rest);
      FinaliseTree(table, start, st, rank, e, rest);
      FinaliseQueued(table, st, e, rest);
      if p != goal && p in table {
        FitsEdges(env, table, p);
        PushQueued(table, st1, p, Neighbours(env, p));
      }
    }
  }

  // ------------------------------------------------------------ the frontier

  /** A heuristic that never drops by more than a step's length along an edge. */
  ghost predicate Consistent(table: Table, unit: bool, h: Cell -> nat) {
    forall u, v :: Edge(table, u, v) ==> h(u) <= Price(table, unit, u, v) + h(v)
  }

  /** The heuristic of UCS and BFS. */
  function Zero(c: Cell): nat {
    0
  }

  /** The priority of a queued tuple: its parent's g, the step to it, and the heuristic at its cell. */
  function Key(table: Table, unit: bool, h: Cell -> nat, g: map<Cell, nat>, e: Entry): nat
    requires e.parent in g && Edge(table, e.parent, e.point)
  {
    g[e.parent] + Price(table, unit, e.parent, e.point) + h(e.point)
  }

  /** g is defined on the finalised cells, whose priorities are at most lo; every queued priority is at least lo. */
  ghost predicate Bounded(table: Table, unit: bool, h: Cell -> nat, visited: set<Cell>, g: map<Cell, nat>, queue: seq<Entry>, lo: nat) {
    g.Keys == visited &&
    (forall c :: c in visited ==> g[c] + h(c) <= lo) &&
    forall i :: 0 <= i < |queue| ==>
      queue[i].parent in g && Edge(table, queue[i].parent, queue[i].point) && lo <= Key(table, unit, h, g, queue[i])
  }

  /** Some queued tuple reaches v from its parent within bound. */
  ghost predicate Pending(table: Table, unit: bool, g: map<Cell, nat>, queue: seq<Entry>, v: Cell, bound: nat) {
    exists i :: 0 <= i < |queue| && queue[i].point == v && queue[i].parent in g &&
      Edge(table, queue[i].parent, v) && g[queue[i].parent] + Price(table, unit, queue[i].parent, v) <= bound
  }

  /** The neighbour v of u is finalised no further than through u, or queued no further. */
  ghost predicate Cover(table: Table, unit: bool, visited: set<Cell>, g: map<Cell, nat>, queue: seq<Entry>, u: Cell, v: Cell) {
    u in g && Edge(table, u, v) &&
    ((v in visited && v in g && g[v] <= g[u] + Price(table, unit, u, v)) ||
     Pending(table, unit, g, queue, v, g[u] + Price(table, unit, u, v)))
  }

  /** Every neighbour of an expanded cell is covered. */
  ghost predicate Settled(table: Table, unit: bool, visited: set<Cell>, g: map<Cell, nat>, expanded: set<Cell>, queue: seq<Entry>) {
    expanded <= g.Keys &&
    forall u, v {:trigger Cover(table, unit, visited, g, queue, u, v)} :: u in expanded && Edge(table, u, v) ==>
      Cover(table, unit, visited, g, queue, u, v)
  }

  /** Some queued tuple is for v. */
  ghost predicate Queues(queue: seq<Entry>, v: Cell) {
    exists i :: 0 <= i < |queue| && queue[i].point == v
  }

  /** A table neighbour v of u is finalised or queued. */
  ghost predicate Met(table: Table, visited: set<Cell>, queue: seq<Entry>, u: Cell, v: Cell) {
    Edge(table, u, v) ==> v in visited || Queues(queue, v)
  }

  /** Every table neighbour of an expanded cell is finalised or queued. */
  ghost predicate Covered(table: Table, visited: set<Cell>, expanded: set<Cell>, queue: seq<Entry>) {
    forall u, v {:trigger Met(table, visited, queue, u, v)} :: u in expanded ==> Met(table, visited, queue, u, v)
  }

  /** g after the pass on e: a fresh cell gets its parent's g plus the step. */
  ghost function Grow(table: Table, unit: bool, g: map<Cell, nat>, st: State, e: Entry): map<Cell, nat>
    requires e.parent in g && Edge(table, e.parent, e.point)
  {
    if e.point in st.visited then g else g[e.point := g[e.parent] + Price(table, unit, e.parent, e.point)]
  }

  /** lo after the pass on e: the priority of a freshly finalised cell. */
  ghost function Rise(table: Table, unit: bool, h: Cell -> nat, g: map<Cell, nat>, st: State, lo: nat, e: Entry): nat
    requires e.parent in g && Edge(table, e.parent, e.point)
  {
    if e.point in st.visited then lo else Key(table, unit, h, g, e)
  }

  /** A queued witness for v either is the dropped tuple or survives the drop, under any g agreeing on the parents. */
  lemma PendingPop(table: Table, unit: bool, g: map<Cell, nat>, g': map<Cell, nat>, queue: seq<Entry>, i: nat, v: Cell, bound: nat)
    requires i < |queue| && Pending(table, unit, g, queue, v, bound)
    requires forall k :: 0 <= k < |queue| && queue[k].parent in g ==> queue[k].parent in g' && g'[queue[k].parent] == g[queue[k].parent]
    ensures (queue[i].point == v && queue[i].parent in g && Edge(table, queue[i].parent, v) &&
             g[queue[i].parent] + Price(table, unit, queue[i].parent, v) <= bound) ||
            Pending(table, unit, g', Pop(queue, i), v, bound)
  {
    var j :| 0 <= j < |queue| && queue[j].point == v && queue[j].parent in g &&
      Edge(table, queue[j].parent, v) && g[queue[j].parent] + Price(table, unit, queue[j].parent, v) <= bound;
    if j != i {
      var k := if j < i then j else j - 1;
      assert Pop(queue, i)[k] == queue[j];
    }
  }

  /** Dropping a tuple whose cell is already finalised keeps the frontier. */
  lemma PopSeen(table: Table, unit: bool, h: Cell -> nat, visited: set<Cell>, g: map<Cell, nat>, expanded: set<Cell>, queue: seq<Entry>, lo: nat, i: nat)
    requires i < |queue| && queue[i].point in visited
    requires Bounded(table, unit, h, visited, g, queue, lo) && Settled(table, unit, visited, g, expanded, queue)
    ensures Bounded(table, unit, h, visited, g, Pop(queue, i), lo) && Settled(table, unit, visited, g, expanded, Pop(queue, i))
  {
    forall u, v | u in expanded && Edge(table, u, v)
      ensures Cover(table, unit, visited, g, Pop(queue, i), u, v)
    {
      assert Cover(table, unit, visited, g, queue, u, v);
      if !(v in visited && v in g && g[v] <= g[u] + Price(table, unit, u, v)) {
        PendingPop(table, unit, g, g, queue, i, v, g[u] + Price(table, unit, u, v));
      }
    }
  }

  /** Finalising the queued tuple of least priority keeps the frontier, raised to that priority. */
  lemma PopFresh(table: Table, unit: bool, h: Cell -> nat, visited: set<Cell>, g: map<Cell, nat>, expanded: set<Cell>, queue: seq<Entry>, lo: nat, i: nat)
    requires i < |queue| && queue[i].point !in visited
    requires Bounded(table, unit, h, visited, g, queue, lo) && Settled(table, unit, visited, g, expanded, queue)
    requires forall j :: 0 <= j < |queue| ==> Key(table, unit, h, g, queue[i]) <= Key(table, unit, h, g, queue[j])
    ensures var e := queue[i]; var g' := g[e.point := g[e.parent] + Price(table, unit, e.parent, e.point)];
      Bounded(table, unit, h, visited + {e.point}, g', Pop(queue, i), Key(table, unit, h, g, e)) &&
      Settled(table, unit, visited + {e.point}, g', expanded, Pop(queue, i))
  {
    PopFreshBounded(table, unit, h, visited, g, queue, lo, i);
    PopFreshSettled(table, unit, h, visited, g, expanded, queue, lo, i);
  }

  lemma PopFreshBounded(table: Table, unit: bool, h: Cell -> nat, visited: set<Cell>, g: map<Cell, nat>, queue: seq<Entry>, lo: nat, i: nat)
    requires i < |queue| && queue[i].point !in visited
    requires Bounded(table, unit, h, visited, g, queue, lo)
    requires forall j :: 0 <= j < |queue| ==> Key(table, unit, h, g, queue[i]) <= Key(table, unit, h, g, queue[j])
    ensures var e := queue[i]; var g' := g[e.point := g[e.parent] + Price(table, unit, e.parent, e.point)];
      Bounded(table, unit, h, visited + {e.point}, g', Pop(queue, i), Key(table, unit, h, g, e))
  {
    var e := queue[i];
    var p := e.point;
    var g' := g[p := g[e.parent] + Price(table, unit, e.parent, p)];
    var q := Pop(queue, i);
    forall j | 0 <= j < |q|
      ensures q[j].parent in g' && Edge(table, q[j].parent, q[j].point) &&
        Key(table, unit, h, g, e) <= Key(table, unit, h, g', q[j])
    {
      var k := if j < i then j else j + 1;
      assert q[j] == queue[k];
      assert Key(table, unit, h, g', q[j]) == Key(table, unit, h, g, queue[k]);
    }
  }

  lemma PopFreshSettled(table: Table, unit: bool, h: Cell -> nat, visited: set<Cell>, g: map<Cell, nat>, expanded: set<Cell>, queue: seq<Entry>, lo: nat, i: nat)
    requires i < |queue| && queue[i].point !in visited
    requires Bounded(table, unit, h, visited, g, queue, lo) && Settled(table, unit, visited, g, expanded, queue)
    ensures var e := queue[i]; var g' := g[e.point := g[e.parent] + Price(table, unit, e.parent, e.point)];
      Settled(table, unit, visited + {e.point}, g', expanded, Pop(queue, i))
  {
    var e := queue[i];
    var p := e.point;
    var g' := g[p := g[e.parent] + Price(table, unit, e.parent, p)];
    forall u, v | u in expanded && Edge(table, u, v)
      ensures Cover(table, unit, visited + {p}, g', Pop(queue, i), u, v)
    {
      assert Cover(table, unit, visited, g, queue, u, v);
      if !(v in visited && v in g && g[v] <= g[u] + Price(table, unit, u, v)) {
        PendingPop(table, unit, g, g', queue, i, v, g[u] + Price(table, unit, u, v));
      }
    }
  }

  /** Pushing a tuple for every neighbour of the cell of priority lo keeps the frontier and expands the cell. */
  lemma PushFrontier(table: Table, unit: bool, h: Cell -> nat, visited: set<Cell>, g: map<Cell, nat>, expanded: set<Cell>, queue: seq<Entry>, lo: nat,
                     p: Cell, gp: nat, nbrs: seq<Cell>)
    requires Bounded(table, unit, h, visited, g, queue, lo) && Settled(table, unit, visited, g, expanded, queue)
    requires Consistent(table, unit, h) && p in visited && g[p] + h(p) == lo
    requires p in table && (forall i :: 0 <= i < |nbrs| ==> nbrs[i] in table[p]) && forall v :: Edge(table, p, v) ==> v in nbrs
    ensures Bounded(table, unit, h, visited, g, queue + Pushes(table, p, gp, nbrs), lo)
    ensures Settled(table, unit, visited, g, expanded + {p}, queue + Pushes(table, p, gp, nbrs))
  {
    var q := queue + Pushes(table, p, gp, nbrs);
    forall j | 0 <= j < |q|
      ensures q[j].parent in g && Edge(table, q[j].parent, q[j].point) && lo <= Key(table, unit, h, g, q[j])
    {
      if j >= |queue| {
        assert q[j] == Entry(nbrs[j - |queue|], p, gp + table[p][nbrs[j - |queue|]]);
      }
    }
    forall u, v | u in expanded + {p} && Edge(table, u, v)
      ensures Cover(table, unit, visited, g, q, u, v)
    {
      if u in expanded && !(v in visited && v in g && g[v] <= g[u] + Price(table, unit, u, v)) {
        assert Cover(table, unit, visited, g, queue, u, v);
        var j :| 0 <= j < |queue| && queue[j].point == v && queue[j].parent in g &&
          Edge(table, queue[j].parent, v) && g[queue[j].parent] + Price(table, unit, queue[j].parent, v) <= g[u] + Price(table, unit, u, v);
        assert q[j] == queue[j];
      } else if u !in expanded {
        var k :| 0 <= k < |nbrs| && nbrs[k] == v;
        assert q[|queue| + k] == Entry(v, p, gp + table[p][v]);
      }
    }
  }

  /** A cell without table entry has no edges, so it counts as expanded for free. */
  lemma BareSettled(table: Table, unit: bool, visited: set<Cell>, g: map<Cell, nat>, expanded: set<Cell>, queue: seq<Entry>, p: Cell)
    requires Settled(table, unit, visited, g, expanded, queue) && p !in table && p in g
    ensures Settled(table, unit, visited, g, expanded + {p}, queue)
  {
    forall u, v | u in expanded + {p} && Edge(table, u, v) ensures Cover(table, unit, visited, g, queue, u, v) {
      assert u in expanded;
    }
  }

  lemma Without(s: set<Cell>, t: set<Cell>, x: Cell)
    requires x !in s && t - {x} <= s <= t
    ensures t - {x} == s
  {
  }

  /** The frontier of a search that has not finished: every finalised cell but the goal is expanded. */
  ghost predicate Frontier(table: Table, unit: bool, h: Cell -> nat, goal: Cell, visited: set<Cell>, g: map<Cell, nat>, queue: seq<Entry>, lo: nat) {
    Bounded(table, unit, h, visited, g, queue, lo) && Settled(table, unit, visited, g, visited - {goal}, queue)
  }

  /** A pass on a least-priority tuple keeps the frontier, with g grown and lo raised to the finalised priority. */
  lemma SettleFrontier(env: Env, table: Table, unit: bool, h: Cell -> nat, goal: Cell, st: State, g: map<Cell, nat>, lo: nat, i: nat)
    requires Fits(env, table) && Consistent(table, unit, h) && goal !in st.visited
    requires Frontier(table, unit, h, goal, st.visited, g, st.queue, lo)
    requires i < |st.queue| && forall j :: 0 <= j < |st.queue| ==> Key(table, unit, h, g, st.queue[i]) <= Key(table, unit, h, g, st.queue[j])
    requires Settle(env, table, st, st.queue[i], Pop(st.queue, i), goal).Some?
    ensures var st' := Settle(env, table, st, st.queue[i], Pop(st.queue, i), goal).value;
      Frontier(table, unit, h, goal, st'.visited, Grow(table, unit, g, st, st.queue[i]), st'.queue, Rise(table, unit, h, g, st, lo, st.queue[i]))
  {
    Without(st.visited, st.visited, goal);
    if st.queue[i].point in st.visited {
      PopSeen(table, unit, h, st.visited, g, st.visited, st.queue, lo, i);
    } else {
      FreshFrontier(env, table, unit, h, goal, st, g, lo, i);
    }
  }

  /** The pass on a fresh cell: it is finalised, and its neighbours are queued unless it is the goal. */
  lemma FreshFrontier(env: Env, table: Table, unit: bool, h: Cell -> nat, goal: Cell, st: State, g: map<Cell, nat>, lo: nat, i: nat)
    requires Fits(env, table) && Consistent(table, unit, h) && goal !in st.visited
    requires Bounded(table, unit, h, st.visited, g, st.queue, lo) && Settled(table, unit, st.visited, g, st.visited, st.queue)
    requires i < |st.queue| && forall j :: 0 <= j < |st.queue| ==> Key(table, unit, h, g, st.queue[i]) <= Key(table, unit, h, g, st.queue[j])
    requires st.queue[i].point !in st.visited && Settle(env, table, st, st.queue[i], Pop(st.queue, i), goal).Some?
    ensures var st' := Settle(env, table, st, st.queue[i], Pop(st.queue, i), goal).value;
      Frontier(table, unit, h, goal, st'.visited, Grow(table, unit, g, st, st.queue[i]), st'.queue, Rise(table, unit, h, g, st, lo, st.queue[i]))
  {
    var e := st.queue[i];
    var p := e.point;
    PopFresh(table, unit, h, st.visited, g, st.visited, st.queue, lo, i);
    var g' := g[p := g[e.parent] + Price(table, unit, e.parent, p)];
    var lo' := Key(table, unit, h, g, e);
    var vis := st.visited + {p};
    if p == goal {
      Without(st.visited, vis, goal);
    } else if p in table {
      FitsEdges(env, table, p);
      PushFresh(table, unit, h, goal, vis, g', st.visited, Pop(st.queue, i), lo', p, e.g, Neighbours(env, p));
    } else {
      BareSettled(table, unit, vis, g', st.visited, Pop(st.queue, i), p);
      Without(vis, vis, goal);
    }
  }

  /** The neighbours of a freshly finalised table cell other than the goal are pushed: the frontier holds again. */
  lemma PushFresh(table: Table, unit: bool, h: Cell -> nat, goal: Cell, visited: set<Cell>, g: map<Cell, nat>, expanded: set<Cell>,
                  queue: seq<Entry>, lo: nat, p: Cell, gp: nat, nbrs: seq<Cell>)
    requires Bounded(table, unit, h, visited, g, queue, lo) && Settled(table, unit, visited, g, expanded, queue)
    requires expanded + {p} == visited && goal !in visited
    requires Consistent(table, unit, h) && p in visited && g[p] + h(p) == lo
    requires p in table && (forall i :: 0 <= i < |nbrs| ==> nbrs[i] in table[p]) && forall v :: Edge(table, p, v) ==> v in nbrs
    ensures Frontier(table, unit, h, goal, visited, g, queue + Pushes(table, p, gp, nbrs), lo)
  {
    PushFrontier(table, unit, h, visited, g, expanded, queue, lo, p, gp, nbrs);
    Without(visited, visited, goal);
  }

  /** Dropping a tuple whose cell is, or becomes, finalised keeps every expanded neighbour met. */
  lemma CoveredPop(table: Table, visited: set<Cell>, visited': set<Cell>, expanded: set<Cell>, queue: seq<Entry>, i: nat)
    requires Covered(table, visited, expanded, queue) && i < |queue| && visited <= visited' && queue[i].point in visited'
    ensures Covered(table, visited', expanded, Pop(queue, i))
  {
    forall u, v | u in expanded ensures Met(table, visited', Pop(queue, i), u, v) {
      assert Met(table, visited, queue, u, v);
      if Edge(table, u, v) && v !in visited' {
        var j :| 0 <= j < |queue| && queue[j].point == v;
        var k := if j < i then j else j - 1;
        assert Pop(queue, i)[k] == queue[j];
      }
    }
  }

  /** Pushing a tuple for every table neighbour of p expands p. */
  lemma CoveredPush(table: Table, visited: set<Cell>, expanded: set<Cell>, queue: seq<Entry>, p: Cell, gp: nat, nbrs: seq<Cell>)
    requires Covered(table, visited, expanded, queue)
    requires p in table && (forall i :: 0 <= i < |nbrs| ==> nbrs[i] in table[p]) && forall v :: Edge(table, p, v) ==> v in nbrs
    ensures Covered(table, visited, expanded + {p}, queue + Pushes(table, p, gp, nbrs))
  {
    var q := queue + Pushes(table, p, gp, nbrs);
    forall u, v | u in expanded + {p} ensures Met(table, visited, q, u, v) {
      if Edge(table, u, v) && v !in visited {
        if u in expanded {
          assert Met(table, visited, queue, u, v);
          var j :| 0 <= j < |queue| && queue[j].point == v;
          assert q[j] == queue[j];
        } else {
          var k :| 0 <= k < |nbrs| && nbrs[k] == v;
          assert q[|queue| + k].point == v;
        }
      }
    }
  }

  /** A cell without table entry is expanded for free. */
  lemma CoveredBare(table: Table, visited: set<Cell>, expanded: set<Cell>, queue: seq<Entry>, p: Cell)
    requires Covered(table, visited, expanded, queue) && p !in table
    ensures Covered(table, visited, expanded + {p}, queue)
  {
    forall u, v | u in expanded + {p} ensures Met(table, visited, queue, u, v) {
      assert u in expanded || !Edge(table, u, v);
    }
  }

  /** Any pass keeps every table neighbour of a finalised cell other than the goal finalised or queued. */
  lemma SettleCovered(env: Env, table: Table, goal: Cell, st: State, i: nat)
    requires Fits(env, table) && goal !in st.visited && Covered(table, st.visited, st.visited, st.queue)
    requires i < |st.queue| && Settle(env, table, st, st.queue[i], Pop(st.queue, i), goal).Some?
    ensures var st' := Settle(env, table, st, st.queue[i], Pop(st.queue, i), goal).value;
      Covered(table, st'.visited, st'.visited - {goal}, st'.queue)
  {
    var e := st.queue[i];
    var p := e.point;
    var rest := Pop(st.queue, i);
    var vis := st.visited + {p};
    CoveredPop(table, st.visited, vis, st.visited, st.queue, i);
    if p in st.visited {
      assert vis == st.visited;
      Without(st.visited, st.visited, goal);
    } else if p == goal {
      Without(st.visited, vis, goal);
    } else if p in table {
      FitsEdges(env, table, p);
      CoveredPush(table, vis, st.visited, rest, p, e.g, Neighbours(env, p));
      Without(vis, vis, goal);
    } else {
      CoveredBare(table, vis, st.visited, rest, p);
      Without(vis, vis, goal);
    }
  }

  /** COST is the priced g: each pass grows it as the frontier's g grows. */
  lemma CostGrows(env: Env, table: Table, goal: Cell, st: State, i: nat)
    requires Fits(env, table) && Queued(table, st)
    requires i < |st.queue| && Settle(env, table, st, st.queue[i], Pop(st.queue, i), goal).Some?
    ensures Settle(env, table, st, st.queue[i], Pop(st.queue, i), goal).value.cost == Grow(table, false, st.cost, st, st.queue[i])
  {
  }

  /** Every finalised cell but the start lies one priced step beyond its PARENT. */
  ghost predicate Chain(table: Table, unit: bool, start: Cell, parent: map<Cell, Cell>, g: map<Cell, nat>) {
    forall c :: c in parent && c != start ==>
      Edge(table, parent[c], c) && c in g && parent[c] in g && g[c] == g[parent[c]] + Price(table, unit, parent[c], c)
  }

  /** The tree's COST chain is the priced chain. */
  lemma TreeChain(table: Table, start: Cell, st: State, rank: map<Cell, nat>)
    requires Tree(table, start, st, rank)
    ensures Chain(table, false, start, st.parent, st.cost)
  {
  }

  /** Growing g on the PARENT link recorded for a fresh cell keeps the chain. */
  lemma ChainGrows(env: Env, table: Table, unit: bool, start: Cell, goal: Cell, st: State, g: map<Cell, nat>, i: nat)
    requires Fits(env, table) && Queued(table, st) && st.parent.Keys == st.visited && g.Keys == st.visited
    requires Chain(table, unit, start, st.parent, g)
    requires i < |st.queue| && Settle(env, table, st, st.queue[i], Pop(st.queue, i), goal).Some?
    ensures Chain(table, unit, start, Settle(env, table, st, st.queue[i], Pop(st.queue, i), goal).value.parent,
                  Grow(table, unit, g, st, st.queue[i]))
  {
  }

  // ------------------------------------------------------------ first-in, first-out

  /** The number of steps to a tuple's cell through its parent. */
  function Depth(g: map<Cell, nat>, e: Entry): nat {
    if e.parent in g then g[e.parent] + 1 else 0
  }

  /** BFS's list: depths never drop along the list and exceed lo by at most one. */
  ghost predicate Fifo(g: map<Cell, nat>, queue: seq<Entry>, lo: nat) {
    (forall j, k :: 0 <= j < k < |queue| ==> Depth(g, queue[j]) <= Depth(g, queue[k])) &&
    forall j :: 0 <= j < |queue| ==> Depth(g, queue[j]) <= lo + 1
  }

  /** Counting steps, the head of a FIFO list has least priority. */
  lemma FifoHead(table: Table, visited: set<Cell>, g: map<Cell, nat>, queue: seq<Entry>, lo: nat)
    requires Bounded(table, true, Zero, visited, g, queue, lo) && Fifo(g, queue, lo) && |queue| > 0
    ensures forall j :: 0 <= j < |queue| ==> Key(table, true, Zero, g, queue[0]) <= Key(table, true, Zero, g, queue[j])
  {
    forall j | 0 <= j < |queue| ensures Key(table, true, Zero, g, queue[0]) <= Key(table, true, Zero, g, queue[j]) {
      if j > 0 {
        assert Depth(g, queue[0]) <= Depth(g, queue[j]);
      }
    }
  }

  /** Dropping the head keeps the list FIFO, under a g that keeps the parents' depths and a larger lo. */
  lemma FifoPop(table: Table, visited: set<Cell>, g: map<Cell, nat>, g': map<Cell, nat>, queue: seq<Entry>, lo: nat, lo': nat)
    requires Bounded(table, true, Zero, visited, g, queue, lo) && Fifo(g, queue, lo) && |queue| > 0 && lo <= lo'
    requires forall c :: c in g ==> c in g' && g'[c] == g[c]
    ensures Fifo(g', Pop(queue, 0), lo')
  {
    var q := Pop(queue, 0);
    forall j | 0 <= j < |q| ensures Depth(g', q[j]) == Depth(g, queue[j + 1]) {
      assert q[j] == queue[j + 1];
    }
    forall j, k | 0 <= j < k < |q| ensures Depth(g', q[j]) <= Depth(g', q[k]) {
      assert Depth(g, queue[j + 1]) <= Depth(g, queue[k + 1]);
    }
  }

  /** Appending the neighbours of the cell at depth lo keeps the list FIFO. */
  lemma FifoPush(table: Table, g: map<Cell, nat>, queue: seq<Entry>, lo: nat, p: Cell, gp: nat, nbrs: seq<Cell>)
    requires Fifo(g, queue, lo) && p in g && g[p] == lo
    requires p in table && forall i :: 0 <= i < |nbrs| ==> nbrs[i] in table[p]
    ensures Fifo(g, queue + Pushes(table, p, gp, nbrs), lo)
  {
    var q := queue + Pushes(table, p, gp, nbrs);
    forall j | |queue| <= j < |q| ensures Depth(g, q[j]) == lo + 1 {
      assert q[j].parent == p;
    }
    forall j | 0 <= j < |queue| ensures q[j] == queue[j] {
    }
  }

  /** A BFS pass pops the head and keeps the list FIFO around the new lo. */
  lemma SettleFifo(env: Env, table: Table, goal: Cell, st: State, g: map<Cell, nat>, lo: nat)
    requires Fits(env, table) && Bounded(table, true, Zero, st.visited, g, st.queue, lo) && Fifo(g, st.queue, lo)
    requires |st.queue| > 0 && Settle(env, table, st, st.queue[0], Pop(st.queue, 0), goal).Some?
    ensures Fifo(Grow(table, true, g, st, st.queue[0]), Settle(env, table, st, st.queue[0], Pop(st.queue, 0), goal).value.queue,
                 Rise(table, true, Zero, g, st, lo, st.queue[0]))
  {
    var e := st.queue[0];
    var p := e.point;
    var g' := Grow(table, true, g, st, e);
    var lo' := Rise(table, true, Zero, g, st, lo, e);
    FifoPop(table, st.visited, g, g', st.queue, lo, lo');
    if p !in st.visited && p != goal && p in table {
      FitsEdges(env, table, p);
      FifoPush(table, g', Pop(st.queue, 0), lo', p, e.g, Neighbours(env, p));
    }
  }

  // ------------------------------------------------------------ heap order

  /** Python's order on coordinate pairs. */
  predicate CellBefore(a: Cell, b: Cell) {
    a.0 < b.0 || (a.0 == b.0 && a.1 <= b.1)
  }

  /** heapq's order on A*'s tuples (f, g, point, parent), with f the tuple's g plus the heuristic at its cell. */
  predicate Before(h: Cell -> nat, a: Entry, b: Entry) {
    var fa, fb := a.g + h(a.point), b.g + h(b.point);
    fa < fb || (fa == fb &&
      (a.g < b.g || (a.g == b.g &&
        ((a.point != b.point && CellBefore(a.point, b.point)) || (a.point == b.point && CellBefore(a.parent, b.parent))))))
  }

  /** UCS's order on its tuples (g, point, parent). */
  predicate UcsBefore(a: Entry, b: Entry) {
    a.g < b.g || (a.g == b.g &&
      ((a.point != b.point && CellBefore(a.point, b.point)) || (a.point == b.point && CellBefore(a.parent, b.parent))))
  }

  /** Under the zero heuristic A*'s tuples are ordered exactly as UCS's. */
  lemma ZeroOrder(a: Entry, b: Entry)
    ensures Before(Zero, a, b) <==> UcsBefore(a, b)
  {
  }

  lemma BeforeTotal(h: Cell -> nat, a: Entry, b: Entry)
    ensures Before(h, a, b) || Before(h, b, a)
  {
  }

  lemma BeforeTrans(h: Cell -> nat, a: Entry, b: Entry, c: Entry)
    requires Before(h, a, b) && Before(h, b, c)
    ensures Before(h, a, c)
  {
  }

  /** heappop: the position of a least tuple. */
  method MinIndex(h: Cell -> nat, q: seq<Entry>) returns (i: nat)
    requires |q| > 0
    ensures i < |q| && forall j :: 0 <= j < |q| ==> Before(h, q[i], q[j])
  {
    i := 0;
    var k := 1;
    while k < |q|
      invariant i < k <= |q|
      invariant forall j :: 0 <= j < k ==> Before(h, q[i], q[j])
    {
      if !Before(h, q[i], q[k]) {
        BeforeTotal(h, q[i], q[k]);
        forall j | 0 <= j < k ensures Before(h, q[k], q[j]) {
          BeforeTrans(h, q[k], q[i], q[j]);
        }
        i := k;
      }
      k := k + 1;
    }
  }

  /** A least tuple in heap order has least priority. */
  lemma HeapHead(table: Table, h: Cell -> nat, st: State, i: nat)
    requires Queued(table, st) && i < |st.queue| && forall j :: 0 <= j < |st.queue| ==> Before(h, st.queue[i], st.queue[j])
    ensures forall j :: 0 <= j < |st.queue| ==> Key(table, false, h, st.cost, st.queue[i]) <= Key(table, false, h, st.cost, st.queue[j])
  {
    forall j | 0 <= j < |st.queue| ensures Key(table, false, h, st.cost, st.queue[i]) <= Key(table, false, h, st.cost, st.queue[j]) {
      assert Before(h, st.queue[i], st.queue[j]);
    }
  }

  // ------------------------------------------------------------ what the frontier promises

  /** The position of x's first occurrence in w. */
  function First(w: seq<Cell>, x: Cell): (k: nat)
    requires x in w
    ensures k < |w| && w[k] == x && forall j :: 0 <= j < k ==> w[j] != x
  {
    if w[0] == x then 0 else 1 + First(w[1..], x)
  }

  /** A longer prefix of a walk weighs no less. */
  lemma {:induction false} WeightMono(table: Table, unit: bool, w: seq<Cell>, k: nat)
    requires Walk(table, w) && 1 <= k <= |w|
    ensures Walk(table, w[..k]) && Weight(table, unit, w[..k]) <= Weight(table, unit, w)
    decreases |w| - k
  {
    if k < |w| {
      WeightMono(table, unit, w, k + 1);
      assert w[..k + 1][..k] == w[..k];
    } else {
      assert w[..k] == w;
    }
  }

  /**
   * Along a walk from the start that avoids the goal before position m,
   * w[m] is finalised no further than the walk's prefix, or the walk's
   * prefix plus the heuristic at w[m] reaches lo.
   */
  lemma {:induction false} ReachPrefix(table: Table, unit: bool, h: Cell -> nat, visited: set<Cell>, g: map<Cell, nat>, queue: seq<Entry>,
                                       lo: nat, start: Cell, goal: Cell, w: seq<Cell>, m: nat)
    requires Consistent(table, unit, h) && Bounded(table, unit, h, visited, g, queue, lo)
    requires Settled(table, unit, visited, g, visited - {goal}, queue) && start in visited && g[start] == 0
    requires Walk(table, w) && w[0] == start && m < |w| && forall k :: 0 <= k < m ==> w[k] != goal
    ensures Walk(table, w[..m + 1])
    ensures (w[m] in visited && g[w[m]] <= Weight(table, unit, w[..m + 1])) || lo <= Weight(table, unit, w[..m + 1]) + h(w[m])
  {
    WeightMono(table, unit, w, m + 1);
    if m > 0 {
      ReachPrefix(table, unit, h, visited, g, queue, lo, start, goal, w, m - 1);
      var u, v := w[m - 1], w[m];
      assert Edge(table, u, v);
      assert w[..m + 1][..m] == w[..m];
      assert Weight(table, unit, w[..m + 1]) == Weight(table, unit, w[..m]) + Price(table, unit, u, v);
      if u in visited && g[u] <= Weight(table, unit, w[..m]) {
        assert u in visited - {goal};
        assert Cover(table, unit, visited, g, queue, u, v);
        if !(v in visited && v in g && g[v] <= g[u] + Price(table, unit, u, v)) {
          var j :| 0 <= j < |queue| && queue[j].point == v && queue[j].parent in g &&
            Edge(table, queue[j].parent, v) && g[queue[j].parent] + Price(table, unit, queue[j].parent, v) <= g[u] + Price(table, unit, u, v);
          assert lo <= Key(table, unit, h, g, queue[j]);
        }
      } else {
        assert h(u) <= Price(table, unit, u, v) + h(v);
      }
    } else {
      assert w[..1] == [start];
    }
  }

  /** With a consistent heuristic a finalised goal is finalised no further than any walk to it. */
  lemma Reach(table: Table, unit: bool, h: Cell -> nat, visited: set<Cell>, g: map<Cell, nat>, queue: seq<Entry>,
              lo: nat, start: Cell, goal: Cell, w: seq<Cell>)
    requires Consistent(table, unit, h) && Bounded(table, unit, h, visited, g, queue, lo)
    requires Settled(table, unit, visited, g, visited - {goal}, queue) && start in visited && g[start] == 0 && goal in visited
    requires Walk(table, w) && w[0] == start && w[|w| - 1] == goal
    ensures g[goal] <= Weight(table, unit, w)
  {
    var m := First(w, goal);
    ReachPrefix(table, unit, h, visited, g, queue, lo, start, goal, w, m);
    WeightMono(table, unit, w, m + 1);
  }

  /** Every walk from a finalised start stays within a finalised set that leaves nothing queued. */
  lemma {:induction false} Closure(table: Table, visited: set<Cell>, start: Cell, w: seq<Cell>, m: nat)
    requires Covered(table, visited, visited, []) && start in visited
    requires Walk(table, w) && w[0] == start && m < |w|
    ensures w[m] in visited
  {
    if m > 0 {
      Closure(table, visited, start, w, m - 1);
      assert Met(table, visited, [], w[m - 1], w[m]);
    }
  }

  // ------------------------------------------------------------ the first pass

  /** After the first pass the frontier holds with g the start's zero and lo its heuristic. */
  lemma BeginFrontier(env: Env, table: Table, unit: bool, h: Cell -> nat, start: Cell, goal: Cell)
    requires Fits(env, table) && Consistent(table, unit, h) && Begin(env, table, start, goal).Some?
    ensures var st := Begin(env, table, start, goal).value;
      Bounded(table, unit, h, st.visited, map[start := 0], st.queue, h(start)) &&
      Settled(table, unit, st.visited, map[start := 0], st.visited - {goal}, st.queue)
  {
    var g := map[start := 0];
    assert Bounded(table, unit, h, {start}, g, [], h(start));
    assert Settled(table, unit, {start}, g, {}, []);
    assert {start} - {start} == {};
    if start != goal {
      Without({start}, {start}, goal);
      assert {} + {start} == {start};
      if start in table {
        FitsEdges(env, table, start);
        PushFrontier(table, unit, h, {start}, g, {}, [], h(start), start, 0, Neighbours(env, start));
      } else {
        BareSettled(table, unit, {start}, g, {}, [], start);
      }
    }
  }

  /** After the first pass every table neighbour of the start, unless it is the goal, is queued. */
  lemma BeginCovered(env: Env, table: Table, start: Cell, goal: Cell)
    requires Fits(env, table) && Begin(env, table, start, goal).Some?
    ensures var st := Begin(env, table, start, goal).value;
      Covered(table, st.visited, st.visited - {goal}, st.queue)
  {
    assert {start} - {start} == {};
    if start != goal {
      Without({start}, {start}, goal);
      assert {} + {start} == {start};
      if start in table {
        FitsEdges(env, table, start);
        CoveredPush(table, {start}, {}, [], start, 0, Neighbours(env, start));
      } else {
        CoveredBare(table, {start}, {}, [], start);
      }
    }
  }

  /** After BFS's first pass every queued tuple is one step deep. */
  lemma BeginFifo(env: Env, table: Table, start: Cell, goal: Cell)
    requires Fits(env, table) && Begin(env, table, start, goal).Some?
    ensures Fifo(map[start := 0], Begin(env, table, start, goal).value.queue, 0)
  {
    if start != goal && start in table {
      FitsEdges(env, table, start);
      FifoPush(table, map[start := 0], [], 0, start, 0, Neighbours(env, start));
    }
  }

  // ------------------------------------------------------------ the agents

  /** Neither heuristic of UCS and BFS overestimates a step. */
  lemma ZeroConsistent(table: Table, unit: bool)
    ensures Consistent(table, unit, Zero)
  {
  }

  /**
   * What every agent's searching() ends with. A found path is a walk
   * along the table from the start to the goal, each cell hanging from the
   * one before by PARENT, and COST of the goal is its priced weight; seened
   * lists the finalised cells once each, from the start to the goal. No
   * walk at all leads from the start to an unreached goal, and seened
   * still lists the finalised cells once each. A crash is at a
   * cell other than the goal that has neighbours but no table entry.
   */
  ghost predicate Sound(env: Env, table: Table, start: Cell, goal: Cell, out: Outcome) {
    (out.Found? ==> FoundPath(table, start, goal, out.path, out.seen, out.parent, out.cost)) &&
    (out.Unreached? ==> NoDup(out.seen) && |out.seen| > 0 && out.seen[0] == start) &&
    (out.Unreached? ==> forall w :: Walk(table, w) && w[0] == start ==> w[|w| - 1] != goal) &&
    (out.Crashed? ==> out.at != goal && out.at !in table && |Neighbours(env, out.at)| > 0)
  }

  ghost predicate FoundPath(table: Table, start: Cell, goal: Cell, path: seq<Cell>, seen: seq<Cell>, parent: map<Cell, Cell>, cost: map<Cell, nat>) {
    Walk(table, path) && path[0] == start && path[|path| - 1] == goal &&
    (forall i :: 0 < i < |path| ==> path[i] != start && path[i] in parent && parent[path[i]] == path[i - 1]) &&
    goal in cost && cost[goal] == Weight(table, false, path) &&
    NoDup(seen) && |seen| > 0 && seen[0] == start && seen[|seen| - 1] == goal &&
    (forall c :: c in cost <==> c in seen) &&
    start in parent && parent[start] == start && start in cost && cost[start] == 0 &&
    Chain(table, false, start, parent, cost) && Attained(table, start, cost)
  }

  /** Every COST is the priced weight of some walk from the start to its cell. */
  ghost predicate Attained(table: Table, start: Cell, cost: map<Cell, nat>) {
    forall c :: c in cost ==>
      exists w :: Walk(table, w) && w[0] == start && w[|w| - 1] == c && cost[c] == Weight(table, false, w)
  }

  /** seened lists the cells in non-decreasing f: COST plus the heuristic. */
  ghost predicate Ordered(h: Cell -> nat, seen: seq<Cell>, cost: map<Cell, nat>) {
    forall i, j :: 0 <= i < j < |seen| ==>
      seen[i] in cost && seen[j] in cost && cost[seen[i]] + h(seen[i]) <= cost[seen[j]] + h(seen[j])
  }

  /** The loop invariants every agent keeps, whatever its order. */
  ghost predicate Searching(table: Table, start: Cell, goal: Cell, st: State, rank: map<Cell, nat>) {
    Tree(table, start, st, rank) && Queued(table, st) && st.visited <= Universe(table, start) &&
    (goal in st.visited ==> st.seen[|st.seen| - 1] == goal) &&
    Covered(table, st.visited, st.visited - {goal}, st.queue)
  }

  /** The end of searching(): extract_path from the goal, or its KeyError when the goal was never finalised. */
  method Finish(env: Env, table: Table, start: Cell, goal: Cell, st: State, ghost rank: map<Cell, nat>) returns (out: Outcome)
    requires Searching(table, start, goal, st, rank) && (|st.queue| == 0 || goal in st.visited)
    ensures Sound(env, table, start, goal, out) && !out.Crashed?
    ensures out.Found? <==> goal in st.visited
    ensures out.Found? ==> out.seen == st.seen && out.parent == st.parent && out.cost == st.cost
  {
    if goal !in st.visited {
      UnreachedSound(env, table, start, goal, st, rank);
      return Unreached(st.seen);
    }
    var path := ExtractPath(st.parent, start, goal, rank);
    FoundSound(env, table, start, goal, st, rank, path);
    out := Found(path, st.seen, st.parent, st.cost);
  }

  /** An emptied queue without the goal finalised: nothing walks from the start to the goal. */
  lemma UnreachedSound(env: Env, table: Table, start: Cell, goal: Cell, st: State, rank: map<Cell, nat>)
    requires Searching(table, start, goal, st, rank) && |st.queue| == 0 && goal !in st.visited
    ensures Sound(env, table, start, goal, Unreached(st.seen))
  {
    Without(st.visited, st.visited, goal);
    assert st.queue == [];
    forall w | Walk(table, w) && w[0] == start ensures w[|w| - 1] != goal {
      Closure(table, st.visited, start, w, |w| - 1);
    }
  }

  /** The PARENT links from a finalised goal make a found path whose weight is the goal's COST. */
  lemma FoundSound(env: Env, table: Table, start: Cell, goal: Cell, st: State, rank: map<Cell, nat>, path: seq<Cell>)
    requires Searching(table, start, goal, st, rank) && goal in st.visited
    requires |path| >= 1 && path[0] == start && path[|path| - 1] == goal
    requires forall i :: 0 < i < |path| ==> path[i] != start && path[i] in st.parent && st.parent[path[i]] == path[i - 1]
    ensures FoundPath(table, start, goal, path, st.seen, st.parent, st.cost)
  {
    TreeChain(table, start, st, rank);
    ChainWeight(table, false, st.parent, st.cost, start, path);
    TreeAttained(table, start, st, rank);
  }

  /** Each finalised cell's COST is the weight of its PARENT chain from the start. */
  lemma TreeAttained(table: Table, start: Cell, st: State, rank: map<Cell, nat>)
    requires Tree(table, start, st, rank)
    ensures Attained(table, start, st.cost)
  {
    forall c | c in st.cost
      ensures exists w :: Walk(table, w) && w[0] == start && w[|w| - 1] == c && st.cost[c] == Weight(table, false, w)
    {
      var w := ParentWalk(table, start, st, rank, c);
    }
  }

  /** The walk along PARENT links from the start to a finalised cell, which weighs the cell's COST. */
  lemma {:induction false} ParentWalk(table: Table, start: Cell, st: State, rank: map<Cell, nat>, c: Cell) returns (w: seq<Cell>)
    requires Tree(table, start, st, rank) && c in st.visited
    ensures Walk(table, w) && w[0] == start && w[|w| - 1] == c && st.cost[c] == Weight(table, false, w)
    decreases rank[c]
  {
    if c == start {
      w := [start];
    } else {
      var p := st.parent[c];
      var v := ParentWalk(table, start, st, rank, p);
      w := v + [c];
      assert w[..|w| - 1] == v;
      assert Walk(table, w) by {
        forall i | 0 <= i < |w| - 1 ensures Edge(table, w[i], w[i + 1]) {
          if i < |w| - 2 {
            assert w[i] == v[i] && w[i + 1] == v[i + 1];
          }
        }
      }
    }
  }

  /** A pass keeps the shared invariants and either finalises a new cell or shortens the queue. */
  lemma SearchStep(env: Env, table: Table, start: Cell, goal: Cell, st: State, rank: map<Cell, nat>, i: nat)
    requires Fits(env, table) && Searching(table, start, goal, st, rank) && goal !in st.visited
    requires i < |st.queue| && Settle(env, table, st, st.queue[i], Pop(st.queue, i), goal).Some?
    ensures var st' := Settle(env, table, st, st.queue[i], Pop(st.queue, i), goal).value;
      Searching(table, start, goal, st', Rerank(rank, st, st.queue[i])) &&
      (st.queue[i].point in st.visited ==> st'.visited == st.visited && |st'.queue| < |st.queue|) &&
      (st.queue[i].point !in st.visited ==> |Universe(table, start) - st'.visited| < |Universe(table, start) - st.visited|)
  {
    SettleTree(env, table, start, goal, st, rank, i);
    Without(st.visited, st.visited, goal);
    SettleCovered(env, table, goal, st, i);
    if st.queue[i].point !in st.visited {
      var st' := Settle(env, table, st, st.queue[i], Pop(st.queue, i), goal).value;
      Shrinks(Universe(table, start), st.visited, st'.visited);
    }
  }

  /** An A* pass on a least tuple in heap order keeps the frontier priced by COST, for a consistent heuristic. */
  lemma AStarStep(env: Env, table: Table, h: Cell -> nat, goal: Cell, st: State, lo: nat, i: nat)
    requires Fits(env, table) && Queued(table, st) && Consistent(table, false, h) && goal !in st.visited
    requires Frontier(table, false, h, goal, st.visited, st.cost, st.queue, lo)
    requires i < |st.queue| && forall j :: 0 <= j < |st.queue| ==> Before(h, st.queue[i], st.queue[j])
    requires Settle(env, table, st, st.queue[i], Pop(st.queue, i), goal).Some?
    ensures var st' := Settle(env, table, st, st.queue[i], Pop(st.queue, i), goal).value;
      Frontier(table, false, h, goal, st'.visited, st'.cost, st'.queue, NextLo(h, st, lo, st.queue[i]))
  {
    HeapHead(table, h, st, i);
    SettleFrontier(env, table, false, h, goal, st, st.cost, lo, i);
    CostGrows(env, table, goal, st, i);
  }

  /** A*'s lo after the pass on e: the f of a freshly finalised cell. */
  ghost function NextLo(h: Cell -> nat, st: State, lo: nat, e: Entry): nat {
    if e.point in st.visited then lo else e.g + h(e.point)
  }

  /** What A*'s loop keeps: the shared invariants, and the frontier when the heuristic is consistent. */
  ghost predicate AStarInv(table: Table, h: Cell -> nat, start: Cell, goal: Cell, st: State, rank: map<Cell, nat>, lo: nat) {
    Searching(table, start, goal, st, rank) &&
    (Consistent(table, false, h) ==>
      Frontier(table, false, h, goal, st.visited, st.cost, st.queue, lo) && Ordered(h, st.seen, st.cost) &&
      (goal in st.cost ==> lo <= st.cost[goal] + h(goal)))
  }

  /** An A* pass keeps seened in non-decreasing f, and a goal finalised by the pass sets lo to its f. */
  lemma AStarOrder(env: Env, table: Table, h: Cell -> nat, goal: Cell, st: State, lo: nat, i: nat)
    requires Fits(env, table) && Queued(table, st) && goal !in st.visited
    requires Bounded(table, false, h, st.visited, st.cost, st.queue, lo) && Ordered(h, st.seen, st.cost)
    requires forall c :: c in st.seen <==> c in st.visited
    requires i < |st.queue| && Settle(env, table, st, st.queue[i], Pop(st.queue, i), goal).Some?
    ensures var st' := Settle(env, table, st, st.queue[i], Pop(st.queue, i), goal).value;
      Ordered(h, st'.seen, st'.cost) && (goal in st'.cost ==> NextLo(h, st, lo, st.queue[i]) <= st'.cost[goal] + h(goal))
  {
    var e := st.queue[i];
    if e.point !in st.visited {
      var st' := Settle(env, table, st, e, Pop(st.queue, i), goal).value;
      assert lo <= Key(table, false, h, st.cost, e);
      forall a, b | 0 <= a < b < |st'.seen|
        ensures st'.seen[a] in st'.cost && st'.seen[b] in st'.cost &&
          st'.cost[st'.seen[a]] + h(st'.seen[a]) <= st'.cost[st'.seen[b]] + h(st'.seen[b])
      {
        assert st'.seen[a] == st.seen[a] && st.seen[a] in st.visited;
        if b < |st.seen| {
          assert st'.seen[b] == st.seen[b] && st.seen[b] in st.visited;
        }
      }
    }
  }

  /** An A* pass keeps the loop invariant and either finalises a new cell or shortens the heap. */
  lemma AStarPass(env: Env, table: Table, h: Cell -> nat, start: Cell, goal: Cell, st: State, rank: map<Cell, nat>, lo: nat, i: nat)
    requires Fits(env, table) && AStarInv(table, h, start, goal, st, rank, lo) && goal !in st.visited
    requires i < |st.queue| && forall j :: 0 <= j < |st.queue| ==> Before(h, st.queue[i], st.queue[j])
    requires Settle(env, table, st, st.queue[i], Pop(st.queue, i), goal).Some?
    ensures var st' := Settle(env, table, st, st.queue[i], Pop(st.queue, i), goal).value;
      AStarInv(table, h, start, goal, st', Rerank(rank, st, st.queue[i]), NextLo(h, st, lo, st.queue[i])) &&
      (st.queue[i].point in st.visited ==> st'.visited == st.visited && |st'.queue| < |st.queue|) &&
      (st.queue[i].point !in st.visited ==> |Universe(table, start) - st'.visited| < |Universe(table, start) - st.visited|)
  {
    SearchStep(env, table, start, goal, st, rank, i);
    if Consistent(table, false, h) {
      AStarStep(env, table, h, goal, st, lo, i);
      AStarOrder(env, table, h, goal, st, lo, i);
    }
  }

  /** What BFS keeps about the step counts: the frontier, the FIFO list, and the chain of PARENT links. */
  ghost predicate Levels(table: Table, start: Cell, goal: Cell, st: State, level: map<Cell, nat>, lo: nat) {
    Frontier(table, true, Zero, goal, st.visited, level, st.queue, lo) && Fifo(level, st.queue, lo) &&
    Chain(table, true, start, st.parent, level) && start in level && level[start] == 0
  }

  /** A BFS pass on the head of the list keeps the step counts, grown by the finalised cell. */
  lemma BfsStep(env: Env, table: Table, start: Cell, goal: Cell, st: State, rank: map<Cell, nat>, level: map<Cell, nat>, lo: nat)
    requires Fits(env, table) && Searching(table, start, goal, st, rank) && goal !in st.visited
    requires Levels(table, start, goal, st, level, lo)
    requires |st.queue| > 0 && Settle(env, table, st, st.queue[0], Pop(st.queue, 0), goal).Some?
    ensures Levels(table, start, goal, Settle(env, table, st, st.queue[0], Pop(st.queue, 0), goal).value,
                   Grow(table, true, level, st, st.queue[0]), Rise(table, true, Zero, level, st, lo, st.queue[0]))
  {
    ZeroConsistent(table, true);
    FifoHead(table, st.visited, level, st.queue, lo);
    SettleFrontier(env, table, true, Zero, goal, st, level, lo, 0);
    SettleFifo(env, table, goal, st, level, lo);
    ChainGrows(env, table, true, start, goal, st, level, 0);
  }

  /**
   * AStarAgent.searching with heuristic h: pops the least tuple in heap
   * order. With a consistent heuristic the path found is no heavier than
   * any walk from the start to the goal, every finalised cell's COST is no
   * more than any walk to it, and seened lists the cells in non-decreasing f.
   */
  method AStar(env: Env, table: Table, start: Cell, goal: Cell, h: Cell -> nat) returns (out: Outcome)
    requires Fits(env, table)
    ensures Sound(env, table, start, goal, out)
    ensures out.Found? && Consistent(table, false, h) ==>
      Walk(table, out.path) &&
      forall w :: Walk(table, w) && w[0] == start && w[|w| - 1] == goal ==> Weight(table, false, out.path) <= Weight(table, false, w)
    ensures out.Found? && Consistent(table, false, h) ==>
      forall c, w :: c in out.cost && Walk(table, w) && w[0] == start && w[|w| - 1] == c ==> out.cost[c] <= Weight(table, false, w)
    ensures out.Found? && Consistent(table, false, h) ==> Ordered(h, out.seen, out.cost)
  {
    var b := Begin(env, table, start, goal);
    if b.None? {
      return Crashed(start);
    }
    BeginSearching(env, table, start, goal);
    if Consistent(table, false, h) {
      BeginFrontier(env, table, false, h, start, goal);
    }
    var st, rank, lo, crash := AStarLoop(env, table, start, goal, h, b.value, map[start := 0], h(start));
    if crash.Some? {
      return Crashed(crash.value);
    }
    out := Finish(env, table, start, goal, st, rank);
    if out.Found? && Consistent(table, false, h) {
      AStarShortest(table, h, start, goal, st, lo, out);
      AStarCosts(table, h, start, goal, st, rank, lo);
    }
  }

  /** The while loop of AStarAgent.searching, up to the goal, an empty heap, or the KeyError. */
  method AStarLoop(env: Env, table: Table, start: Cell, goal: Cell, h: Cell -> nat, st0: State, ghost rank0: map<Cell, nat>, ghost lo0: nat)
    returns (st: State, ghost rank: map<Cell, nat>, ghost lo: nat, crash: Option<Cell>)
    requires Fits(env, table) && AStarInv(table, h, start, goal, st0, rank0, lo0)
    ensures crash.Some? ==> crash.value != goal && crash.value !in table && |Neighbours(env, crash.value)| > 0
    ensures crash.None? ==> AStarInv(table, h, start, goal, st, rank, lo) && (|st.queue| == 0 || goal in st.visited)
  {
    st, rank, lo := st0, rank0, lo0;
    while |st.queue| > 0 && goal !in st.visited
      invariant AStarInv(table, h, start, goal, st, rank, lo)
      decreases |Universe(table, start) - st.visited|, |st.queue|
    {
      var i := MinIndex(h, st.queue);
      var e := st.queue[i];
      var r := Settle(env, table, st, e, Pop(st.queue, i), goal);
      if r.None? {
        return st, rank, lo, Some(e.point);
      }
      AStarPass(env, table, h, start, goal, st, rank, lo, i);
      lo := NextLo(h, st, lo, e);
      rank := Rerank(rank, st, e);
      st := r.value;
    }
    crash := None;
  }

  /**
   * UCSAgent.searching: A* with the zero heuristic, whose heap order is
   * UCS's. The path found is no heavier than any walk to the goal, every
   * finalised cell's COST is no more than any walk to it, and the cells are
   * finalised in non-decreasing COST.
   */
  method Ucs(env: Env, table: Table, start: Cell, goal: Cell) returns (out: Outcome)
    requires Fits(env, table)
    ensures Sound(env, table, start, goal, out)
    ensures out.Found? ==>
      Walk(table, out.path) &&
      forall w :: Walk(table, w) && w[0] == start && w[|w| - 1] == goal ==> Weight(table, false, out.path) <= Weight(table, false, w)
    ensures out.Found? ==>
      forall c, w :: c in out.cost && Walk(table, w) && w[0] == start && w[|w| - 1] == c ==> out.cost[c] <= Weight(table, false, w)
    ensures out.Found? ==>
      forall i, j :: 0 <= i < j < |out.seen| ==>
        out.seen[i] in out.cost && out.seen[j] in out.cost && out.cost[out.seen[i]] <= out.cost[out.seen[j]]
  {
    ZeroConsistent(table, false);
    out := AStar(env, table, start, goal, Zero);
  }

  /**
   * BFSAgent.searching: pops the head of the list. COST still sums the
   * table prices, but the path found has no more cells than any walk from
   * the start to the goal.
   */
  method Bfs(env: Env, table: Table, start: Cell, goal: Cell) returns (out: Outcome)
    requires Fits(env, table)
    ensures Sound(env, table, start, goal, out)
    ensures out.Found? ==> forall w :: Walk(table, w) && w[0] == start && w[|w| - 1] == goal ==> |out.path| <= |w|
  {
    var b := Begin(env, table, start, goal);
    if b.None? {
      return Crashed(start);
    }
    BeginSearching(env, table, start, goal);
    BeginLevels(env, table, start, goal);
    var st, rank, level, lo, crash := BfsLoop(env, table, start, goal, b.value, map[start := 0], map[start := 0], 0);
    if crash.Some? {
      return Crashed(crash.value);
    }
    out := Finish(env, table, start, goal, st, rank);
    if out.Found? {
      BfsShortest(table, start, goal, st, level, lo, out);
    }
  }

  /** The while loop of BFSAgent.searching, up to the goal, an empty list, or the KeyError. */
  method BfsLoop(env: Env, table: Table, start: Cell, goal: Cell, st0: State, ghost rank0: map<Cell, nat>, ghost level0: map<Cell, nat>, ghost lo0: nat)
    returns (st: State, ghost rank: map<Cell, nat>, ghost level: map<Cell, nat>, ghost lo: nat, crash: Option<Cell>)
    requires Fits(env, table) && Searching(table, start, goal, st0, rank0) && Levels(table, start, goal, st0, level0, lo0)
    ensures crash.Some? ==> crash.value != goal && crash.value !in table && |Neighbours(env, crash.value)| > 0
    ensures crash.None? ==> Searching(table, start, goal, st, rank) && (|st.queue| == 0 || goal in st.visited)
    ensures crash.None? ==> Levels(table, start, goal, st, level, lo)
  {
    st, rank, level, lo := st0, rank0, level0, lo0;
    while |st.queue| > 0 && goal !in st.visited
      invariant Searching(table, start, goal, st, rank) && Levels(table, start, goal, st, level, lo)
      decreases |Universe(table, start) - st.visited|, |st.queue|
    {
      var e := st.queue[0];
      var r := Settle(env, table, st, e, Pop(st.queue, 0), goal);
      if r.None? {
        return st, rank, level, lo, Some(e.point);
      }
      SearchStep(env, table, start, goal, st, rank, 0);
      BfsStep(env, table, start, goal, st, rank, level, lo);
      lo := Rise(table, true, Zero, level, st, lo, e);
      level := Grow(table, true, level, st, e);
      rank := Rerank(rank, st, e);
      st := r.value;
    }
    crash := None;
  }

  /** The first pass sets up the shared invariants. */
  lemma BeginSearching(env: Env, table: Table, start: Cell, goal: Cell)
    requires Fits(env, table) && Begin(env, table, start, goal).Some?
    ensures Searching(table, start, goal, Begin(env, table, start, goal).value, map[start := 0])
  {
    BeginTree(env, table, start, goal);
    BeginCovered(env, table, start, goal);
  }

  /** The first pass sets up the step counts: the start at zero, its neighbours one step deep. */
  lemma BeginLevels(env: Env, table: Table, start: Cell, goal: Cell)
    requires Fits(env, table) && Begin(env, table, start, goal).Some?
    ensures Levels(table, start, goal, Begin(env, table, start, goal).value, map[start := 0], 0)
  {
    ZeroConsistent(table, true);
    BeginFrontier(env, table, true, Zero, start, goal);
    BeginFifo(env, table, start, goal);
  }

  /** A path found by BFS has no more cells than any walk from the start to the goal. */
  lemma BfsShortest(table: Table, start: Cell, goal: Cell, st: State, level: map<Cell, nat>, lo: nat, out: Outcome)
    requires Levels(table, start, goal, st, level, lo) && goal in st.visited
    requires out.Found? && FoundPath(table, start, goal, out.path, out.seen, st.parent, out.cost)
    ensures forall w :: Walk(table, w) && w[0] == start && w[|w| - 1] == goal ==> |out.path| <= |w|
  {
    var path := out.path;
    ChainWeight(table, true, st.parent, level, start, path);
    StepWeight(table, path);
    forall w | Walk(table, w) && w[0] == start && w[|w| - 1] == goal ensures |path| <= |w| {
      Reach(table, true, Zero, st.visited, level, st.queue, lo, start, goal, w);
      StepWeight(table, w);
    }
  }

  /** With a consistent heuristic a path found by A* is no heavier than any walk from the start to the goal. */
  lemma AStarShortest(table: Table, h: Cell -> nat, start: Cell, goal: Cell, st: State, lo: nat, out: Outcome)
    requires Consistent(table, false, h) && Frontier(table, false, h, goal, st.visited, st.cost, st.queue, lo)
    requires start in st.cost && st.cost[start] == 0 && goal in st.visited
    requires out.Found? && FoundPath(table, start, goal, out.path, out.seen, out.parent, st.cost)
    ensures forall w :: Walk(table, w) && w[0] == start && w[|w| - 1] == goal ==> Weight(table, false, out.path) <= Weight(table, false, w)
  {
    forall w | Walk(table, w) && w[0] == start && w[|w| - 1] == goal
      ensures Weight(table, false, out.path) <= Weight(table, false, w)
    {
      Reach(table, false, h, st.visited, st.cost, st.queue, lo, start, goal, w);
    }
  }

  /** Once lo is within a walk's prefix plus the heuristic, a consistent heuristic keeps it so along the rest of the walk. */
  lemma {:induction false} LoCarries(table: Table, unit: bool, h: Cell -> nat, lo: nat, w: seq<Cell>, k: nat, m: nat)
    requires Consistent(table, unit, h) && Walk(table, w) && k <= m < |w|
    requires Walk(table, w[..k + 1]) && lo <= Weight(table, unit, w[..k + 1]) + h(w[k])
    ensures Walk(table, w[..m + 1]) && lo <= Weight(table, unit, w[..m + 1]) + h(w[m])
    decreases m - k
  {
    WeightMono(table, unit, w, m + 1);
    if m > k {
      LoCarries(table, unit, h, lo, w, k, m - 1);
      var u, v := w[m - 1], w[m];
      assert Edge(table, u, v);
      assert w[..m + 1][..m] == w[..m];
      assert Weight(table, unit, w[..m + 1]) == Weight(table, unit, w[..m]) + Price(table, unit, u, v);
      assert h(u) <= Price(table, unit, u, v) + h(v);
    }
  }

  /**
   * With a consistent heuristic every finalised cell, not only the goal,
   * is finalised no further than any walk to it: a walk through the goal
   * is no lighter than the goal's f, which bounds every finalised f.
   */
  lemma CellShortest(table: Table, h: Cell -> nat, visited: set<Cell>, g: map<Cell, nat>, queue: seq<Entry>,
                     lo: nat, start: Cell, goal: Cell, c: Cell, w: seq<Cell>)
    requires Consistent(table, false, h) && Frontier(table, false, h, goal, visited, g, queue, lo)
    requires start in visited && g[start] == 0 && (goal in visited ==> lo <= g[goal] + h(goal))
    requires c in visited && Walk(table, w) && w[0] == start && w[|w| - 1] == c
    ensures g[c] <= Weight(table, false, w)
  {
    var n := |w| - 1;
    var k := if goal in w then First(w, goal) else n;
    ReachPrefix(table, false, h, visited, g, queue, lo, start, goal, w, k);
    assert w[..n + 1] == w;
    if k == n && g[c] <= Weight(table, false, w) {
    } else {
      assert lo <= Weight(table, false, w[..k + 1]) + h(w[k]);
      LoCarries(table, false, h, lo, w, k, n);
    }
  }

  /** What A*'s loop keeps gives every finalised cell a COST no more than any walk to it. */
  lemma AStarCosts(table: Table, h: Cell -> nat, start: Cell, goal: Cell, st: State, rank: map<Cell, nat>, lo: nat)
    requires Consistent(table, false, h) && AStarInv(table, h, start, goal, st, rank, lo)
    ensures forall c, w :: c in st.cost && Walk(table, w) && w[0] == start && w[|w| - 1] == c ==> st.cost[c] <= Weight(table, false, w)
  {
    forall c, w | c in st.cost && Walk(table, w) && w[0] == start && w[|w| - 1] == c
      ensures st.cost[c] <= Weight(table, false, w)
    {
      CellShortest(table, h, st.visited, st.cost, st.queue, lo, start, goal, c, w);
    }
  }
}
