/**
 * Graph colouring as a constraint problem (2/Q3_raw.py, GraphColoringCSP):
 * nodes and adjacency lists built from an edge list, colour domains 1..M,
 * AC-3 pruning, then backtracking with minimum-remaining-values node
 * selection, least-constraining-value colour order and forward checking
 * that is undone when a branch fails. Domains are Python lists and are
 * sequences here: undoing a removal appends the colour again, so a failed
 * branch gives back each domain's multiset of colours, not its order.
 * The iteration order of the node set is a parameter `order`.
 */
module GraphColouring {
  import opened Wrappers

  type Edge = (int, int)
  type Domains = map<int, seq<int>>
  type Colouring = map<int, int>

  datatype Csp = Csp(nodes: set<int>, adj: map<int, seq<int>>, domains: Domains)

  // ----------------------------------------------------- construction

  /** x is an endpoint of some edge. */
  ghost predicate Mentioned(edges: seq<Edge>, x: int) {
    exists i :: 0 <= i < |edges| && (edges[i].0 == x || edges[i].1 == x)
  }

  /** Some edge joins u and v, in either direction. */
  ghost predicate Joined(edges: seq<Edge>, u: int, v: int) {
    exists i :: 0 <= i < |edges| && (edges[i] == (u, v) || edges[i] == (v, u))
  }

  function Endpoints(edges: seq<Edge>): (s: set<int>)
    ensures forall x :: x in s <==> Mentioned(edges, x)
  {
    if |edges| == 0 then {}
    else
      var k := |edges| - 1;
      var s := Endpoints(edges[..k]) + {edges[k].0, edges[k].1};
      assert forall i :: 0 <= i < k ==> edges[..k][i] == edges[i];
      s
  }

  /** How often v is listed among u's neighbours: once per edge (u, v) and once per edge (v, u). */
  function Links(edges: seq<Edge>, u: int, v: int): nat {
    if |edges| == 0 then 0
    else
      var e := edges[|edges| - 1];
      Links(edges[..|edges| - 1], u, v) + (if e == (u, v) then 1 else 0) + (if e == (v, u) then 1 else 0)
  }

  /** adj[u] of the defaultdict(list): the neighbours appended so far. */
  function Neighbours(adj: map<int, seq<int>>, u: int): seq<int> {
    if u in adj then adj[u] else []
  }

  /** The adjacency lists: for each edge (u, v), v is appended to u's list, then u to v's. */
  function Adjacency(edges: seq<Edge>): (adj: map<int, seq<int>>)
    ensures adj.Keys == Endpoints(edges)
    ensures forall u, v :: multiset(Neighbours(adj, u))[v] == Links(edges, u, v)
  {
    if |edges| == 0 then map[]
    else
      var (u, v) := edges[|edges| - 1];
      var adj := Adjacency(edges[..|edges| - 1]);
      AddEdgeCounts(adj, u, v);
      AddEdge(adj, u, v)
  }

  /** The two appends of one edge: v to u's list, then u to v's. */
  function AddEdge(adj: map<int, seq<int>>, u: int, v: int): map<int, seq<int>> {
    var adj' := adj[u := Neighbours(adj, u) + [v]];
    adj'[v := Neighbours(adj', v) + [u]]
  }

  /** One edge adds u and v as keys and one listing each way. */
  lemma AddEdgeCounts(adj: map<int, seq<int>>, u: int, v: int)
    ensures AddEdge(adj, u, v).Keys == adj.Keys + {u, v}
    ensures forall x, y :: multiset(Neighbours(AddEdge(adj, u, v), x))[y] == EdgeCount(adj, u, v, x, y)
  {
    forall x, y ensures multiset(Neighbours(AddEdge(adj, u, v), x))[y] == EdgeCount(adj, u, v, x, y) {
      AddEdgeCount(adj, u, v, x, y);
    }
  }

  /** How often y is listed among x's neighbours once the edge (u, v) is added. */
  function EdgeCount(adj: map<int, seq<int>>, u: int, v: int, x: int, y: int): int {
    multiset(Neighbours(adj, x))[y] + (if (x, y) == (u, v) then 1 else 0) + (if (x, y) == (v, u) then 1 else 0)
  }

  lemma AddEdgeCount(adj: map<int, seq<int>>, u: int, v: int, x: int, y: int)
    ensures multiset(Neighbours(AddEdge(adj, u, v), x))[y] == EdgeCount(adj, u, v, x, y)
  {
    var adj' := adj[u := Neighbours(adj, u) + [v]];
    var r := AddEdge(adj, u, v);
    var here := multiset(Neighbours(adj, x))[y];
    if x == v {
      assert Neighbours(r, x) == Neighbours(adj', v) + [u];
      AppendCount(Neighbours(adj', v), u, y);
      if u == v {
        assert Neighbours(adj', v) == Neighbours(adj, u) + [v];
        AppendCount(Neighbours(adj, u), v, y);
        assert EdgeCount(adj, u, v, x, y) == here + (if y == u then 2 else 0);
      } else {
        assert Neighbours(adj', v) == Neighbours(adj, v);
        assert EdgeCount(adj, u, v, x, y) == here + (if y == u then 1 else 0);
      }
    } else if x == u {
      assert Neighbours(r, x) == Neighbours(adj, u) + [v];
      AppendCount(Neighbours(adj, u), v, y);
      assert EdgeCount(adj, u, v, x, y) == here + (if y == v then 1 else 0);
    } else {
      assert Neighbours(r, x) == Neighbours(adj, x);
      assert EdgeCount(adj, u, v, x, y) == here;
    }
  }

  lemma AppendCount(s: seq<int>, z: int, y: int)
    ensures multiset(s + [z])[y] == multiset(s)[y] + (if y == z then 1 else 0)
  {
    assert multiset(s + [z]) == multiset(s) + multiset{z};
  }

  lemma {:induction false} LinksSymmetric(edges: seq<Edge>, u: int, v: int)
    ensures Links(edges, u, v) == Links(edges, v, u)
  {
    if |edges| > 0 {
      LinksSymmetric(edges[..|edges| - 1], u, v);
    }
  }

  lemma {:induction false} LinksPositive(edges: seq<Edge>, u: int, v: int)
    ensures Links(edges, u, v) > 0 <==> Joined(edges, u, v)
  {
    if |edges| > 0 {
      var k := |edges| - 1;
      LinksPositive(edges[..k], u, v);
      assert forall i :: 0 <= i < k ==> edges[..k][i] == edges[i];
    }
  }

  /** The colours 1..M in increasing order, none when M < 1. */
  function Palette(M: int): (p: seq<int>)
    ensures forall c :: c in p <==> 1 <= c <= M
    ensures forall i, j :: 0 <= i < j < |p| ==> p[i] < p[j]
  {
    if M < 1 then []
    else
      var p := Palette(M - 1);
      assert forall i :: 0 <= i < |p| ==> p[i] in p;
      p + [M]
  }

  /** Domains that list no colour twice, as palettes do. */
  ghost predicate Distinct(d: Domains) {
    forall n, x :: n in d ==> multiset(d[n])[x] <= 1
  }

  lemma PaletteDistinct(M: int)
    ensures forall x :: multiset(Palette(M))[x] <= 1
  {
    var p := Palette(M);
    forall x ensures multiset(p)[x] <= 1 {
      NoDupCount(p, x);
    }
  }

  /** Domains that only lose colours keep listing none twice. */
  lemma DistinctShrinks(d: Domains, d1: Domains)
    requires Distinct(d) && d1.Keys <= d.Keys && forall n :: n in d1 ==> multiset(d1[n]) <= multiset(d[n])
    ensures Distinct(d1)
  {
    forall n, x | n in d1 ensures multiset(d1[n])[x] <= 1 {
      assert multiset(d1[n])[x] <= multiset(d[n])[x];
    }
  }

  /** Every adjacency list names only nodes, and each lists the other. */
  ghost predicate Valid(csp: Csp) {
    csp.adj.Keys == csp.nodes && csp.domains.Keys == csp.nodes &&
    forall u, v :: u in csp.adj && v in csp.adj[u] ==> v in csp.adj && u in csp.adj[v]
  }

  /** The constructor: nodes are the edge endpoints, every domain the full palette. */
  function NewCsp(edges: seq<Edge>, M: int): (csp: Csp)
    ensures Valid(csp)
    ensures forall x :: x in csp.nodes <==> Mentioned(edges, x)
    ensures forall u, v :: u in csp.adj ==> (v in csp.adj[u] <==> Joined(edges, u, v))
    ensures forall u, v :: u in csp.nodes && v in csp.nodes ==> multiset(csp.adj[u])[v] == multiset(csp.adj[v])[u]
    ensures forall n :: n in csp.nodes ==> csp.domains[n] == Palette(M)
    ensures Distinct(csp.domains)
  {
    PaletteDistinct(M);
    AdjacencySymmetric(edges);
    AdjacencyEdges(edges);
    Csp(Endpoints(edges), Adjacency(edges), map n | n in Endpoints(edges) :: Palette(M))
  }

  /** Each adjacency list lists u as often as u's list lists it. */
  lemma AdjacencySymmetric(edges: seq<Edge>)
    ensures forall u, v :: u in Adjacency(edges) && v in Adjacency(edges) ==>
      multiset(Adjacency(edges)[u])[v] == multiset(Adjacency(edges)[v])[u]
    ensures forall u, v :: u in Adjacency(edges) && v in Adjacency(edges)[u] ==>
      v in Adjacency(edges) && u in Adjacency(edges)[v]
  {
    var adj := Adjacency(edges);
    forall u, v ensures multiset(Neighbours(adj, u))[v] == multiset(Neighbours(adj, v))[u] {
      LinksSymmetric(edges, u, v);
    }
    forall u, v | u in adj && v in adj ensures multiset(adj[u])[v] == multiset(adj[v])[u] {
      assert multiset(Neighbours(adj, u))[v] == multiset(Neighbours(adj, v))[u];
    }
    forall u, v | u in adj && v in adj[u] ensures v in adj && u in adj[v] {
      assert multiset(Neighbours(adj, u))[v] > 0;
      assert multiset(Neighbours(adj, v))[u] > 0;
    }
  }

  /** v is among u's neighbours exactly when an edge joins them. */
  lemma AdjacencyEdges(edges: seq<Edge>)
    ensures forall u, v :: u in Adjacency(edges) ==>
      (v in Adjacency(edges)[u] <==> Joined(edges, u, v))
  {
    var adj := Adjacency(edges);
    forall u, v | u in adj
      ensures v in adj[u] <==> Joined(edges, u, v)
    {
      LinksPositive(edges, u, v);
      assert multiset(Neighbours(adj, u))[v] == Links(edges, u, v);
    }
  }

  // ------------------------------------------------------------- AC-3

  /** any(c != o for o in dj): some colour of dj differs from c. */
  predicate Differs(c: int, dj: seq<int>) {
    |dj| > 0 && (dj[0] != c || Differs(c, dj[1..]))
  }

  lemma {:induction false} DiffersIff(c: int, dj: seq<int>)
    ensures Differs(c, dj) <==> exists o :: o in dj && o != c
  {
    if |dj| > 0 {
      DiffersIff(c, dj[1..]);
      assert dj == [dj[0]] + dj[1..];
      assert dj[0] in dj;
      assert forall o :: o in dj[1..] ==> o in dj;
      assert forall o :: o in dj && o != dj[0] ==> o in dj[1..];
    }
  }

  /** The colours of di, in order, that some colour of dj differs from. */
  function Supported(di: seq<int>, dj: seq<int>): (r: seq<int>)
    ensures |r| <= |di|
  {
    if |di| == 0 then []
    else
      var k := |di| - 1;
      assert di == di[..k] + [di[k]];
      Supported(di[..k], dj) + (if Differs(di[k], dj) then [di[k]] else [])
  }

  /**
   * revise(xi, xj): xi keeps the colours some colour of xj differs from;
   * the flag says whether any colour went.
   */
  function Revise(d: Domains, xi: int, xj: int): (r: (Domains, bool))
    requires xi in d && xj in d
    ensures r.0.Keys == d.Keys
    ensures forall n :: n in d && n != xi ==> r.0[n] == d[n]
    ensures forall c :: c in r.0[xi] <==> c in d[xi] && Differs(c, d[xj])
    ensures multiset(r.0[xi]) <= multiset(d[xi])
    ensures r.1 <==> |r.0[xi]| < |d[xi]|
    ensures !r.1 ==> r.0 == d
  {
    var kept := Supported(d[xi], d[xj]);
    SupportedMembers(d[xi], d[xj]);
    if forall c :: c in d[xi] ==> Differs(c, d[xj]) then
      SupportedAll(d[xi], d[xj]);
      (d, false)
    else
      var c :| c in d[xi] && !Differs(c, d[xj]);
      SupportedDrops(d[xi], d[xj], c);
      (d[xi := kept], true)
  }

  /** Exactly the colours of di that dj supports are kept, each no more often than in di. */
  lemma {:induction false} SupportedMembers(di: seq<int>, dj: seq<int>)
    ensures forall c :: c in Supported(di, dj) <==> c in di && Differs(c, dj)
    ensures multiset(Supported(di, dj)) <= multiset(di)
  {
    if |di| > 0 {
      var k := |di| - 1;
      assert di == di[..k] + [di[k]];
      SupportedMembers(di[..k], dj);
    }
  }

  lemma {:induction false} SupportedDrops(di: seq<int>, dj: seq<int>, c: int)
    requires c in di && !Differs(c, dj)
    ensures |Supported(di, dj)| < |di|
  {
    var k := |di| - 1;
    assert di == di[..k] + [di[k]];
    if di[k] != c {
      assert c in di[..k];
      SupportedDrops(di[..k], dj, c);
    }
  }

  lemma {:induction false} SupportedAll(di: seq<int>, dj: seq<int>)
    requires forall c :: c in di ==> Differs(c, dj)
    ensures Supported(di, dj) == di
  {
    if |di| > 0 {
      var k := |di| - 1;
      assert di == di[..k] + [di[k]];
      assert di[k] in di;
      assert forall c :: c in di[..k] ==> c in di;
      SupportedAll(di[..k], dj);
      calc {
        Supported(di, dj);
        Supported(di[..k], dj) + [di[k]];
        di[..k] + [di[k]];
      }
    }
  }

  /** list.remove: drops the first occurrence of x. */
  function RemoveFirst(s: seq<int>, x: int): (r: seq<int>)
    ensures x in s ==> multiset(r) + multiset{x} == multiset(s)
    ensures x !in s ==> r == s
  {
    if |s| == 0 then []
    else
      assert s == [s[0]] + s[1..];
      if s[0] == x then s[1..]
      else [s[0]] + RemoveFirst(s[1..], x)
  }

  lemma {:induction false} RemoveFirstAfter(a: seq<int>, x: int, b: seq<int>)
    requires x !in a
    ensures RemoveFirst(a + [x] + b, x) == a + b
  {
    var s := a + [x] + b;
    if |a| > 0 {
      HeadSplit(a, [x] + b);
      HeadSplit(a, b);
      assert s == a + ([x] + b) && a[1..] + ([x] + b) == a[1..] + [x] + b;
      RemoveFirstAfter(a[1..], x, b);
    } else {
      assert s[0] == x && s[1..] == b;
    }
  }

  lemma HeadSplit<T>(a: seq<T>, b: seq<T>)
    requires |a| > 0
    ensures a + b == [a[0]] + (a[1..] + b)
  {
    assert a == [a[0]] + a[1..];
  }

  /**
   * When xi == xj the loop of revise reads the very list it shrinks; the
   * colour under test still meets the same verdict: either the list holds
   * two different colours, and nothing is ever removed, or all its
   * colours are equal and each is removed in turn.
   */
  lemma AliasDiffers(s: seq<int>, k: nat)
    requires k < |s|
    ensures Differs(s[k], Supported(s[..k], s) + s[k..]) == Differs(s[k], s)
  {
    if Differs(s[k], s) {
      AllSupported(s, k);
      assert s[..k] + s[k..] == s;
    } else {
      OneColour(s, k);
    }
  }

  /** A list with two different colours supports each of its colours. */
  lemma AllSupported(s: seq<int>, k: nat)
    requires k < |s| && Differs(s[k], s)
    ensures Supported(s[..k], s) == s[..k]
  {
    DiffersIff(s[k], s);
    var o :| o in s && o != s[k];
    forall c | c in s[..k] ensures Differs(c, s) {
      DiffersIff(c, s);
      if c == s[k] {
        assert o in s && o != c;
      } else {
        assert s[k] in s && s[k] != c;
      }
    }
    SupportedAll(s[..k], s);
  }

  /** A list of one repeated colour keeps none of it against itself. */
  lemma OneColour(s: seq<int>, k: nat)
    requires k < |s| && !Differs(s[k], s)
    ensures !Differs(s[k], Supported(s[..k], s) + s[k..])
  {
    var t := Supported(s[..k], s) + s[k..];
    SupportedMembers(s[..k], s);
    DiffersIff(s[k], s);
    DiffersIff(s[k], t);
    forall c | c in t ensures c == s[k] {
      if c in Supported(s[..k], s) {
        assert c in s[..k];
        assert c in s;
      } else {
        assert c in s[k..];
        assert c in s;
      }
    }
  }

  /**
   * The revise loop as written: it walks a copy of xi's list and removes
   * each colour no colour of xj differs from, reading xj's list as it
   * stands, the same list as xi's when xi == xj.
   */
  method ReviseInPlace(d: Domains, xi: int, xj: int) returns (nd: Domains, revised: bool)
    requires xi in d && xj in d
    ensures (nd, revised) == Revise(d, xi, xj)
  {
    revised := false;
    var copy := d[xi];
    var cur := copy;
    var k := 0;
    assert Supported(copy[..0], d[xj]) + copy[0..] == copy;
    while k < |copy|
      invariant 0 <= k <= |copy|
      invariant cur == Supported(copy[..k], d[xj]) + copy[k..]
      invariant revised <==> |Supported(copy[..k], d[xj])| < k
    {
      cur, revised := ReviseTurn(copy, d[xj], xi == xj, cur, revised, k);
      k := k + 1;
    }
    assert copy[..k] == copy && copy[k..] == [];
    ReviseResult(d, xi, xj, cur, revised);
    nd := d[xi := cur];
  }

  /**
   * One turn of the revise loop: colour k of the copy is dropped from the
   * list of xi when no colour of xj's list differs from it, xj's list being
   * the list of xi itself when the two nodes are the same.
   */
  method ReviseTurn(copy: seq<int>, dj: seq<int>, alias: bool, cur: seq<int>, revised: bool, k: nat)
    returns (cur': seq<int>, revised': bool)
    requires k < |copy| && (alias ==> dj == copy)
    requires cur == Supported(copy[..k], dj) + copy[k..]
    requires revised <==> |Supported(copy[..k], dj)| < k
    ensures cur' == Supported(copy[..k + 1], dj) + copy[k + 1..]
    ensures revised' <==> |Supported(copy[..k + 1], dj)| < k + 1
  {
    var colour := copy[k];
    var other := if alias then cur else dj;
    if Differs(colour, dj) {
      TurnKeeps(copy, dj, k);
    } else {
      TurnDrops(copy, dj, k);
    }
    if alias {
      AliasDiffers(copy, k);
    }
    if !Differs(colour, other) {
      cur' := RemoveFirst(cur, colour);
      revised' := true;
    } else {
      cur', revised' := cur, revised;
    }
  }

  /** After the last colour the list of xi is what Revise keeps. */
  lemma ReviseResult(d: Domains, xi: int, xj: int, cur: seq<int>, revised: bool)
    requires xi in d && xj in d
    requires cur == Supported(d[xi], d[xj]) + [] && (revised <==> |Supported(d[xi], d[xj])| < |d[xi]|)
    ensures (d[xi := cur], revised) == Revise(d, xi, xj)
  {
    var copy := d[xi];
    assert cur == Supported(copy, d[xj]);
    if revised {
      assert !(forall c :: c in copy ==> Differs(c, d[xj])) by {
        if forall c :: c in copy ==> Differs(c, d[xj]) {
          SupportedAll(copy, d[xj]);
        }
      }
    } else {
      forall c | c in copy ensures Differs(c, d[xj]) {
        if !Differs(c, d[xj]) {
          SupportedDrops(copy, d[xj], c);
        }
      }
      SupportedAll(copy, d[xj]);
      assert d[xi := cur] == d;
    }
  }

  /** A turn of the revise loop on a colour that some colour of dj differs from keeps the list as it is. */
  lemma TurnKeeps(copy: seq<int>, dj: seq<int>, k: nat)
    requires k < |copy| && Differs(copy[k], dj)
    ensures Supported(copy[..k + 1], dj) + copy[k + 1..] == Supported(copy[..k], dj) + copy[k..]
    ensures |Supported(copy[..k + 1], dj)| == |Supported(copy[..k], dj)| + 1
  {
    assert copy[..k + 1] == copy[..k] + [copy[k]];
    assert copy[..k + 1][..k] == copy[..k];
    assert copy[k..] == [copy[k]] + copy[k + 1..];
  }

  /** A turn of the revise loop on an unsupported colour removes its first occurrence from the list. */
  lemma TurnDrops(copy: seq<int>, dj: seq<int>, k: nat)
    requires k < |copy| && !Differs(copy[k], dj)
    ensures var S := Supported(copy[..k], dj);
      Supported(copy[..k + 1], dj) == S && S + copy[k + 1..] == RemoveFirst(S + copy[k..], copy[k])
  {
    var S := Supported(copy[..k], dj);
    assert copy[..k + 1] == copy[..k] + [copy[k]];
    assert copy[..k + 1][..k] == copy[..k];
    assert copy[k..] == [copy[k]] + copy[k + 1..];
    SupportedMembers(copy[..k], dj);
    RemoveFirstAfter(S, copy[k], copy[k + 1..]);
    assert S + copy[k..] == S + [copy[k]] + copy[k + 1..];
  }

  /** The total number of colours left over the nodes listed in `order`. */
  function Size(d: Domains, order: seq<int>): nat {
    if |order| == 0 then 0
    else Size(d, order[1..]) + (if order[0] in d then |d[order[0]]| else 0)
  }

  lemma {:induction false} SizeShrinks(d: Domains, d': Domains, order: seq<int>, x: int)
    requires d'.Keys == d.Keys && x in d
    requires forall n :: n in d && n != x ==> d'[n] == d[n]
    requires |d'[x]| < |d[x]|
    ensures Size(d', order) <= Size(d, order)
    ensures x in order ==> Size(d', order) < Size(d, order)
  {
    if |order| > 0 {
      SizeShrinks(d, d', order[1..], x);
    }
  }

  /** The arcs the queue starts with: (xi, xj) for every node xi and each neighbour xj. */
  function Arcs(order: seq<int>, adj: map<int, seq<int>>): (q: seq<Edge>)
    requires forall i :: 0 <= i < |order| ==> order[i] in adj
    ensures forall k :: 0 <= k < |q| ==> q[k].0 in adj && q[k].1 in adj[q[k].0]
  {
    if |order| == 0 then []
    else seq(|adj[order[0]]|, j requires 0 <= j < |adj[order[0]]| => (order[0], adj[order[0]][j])) + Arcs(order[1..], adj)
  }

  /** The arcs queued again after xi lost colours: (xk, xi) for each neighbour xk other than xj. */
  function Requeue(nbrs: seq<int>, xi: int, xj: int): (q: seq<Edge>)
    ensures forall k :: 0 <= k < |q| ==> q[k].1 == xi && q[k].0 in nbrs && q[k].0 != xj
  {
    if |nbrs| == 0 then []
    else (if nbrs[0] != xj then [(nbrs[0], xi)] else []) + Requeue(nbrs[1..], xi, xj)
  }

  /** The node set, enumerated once: Python's iteration over self.nodes. */
  ghost predicate IsOrder(order: seq<int>, nodes: set<int>) {
    NoDup(order) && (forall i :: 0 <= i < |order| ==> order[i] in nodes) && forall n :: n in nodes ==> n in order
  }

  lemma OrderIn(order: seq<int>, nodes: set<int>, keys: set<int>)
    requires IsOrder(order, nodes) && keys == nodes
    ensures forall i :: 0 <= i < |order| ==> order[i] in keys
  {
  }

  /** Colours chosen from the domains. */
  ghost predicate Admits(d: Domains, sol: Colouring) {
    forall n :: n in d ==> n in sol && sol[n] in d[n]
  }

  /** Adjacent distinct nodes that are both coloured differ. */
  ghost predicate Proper(csp: Csp, sol: Colouring) {
    forall u, v :: u in sol && u in csp.adj && v in csp.adj[u] && v in sol && u != v ==> sol[u] != sol[v]
  }

  /** No node is its own neighbour. */
  ghost predicate LoopFree(csp: Csp) {
    forall u :: u in csp.adj ==> u !in csp.adj[u]
  }

  /** revise never removes the colour a proper colouring gives xi when xj is another neighbour. */
  lemma ReviseKeeps(csp: Csp, d: Domains, xi: int, xj: int, sol: Colouring)
    requires Valid(csp) && d.Keys == csp.nodes && xi in csp.adj && xj in csp.adj[xi] && xi != xj
    requires Proper(csp, sol) && Admits(d, sol)
    ensures Admits(Revise(d, xi, xj).0, sol)
  {
    assert sol[xj] in d[xj] && sol[xj] != sol[xi];
    DiffersIff(sol[xi], d[xj]);
  }

  /** Every queued arc joins a node to one of its neighbours. */
  ghost predicate ArcsOk(csp: Csp, q: seq<Edge>) {
    forall k :: 0 <= k < |q| ==> q[k].0 in csp.adj && q[k].1 in csp.adj[q[k].0]
  }

  /** The domains the pruning has reached: fewer colours, and every proper colouring's colours kept. */
  ghost predicate Pruned(csp: Csp, d: Domains) {
    d.Keys == csp.domains.Keys &&
    (forall n :: n in d ==> multiset(d[n]) <= multiset(csp.domains[n])) &&
    (LoopFree(csp) ==> forall sol :: Proper(csp, sol) && Admits(csp.domains, sol) ==> Admits(d, sol))
  }

  /** The arcs queued again after xi lost colours point back into xi from its neighbours. */
  lemma RequeueOk(csp: Csp, q: seq<Edge>, xi: int, xj: int)
    requires Valid(csp) && ArcsOk(csp, q) && xi in csp.adj
    ensures ArcsOk(csp, q + Requeue(csp.adj[xi], xi, xj))
  {
    var r := Requeue(csp.adj[xi], xi, xj);
    forall k | 0 <= k < |r| ensures r[k].0 in csp.adj && r[k].1 in csp.adj[r[k].0] {
      assert r[k].0 in csp.adj[xi];
    }
  }

  /** One revise keeps the pruning invariant. */
  lemma PrunedStep(csp: Csp, d: Domains, xi: int, xj: int)
    requires Valid(csp) && Pruned(csp, d) && xi in csp.adj && xj in csp.adj[xi]
    ensures Pruned(csp, Revise(d, xi, xj).0)
  {
    var d' := Revise(d, xi, xj).0;
    if LoopFree(csp) {
      forall sol | Proper(csp, sol) && Admits(csp.domains, sol) ensures Admits(d', sol) {
        ReviseKeeps(csp, d, xi, xj, sol);
      }
    }
    forall n | n in d' ensures multiset(d'[n]) <= multiset(csp.domains[n]) {
      if n == xi {
        MsLeTrans(d'[n], d[n], csp.domains[n]);
      }
    }
  }

  /**
   * ac3: arcs are taken from the front of the queue; when revise removes
   * colours and xi's domain is empty the pruning stops, otherwise the arcs
   * into xi are queued again. Colours are only ever removed, and on a
   * graph without self-loops no colour of any proper colouring is.
   */
  method Ac3(csp: Csp, order: seq<int>) returns (d: Domains)
    requires Valid(csp) && IsOrder(order, csp.nodes)
    ensures d.Keys == csp.domains.Keys
    ensures forall n :: n in d ==> multiset(d[n]) <= multiset(csp.domains[n])
    ensures LoopFree(csp) ==> forall sol :: Proper(csp, sol) && Admits(csp.domains, sol) ==> Admits(d, sol)
    ensures Distinct(csp.domains) ==> Distinct(d)
  {
    d := csp.domains;
    OrderIn(order, csp.nodes, csp.adj.Keys);
    var queue := Arcs(order, csp.adj);
    while |queue| > 0
      invariant Pruned(csp, d) && ArcsOk(csp, queue)
      decreases Size(d, order), |queue|
    {
      var (xi, xj) := queue[0];
      queue := queue[1..];
      var (d', revised) := Revise(d, xi, xj);
      PrunedStep(csp, d, xi, xj);
      if revised {
        assert xi in order;
        SizeShrinks(d, d', order, xi);
        d := d';
        if |d[xi]| == 0 {
          PrunedDistinct(csp, d);
          return;
        }
        RequeueOk(csp, queue, xi, xj);
        queue := queue + Requeue(csp.adj[xi], xi, xj);
      }
    }
    PrunedDistinct(csp, d);
  }

  lemma PrunedDistinct(csp: Csp, d: Domains)
    requires Pruned(csp, d)
    ensures Distinct(csp.domains) ==> Distinct(d)
  {
    if Distinct(csp.domains) {
      DistinctShrinks(csp.domains, d);
    }
  }

  lemma MsLeTrans(a: seq<int>, b: seq<int>, c: seq<int>)
    requires multiset(a) <= multiset(b) && multiset(b) <= multiset(c)
    ensures multiset(a) <= multiset(c)
  {
  }

  // ------------------------------------------------------ backtracking

  /**
   * select_unassigned with MRV: the position in `order` of the first
   * unassigned node with the fewest colours left; None once all are
   * coloured.
   */
  function SelectUnassigned(order: seq<int>, d: Domains, a: Colouring): (r: Option<nat>)
    requires forall i :: 0 <= i < |order| ==> order[i] in d
    ensures r.None? <==> forall j :: 0 <= j < |order| ==> order[j] in a
    ensures r.Some? ==> r.value < |order| && order[r.value] !in a
    ensures r.Some? ==> forall i :: 0 <= i < |order| && order[i] !in a ==> |d[order[r.value]]| <= |d[order[i]]|
    ensures r.Some? ==> forall i :: 0 <= i < r.value && order[i] !in a ==> |d[order[r.value]]| < |d[order[i]]|
  {
    FirstFewest(order, d, a, 0, None)
  }

  function FirstFewest(order: seq<int>, d: Domains, a: Colouring, i: nat, best: Option<nat>): (r: Option<nat>)
    requires forall i :: 0 <= i < |order| ==> order[i] in d
    requires i <= |order|
    requires best.None? ==> forall j :: 0 <= j < i ==> order[j] in a
    requires best.Some? ==> best.value < i && order[best.value] !in a
    requires best.Some? ==> forall j :: 0 <= j < i && order[j] !in a ==> |d[order[best.value]]| <= |d[order[j]]|
    requires best.Some? ==> forall j :: 0 <= j < best.value && order[j] !in a ==> |d[order[best.value]]| < |d[order[j]]|
    ensures r.None? <==> forall j :: 0 <= j < |order| ==> order[j] in a
    ensures r.Some? ==> r.value < |order| && order[r.value] !in a
    ensures r.Some? ==> forall j :: 0 <= j < |order| && order[j] !in a ==> |d[order[r.value]]| <= |d[order[j]]|
    ensures r.Some? ==> forall j :: 0 <= j < r.value && order[j] !in a ==> |d[order[r.value]]| < |d[order[j]]|
    decreases |order| - i
  {
    if i == |order| then best
    else if order[i] in a then FirstFewest(order, d, a, i + 1, best)
    else if best.None? || |d[order[i]]| < |d[order[best.value]]| then FirstFewest(order, d, a, i + 1, Some(i))
    else FirstFewest(order, d, a, i + 1, best)
  }

  /** count_conflicts: the neighbour entries still open whose domain holds the colour. */
  function Conflicts(nbrs: seq<int>, d: Domains, a: Colouring, c: int): (k: nat)
    ensures k <= |nbrs|
    ensures k == 0 <==> forall i :: 0 <= i < |nbrs| && nbrs[i] !in a && nbrs[i] in d ==> c !in d[nbrs[i]]
  {
    if |nbrs| == 0 then 0
    else
      assert nbrs == [nbrs[0]] + nbrs[1..];
      Conflicts(nbrs[1..], d, a, c) + (if nbrs[0] !in a && nbrs[0] in d && c in d[nbrs[0]] then 1 else 0)
  }

  /** Places x after every element whose key is at most x's. */
  function Insert(x: int, ys: seq<int>, key: int -> int): (r: seq<int>)
    ensures multiset(r) == multiset(ys) + multiset{x}
  {
    if |ys| == 0 then [x]
    else if key(x) < key(ys[0]) then [x] + ys
    else
      assert ys == [ys[0]] + ys[1..];
      [ys[0]] + Insert(x, ys[1..], key)
  }

  /** Ascending by key. */
  predicate SortedBy(s: seq<int>, key: int -> int) {
    forall i, j :: 0 <= i < j < |s| ==> key(s[i]) <= key(s[j])
  }

  /** A lower bound on the keys of x and ys bounds every key of the insertion. */
  lemma {:induction false} InsertBound(x: int, ys: seq<int>, key: int -> int, b: int)
    requires b <= key(x) && forall i :: 0 <= i < |ys| ==> b <= key(ys[i])
    ensures forall i :: 0 <= i < |Insert(x, ys, key)| ==> b <= key(Insert(x, ys, key)[i])
  {
    if |ys| > 0 && key(x) >= key(ys[0]) {
      InsertBound(x, ys[1..], key, b);
    }
  }

  lemma {:induction false} InsertSorted(x: int, ys: seq<int>, key: int -> int)
    requires SortedBy(ys, key)
    ensures SortedBy(Insert(x, ys, key), key)
  {
    if |ys| > 0 && key(x) >= key(ys[0]) {
      InsertSorted(x, ys[1..], key);
      InsertBound(x, ys[1..], key, key(ys[0]));
    }
  }

  /** Python's stable sorted(xs, key=key), as insertion sort. */
  function SortBy(xs: seq<int>, key: int -> int): (r: seq<int>)
    ensures multiset(r) == multiset(xs)
    ensures SortedBy(r, key)
  {
    if |xs| == 0 then []
    else
      var k := |xs| - 1;
      assert xs == xs[..k] + [xs[k]];
      InsertSorted(xs[k], SortBy(xs[..k], key), key);
      Insert(xs[k], SortBy(xs[..k], key), key)
  }

  /** order_values with LCV: the node's colours, fewest conflicts first. */
  function OrderValues(nbrs: seq<int>, d: Domains, a: Colouring, node: int): (r: seq<int>)
    requires node in d
    ensures multiset(r) == multiset(d[node])
    ensures forall i, j :: 0 <= i < j < |r| ==> Conflicts(nbrs, d, a, r[i]) <= Conflicts(nbrs, d, a, r[j])
  {
    var r := SortBy(d[node], c => Conflicts(nbrs, d, a, c));
    assert SortedBy(r, c => Conflicts(nbrs, d, a, c));
    r
  }

  /** is_consistent: no coloured neighbour has the colour. */
  function IsConsistent(nbrs: seq<int>, c: int, a: Colouring): (ok: bool)
    ensures ok <==> forall v :: v in nbrs && v in a ==> a[v] != c
  {
    if |nbrs| == 0 then true
    else
      assert forall v :: v in nbrs <==> v == nbrs[0] || v in nbrs[1..];
      !(nbrs[0] in a && a[nbrs[0]] == c) && IsConsistent(nbrs[1..], c, a)
  }

  /**
   * forward_check: the colour leaves the domain of every open neighbour
   * holding it, one list.remove per neighbour entry, and those neighbours
   * are reported, once per removal.
   */
  function ForwardCheck(d: Domains, nbrs: seq<int>, a: Colouring, c: int): (r: (Domains, seq<int>))
    requires forall i :: 0 <= i < |nbrs| ==> nbrs[i] in d
    ensures r.0.Keys == d.Keys
    ensures forall i :: 0 <= i < |r.1| ==> r.1[i] in d
    ensures forall n :: n in d && (n !in nbrs || n in a) ==> r.0[n] == d[n]
    decreases |nbrs|
  {
    if |nbrs| == 0 then (d, [])
    else
      var k := |nbrs| - 1;
      var v := nbrs[k];
      assert nbrs == nbrs[..k] + [v];
      var (d1, r1) := ForwardCheck(d, nbrs[..k], a, c);
      if v in a || c !in d1[v] then (d1, r1)
      else (d1[v := RemoveFirst(d1[v], c)], r1 + [v])
  }

  /** Each reported neighbour accounts for exactly one copy of the colour removed from its domain. */
  lemma {:induction false} ForwardCheckCount(d: Domains, nbrs: seq<int>, a: Colouring, c: int)
    requires forall i :: 0 <= i < |nbrs| ==> nbrs[i] in d
    ensures var (d', changes) := ForwardCheck(d, nbrs, a, c);
      forall n, x :: n in d ==> multiset(d'[n])[x] + (if x == c then multiset(changes)[n] else 0) == multiset(d[n])[x]
  {
    if |nbrs| > 0 {
      var k := |nbrs| - 1;
      var v := nbrs[k];
      assert nbrs == nbrs[..k] + [v];
      ForwardCheckCount(d, nbrs[..k], a, c);
      var (d1, r1) := ForwardCheck(d, nbrs[..k], a, c);
      if !(v in a || c !in d1[v]) {
        assert forall x :: multiset(r1 + [v])[x] == multiset(r1)[x] + (if x == v then 1 else 0);
      }
    }
  }

  /** Forward checking only removes colours. */
  lemma ForwardCheckShrinks(d: Domains, nbrs: seq<int>, a: Colouring, c: int)
    requires forall i :: 0 <= i < |nbrs| ==> nbrs[i] in d
    ensures forall n :: n in d ==> multiset(ForwardCheck(d, nbrs, a, c).0[n]) <= multiset(d[n])
  {
    var d1 := ForwardCheck(d, nbrs, a, c).0;
    ForwardCheckCount(d, nbrs, a, c);
    forall n | n in d ensures multiset(d1[n]) <= multiset(d[n]) {
      forall x ensures multiset(d1[n])[x] <= multiset(d[n])[x] {
      }
    }
  }

  /** The neighbours reported are exactly the open ones whose domain held the colour. */
  lemma {:induction false} ForwardCheckReports(d: Domains, nbrs: seq<int>, a: Colouring, c: int)
    requires forall i :: 0 <= i < |nbrs| ==> nbrs[i] in d
    ensures forall n :: n in ForwardCheck(d, nbrs, a, c).1 <==> n in nbrs && n !in a && c in d[n]
  {
    if |nbrs| > 0 {
      var k := |nbrs| - 1;
      var v := nbrs[k];
      assert nbrs == nbrs[..k] + [v];
      ForwardCheckReports(d, nbrs[..k], a, c);
      ForwardCheckCount(d, nbrs[..k], a, c);
      var (d1, r1) := ForwardCheck(d, nbrs[..k], a, c);
      ForwardCheckShrinks(d, nbrs[..k], a, c);
      if v !in a && c in d[v] && c !in d1[v] {
        assert multiset(d1[v])[c] + multiset(r1)[v] == multiset(d[v])[c];
        assert v in r1;
      }
      if !(v in a || c !in d1[v]) {
        assert c in multiset(d1[v]);
      }
    }
  }

  /** With no colour listed twice, the colour is gone from every open neighbour. */
  lemma {:induction false} ForwardCheckClears(d: Domains, nbrs: seq<int>, a: Colouring, c: int)
    requires forall i :: 0 <= i < |nbrs| ==> nbrs[i] in d
    ensures forall n :: n in d && n in nbrs && n !in a && NoDup(d[n]) ==> c !in ForwardCheck(d, nbrs, a, c).0[n]
  {
    if |nbrs| > 0 {
      var k := |nbrs| - 1;
      var v := nbrs[k];
      assert nbrs == nbrs[..k] + [v];
      ForwardCheckClears(d, nbrs[..k], a, c);
      var (d1, r1) := ForwardCheck(d, nbrs[..k], a, c);
      ForwardCheckShrinks(d, nbrs[..k], a, c);
      if !(v in a || c !in d1[v]) {
        FirstRemovalKeepsNoDup(d1[v], c, d[v]);
      }
    }
  }

  /**
   * On domains listing no colour twice, the single list.remove per open
   * neighbour takes the colour out of every open neighbour's domain.
   */
  lemma ForwardCheckClearsDistinct(d: Domains, nbrs: seq<int>, a: Colouring, c: int)
    requires forall i :: 0 <= i < |nbrs| ==> nbrs[i] in d
    requires Distinct(d)
    ensures forall n :: n in nbrs && n !in a ==> c !in ForwardCheck(d, nbrs, a, c).0[n]
    ensures Distinct(ForwardCheck(d, nbrs, a, c).0)
  {
    var (d', changes) := ForwardCheck(d, nbrs, a, c);
    ForwardCheckCount(d, nbrs, a, c);
    ForwardCheckReports(d, nbrs, a, c);
    ForwardCheckShrinks(d, nbrs, a, c);
    DistinctShrinks(d, d');
    forall n | n in nbrs && n !in a ensures c !in d'[n] {
      assert n in d;
      if c in d[n] {
        assert n in changes;
      }
      assert multiset(d'[n])[c] + multiset(changes)[n] == multiset(d[n])[c];
    }
  }

  /**
   * In backtrack's state — the domains it holds have the colours of
   * domains listing none twice — forward checking with c removes c from
   * every uncoloured neighbour of the node.
   */
  lemma SearchClears(csp: Csp, d: Domains, d': Domains, a: Colouring, node: int, c: int)
    requires Valid(csp) && d.Keys == csp.nodes && SameColours(d, d') && Distinct(d)
    requires node in csp.nodes
    ensures forall i :: 0 <= i < |csp.adj[node]| ==> csp.adj[node][i] in d'
    ensures forall n :: n in csp.adj[node] && n !in a[node := c] ==> c !in ForwardCheck(d', csp.adj[node], a[node := c], c).0[n]
  {
    NeighboursIn(csp, node, d');
    DistinctShrinks(d, d');
    ForwardCheckClearsDistinct(d', csp.adj[node], a[node := c], c);
  }

  lemma FirstRemovalKeepsNoDup(s: seq<int>, c: int, orig: seq<int>)
    requires c in s && multiset(s) <= multiset(orig)
    ensures NoDup(orig) ==> c !in RemoveFirst(s, c)
  {
    if NoDup(orig) && c in RemoveFirst(s, c) {
      var t := RemoveFirst(s, c);
      assert multiset(t)[c] >= 1;
      assert multiset(s)[c] >= 2;
      NoDupCount(orig, c);
    }
  }

  lemma {:induction false} NoDupCount(s: seq<int>, c: int)
    requires NoDup(s)
    ensures multiset(s)[c] <= 1
  {
    if |s| > 0 {
      assert s == [s[0]] + s[1..];
      NoDupCount(s[1..], c);
      if s[0] == c {
        assert c !in s[1..];
      }
    }
  }

  /** The undo in backtrack: the colour is appended again for each reported neighbour. */
  function Restore(d: Domains, changes: seq<int>, c: int): (r: Domains)
    requires forall i :: 0 <= i < |changes| ==> changes[i] in d
    ensures r.Keys == d.Keys
    ensures forall n, x :: n in d ==> multiset(r[n])[x] == multiset(d[n])[x] + (if x == c then multiset(changes)[n] else 0)
  {
    if |changes| == 0 then d
    else
      var k := |changes| - 1;
      assert changes == changes[..k] + [changes[k]];
      var r := Restore(d, changes[..k], c);
      r[changes[k] := r[changes[k]] + [c]]
  }

  /** Undoing a forward check gives every domain back its colours. */
  lemma RestoreUndoesForwardCheck(d: Domains, nbrs: seq<int>, a: Colouring, c: int)
    requires forall i :: 0 <= i < |nbrs| ==> nbrs[i] in d
    ensures var (d', changes) := ForwardCheck(d, nbrs, a, c);
      forall n :: n in d ==> multiset(Restore(d', changes, c)[n]) == multiset(d[n])
  {
    var (d', changes) := ForwardCheck(d, nbrs, a, c);
    ForwardCheckCount(d, nbrs, a, c);
    forall n | n in d ensures multiset(Restore(d', changes, c)[n]) == multiset(d[n]) {
      forall x ensures multiset(Restore(d', changes, c)[n])[x] == multiset(d[n])[x] {
      }
    }
  }

  /** all(len(domains[n]) > 0 for n in adj[node]). */
  predicate AllNonEmpty(d: Domains, nbrs: seq<int>) {
    forall v :: v in nbrs ==> v in d && |d[v]| > 0
  }

  /** Domains holding only colours 1..M. */
  ghost predicate Within(d: Domains, M: int) {
    forall n, c :: n in d && c in d[n] ==> 1 <= c <= M
  }

  /** Domains with the same colours, in any order. */
  ghost predicate SameColours(d: Domains, d': Domains) {
    d'.Keys == d.Keys && forall n :: n in d ==> multiset(d'[n]) == multiset(d[n])
  }

  lemma RestoreSame(d1: Domains, d2: Domains, changes: seq<int>, c: int)
    requires SameColours(d1, d2) && forall i :: 0 <= i < |changes| ==> changes[i] in d1
    ensures SameColours(Restore(d1, changes, c), Restore(d2, changes, c))
  {
    var r1 := Restore(d1, changes, c);
    var r2 := Restore(d2, changes, c);
    forall n | n in r1 ensures multiset(r2[n]) == multiset(r1[n]) {
      forall x ensures multiset(r2[n])[x] == multiset(r1[n])[x] {
      }
    }
  }

  /** Properness as the assignment grows: the new colour clashes with no coloured neighbour. */
  lemma ExtendProper(csp: Csp, a: Colouring, n: int, c: int)
    requires Valid(csp) && Proper(csp, a) && n in csp.adj && n !in a
    requires IsConsistent(csp.adj[n], c, a)
    ensures Proper(csp, a[n := c])
  {
    var a' := a[n := c];
    forall u, v | u in a' && u in csp.adj && v in csp.adj[u] && v in a' && u != v
      ensures a'[u] != a'[v]
    {
      if u == n {
        assert v in a;
      } else if v == n {
        assert u in csp.adj[n];
      }
    }
  }

  /**
   * backtrack: colours the open nodes one by one, MRV node first and
   * LCV colours in order. A colour is tried when no coloured neighbour
   * has it; forward checking prunes the open neighbours, and the branch
   * is entered only when no neighbour's domain is empty. A successful
   * branch returns at once with a complete proper colouring of 1..M; a
   * failed one undoes its pruning, so a failed call hands back domains
   * with the colours it received.
   */
  method Backtrack(csp: Csp, order: seq<int>, M: int, d: Domains, a: Colouring)
    returns (found: bool, sol: Colouring, d': Domains)
    requires Valid(csp) && IsOrder(order, csp.nodes)
    requires d.Keys == csp.nodes && Within(d, M)
    requires a.Keys <= csp.nodes && Proper(csp, a) && forall n :: n in a ==> 1 <= a[n] <= M
    ensures found ==> sol.Keys == csp.nodes && Proper(csp, sol)
    ensures found ==> forall n :: n in sol ==> 1 <= sol[n] <= M
    ensures found ==> forall n :: n in a ==> n in sol && sol[n] == a[n]
    ensures !found ==> SameColours(d, d')
    decreases csp.nodes - a.Keys, 1
  {
    OrderIn(order, csp.nodes, d.Keys);
    var next := SelectUnassigned(order, d, a);
    if next.None? {
      AllListed(order, csp.nodes, a);
      return true, a, d;
    }
    var node := order[next.value];
    var values := OrderValues(csp.adj[node], d, a, node);
    d' := d;
    var k := 0;
    while k < |values|
      invariant 0 <= k <= |values|
      invariant SameColours(d, d')
    {
      assert values[k] in multiset(d[node]);
      var f, s, d2 := TryColour(csp, order, M, d, d', a, node, values[k]);
      if f {
        return true, s, d2;
      }
      d' := d2;
      k := k + 1;
    }
    return false, a, d';
  }

  /**
   * One colour of the loop in backtrack: skipped when a coloured
   * neighbour has it; otherwise forward checked, descended into when no
   * neighbour's domain is empty, and undone on failure.
   */
  method TryColour(csp: Csp, order: seq<int>, M: int, d: Domains, d': Domains, a: Colouring, node: int, c: int)
    returns (found: bool, sol: Colouring, d'': Domains)
    requires Valid(csp) && IsOrder(order, csp.nodes)
    requires d.Keys == csp.nodes && Within(d, M) && SameColours(d, d')
    requires a.Keys <= csp.nodes && Proper(csp, a) && forall n :: n in a ==> 1 <= a[n] <= M
    requires node in csp.nodes && node !in a && c in multiset(d[node])
    ensures found ==> sol.Keys == csp.nodes && Proper(csp, sol)
    ensures found ==> forall n :: n in sol ==> 1 <= sol[n] <= M
    ensures found ==> forall n :: n in a ==> n in sol && sol[n] == a[n]
    ensures !found ==> SameColours(d, d'')
    decreases csp.nodes - a.Keys, 0
  {
    if !IsConsistent(csp.adj[node], c, a) {
      return false, a, d';
    }
    var a' := a[node := c];
    NeighboursIn(csp, node, d');
    var (d1, changes) := ForwardCheck(d', csp.adj[node], a', c);
    RestoreUndoesForwardCheck(d', csp.adj[node], a', c);
    if AllNonEmpty(d1, csp.adj[node]) {
      Descend(csp, M, d, d', a, node, c);
      var f, s, d2 := Backtrack(csp, order, M, d1, a');
      if f {
        return true, s, d2;
      }
      RestoreSame(d1, d2, changes, c);
      d1 := d2;
    }
    d'' := Restore(d1, changes, c);
    return false, a, d'';
  }

  lemma AllListed(order: seq<int>, nodes: set<int>, a: Colouring)
    requires IsOrder(order, nodes) && forall j :: 0 <= j < |order| ==> order[j] in a
    ensures nodes <= a.Keys
  {
    forall n | n in nodes ensures n in a {
      var j :| 0 <= j < |order| && order[j] == n;
    }
  }

  lemma NeighboursIn(csp: Csp, node: int, d: Domains)
    requires Valid(csp) && node in csp.adj && d.Keys == csp.nodes
    ensures forall i :: 0 <= i < |csp.adj[node]| ==> csp.adj[node][i] in d
  {
    forall i | 0 <= i < |csp.adj[node]| ensures csp.adj[node][i] in d {
      var v := csp.adj[node][i];
      assert v in csp.adj[node];
      assert v in csp.adj;
    }
  }

  /** The recursive call's preconditions, after colouring node with c and forward checking. */
  lemma Descend(csp: Csp, M: int, d: Domains, d': Domains, a: Colouring, node: int, c: int)
    requires Valid(csp) && d.Keys == csp.nodes && Within(d, M) && SameColours(d, d')
    requires a.Keys <= csp.nodes && Proper(csp, a) && forall n :: n in a ==> 1 <= a[n] <= M
    requires node in csp.nodes && node !in a && c in multiset(d[node]) && IsConsistent(csp.adj[node], c, a)
    requires forall i :: 0 <= i < |csp.adj[node]| ==> csp.adj[node][i] in d'
    ensures var a' := a[node := c];
      Within(ForwardCheck(d', csp.adj[node], a', c).0, M) && Proper(csp, a') &&
      a'.Keys <= csp.nodes && (forall n :: n in a' ==> 1 <= a'[n] <= M) &&
      csp.nodes - a'.Keys < csp.nodes - a.Keys
  {
    var a' := a[node := c];
    ExtendProper(csp, a, node, c);
    ForwardCheckShrinks(d', csp.adj[node], a', c);
    WithinShrinks(d, d', ForwardCheck(d', csp.adj[node], a', c).0, M);
    assert c in d[node];
    assert node in csp.nodes - a.Keys;
  }

  lemma WithinShrinks(d: Domains, d': Domains, d1: Domains, M: int)
    requires Within(d, M) && SameColours(d, d') && d1.Keys == d'.Keys
    requires forall n :: n in d' ==> multiset(d1[n]) <= multiset(d'[n])
    ensures Within(d1, M)
  {
    forall n, x | n in d1 && x in d1[n] ensures 1 <= x <= M {
      assert x in multiset(d1[n]);
      assert x in multiset(d'[n]);
      assert x in multiset(d[n]);
      assert x in d[n];
    }
  }

  /**
   * solve: AC-3 over the domains, then backtracking from the empty
   * assignment; a returned colouring gives every node a colour in 1..M
   * and adjacent distinct nodes different colours.
   */
  method Solve(csp: Csp, order: seq<int>, M: int) returns (solution: Option<Colouring>)
    requires Valid(csp) && IsOrder(order, csp.nodes)
    requires Within(csp.domains, M)
    ensures solution.Some? ==> solution.value.Keys == csp.nodes && Proper(csp, solution.value)
    ensures solution.Some? ==> forall n :: n in solution.value ==> 1 <= solution.value[n] <= M
  {
    var d := Ac3(csp, order);
    assert Within(d, M) by {
      forall n, c | n in d && c in d[n] ensures 1 <= c <= M {
        assert c in multiset(d[n]);
        assert c in multiset(csp.domains[n]);
        assert c in csp.domains[n];
      }
    }
    var found, sol, _ := Backtrack(csp.(domains := d), order, M, d, map[]);
    solution := if found then Some(sol) else None;
  }
}
