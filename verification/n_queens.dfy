/**
 * N-Queens with obstacles (2/N-Queen-Sample.py): one queen per row, on a
 * square that is not blocked, no two queens sharing a column or a
 * diagonal; the solutions are counted by backtracking over rows with
 * minimum-remaining-values selection and forward checking.
 */
module NQueens {
  import opened Wrappers

  /** Row -> column of the queens placed so far. */
  type Assignment = map<int, int>
  /** Row -> columns still possible. */
  type Domains = map<int, set<int>>

  /** range(n) is empty for a negative n. */
  function Width(n: int): nat {
    if n < 0 then 0 else n
  }

  /** The domains hold exactly the rows 0..n-1. */
  ghost predicate HasRows(n: int, d: Domains) {
    forall i :: i in d <==> 0 <= i < n
  }

  /** Queens at (r1, c1) and (r2, c2) share neither a column nor a diagonal. */
  predicate NoAttack(r1: int, c1: int, r2: int, c2: int) {
    c1 != c2 && Abs(r1 - r2) != Abs(c1 - c2)
  }

  /** A column of the board whose square in row `r` is not an obstacle. */
  predicate Free(n: int, obs: seq<(int, int)>, r: int, c: int) {
    0 <= c < n && (r, c) !in obs
  }

  /** A queen at (row, col) is attacked by no placed queen. */
  predicate Consistent(row: int, col: int, a: Assignment) {
    forall pr :: pr in a ==> NoAttack(row, col, pr, a[pr])
  }

  // -------------------------------------------------------- solutions

  /** A full placement: s[r] is the column of row r's queen. */
  ghost predicate IsSolution(n: int, obs: seq<(int, int)>, s: seq<int>) {
    |s| == Width(n) &&
    (forall r :: 0 <= r < |s| ==> Free(n, obs, r, s[r])) &&
    (forall r1, r2 :: 0 <= r1 < r2 < |s| ==> NoAttack(r1, s[r1], r2, s[r2]))
  }

  /** Every sequence of k columns in 0..n-1. */
  ghost function Columns(n: int, k: nat): (S: set<seq<int>>)
    ensures forall s :: s in S <==> |s| == k && forall i :: 0 <= i < k ==> 0 <= s[i] < n
  {
    if k == 0 then {[]}
    else
      var P := Columns(n, k - 1);
      var S := set s, c | s in P && 0 <= c < n :: s + [c];
      forall s | |s| == k && forall i :: 0 <= i < k ==> 0 <= s[i] < n
        ensures s in S
      {
        assert s[..k - 1] in P;
        assert s == s[..k - 1] + [s[k - 1]];
      }
      S
  }

  /** All placements of one queen per row. */
  ghost function Solutions(n: int, obs: seq<(int, int)>): set<seq<int>> {
    set s | s in Columns(n, Width(n)) && IsSolution(n, obs, s)
  }

  /** The placement agrees with every queen already placed. */
  ghost predicate Extends(s: seq<int>, a: Assignment) {
    forall r :: r in a ==> 0 <= r < |s| && s[r] == a[r]
  }

  /** The solutions that complete the assignment. */
  ghost function Ext(n: int, obs: seq<(int, int)>, a: Assignment): set<seq<int>> {
    set s | s in Solutions(n, obs) && Extends(s, a)
  }

  /** The completions that put row r's queen in a column of C. */
  ghost function ExtWith(n: int, obs: seq<(int, int)>, a: Assignment, r: int, C: set<int>): set<seq<int>> {
    set s | s in Ext(n, obs, a) && 0 <= r < |s| && s[r] in C
  }

  /**
   * The search state backtrack keeps: domains for rows 0..n-1; placed
   * queens on free squares attacking each other nowhere; and every open
   * row's domain exactly its free columns no placed queen attacks.
   */
  ghost predicate Inv(n: int, obs: seq<(int, int)>, d: Domains, a: Assignment) {
    HasRows(n, d) && a.Keys <= d.Keys &&
    (forall r :: r in a ==> Free(n, obs, r, a[r])) &&
    (forall r1, r2 :: r1 in a && r2 in a && r1 != r2 ==> NoAttack(r1, a[r1], r2, a[r2])) &&
    (forall r :: r in d && r !in a ==> forall c :: c in d[r] <==> Free(n, obs, r, c) && Consistent(r, c, a))
  }

  // ------------------------------------------------------- operations

  /** build_domains: row i may take every column j with (i, j) not an obstacle. */
  function BuildDomains(n: int, obs: seq<(int, int)>): (d: Domains)
    ensures HasRows(n, d)
    ensures forall i :: i in d ==> forall j :: j in d[i] <==> Free(n, obs, i, j)
  {
    BuildRows(n, obs, Width(n))
  }

  /** The outer loop of build_domains after its first k rows. */
  function BuildRows(n: int, obs: seq<(int, int)>, k: nat): (d: Domains)
    ensures forall i :: i in d <==> 0 <= i < k
    ensures forall i :: i in d ==> forall j :: j in d[i] <==> Free(n, obs, i, j)
  {
    if k == 0 then map[]
    else BuildRows(n, obs, k - 1)[k - 1 := FreeColumns(n, obs, k - 1, Width(n))]
  }

  /** The inner loop of build_domains: the columns below k of row i that are not obstacles. */
  function FreeColumns(n: int, obs: seq<(int, int)>, i: int, k: nat): (cols: set<int>)
    ensures forall j :: j in cols <==> 0 <= j < k && (i, j) !in obs
  {
    if k == 0 then {}
    else if (i, k - 1) in obs then FreeColumns(n, obs, i, k - 1)
    else FreeColumns(n, obs, i, k - 1) + {k - 1}
  }

  lemma InitialInv(n: int, obs: seq<(int, int)>)
    ensures Inv(n, obs, BuildDomains(n, obs), map[])
    ensures Ext(n, obs, map[]) == Solutions(n, obs)
  {
  }

  /**
   * select_unassigned_var: the first open row, in row order, among those
   * with the fewest remaining columns; None once every row is placed.
   */
  function SelectUnassigned(n: int, d: Domains, a: Assignment): (r: Option<int>)
    requires HasRows(n, d)
    ensures r.None? <==> d.Keys <= a.Keys
    ensures r.Some? ==> r.value in d && r.value !in a
    ensures r.Some? ==> forall i :: i in d && i !in a ==> |d[r.value]| <= |d[i]|
    ensures r.Some? ==> forall i :: 0 <= i < r.value && i !in a ==> |d[r.value]| < |d[i]|
  {
    MinScan(n, d, a, 0, None)
  }

  function MinScan(n: int, d: Domains, a: Assignment, i: nat, best: Option<int>): (r: Option<int>)
    requires HasRows(n, d) && i <= Width(n)
    requires best.None? ==> forall j :: 0 <= j < i ==> j in a
    requires best.Some? ==> 0 <= best.value < i && best.value !in a
    requires best.Some? ==> forall j :: 0 <= j < i && j !in a ==> |d[best.value]| <= |d[j]|
    requires best.Some? ==> forall j :: 0 <= j < best.value && j !in a ==> |d[best.value]| < |d[j]|
    ensures r.None? <==> d.Keys <= a.Keys
    ensures r.Some? ==> r.value in d && r.value !in a
    ensures r.Some? ==> forall j :: j in d && j !in a ==> |d[r.value]| <= |d[j]|
    ensures r.Some? ==> forall j :: 0 <= j < r.value && j !in a ==> |d[r.value]| < |d[j]|
    decreases Width(n) - i
  {
    if i == Width(n) then
      assert forall j :: j in d ==> 0 <= j < i;
      best
    else if i in a then MinScan(n, d, a, i + 1, best)
    else if best.None? || |d[i]| < |d[best.value]| then MinScan(n, d, a, i + 1, Some(i))
    else MinScan(n, d, a, i + 1, best)
  }

  /** is_consistent: the loop over the placed queens, stopping at the first attack. */
  method IsConsistent(row: int, col: int, assignment: Assignment) returns (ok: bool)
    ensures ok <==> Consistent(row, col, assignment)
  {
    var pending := assignment.Keys;
    while pending != {}
      invariant pending <= assignment.Keys
      invariant forall pr :: pr in assignment && pr !in pending ==> NoAttack(row, col, pr, assignment[pr])
      decreases |pending|
    {
      var pr := Pick(pending);
      var pc := assignment[pr];
      if col == pc {
        return false;
      }
      if Abs(row - pr) == Abs(col - pc) {
        return false;
      }
      pending := pending - {pr};
    }
    return true;
  }

  /**
   * forward_check, called with (row, col) already in the assignment:
   * fresh domains in which every open row loses the columns the new
   * queen attacks, and a flag raised when an open row is left empty.
   */
  function ForwardCheck(d: Domains, row: int, col: int, a: Assignment): (r: (Domains, bool))
    ensures r.0.Keys == d.Keys
    ensures forall i :: i in d && i in a ==> r.0[i] == d[i]
    ensures forall i :: i in d && i !in a ==> r.0[i] <= d[i]
    ensures forall i, c :: i in d && i !in a && c in d[i] && NoAttack(i, c, row, col) ==> c in r.0[i]
    ensures forall i, c :: i in d && i !in a && c in d[i] && !NoAttack(i, c, row, col) ==> c !in r.0[i]
    ensures r.1 <==> exists i :: i in d && i !in a && r.0[i] == {}
  {
    var nd := map i | i in d :: if i in a then d[i] else set c | c in d[i] && NoAttack(i, c, row, col);
    (nd, exists i :: i in d && i !in a && nd[i] == {})
  }

  // --------------------------------------------------- search lemmas

  /** Forward checking after placing (r, c) restores the search state. */
  lemma ForwardCheckKeeps(n: int, obs: seq<(int, int)>, d: Domains, a: Assignment, r: int, c: int)
    requires Inv(n, obs, d, a) && r in d && r !in a && c in d[r]
    ensures Inv(n, obs, ForwardCheck(d, r, c, a[r := c]).0, a[r := c])
  {
    var a' := a[r := c];
    var nd := ForwardCheck(d, r, c, a').0;
    forall i | i in nd && i !in a'
      ensures forall c' :: c' in nd[i] <==> Free(n, obs, i, c') && Consistent(i, c', a')
    {
      forall c' ensures c' in nd[i] <==> Free(n, obs, i, c') && Consistent(i, c', a') {
        KeepsColumn(n, obs, d, a, r, c, i, c');
      }
    }
  }

  /** An open row keeps a column after forward checking iff the column is free and consistent with the new placement. */
  lemma KeepsColumn(n: int, obs: seq<(int, int)>, d: Domains, a: Assignment, r: int, c: int, i: int, c': int)
    requires r !in a && i in d && i != r && i !in a
    requires c' in d[i] <==> Free(n, obs, i, c') && Consistent(i, c', a)
    ensures c' in ForwardCheck(d, r, c, a[r := c]).0[i] <==> Free(n, obs, i, c') && Consistent(i, c', a[r := c])
  {
    var a' := a[r := c];
    ForwardCheckKept(d, r, c, a', i, c');
    if Consistent(i, c', a') {
      assert NoAttack(i, c', r, c) by {
        assert r in a';
      }
      assert Consistent(i, c', a) by {
        forall pr | pr in a ensures NoAttack(i, c', pr, a[pr]) {
          assert pr in a' && a'[pr] == a[pr];
        }
      }
    }
  }

  lemma ForwardCheckKept(d: Domains, row: int, col: int, a: Assignment, i: int, c: int)
    requires i in d && i !in a
    ensures c in ForwardCheck(d, row, col, a).0[i] <==> c in d[i] && NoAttack(i, c, row, col)
  {
  }

  /** A complete assignment is the one solution extending itself. */
  lemma CompleteHasOne(n: int, obs: seq<(int, int)>, d: Domains, a: Assignment)
    requires Inv(n, obs, d, a) && d.Keys <= a.Keys
    ensures |Ext(n, obs, a)| == 1
  {
    var s := CompleteSolution(n, obs, d, a);
    forall t | t in Ext(n, obs, a) ensures t == s {
      assert forall i :: 0 <= i < |t| ==> t[i] == s[i];
    }
    assert Ext(n, obs, a) == {s};
  }

  lemma CompleteSolution(n: int, obs: seq<(int, int)>, d: Domains, a: Assignment) returns (s: seq<int>)
    requires Inv(n, obs, d, a) && d.Keys <= a.Keys
    ensures s in Ext(n, obs, a) && |s| == Width(n)
    ensures forall i :: 0 <= i < |s| ==> s[i] == a[i]
  {
    s := seq(Width(n), i requires 0 <= i < Width(n) => a[i]);
    assert s in Columns(n, Width(n));
    assert IsSolution(n, obs, s) by {
      forall r1, r2 | 0 <= r1 < r2 < |s| ensures NoAttack(r1, s[r1], r2, s[r2]) {
        assert r1 in a && r2 in a;
      }
    }
    assert Extends(s, a);
  }

  /** A placement extending the assignment gives every open row a column of its domain. */
  lemma ExtInDomain(n: int, obs: seq<(int, int)>, d: Domains, a: Assignment, r: int, s: seq<int>)
    requires Inv(n, obs, d, a) && r in d && r !in a && s in Ext(n, obs, a)
    ensures 0 <= r < |s| && s[r] in d[r]
  {
    forall pr | pr in a ensures NoAttack(r, s[r], pr, a[pr]) {
      assert s[pr] == a[pr];
      if pr < r {
        assert NoAttack(pr, s[pr], r, s[r]);
      } else {
        assert NoAttack(r, s[r], pr, s[pr]);
      }
    }
  }

  /** An open row left without columns leaves nothing to extend. */
  lemma EmptyDomainNone(n: int, obs: seq<(int, int)>, d: Domains, a: Assignment, i: int)
    requires Inv(n, obs, d, a) && i in d && i !in a && d[i] == {}
    ensures Ext(n, obs, a) == {}
  {
    forall s | s in Ext(n, obs, a) ensures false {
      ExtInDomain(n, obs, d, a, i, s);
    }
  }

  lemma ExtWithNothing(n: int, obs: seq<(int, int)>, a: Assignment, r: int)
    ensures ExtWith(n, obs, a, r, {}) == {}
  {
  }

  /** Adding one more column to C adds exactly the completions with that column in row r. */
  lemma ExtWithAdd(n: int, obs: seq<(int, int)>, a: Assignment, r: int, C: set<int>, c: int)
    requires r !in a && c !in C
    ensures |ExtWith(n, obs, a, r, C + {c})| == |ExtWith(n, obs, a, r, C)| + |Ext(n, obs, a[r := c])|
  {
    var A := ExtWith(n, obs, a, r, C);
    var B := Ext(n, obs, a[r := c]);
    forall s ensures s in ExtWith(n, obs, a, r, C + {c}) <==> s in A + B {
      if s in B {
        assert Extends(s, a) by {
          forall pr | pr in a ensures 0 <= pr < |s| && s[pr] == a[pr] {
            assert pr in a[r := c];
          }
        }
        assert r in a[r := c];
      }
      if s in Ext(n, obs, a) && 0 <= r < |s| && s[r] == c {
        assert Extends(s, a[r := c]);
      }
    }
    assert ExtWith(n, obs, a, r, C + {c}) == A + B;
    assert A * B == {} by {
      forall s | s in B ensures s !in A {
        assert r in a[r := c];
      }
    }
  }

  /** Every completion puts row r's queen in its domain. */
  lemma ExtWithAll(n: int, obs: seq<(int, int)>, d: Domains, a: Assignment, r: int)
    requires Inv(n, obs, d, a) && r in d && r !in a
    ensures ExtWith(n, obs, a, r, d[r]) == Ext(n, obs, a)
  {
    forall s | s in Ext(n, obs, a) ensures s in ExtWith(n, obs, a, r, d[r]) {
      ExtInDomain(n, obs, d, a, r, s);
    }
  }

  /**
   * Placing a queen from an open row's domain: is_consistent accepts it;
   * a raised forward-check flag means no solution completes the new
   * assignment, otherwise the pruned domains keep the search state; and
   * deleting the row again gives back the assignment.
   */
  lemma Place(n: int, obs: seq<(int, int)>, d: Domains, a: Assignment, r: int, c: int)
    requires Inv(n, obs, d, a) && r in d && r !in a && c in d[r]
    ensures Consistent(r, c, a)
    ensures ForwardCheck(d, r, c, a[r := c]).1 ==> Ext(n, obs, a[r := c]) == {}
    ensures !ForwardCheck(d, r, c, a[r := c]).1 ==> Inv(n, obs, ForwardCheck(d, r, c, a[r := c]).0, a[r := c])
    ensures a[r := c] - {r} == a
  {
    var a' := a[r := c];
    var (nd, flag) := ForwardCheck(d, r, c, a');
    ForwardCheckKeeps(n, obs, d, a, r, c);
    if flag {
      var i :| i in d && i !in a' && nd[i] == {};
      EmptyDomainNone(n, obs, nd, a', i);
    }
  }

  // ------------------------------------------------------------ search

  /**
   * backtrack: the number of solutions completing the assignment. The
   * assignment is extended and shrunk in place and handed back as it
   * was found.
   */
  method Backtrack(n: int, obs: seq<(int, int)>, d: Domains, assignment: Assignment)
    returns (total: nat, restored: Assignment)
    requires Inv(n, obs, d, assignment)
    ensures total == |Ext(n, obs, assignment)|
    ensures restored == assignment
    decreases d.Keys - assignment.Keys, 1
  {
    restored := assignment;
    var row := SelectUnassigned(n, d, restored);
    if row.None? {
      CompleteHasOne(n, obs, d, assignment);
      return 1, restored;
    }
    var r := row.value;
    total := 0;
    var rest := d[r];
    ghost var done: set<int> := {};
    ExtWithNothing(n, obs, assignment, r);
    while rest != {}
      invariant done <= d[r] && rest == d[r] - done
      invariant restored == assignment
      invariant total == |ExtWith(n, obs, assignment, r, done)|
      decreases |rest|
    {
      var c := Pick(rest);
      TakeStep(d[r], done, c);
      ExtWithAdd(n, obs, assignment, r, done, c);
      var sub;
      sub, restored := TryColumn(n, obs, d, restored, r, c);
      total := total + sub;
      rest := rest - {c};
      done := done + {c};
    }
    TakeAll(d[r], done);
    ExtWithAll(n, obs, d, assignment, r);
  }

  /**
   * One turn of backtrack's loop: the queen of row r goes to column c
   * when is_consistent allows it, the search recurses unless forward
   * checking empties a domain, and the row is deleted again.
   */
  method TryColumn(n: int, obs: seq<(int, int)>, d: Domains, assignment: Assignment, r: int, c: int)
    returns (sub: nat, restored: Assignment)
    requires Inv(n, obs, d, assignment) && r in d && r !in assignment && c in d[r]
    ensures sub == |Ext(n, obs, assignment[r := c])|
    ensures restored == assignment
    decreases d.Keys - assignment.Keys, 0
  {
    restored := assignment;
    sub := 0;
    var ok := IsConsistent(r, c, restored);
    Place(n, obs, d, assignment, r, c);
    if ok {
      restored := restored[r := c];
      var (nd, flag) := ForwardCheck(d, r, c, restored);
      if !flag {
        var back;
        sub, back := Backtrack(n, obs, nd, restored);
        restored := back;
      }
      restored := restored - {r};
    }
  }

  /** count_nqueens: the number of placements of one queen per row on free squares, no two attacking. */
  method CountNQueens(n: int, obs: seq<(int, int)>) returns (count: nat)
    ensures count == |Solutions(n, obs)|
  {
    var d := BuildDomains(n, obs);
    InitialInv(n, obs);
    var empty: Assignment := map[];
    var restored;
    count, restored := Backtrack(n, obs, d, empty);
  }
}
