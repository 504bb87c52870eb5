/**
 * The grid world of 1/env.py: a 51 by 31 board, a set of obstacle cells,
 * teleporters that send a cell to its partner, and the eight king moves.
 * Map files are replaced by the data they hold: the obstacle set and the
 * list of teleporter pairs; the shuffle of the random generator is an input.
 */
module GridEnv {
  import opened Wrappers

  type Cell = (int, int)

  const XRange := 51
  const YRange := 31

  /** Env.motions, in its order. */
  const Motions: seq<Cell> := [(-1, 0), (-1, 1), (0, 1), (1, 1), (1, 0), (1, -1), (0, -1), (-1, -1)]

  /** A non-zero offset of at most one in each coordinate. */
  predicate KingOffset(m: Cell) {
    -1 <= m.0 <= 1 && -1 <= m.1 <= 1 && m != (0, 0)
  }

  lemma MotionsAreKingMoves()
    ensures |Motions| == 8 && NoDup(Motions)
    ensures forall m :: m in Motions <==> KingOffset(m)
  {
    forall m | KingOffset(m) ensures m in Motions {
      if m.0 == -1 {
        assert m == Motions[0] || m == Motions[1] || m == Motions[7];
      } else if m.0 == 0 {
        assert m == Motions[2] || m == Motions[6];
      } else {
        assert m == Motions[3] || m == Motions[4] || m == Motions[5];
      }
    }
  }

  predicate InBounds(c: Cell) {
    0 <= c.0 < XRange && 0 <= c.1 < YRange
  }

  datatype Env = Env(obs: set<Cell>, teleports: map<Cell, Cell>)

  /** Every teleporter's partner leads back to it. */
  ghost predicate Symmetric(t: map<Cell, Cell>) {
    forall a, b :: a in t && t[a] == b ==> b in t && t[b] == a
  }

  /** No teleporter leads to itself. */
  ghost predicate Irreflexive(t: map<Cell, Cell>) {
    forall c :: c in t ==> t[c] != c
  }

  /** Some two-element entry of the file's list mentions c. */
  ghost predicate Listed(pairs: seq<seq<Cell>>, c: Cell) {
    exists k :: 0 <= k < |pairs| && |pairs[k]| == 2 && (c == pairs[k][0] || c == pairs[k][1])
  }

  /** One entry of the list applied to the teleporters loaded so far: a pair links its cells both ways. */
  function Link(t: map<Cell, Cell>, p: seq<Cell>): map<Cell, Cell> {
    if |p| == 2 then t[p[0] := p[1]][p[1] := p[0]] else t
  }

  /** The entries applied in order, later ones overwriting earlier ones. */
  function Links(pairs: seq<seq<Cell>>): map<Cell, Cell> {
    if |pairs| == 0 then map[] else Link(Links(pairs[..|pairs| - 1]), pairs[|pairs| - 1])
  }

  /**
   * load_teleports on the file's "teleports" list: each two-element entry
   * links its cells both ways, later entries overwriting earlier ones;
   * entries of any other length are ignored and nothing is validated.
   */
  function LoadTeleports(pairs: seq<seq<Cell>>): (t: map<Cell, Cell>)
    ensures forall c :: c in t <==> Listed(pairs, c)
    ensures |pairs| > 0 && |pairs[|pairs| - 1]| == 2 ==>
      var p := pairs[|pairs| - 1]; p[0] in t && p[1] in t && t[p[1]] == p[0] && (p[0] != p[1] ==> t[p[0]] == p[1])
  {
    LinksListed(pairs);
    Links(pairs)
  }

  /** The loaded keys are exactly the cells some two-element entry names. */
  lemma {:induction false} LinksListed(pairs: seq<seq<Cell>>)
    ensures forall c :: c in Links(pairs) <==> Listed(pairs, c)
  {
    if |pairs| > 0 {
      var k := |pairs| - 1;
      LinksListed(pairs[..k]);
      forall c ensures Listed(pairs, c) <==> Listed(pairs[..k], c) || (|pairs[k]| == 2 && (c == pairs[k][0] || c == pairs[k][1])) {
        if Listed(pairs, c) && !(|pairs[k]| == 2 && (c == pairs[k][0] || c == pairs[k][1])) {
          var j :| 0 <= j < |pairs| && |pairs[j]| == 2 && (c == pairs[j][0] || c == pairs[j][1]);
          assert pairs[..k][j] == pairs[j];
        }
        if Listed(pairs[..k], c) {
          var j :| 0 <= j < k && |pairs[..k][j]| == 2 && (c == pairs[..k][j][0] || c == pairs[..k][j][1]);
          assert pairs[j] == pairs[..k][j];
        }
      }
    }
  }

  lemma LoadSkipsOdd(pairs: seq<seq<Cell>>)
    ensures forall k :: 0 <= k < |pairs| && |pairs[k]| != 2 ==> LoadTeleports(pairs[..k] + pairs[k + 1..]) == LoadTeleports(pairs)
  {
    forall k | 0 <= k < |pairs| && |pairs[k]| != 2
      ensures LoadTeleports(pairs[..k] + pairs[k + 1..]) == LoadTeleports(pairs)
    {
      LinksSkipOne(pairs, k);
    }
  }

  /** One entry that is not a pair is ignored wherever it stands. */
  lemma {:induction false} LinksSkipOne(pairs: seq<seq<Cell>>, k: nat)
    requires k < |pairs| && |pairs[k]| != 2
    ensures Links(pairs[..k] + pairs[k + 1..]) == Links(pairs)
    decreases |pairs|
  {
    var n := |pairs| - 1;
    var rest := pairs[..k] + pairs[k + 1..];
    if k < n {
      assert rest[..n - 1] == pairs[..n][..k] + pairs[..n][k + 1..];
      assert rest[n - 1] == pairs[n];
      LinksSkipOne(pairs[..n], k);
    } else {
      assert rest == pairs[..n];
    }
  }

  /** No cell is mentioned by two different two-element entries, and no entry repeats its cell. */
  ghost predicate Disjoint(pairs: seq<seq<Cell>>) {
    (forall k :: 0 <= k < |pairs| && |pairs[k]| == 2 ==> pairs[k][0] != pairs[k][1]) &&
    forall j, k :: 0 <= j < k < |pairs| && |pairs[j]| == 2 && |pairs[k]| == 2 ==>
      pairs[j][0] != pairs[k][0] && pairs[j][0] != pairs[k][1] &&
      pairs[j][1] != pairs[k][0] && pairs[j][1] != pairs[k][1]
  }

  /** Entries that share no cell load into a symmetric map linking each entry's cells. */
  lemma {:induction false} LoadDisjoint(pairs: seq<seq<Cell>>)
    requires Disjoint(pairs)
    ensures Symmetric(LoadTeleports(pairs)) && Irreflexive(LoadTeleports(pairs))
    ensures forall k :: 0 <= k < |pairs| && |pairs[k]| == 2 ==>
      LoadTeleports(pairs)[pairs[k][0]] == pairs[k][1] && LoadTeleports(pairs)[pairs[k][1]] == pairs[k][0]
  {
    if |pairs| > 0 {
      var n := |pairs| - 1;
      assert pairs[..n] + [pairs[n]] == pairs;
      LoadDisjoint(pairs[..n]);
      var t := LoadTeleports(pairs[..n]);
      if |pairs[n]| == 2 {
        var a, b := pairs[n][0], pairs[n][1];
        forall j | 0 <= j < n && |pairs[..n][j]| == 2
          ensures a != pairs[..n][j][0] && a != pairs[..n][j][1] && b != pairs[..n][j][0] && b != pairs[..n][j][1]
        {
          assert pairs[..n][j] == pairs[j];
        }
        assert !Listed(pairs[..n], a) && !Listed(pairs[..n], b);
        LinkKeeps(t, a, b);
        forall k | 0 <= k < n && |pairs[k]| == 2
          ensures pairs[k][0] != a && pairs[k][0] != b && pairs[k][1] != a && pairs[k][1] != b
        {
          assert pairs[..n][k] == pairs[k];
        }
      }
    }
  }

  /** Linking two fresh distinct cells keeps a map symmetric and irreflexive. */
  lemma LinkKeeps(t: map<Cell, Cell>, a: Cell, b: Cell)
    requires a != b && a !in t && b !in t
    ensures Symmetric(t) && Irreflexive(t) ==> Symmetric(t[a := b][b := a]) && Irreflexive(t[a := b][b := a])
  {
    var t' := t[a := b][b := a];
    if Symmetric(t) && Irreflexive(t) {
      forall x, y | x in t' && t'[x] == y ensures y in t' && t'[y] == x {
        if x != a && x != b {
          assert t[x] == y;
        }
      }
    }
  }

  /**
   * The loop of generate_random_teleports on the shuffled free cells: while
   * pairs remain to be made and two cells are left, the last two cells are
   * popped and linked both ways.
   */
  function GeneratePairs(acc: map<Cell, Cell>, cells: seq<Cell>, n: int): (t: map<Cell, Cell>)
    requires NoDup(cells) && forall c :: c in cells ==> c !in acc
    ensures forall c :: c in t ==> c in acc || c in cells
    ensures Symmetric(acc) && Irreflexive(acc) ==> Symmetric(t) && Irreflexive(t)
    ensures |t.Keys| == |acc.Keys| + 2 * Min(Max(n, 0), |cells| / 2)
    decreases |cells|
  {
    if n <= 0 || |cells| < 2 then acc
    else
      var k := |cells|;
      PairStep(acc, cells);
      LinkKeeps(acc, cells[k - 1], cells[k - 2]);
      RoundCount(n, k);
      GeneratePairs(acc[cells[k - 1] := cells[k - 2]][cells[k - 2] := cells[k - 1]], cells[..k - 2], n - 1)
  }

  /** One round takes a pair off the count still to be made. */
  lemma RoundCount(n: int, k: int)
    requires n > 0 && k >= 2
    ensures Min(Max(n - 1, 0), (k - 2) / 2) + 1 == Min(Max(n, 0), k / 2)
  {
    assert (k - 2) / 2 == k / 2 - 1;
  }

  /** Popping the last two distinct unused cells adds exactly two keys and leaves the rest unused. */
  lemma PairStep(acc: map<Cell, Cell>, cells: seq<Cell>)
    requires NoDup(cells) && |cells| >= 2 && forall c :: c in cells ==> c !in acc
    ensures var k := |cells|; var acc' := acc[cells[k - 1] := cells[k - 2]][cells[k - 2] := cells[k - 1]];
      NoDup(cells[..k - 2]) && (forall c :: c in cells[..k - 2] ==> c !in acc') &&
      |acc'.Keys| == |acc.Keys| + 2 && (forall c :: c in acc' ==> c in acc || c in cells) &&
      forall c :: c in cells[..k - 2] ==> c in cells
  {
    var k := |cells|;
    var a, b := cells[k - 1], cells[k - 2];
    var acc' := acc[a := b][b := a];
    assert a != b;
    assert acc'.Keys == acc.Keys + {a, b};
    assert |{a, b}| == 2;
    assert acc.Keys !! {a, b};
    NoDupTake(cells, k - 2);
    forall c | c in cells[..k - 2] ensures c !in acc' && c in cells {
      var i :| 0 <= i < k - 2 && cells[i] == c;
    }
  }

  lemma NoDupTake<T>(s: seq<T>, k: nat)
    requires NoDup(s) && k <= |s|
    ensures NoDup(s[..k])
  {
  }

  /** The shuffle's result: each free in-bounds cell exactly once. */
  ghost predicate IsShuffle(cells: seq<Cell>, obs: set<Cell>) {
    NoDup(cells) && forall c :: c in cells <==> InBounds(c) && c !in obs
  }

  /**
   * generate_random_teleports: at most numPairs pairs of distinct free
   * cells, no cell used twice, every link both ways; fewer pairs only when
   * fewer than two free cells remain.
   */
  function GenerateTeleports(obs: set<Cell>, shuffled: seq<Cell>, numPairs: int): (t: map<Cell, Cell>)
    requires IsShuffle(shuffled, obs)
    ensures forall c :: c in t ==> InBounds(c) && c !in obs
    ensures Symmetric(t) && Irreflexive(t)
    ensures |t.Keys| == 2 * Min(Max(numPairs, 0), |shuffled| / 2)
  {
    GeneratePairs(map[], shuffled, numPairs)
  }

  /**
   * The Env constructor: obstacles and teleporters from the map data, the
   * teleporters replaced by freshly generated pairs when random teleports
   * are asked for.
   */
  function NewEnv(obs: set<Cell>, pairs: seq<seq<Cell>>, useRandom: bool, numPairs: int, shuffled: seq<Cell>): (e: Env)
    requires useRandom ==> IsShuffle(shuffled, obs)
    ensures e.obs == obs
    ensures !useRandom ==> forall c :: c in e.teleports <==> Listed(pairs, c)
    ensures useRandom ==> Symmetric(e.teleports) && Irreflexive(e.teleports)
    ensures useRandom ==> forall c :: c in e.teleports ==> InBounds(c) && c !in obs
  {
    Env(obs, if useRandom then GenerateTeleports(obs, shuffled, numPairs) else LoadTeleports(pairs))
  }
}
