/**
 * The agents' board helpers of AI-Project/AI-Project/agent_utils.py:
 * selections, the move generator, the copying move and the winner check.
 * 401243133.py carries token-for-token copies of apply_move and
 * check_winner; they are the functions below.
 */
module AgentUtils {
  import opened Wrappers
  import opened XOBoard

  /** (src_r, src_c, tgt_r, tgt_c) */
  datatype Move = Move(sr: int, sc: int, tr: int, tc: int)

  // ---------------------------------------------------------- selections

  /** Rim coordinates from (r, c) onward, in row-major order. */
  function RimFrom(n: int, r: int, c: int): (s: seq<(int, int)>)
    requires 0 <= r && 0 <= c <= n
    ensures forall x :: x in s <==>
      InRange(n, x.0, x.1) && OnRim(n, x.0, x.1) && (x.0 > r || (x.0 == r && x.1 >= c))
    ensures NoDup(s)
    decreases n - r, n - c
  {
    if r >= n then []
    else if c == n then RimFrom(n, r + 1, 0)
    else
      var rest := RimFrom(n, r, c + 1);
      if OnRim(n, r, c) then NoDupConcat([(r, c)], rest); [(r, c)] + rest else rest
  }

  /** The coordinates of `cs` whose cell holds `want`, in order. */
  function Keep(b: Board, cs: seq<(int, int)>, want: Cell): (s: seq<(int, int)>)
    requires Square(b)
    requires forall x :: x in cs ==> 0 <= x.0 < |b| && 0 <= x.1 < |b|
    ensures forall x :: x in s <==> x in cs && b[x.0][x.1] == want
    ensures NoDup(cs) ==> NoDup(s)
  {
    if |cs| == 0 then []
    else
      var rest := Keep(b, cs[1..], want);
      assert cs[0] in cs;
      if b[cs[0].0][cs[0].1] == want then
        assert NoDup(cs) ==> cs[0] !in cs[1..] && NoDup(cs[1..]) by {
          if NoDup(cs) {
            forall k | 0 <= k < |cs[1..]| ensures cs[1..][k] != cs[0] {
              assert cs[1..][k] == cs[k + 1];
            }
          }
        }
        if NoDup(cs) then NoDupConcat([cs[0]], rest); [cs[0]] + rest else [cs[0]] + rest
      else
        assert NoDup(cs) ==> NoDup(cs[1..]);
        rest
  }

  /**
   * get_possible_selections: the empty rim cells if there are any, else
   * the player's own rim cells. This is exactly game.py's selection rule.
   */
  function Selections(b: Board, p: Player): (s: seq<(int, int)>)
    requires Square(b)
    ensures forall x :: x in s <==> InRange(|b|, x.0, x.1) && IsValidSelection(b, x.0, x.1, p)
    ensures NoDup(s)
  {
    var rim := RimFrom(|b|, 0, 0);
    var empty := Keep(b, rim, Empty);
    if |empty| > 0 then
      assert empty[0] in empty;
      empty
    else
      assert !HasEmptyRim(b) by {
        forall r, c | 0 <= r < |b| && 0 <= c < |b| && OnRim(|b|, r, c)
          ensures b[r][c] != Empty
        {
          assert (r, c) in rim;
          assert (r, c) !in empty;
        }
      }
      Keep(b, rim, Mark(p))
  }

  // -------------------------------------------------------------- targets

  /** The four edge candidates (sr,0), (sr,n-1), (0,sc), (n-1,sc). */
  function Candidates(n: int, sr: int, sc: int): seq<(int, int)> {
    [(sr, 0), (sr, n - 1), (0, sc), (n - 1, sc)]
  }

  /**
   * The targets of one source: the candidates other than the source, each
   * once (the Python set; its iteration order is taken as first-seen).
   */
  function Targets(n: int, sr: int, sc: int): (t: seq<(int, int)>)
    ensures forall x :: x in t <==> x in Candidates(n, sr, sc) && x != (sr, sc)
    ensures forall x :: x in t <==> IsValidTarget(n, sr, sc, x.0, x.1)
    ensures NoDup(t)
  {
    Dedup(Remove(Candidates(n, sr, sc), (sr, sc)))
  }

  function MovesFrom(src: (int, int), ts: seq<(int, int)>): (ms: seq<Move>)
    ensures forall m :: m in ms <==> (m.sr, m.sc) == src && (m.tr, m.tc) in ts
    ensures NoDup(ts) ==> NoDup(ms)
  {
    var ms := seq(|ts|, i requires 0 <= i < |ts| => Move(src.0, src.1, ts[i].0, ts[i].1));
    assert forall m :: m in ms ==> (m.tr, m.tc) in ts;
    assert forall m: Move :: (m.sr, m.sc) == src && (m.tr, m.tc) in ts ==> m in ms by {
      forall m: Move | (m.sr, m.sc) == src && (m.tr, m.tc) in ts ensures m in ms {
        var i :| 0 <= i < |ts| && ts[i] == (m.tr, m.tc);
        assert ms[i] == m;
      }
    }
    ms
  }

  function MovesOf(n: int, sels: seq<(int, int)>): (ms: seq<Move>)
    ensures forall m :: m in ms <==>
      (m.sr, m.sc) in sels && IsValidTarget(n, m.sr, m.sc, m.tr, m.tc)
    ensures NoDup(sels) ==> NoDup(ms)
  {
    if |sels| == 0 then []
    else
      var first := MovesFrom(sels[0], Targets(n, sels[0].0, sels[0].1));
      var rest := MovesOf(n, sels[1..]);
      assert NoDup(sels) ==> NoDup(first + rest) by {
        if NoDup(sels) {
          assert sels[0] !in sels[1..] && NoDup(sels[1..]) by {
            forall k | 0 <= k < |sels[1..]| ensures sels[1..][k] != sels[0] {
              assert sels[1..][k] == sels[k + 1];
            }
          }
          NoDupConcat(first, rest);
        }
      }
      first + rest
  }

  /**
   * get_all_valid_moves. The generated moves are exactly the moves game.py
   * accepts, each listed once, and every target is on the board.
   */
  function AllValidMoves(b: Board, p: Player): (ms: seq<Move>)
    requires Square(b)
    ensures forall m :: m in ms <==>
      InRange(|b|, m.sr, m.sc) && IsValidSelection(b, m.sr, m.sc, p) &&
      IsValidTarget(|b|, m.sr, m.sc, m.tr, m.tc)
    ensures forall m :: m in ms ==> InRange(|b|, m.tr, m.tc)
    ensures NoDup(ms)
  {
    var sels := Selections(b, p);
    if |sels| == 0 then
      assert forall m: Move :: (m.sr, m.sc) !in sels;
      []
    else
      MovesOf(|b|, sels)
  }

  // ---------------------------------------------------------------- moves

  /**
   * The shift along one line: the cells strictly between source `s` and
   * target `t` (and the target's old content) move one step toward the
   * source, the source's content leaves, and `x` lands on the target.
   */
  function ShiftLine(line: seq<Cell>, s: int, t: int, x: Cell): (r: seq<Cell>)
    requires 0 <= s < |line| && 0 <= t < |line|
    ensures |r| == |line|
    ensures multiset(r) + multiset{line[s]} == multiset(line) + multiset{x}
  {
    if t < s then
      assert line == line[..t] + line[t..s] + [line[s]] + line[s + 1..];
      MsSplice(line[..t], line[t..s], line[s + 1..], x, line[s]);
      line[..t] + [x] + line[t..s] + line[s + 1..]
    else if s < t then
      assert line == line[..s] + [line[s]] + line[s + 1..t + 1] + line[t + 1..];
      MsSplice(line[..s], line[s + 1..t + 1], line[t + 1..], line[s], x);
      line[..s] + line[s + 1..t + 1] + [x] + line[t + 1..]
    else
      UpdateMs(line, s, x);
      line[s := x]
  }

  /**
   * Cell by cell: the target holds `x`, the segment between target and
   * source moves one step toward the source, and every cell outside the
   * segment keeps its content.
   */
  lemma ShiftLineCells(line: seq<Cell>, s: int, t: int, x: Cell, i: int)
    requires 0 <= s < |line| && 0 <= t < |line| && 0 <= i < |line|
    ensures ShiftLine(line, s, t, x)[i] ==
      if i == t then x
      else if t < i <= s then line[i - 1]
      else if s <= i < t then line[i + 1]
      else line[i]
  {
    var r := ShiftLine(line, s, t, x);
    if t < s {
      assert r == line[..t] + ([x] + line[t..s]) + line[s + 1..];
      if i < t {
        assert r[i] == line[..t][i];
      } else if i <= s {
        assert r[i] == ([x] + line[t..s])[i - t];
      } else {
        assert r[i] == line[s + 1..][i - s - 1];
      }
    } else if s < t {
      assert r == line[..s] + (line[s + 1..t + 1] + [x]) + line[t + 1..];
      if i < s {
        assert r[i] == line[..s][i];
      } else if i <= t {
        assert r[i] == (line[s + 1..t + 1] + [x])[i - s];
      } else {
        assert r[i] == line[t + 1..][i - t - 1];
      }
    }
  }

  /** A column of a board whose rows all reach past `j`. */
  function Column(b: Board, j: int): (col: seq<Cell>)
    requires 0 <= j && forall i :: 0 <= i < |b| ==> j < |b[i]|
    ensures |col| == |b| && forall i :: 0 <= i < |b| ==> col[i] == b[i][j]
  {
    seq(|b|, i requires 0 <= i < |b| => b[i][j])
  }

  function SetColumn(b: Board, j: int, v: seq<Cell>): (r: Board)
    requires 0 <= j && forall i :: 0 <= i < |b| ==> j < |b[i]|
    requires |v| == |b|
    ensures |r| == |b|
    ensures forall i :: 0 <= i < |b| ==> r[i] == b[i][j := v[i]]
  {
    seq(|b|, i requires 0 <= i < |b| => b[i][j := v[i]])
  }

  lemma UpdateMs(row: seq<Cell>, j: int, y: Cell)
    requires 0 <= j < |row|
    ensures multiset(row[j := y]) + multiset{row[j]} == multiset(row) + multiset{y}
  {
    assert row == row[..j] + [row[j]] + row[j + 1..];
    assert row[j := y] == row[..j] + [y] + row[j + 1..];
  }

  /** The first row and the rest of a column update. */
  lemma SetColumnSplit(b: Board, j: int, v: seq<Cell>)
    requires 0 <= j && forall i :: 0 <= i < |b| ==> j < |b[i]|
    requires |v| == |b| > 0
    ensures BoardMs(SetColumn(b, j, v)) ==
      multiset(b[0][j := v[0]]) + BoardMs(SetColumn(b[1..], j, v[1..]))
  {
    assert SetColumn(b, j, v)[1..] == SetColumn(b[1..], j, v[1..]);
  }

  /** The first cell and the rest of a column. */
  lemma ColumnSplit(b: Board, j: int)
    requires 0 <= j && forall i :: 0 <= i < |b| ==> j < |b[i]|
    requires |b| > 0
    ensures multiset(Column(b, j)) == multiset{b[0][j]} + multiset(Column(b[1..], j))
  {
    assert Column(b, j) == [b[0][j]] + Column(b[1..], j);
  }

  lemma {:induction false} BoardMsSetColumn(b: Board, j: int, v: seq<Cell>)
    requires 0 <= j && forall i :: 0 <= i < |b| ==> j < |b[i]|
    requires |v| == |b|
    ensures BoardMs(SetColumn(b, j, v)) + multiset(Column(b, j)) == BoardMs(b) + multiset(v)
  {
    if |b| > 0 {
      var t, w := b[1..], v[1..];
      var a, a', c, c' := multiset(b[0][j := v[0]]), BoardMs(SetColumn(t, j, w)), multiset{b[0][j]}, multiset(Column(t, j));
      var m, m', f, f' := multiset(b[0]), BoardMs(t), multiset{v[0]}, multiset(w);
      SetColumnSplit(b, j, v);
      ColumnSplit(b, j);
      assert v == [v[0]] + w;
      BoardMsSetColumn(t, j, w);
      UpdateMs(b[0], j, v[0]);
      MsRegroup(a, a', c, c', m, m', f, f');
      assert BoardMs(SetColumn(b, j, v)) + multiset(Column(b, j)) == (a + a') + (c + c');
      assert BoardMs(b) + multiset(v) == (m + m') + (f + f');
    }
  }

  /**
   * apply_move on a fresh copy of the board: a row move when source and
   * target share a row, a column move (in the source's column) otherwise.
   * The source's content leaves the board and the player's mark enters it.
   */
  function ApplyMove(b: Board, m: Move, p: Player): (r: Board)
    requires Square(b) && InRange(|b|, m.sr, m.sc)
    requires if m.sr == m.tr then 0 <= m.tc < |b| else 0 <= m.tr < |b|
    ensures Square(r) && |r| == |b|
    ensures BoardMs(r) + multiset{b[m.sr][m.sc]} == BoardMs(b) + multiset{Mark(p)}
  {
    if m.sr == m.tr then
      var row := ShiftLine(b[m.sr], m.sc, m.tc, Mark(p));
      BoardMsUpdate(b, m.sr, row);
      MsTransfer(BoardMs(b[m.sr := row]), BoardMs(b), multiset(b[m.sr]), multiset(row),
        multiset{b[m.sr][m.sc]}, multiset{Mark(p)});
      b[m.sr := row]
    else
      var col := ShiftLine(Column(b, m.sc), m.sr, m.tr, Mark(p));
      BoardMsSetColumn(b, m.sc, col);
      MsTransfer(BoardMs(SetColumn(b, m.sc, col)), BoardMs(b), multiset(Column(b, m.sc)),
        multiset(col), multiset{b[m.sr][m.sc]}, multiset{Mark(p)});
      SetColumn(b, m.sc, col)
  }

  /**
   * A move whose source is a valid selection never changes the opponent's
   * piece count and never lowers the number of occupied cells.
   */
  lemma OccupancyNeverDrops(b: Board, m: Move, p: Player)
    requires Square(b) && InRange(|b|, m.sr, m.sc)
    requires if m.sr == m.tr then 0 <= m.tc < |b| else 0 <= m.tr < |b|
    requires IsValidSelection(b, m.sr, m.sc, p)
    ensures BoardMs(ApplyMove(b, m, p))[Mark(Opponent(p))] == BoardMs(b)[Mark(Opponent(p))]
    ensures BoardMs(ApplyMove(b, m, p))[Empty] <= BoardMs(b)[Empty]
    ensures BoardMs(ApplyMove(b, m, p))[Mark(p)] >= BoardMs(b)[Mark(p)]
  {
    var y := b[m.sr][m.sc];
    assert y == Empty || y == Mark(p);
    var a, c := BoardMs(ApplyMove(b, m, p)), BoardMs(b);
    assert a + multiset{y} == c + multiset{Mark(p)};
    MsExchange(a, c, y, Mark(p), Mark(Opponent(p)));
    MsExchange(a, c, y, Mark(p), Empty);
    MsExchange(a, c, y, Mark(p), Mark(p));
  }

  // ---------------------------------------------------------------- winner

  /** The mark of a line whose first cell is a mark that every cell repeats. */
  function Uniform(b: Board, l: Line): (w: Option<Player>)
    requires Square(b) && ValidLine(|b|, l)
    ensures forall p :: w == Some(p) <==> Full(b, l, p)
  {
    var s := LineCells(b, l);
    if s[0].Mark? && forall k :: 0 <= k < |s| ==> s[k] == s[0] then Some(s[0].p) else None
  }

  /** Row i then column i for each i, as agent_utils' loop visits them. */
  function Interleaved(i: nat, n: nat): (ls: seq<Line>)
    ensures forall l :: l in ls <==> (l.Row? && i <= l.i < n) || (l.Col? && i <= l.j < n)
    decreases n - i
  {
    if i >= n then [] else [Row(i), Col(i)] + Interleaved(i + 1, n)
  }

  /** ls[k] is full of p's mark and no line before it is full of either mark. */
  predicate UniformFirstAt(b: Board, ls: seq<Line>, k: int, p: Player)
    requires Square(b)
    requires forall l :: l in ls ==> ValidLine(|b|, l)
  {
    0 <= k < |ls| && Full(b, ls[k], p) && forall j, q :: 0 <= j < k ==> !Full(b, ls[j], q)
  }

  /** The mark of the first line of `ls` that is full of one mark. */
  function FirstUniform(b: Board, ls: seq<Line>): (w: Option<Player>)
    requires Square(b)
    requires forall l :: l in ls ==> ValidLine(|b|, l)
    ensures w.Some? ==> exists l :: l in ls && Full(b, l, w.value)
    ensures w.Some? ==> exists k :: UniformFirstAt(b, ls, k, w.value)
    ensures w.None? <==> forall l, p :: l in ls ==> !Full(b, l, p)
  {
    if |ls| == 0 then None
    else
      match Uniform(b, ls[0])
      case Some(p) =>
        assert UniformFirstAt(b, ls, 0, p);
        Some(p)
      case None =>
        var w := FirstUniform(b, ls[1..]);
        assert forall l :: l in ls[1..] ==> l in ls;
        if w.Some? then
          var k :| UniformFirstAt(b, ls[1..], k, w.value);
          assert UniformFirstAt(b, ls, k + 1, w.value);
          w
        else w
  }

  /** check_winner's visiting order: row i and column i for i = 0..N-1, then the diagonal and the anti-diagonal. */
  function CheckOrder(n: nat): (ls: seq<Line>)
    ensures forall l :: l in ls <==> ValidLine(n, l)
  {
    Interleaved(0, n) + [Diag, Anti]
  }

  /**
   * check_winner: the mark of the first full line, visiting row i and
   * column i for i = 0..N-1, then the diagonal and the anti-diagonal.
   */
  function CheckWinner(b: Board): (w: Option<Player>)
    requires Square(b)
    ensures w.Some? ==> HasLine(b, w.value)
    ensures w.None? <==> !HasLine(b, X) && !HasLine(b, O)
    ensures w.Some? ==> exists k :: UniformFirstAt(b, CheckOrder(|b|), k, w.value)
  {
    var ls := CheckOrder(|b|);
    FirstUniformAll(b, ls);
    FirstUniform(b, ls)
  }

  /** Over a list holding every line, the first uniform line decides the winner. */
  lemma FirstUniformAll(b: Board, ls: seq<Line>)
    requires Square(b)
    requires forall l :: l in ls <==> ValidLine(|b|, l)
    ensures FirstUniform(b, ls).Some? ==> HasLine(b, FirstUniform(b, ls).value)
    ensures FirstUniform(b, ls).None? <==> !HasLine(b, X) && !HasLine(b, O)
  {
    var w := FirstUniform(b, ls);
    if w.None? {
      forall l | ValidLine(|b|, l) ensures !Full(b, l, X) && !Full(b, l, O) {
        assert l in ls;
      }
    } else {
      var l :| l in ls && Full(b, l, w.value);
      assert ValidLine(|b|, l);
      assert HasLine(b, w.value);
      assert w.value == X || w.value == O;
    }
  }

  /**
   * The agents' winner check and game.py's agree on whether there is a
   * winner, and on who it is whenever only one player has a full line.
   */
  lemma WinnersAgree(b: Board, p: Player)
    requires Square(b)
    requires !HasLine(b, Opponent(p))
    ensures CheckWinner(b).None? <==> GameWinner(b).None?
    ensures CheckWinner(b) == Some(p) <==> GameWinner(b).Some? && GameWinner(b).value.0 == p
  {
    var w, v := GameWinner(b), CheckWinner(b);
    if HasLine(b, p) {
      assert w.Some? && v.Some?;
      OnlyLine(b, p, w.value.0);
      OnlyLine(b, p, v.value);
    } else {
      assert !HasLine(b, X) && !HasLine(b, O) by {
        assert p == X || Opponent(p) == X;
      }
    }
  }

  /** With the opponent holding no line, any player holding one is p. */
  lemma OnlyLine(b: Board, p: Player, q: Player)
    requires Square(b) && !HasLine(b, Opponent(p)) && HasLine(b, q)
    ensures q == p
  {
  }
}
