/**
 * The XOShift board and the pure rules of AI-Project/AI-Project/game.py:
 * rim selection, edge targets, lines and the winner scan, board fullness.
 */
module XOBoard {
  import opened Wrappers

  datatype Player = X | O
  /** `None` of the Python board is `Empty`. */
  datatype Cell = Empty | Mark(p: Player)
  type Board = seq<seq<Cell>>

  function Opponent(p: Player): (q: Player)
    ensures q != p
  {
    if p == X then O else X
  }

  /** An N x N board, N >= 1. */
  predicate Square(b: Board) {
    |b| >= 1 && forall r :: 0 <= r < |b| ==> |b[r]| == |b|
  }

  predicate InRange(n: int, r: int, c: int) {
    0 <= r < n && 0 <= c < n
  }

  predicate OnRim(n: int, r: int, c: int) {
    r == 0 || r == n - 1 || c == 0 || c == n - 1
  }

  function EmptyBoard(n: nat): Board {
    seq(n, _ => seq(n, _ => Empty))
  }

  /** Some rim cell of the board is empty (the nested scan of game.py). */
  predicate HasEmptyRim(b: Board)
    requires Square(b)
  {
    exists r, c | 0 <= r < |b| && 0 <= c < |b| :: OnRim(|b|, r, c) && b[r][c] == Empty
  }

  /** The coordinates Python can index on an N x N board: -N..N-1, a negative one counting from the end. */
  predicate PyInRange(n: int, r: int, c: int) {
    -n <= r < n && -n <= c < n
  }

  /** The position Python reads for index i of a list of length n. */
  function PyIx(n: int, i: int): (k: int)
    requires -n <= i < n
    ensures 0 <= k < n && (k == i || k == i + n)
  {
    if i < 0 then i + n else i
  }

  /**
   * The cell a player may pick up: a rim cell, which must be empty while
   * any rim cell is empty and must hold the player's own mark otherwise.
   * The rim test compares the raw coordinates, and the cell is then read
   * with Python's indexing, so -1 reads the last row or column. A rim
   * coordinate below -N or past the edge is Python's IndexError, which
   * the caller must rule out.
   */
  predicate IsValidSelection(b: Board, r: int, c: int, p: Player)
    requires Square(b)
    requires OnRim(|b|, r, c) ==> PyInRange(|b|, r, c)
  {
    OnRim(|b|, r, c) &&
    (if HasEmptyRim(b) then b[PyIx(|b|, r)][PyIx(|b|, c)] == Empty else b[PyIx(|b|, r)][PyIx(|b|, c)] == Mark(p))
  }

  /** A target is an edge cell of the source's row or column, other than the source. */
  predicate IsValidTarget(n: int, sr: int, sc: int, tr: int, tc: int) {
    !(sr == tr && sc == tc) &&
    ((sr == tr && (tc == 0 || tc == n - 1)) || (sc == tc && (tr == 0 || tr == n - 1)))
  }

  // ---------------------------------------------------------------- lines

  datatype Line = Row(i: int) | Col(j: int) | Diag | Anti

  predicate ValidLine(n: int, l: Line) {
    match l
    case Row(i) => 0 <= i < n
    case Col(j) => 0 <= j < n
    case _ => true
  }

  /** The k-th coordinate of a line, in the order game.py lists it. */
  function LineCoord(n: int, l: Line, k: int): (rc: (int, int))
    ensures ValidLine(n, l) && 0 <= k < n ==> InRange(n, rc.0, rc.1)
  {
    match l
    case Row(i) => (i, k)
    case Col(j) => (k, j)
    case Diag => (k, k)
    case Anti => (k, n - 1 - k)
  }

  function LineCells(b: Board, l: Line): (s: seq<Cell>)
    requires Square(b) && ValidLine(|b|, l)
    ensures |s| == |b|
  {
    seq(|b|, k requires 0 <= k < |b| => b[LineCoord(|b|, l, k).0][LineCoord(|b|, l, k).1])
  }

  /** Every cell of the line holds the player's mark. */
  predicate Full(b: Board, l: Line, p: Player)
    requires Square(b) && ValidLine(|b|, l)
  {
    forall k :: 0 <= k < |b| ==> LineCells(b, l)[k] == Mark(p)
  }

  /** Some line of the board is full of the player's mark. */
  ghost predicate HasLine(b: Board, p: Player)
    requires Square(b)
  {
    exists l :: ValidLine(|b|, l) && Full(b, l, p)
  }

  /** Rows, then columns, then the main diagonal and the anti-diagonal: 2N+2 lines. */
  function GameLines(n: nat): (ls: seq<Line>)
    ensures |ls| == 2 * n + 2
    ensures forall l :: l in ls <==> ValidLine(n, l)
    ensures NoDup(ls)
  {
    var rows := seq(n, i => Row(i));
    var cols := seq(n, j => Col(j));
    assert forall l :: ValidLine(n, l) && l.Row? ==> l == rows[l.i];
    assert forall l :: ValidLine(n, l) && l.Col? ==> l == cols[l.j];
    var ls := rows + cols + [Diag, Anti];
    assert forall i :: 0 <= i < |ls| ==> ls[i] == if i < n then Row(i) else if i < 2 * n then Col(i - n) else if i == 2 * n then Diag else Anti;
    ls
  }

  /** ls[k] is full of the player's mark and no line before it is. */
  predicate FullFirstAt(b: Board, p: Player, ls: seq<Line>, k: int)
    requires Square(b)
    requires forall l :: l in ls ==> ValidLine(|b|, l)
  {
    0 <= k < |ls| && Full(b, ls[k], p) && forall j :: 0 <= j < k ==> !Full(b, ls[j], p)
  }

  /** The first line of `ls` full of the player's mark. */
  function FirstFull(b: Board, p: Player, ls: seq<Line>): (r: Option<Line>)
    requires Square(b)
    requires forall l :: l in ls ==> ValidLine(|b|, l)
    ensures r.Some? ==> r.value in ls && Full(b, r.value, p)
    ensures r.Some? ==> exists k :: FullFirstAt(b, p, ls, k) && ls[k] == r.value
    ensures r.None? <==> forall l :: l in ls ==> !Full(b, l, p)
  {
    if |ls| == 0 then None
    else if Full(b, ls[0], p) then
      assert FullFirstAt(b, p, ls, 0);
      Some(ls[0])
    else
      var r := FirstFull(b, p, ls[1..]);
      if r.Some? then
        var k :| FullFirstAt(b, p, ls[1..], k) && ls[1..][k] == r.value;
        assert FullFirstAt(b, p, ls, k + 1);
        r
      else r
  }

  /**
   * game.py's winner scan: all of X's lines first, then all of O's; the
   * result is the winner and the n coordinates of the winning line.
   */
  function GameWinner(b: Board): (w: Option<(Player, seq<(int, int)>)>)
    requires Square(b)
    ensures w.Some? ==> (|w.value.1| == |b| &&
      exists l :: ValidLine(|b|, l) && Full(b, l, w.value.0) &&
        w.value.1 == seq(|b|, k => LineCoord(|b|, l, k)))
    ensures w.Some? ==> HasLine(b, w.value.0)
    ensures w.None? <==> !HasLine(b, X) && !HasLine(b, O)
    ensures HasLine(b, X) ==> w.Some? && w.value.0 == X
    ensures w.Some? ==>
      exists k :: FullFirstAt(b, w.value.0, GameLines(|b|), k) && w.value.1 == seq(|b|, i => LineCoord(|b|, GameLines(|b|)[k], i))
  {
    var ls := GameLines(|b|);
    match FirstFull(b, X, ls)
    case Some(l) => Some((X, seq(|b|, k => LineCoord(|b|, l, k))))
    case None =>
      match FirstFull(b, O, ls)
      case Some(l) => Some((O, seq(|b|, k => LineCoord(|b|, l, k))))
      case None => None
  }

  /** No cell is empty (game.py's is_board_full). */
  predicate IsBoardFull(b: Board)
    requires Square(b)
  {
    forall r, c | 0 <= r < |b| && 0 <= c < |b| :: b[r][c] != Empty
  }

  // ----------------------------------------------------------- occupancy

  /** The multiset of all cells of the board. */
  function BoardMs(b: Board): multiset<Cell> {
    if |b| == 0 then multiset{} else multiset(b[0]) + BoardMs(b[1..])
  }

  lemma {:induction false} BoardMsCell(b: Board, r: int, c: int)
    requires 0 <= r < |b| && 0 <= c < |b[r]|
    ensures b[r][c] in BoardMs(b)
  {
    if r > 0 {
      BoardMsCell(b[1..], r - 1, c);
    }
  }

  lemma {:induction false} BoardMsHas(b: Board, x: Cell)
    requires x in BoardMs(b)
    ensures exists r, c :: 0 <= r < |b| && 0 <= c < |b[r]| && b[r][c] == x
  {
    if x in multiset(b[0]) {
      var c :| 0 <= c < |b[0]| && b[0][c] == x;
    } else {
      BoardMsHas(b[1..], x);
      var r, c :| 0 <= r < |b[1..]| && 0 <= c < |b[1..][r]| && b[1..][r][c] == x;
      assert b[r + 1][c] == x;
    }
  }

  /** is_board_full is exactly "no empty cell among the board's cells". */
  lemma FullIffNoEmpty(b: Board)
    requires Square(b)
    ensures IsBoardFull(b) <==> BoardMs(b)[Empty] == 0
  {
    if BoardMs(b)[Empty] != 0 {
      BoardMsHas(b, Empty);
    }
    if !IsBoardFull(b) {
      var r, c :| 0 <= r < |b| && 0 <= c < |b| && b[r][c] == Empty;
      BoardMsCell(b, r, c);
    }
  }

  /** Replacing one row replaces that row's cells in the board's multiset. */
  lemma {:induction false} BoardMsUpdate(b: Board, i: int, v: seq<Cell>)
    requires 0 <= i < |b|
    ensures BoardMs(b[i := v]) + multiset(b[i]) == BoardMs(b) + multiset(v)
  {
    if i > 0 {
      assert b[i := v][1..] == b[1..][i - 1 := v];
      assert b[i := v][0] == b[0];
      assert b[1..][i - 1] == b[i];
      BoardMsUpdate(b[1..], i - 1, v);
      calc {
        BoardMs(b[i := v]) + multiset(b[i]);
        multiset(b[0]) + BoardMs(b[1..][i - 1 := v]) + multiset(b[1..][i - 1]);
        multiset(b[0]) + (BoardMs(b[1..]) + multiset(v));
        BoardMs(b) + multiset(v);
      }
    } else {
      assert b[i := v][1..] == b[1..];
    }
  }
}
