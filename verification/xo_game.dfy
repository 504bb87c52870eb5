/**
 * The game object of AI-Project/AI-Project/game.py (class XOShiftGame):
 * construction, turn switching, the checked move and the winner update.
 * Every method there mutates the object; here each returns the new state.
 */
module XOGame {
  import opened Wrappers
  import opened XOBoard
  import AgentUtils

  /** game.winner: None, a player's symbol, or the string "Draw" set by the turn limit. */
  datatype Winner = NoWinner | Won(p: Player) | Draw

  datatype Game = Game(
    size: int,
    board: Board,
    playerIndex: int,
    winner: Winner,
    lastMove: Option<(int, int, int, int, Player)>,
    winningLine: Option<seq<(int, int)>>)

  predicate Valid(g: Game) {
    3 <= g.size <= 5 && |g.board| == g.size && Square(g.board) && 0 <= g.playerIndex <= 1
  }

  /**
   * The constructor: a ValueError (None) outside 3..5, otherwise an empty
   * board with X to move, no winner, no last move and no winning line.
   */
  function NewGame(size: int): (r: Option<Game>)
    ensures r.None? <==> !(3 <= size <= 5)
    ensures r.Some? ==> Valid(r.value) && r.value.size == size
    ensures r.Some? ==> forall i, j :: 0 <= i < size && 0 <= j < size ==> r.value.board[i][j] == Empty
    ensures r.Some? ==> CurrentPlayer(r.value) == X && r.value.winner == NoWinner
    ensures r.Some? ==> r.value.lastMove.None? && r.value.winningLine.None?
  {
    if !(3 <= size <= 5) then None
    else Some(Game(size, EmptyBoard(size), 0, NoWinner, None, None))
  }

  /** PLAYERS[current_player_index] with PLAYERS = ['X', 'O']. */
  function CurrentPlayer(g: Game): Player
    requires Valid(g)
  {
    if g.playerIndex == 0 then X else O
  }

  /** The index moves to the other player and nothing else changes. */
  function SwitchPlayer(g: Game): (r: Game)
    requires Valid(g)
    ensures Valid(r)
    ensures r.playerIndex != g.playerIndex
    ensures CurrentPlayer(r) == Opponent(CurrentPlayer(g))
    ensures r.(playerIndex := g.playerIndex) == g
  {
    g.(playerIndex := (g.playerIndex + 1) % 2)
  }

  lemma SwitchTwice(g: Game)
    requires Valid(g)
    ensures SwitchPlayer(SwitchPlayer(g)) == g
  {
  }

  /**
   * check_winner: the winner and winning line are recomputed from the
   * board alone; X's lines take precedence over O's.
   */
  function UpdateWinner(g: Game): (r: Game)
    requires Valid(g)
    ensures Valid(r) && r.(winner := g.winner, winningLine := g.winningLine) == g
    ensures r.winner != Draw
    ensures r.winner == NoWinner <==> !HasLine(g.board, X) && !HasLine(g.board, O)
    ensures r.winner.Won? ==> HasLine(g.board, r.winner.p)
    ensures HasLine(g.board, X) ==> r.winner == Won(X)
    ensures r.winner.Won? <==> r.winningLine.Some?
    ensures r.winningLine.Some? ==> |r.winningLine.value| == g.size
  {
    match GameWinner(g.board)
    case Some((p, coords)) => g.(winner := Won(p), winningLine := Some(coords))
    case None => g.(winner := NoWinner, winningLine := None)
  }

  /** A rim selection must be indexable by Python: otherwise is_valid_selection raises IndexError. */
  predicate Indexable(g: Game, sr: int, sc: int) {
    OnRim(g.size, sr, sc) ==> PyInRange(g.size, sr, sc)
  }

  /**
   * apply_move: refused, with the state unchanged, once the game has a
   * winner or when the selection or target is invalid; otherwise the
   * board of game.py's loops (GameShift), the last move, and a fresh
   * winner check. The player to move is not switched. For coordinates on
   * the board the move trades the selected cell for the mover's mark.
   */
  function TryMove(g: Game, sr: int, sc: int, tr: int, tc: int, p: Player): (res: (bool, Game))
    requires Valid(g) && (g.winner == NoWinner ==> Indexable(g, sr, sc))
    ensures !res.0 ==> res.1 == g
    ensures res.0 <==> (g.winner == NoWinner && IsValidSelection(g.board, sr, sc, p) &&
      IsValidTarget(g.size, sr, sc, tr, tc))
    ensures Valid(res.1) && res.1.size == g.size && res.1.playerIndex == g.playerIndex
    ensures res.0 ==> res.1.lastMove == Some((sr, sc, tr, tc, p))
    ensures res.0 ==> PyInRange(g.size, tr, tc) && res.1.board[PyIx(g.size, tr)][PyIx(g.size, tc)] == Mark(p)
    ensures res.0 && InRange(g.size, sr, sc) ==>
      BoardMs(res.1.board)[Mark(Opponent(p))] == BoardMs(g.board)[Mark(Opponent(p))]
    ensures res.0 && InRange(g.size, sr, sc) ==> BoardMs(res.1.board)[Empty] <= BoardMs(g.board)[Empty]
    ensures res.0 ==> (res.1.winner == NoWinner <==> !HasLine(res.1.board, X) && !HasLine(res.1.board, O))
    ensures res.0 ==> (res.1.winner.Won? ==> HasLine(res.1.board, res.1.winner.p))
    ensures res.0 ==> (res.1.winner.Won? <==> res.1.winningLine.Some?) && res.1.winner != Draw
  {
    if g.winner != NoWinner then (false, g)
    else if !IsValidSelection(g.board, sr, sc, p) then (false, g)
    else if !IsValidTarget(g.size, sr, sc, tr, tc) then (false, g)
    else
      var b := GameShift(g.board, sr, sc, tr, tc, Mark(p));
      GameShiftOccupancy(g.board, sr, sc, tr, tc, p);
      var moved := g.(board := b, lastMove := Some((sr, sc, tr, tc, p)));
      assert Valid(moved);
      var h := UpdateWinner(moved);
      assert h.board == b && h.lastMove == moved.lastMove && h.size == g.size && h.playerIndex == g.playerIndex;
      (true, h)
  }

  // ------------------------------------------- the loops with Python indexing

  /** `for c in range(i, t): line[c] = line[c + 1]`, each index read the Python way. */
  function LoopUp(line: seq<Cell>, i: int, t: int): (r: seq<Cell>)
    requires -|line| <= i && t < |line|
    ensures |r| == |line|
    decreases t - i
  {
    if i >= t then line
    else LoopUp(line[PyIx(|line|, i) := line[PyIx(|line|, i + 1)]], i + 1, t)
  }

  /** `for c in range(i, t, -1): line[c] = line[c - 1]`, each index read the Python way. */
  function LoopDown(line: seq<Cell>, i: int, t: int): (r: seq<Cell>)
    requires i < |line| && -|line| <= t
    ensures |r| == |line|
    decreases i - t
  {
    if i <= t then line
    else LoopDown(line[PyIx(|line|, i) := line[PyIx(|line|, i - 1)]], i - 1, t)
  }

  /**
   * The board after apply_move's loops and its final write of the mark,
   * on the raw coordinates: a row move when source and target share a
   * row, a column move in the source's column otherwise.
   */
  function GameShift(b: Board, sr: int, sc: int, tr: int, tc: int, x: Cell): (r: Board)
    requires Square(b) && PyInRange(|b|, sr, sc) && IsValidTarget(|b|, sr, sc, tr, tc)
    ensures Square(r) && |r| == |b|
    ensures r[PyIx(|b|, tr)][PyIx(|b|, tc)] == x
  {
    var n := |b|;
    if sr == tr then
      var row := b[PyIx(n, sr)];
      var shifted := if tc < sc then LoopDown(row, sc, tc) else LoopUp(row, sc, tc);
      b[PyIx(n, sr) := shifted[tc := x]]
    else
      var j := PyIx(n, sc);
      var col := AgentUtils.Column(b, j);
      var shifted := if tr < sr then LoopDown(col, sr, tr) else LoopUp(col, sr, tr);
      AgentUtils.SetColumn(b, j, shifted[tr := x])
  }

  /** On non-negative indices the upward loop moves cells i+1..t one step down and keeps the rest. */
  lemma {:induction false} LoopUpCells(line: seq<Cell>, i: int, t: int, k: int)
    requires 0 <= i && t < |line| && 0 <= k < |line|
    ensures LoopUp(line, i, t)[k] == if i <= k < t then line[k + 1] else line[k]
    decreases t - i
  {
    if i < t {
      LoopUpCells(line[i := line[i + 1]], i + 1, t, k);
    }
  }

  /** On non-negative indices the downward loop moves cells t..i-1 one step up and keeps the rest. */
  lemma {:induction false} LoopDownCells(line: seq<Cell>, i: int, t: int, k: int)
    requires i < |line| && 0 <= t && 0 <= k < |line|
    ensures LoopDown(line, i, t)[k] == if t < k <= i then line[k - 1] else line[k]
    decreases i - t
  {
    if i > t {
      LoopDownCells(line[i := line[i - 1]], i - 1, t, k);
    }
  }

  /** On the board's own coordinates the loops and the final write are the agents' ShiftLine. */
  lemma LoopsShiftLine(line: seq<Cell>, s: int, t: int, x: Cell)
    requires 0 <= s < |line| && 0 <= t < |line|
    ensures (if t < s then LoopDown(line, s, t) else LoopUp(line, s, t))[t := x] == AgentUtils.ShiftLine(line, s, t, x)
  {
    var r := (if t < s then LoopDown(line, s, t) else LoopUp(line, s, t))[t := x];
    forall k | 0 <= k < |line| ensures r[k] == AgentUtils.ShiftLine(line, s, t, x)[k] {
      AgentUtils.ShiftLineCells(line, s, t, x, k);
      if t < s {
        LoopDownCells(line, s, t, k);
      } else {
        LoopUpCells(line, s, t, k);
      }
    }
  }

  /**
   * A move from a cell of the board, selected validly, keeps the
   * opponent's pieces and never adds an empty cell.
   */
  lemma GameShiftOccupancy(b: Board, sr: int, sc: int, tr: int, tc: int, p: Player)
    requires Square(b) && PyInRange(|b|, sr, sc) && IsValidTarget(|b|, sr, sc, tr, tc)
    requires IsValidSelection(b, sr, sc, p)
    ensures InRange(|b|, sr, sc) ==>
      BoardMs(GameShift(b, sr, sc, tr, tc, Mark(p)))[Mark(Opponent(p))] == BoardMs(b)[Mark(Opponent(p))] &&
      BoardMs(GameShift(b, sr, sc, tr, tc, Mark(p)))[Empty] <= BoardMs(b)[Empty]
  {
    if InRange(|b|, sr, sc) {
      GameShiftAgrees(b, sr, sc, tr, tc, p);
      AgentUtils.OccupancyNeverDrops(b, AgentUtils.Move(sr, sc, tr, tc), p);
    }
  }

  /** A move from a cell of the board is the agents' copying apply_move. */
  lemma GameShiftAgrees(b: Board, sr: int, sc: int, tr: int, tc: int, p: Player)
    requires Square(b) && InRange(|b|, sr, sc) && IsValidTarget(|b|, sr, sc, tr, tc)
    ensures GameShift(b, sr, sc, tr, tc, Mark(p)) == AgentUtils.ApplyMove(b, AgentUtils.Move(sr, sc, tr, tc), p)
  {
    if sr == tr {
      LoopsShiftLine(b[sr], sc, tc, Mark(p));
    } else {
      LoopsShiftLine(AgentUtils.Column(b, sc), sr, tr, Mark(p));
    }
  }

  /** After a move the target cell holds the mover's mark. */
  lemma TargetHoldsMark(b: Board, m: AgentUtils.Move, p: Player)
    requires Square(b) && InRange(|b|, m.sr, m.sc)
    requires if m.sr == m.tr then 0 <= m.tc < |b| else 0 <= m.tr < |b|
    ensures AgentUtils.ApplyMove(b, m, p)[m.tr][if m.sr == m.tr then m.tc else m.sc] == Mark(p)
  {
    if m.sr == m.tr {
      AgentUtils.ShiftLineCells(b[m.sr], m.sc, m.tc, Mark(p), m.tc);
    } else {
      AgentUtils.ShiftLineCells(AgentUtils.Column(b, m.sc), m.sr, m.tr, Mark(p), m.tr);
    }
  }

  // ------------------------------------------------- the in-place shift

  /**
   * The loops of apply_move, run on a mutable copy of the board: for a
   * row move each cell from the source toward the target takes its
   * neighbour's content, then the target receives the mark; the same down
   * the source's column for a column move. The result is the board the
   * agents compute with their copying apply_move.
   */
  method ShiftInPlace(board: Board, sr: int, sc: int, tr: int, tc: int, p: Player) returns (b: Board)
    requires Square(board) && InRange(|board|, sr, sc)
    requires IsValidTarget(|board|, sr, sc, tr, tc)
    ensures b == AgentUtils.ApplyMove(board, AgentUtils.Move(sr, sc, tr, tc), p)
  {
    if sr == tr {
      var row := ShiftRowInPlace(board[sr], sc, tc, Mark(p));
      b := board[sr := row];
    } else {
      b := ShiftColumnInPlace(board, sc, sr, tr, Mark(p));
    }
  }

  method ShiftRowInPlace(line: seq<Cell>, s: int, t: int, x: Cell) returns (row: seq<Cell>)
    requires 0 <= s < |line| && 0 <= t < |line|
    ensures row == AgentUtils.ShiftLine(line, s, t, x)
  {
    row := line;
    if t < s {
      var c := s;
      while c > t
        invariant t <= c <= s && |row| == |line|
        invariant forall i :: c < i <= s ==> row[i] == line[i - 1]
        invariant forall i :: 0 <= i < |line| && !(c < i <= s) ==> row[i] == line[i]
      {
        row := row[c := row[c - 1]];
        c := c - 1;
      }
    } else {
      var c := s;
      while c < t
        invariant s <= c <= t && |row| == |line|
        invariant forall i :: s <= i < c ==> row[i] == line[i + 1]
        invariant forall i :: 0 <= i < |line| && !(s <= i < c) ==> row[i] == line[i]
      {
        row := row[c := row[c + 1]];
        c := c + 1;
      }
    }
    row := row[t := x];
    forall i | 0 <= i < |line| ensures row[i] == AgentUtils.ShiftLine(line, s, t, x)[i] {
      AgentUtils.ShiftLineCells(line, s, t, x, i);
    }
  }

  method ShiftColumnInPlace(board: Board, j: int, s: int, t: int, x: Cell) returns (b: Board)
    requires Square(board) && 0 <= j < |board| && 0 <= s < |board| && 0 <= t < |board|
    ensures b == AgentUtils.SetColumn(board, j, AgentUtils.ShiftLine(AgentUtils.Column(board, j), s, t, x))
  {
    var n := |board|;
    if t < s {
      b := PullDown(board, j, s, t);
    } else {
      b := PullUp(board, j, s, t);
    }
    b := b[t := b[t][j := x]];
    var col := AgentUtils.Column(board, j);
    var want := AgentUtils.SetColumn(board, j, AgentUtils.ShiftLine(col, s, t, x));
    forall i | 0 <= i < n ensures b[i] == want[i] {
      forall k | 0 <= k < n ensures b[i][k] == want[i][k] {
        AgentUtils.ShiftLineCells(col, s, t, x, i);
      }
    }
  }

  /** The upward column loop: rows t+1..s of column j each take the cell above them. */
  method PullDown(board: Board, j: int, s: int, t: int) returns (b: Board)
    requires Square(board) && 0 <= j < |board| && 0 <= t < s < |board|
    ensures |b| == |board| && forall i :: 0 <= i < |b| ==> |b[i]| == |b|
    ensures forall i, k :: 0 <= i < |b| && 0 <= k < |b| ==>
      b[i][k] == (if k == j && t < i <= s then board[i - 1][j] else board[i][k])
  {
    var n := |board|;
    b := board;
    var r := s;
    while r > t
      invariant t <= r <= s && |b| == n
      invariant forall i :: 0 <= i < n ==> |b[i]| == n
      invariant forall i, k :: 0 <= i < n && 0 <= k < n ==>
        b[i][k] == (if k == j && r < i <= s then board[i - 1][j] else board[i][k])
    {
      b := b[r := b[r][j := b[r - 1][j]]];
      r := r - 1;
    }
  }

  /** The downward column loop: rows s..t-1 of column j each take the cell below them. */
  method PullUp(board: Board, j: int, s: int, t: int) returns (b: Board)
    requires Square(board) && 0 <= j < |board| && 0 <= s <= t < |board|
    ensures |b| == |board| && forall i :: 0 <= i < |b| ==> |b[i]| == |b|
    ensures forall i, k :: 0 <= i < |b| && 0 <= k < |b| ==>
      b[i][k] == (if k == j && s <= i < t then board[i + 1][j] else board[i][k])
  {
    var n := |board|;
    b := board;
    var r := s;
    while r < t
      invariant s <= r <= t && |b| == n
      invariant forall i :: 0 <= i < n ==> |b[i]| == n
      invariant forall i, k :: 0 <= i < n && 0 <= k < n ==>
        b[i][k] == (if k == j && s <= i < r then board[i + 1][j] else board[i][k])
    {
      b := b[r := b[r][j := b[r + 1][j]]];
      r := r + 1;
    }
  }
}
