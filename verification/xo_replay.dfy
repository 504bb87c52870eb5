/**
 * The replay reconstruction and replay stepping of the XOShift driver,
 * in its two copies: AI-Project/AI-Project/main.py and
 * AI-Project/AI-Project/utils.py, and main.py's turn-limit draw rule.
 * A replay rebuilds the game from an empty board by applying the first
 * k recorded moves; the arrow keys move k.
 */
module XOReplay {
  import opened Wrappers
  import opened XOBoard
  import opened XOGame

  // ----------------------------------------------------------- draw rule

  /** MAX_TURNS of main.py. */
  const MaxTurns := 250

  /** A game still without a winner after MAX_TURNS turns is declared a draw. */
  function DrawRule(g: Game, turnCount: int): (r: Game)
    ensures r.winner != NoWinner <==> g.winner != NoWinner || turnCount >= MaxTurns
    ensures g.winner != NoWinner ==> r == g
    ensures r.(winner := g.winner) == g
  {
    if g.winner == NoWinner && turnCount >= MaxTurns then g.(winner := Draw) else g
  }

  /** Once the draw is declared every move is refused and the game stays as it is. */
  lemma DrawEndsGame(g: Game, turnCount: int, sr: int, sc: int, tr: int, tc: int, p: Player)
    requires Valid(g) && g.winner == NoWinner && turnCount >= MaxTurns
    ensures var d := DrawRule(g, turnCount);
      d.winner == Draw && TryMove(d, sr, sc, tr, tc, p) == (false, d)
  {
  }

  // ------------------------------------------------------------ entries

  /** A recorded move; a field missing from the record is None. */
  datatype Entry = Entry(player: Option<string>, sr: Option<int>, sc: Option<int>, tr: Option<int>, tc: Option<int>)

  predicate Complete(e: Entry) {
    e.player.Some? && e.sr.Some? && e.sc.Some? && e.tr.Some? && e.tc.Some?
  }

  /** PLAYERS.index(symbol); None is the ValueError of any other symbol. */
  function Symbol(s: string): (r: Option<Player>)
    ensures r == Some(X) <==> s == "X"
    ensures r == Some(O) <==> s == "O"
    ensures r.None? <==> s != "X" && s != "O"
  {
    if s == "X" then Some(X) else if s == "O" then Some(O) else None
  }

  /** The index of a player in PLAYERS = ['X', 'O']. */
  function IndexOf(p: Player): (i: int)
    ensures 0 <= i <= 1
  {
    if p == X then 0 else 1
  }

  /**
   * A recorded move by `p`: the player to move is forced to `p`, the move
   * is tried, and the turn passes unless the game now has a winner, also
   * after a refused move. A coordinate in -N..-1 counts from the end, as
   * Python's indexing does; None is the IndexError of a rim coordinate
   * below -N or past the edge, which the selection check would index.
   */
  function Play(g: Game, p: Player, sr: int, sc: int, tr: int, tc: int): (r: Option<Game>)
    requires Valid(g)
    ensures r.None? <==> g.winner == NoWinner && !Indexable(g, sr, sc)
    ensures r.Some? ==> Valid(r.value) && r.value.size == g.size
    ensures r.Some? ==> CurrentPlayer(r.value) == if r.value.winner == NoWinner then Opponent(p) else p
    ensures r.Some? && g.winner != NoWinner ==> r.value == g.(playerIndex := IndexOf(p))
  {
    var forced := g.(playerIndex := IndexOf(p));
    if g.winner == NoWinner && !Indexable(g, sr, sc) then None
    else
      var (_, moved) := TryMove(forced, sr, sc, tr, tc, p);
      Some(if moved.winner == NoWinner then SwitchPlayer(moved) else moved)
  }

  /**
   * A negative rim coordinate is Python's count from the end: on a fresh
   * 3 x 3 game, X selecting (0, -1), the cell (0, 2), and pushing to (0, 0)
   * is accepted; (0, 2) receives the old (0, 0) and (0, 0) takes the mark.
   */
  lemma NegativeIndexWraps()
    ensures var g := NewGame(3).value; var r := Play(g, X, 0, -1, 0, 0);
      r.Some? && r.value.lastMove == Some((0, -1, 0, 0, X)) &&
      r.value.board[0][0] == Mark(X) && r.value.board[0][2] == Empty && CurrentPlayer(r.value) == O
  {
    var g := NewGame(3).value;
    assert HasEmptyRim(g.board) by {
      assert OnRim(3, 0, 0) && g.board[0][0] == Empty;
    }
    assert IsValidSelection(g.board, 0, -1, X);
    var row := g.board[0];
    assert LoopUp(row, -1, 0) == row[2 := row[0]];
    var b := GameShift(g.board, 0, -1, 0, 0, Mark(X));
    assert b == g.board[0 := row[2 := row[0]][0 := Mark(X)]];
    assert !HasLine(b, X) by {
      forall l | ValidLine(3, l) ensures !Full(b, l, X) {
        assert LineCells(b, l)[1] != Mark(X);
      }
    }
    assert !HasLine(b, O) by {
      forall l | ValidLine(3, l) ensures !Full(b, l, O) {
        assert LineCells(b, l)[1] != Mark(O);
      }
    }
  }

  /** main.py: an incomplete entry or an unknown symbol is skipped and changes nothing. */
  function StepMain(g: Game, e: Entry): (r: Option<Game>)
    requires Valid(g)
    ensures !Complete(e) ==> r == Some(g)
    ensures Complete(e) && Symbol(e.player.value).None? ==> r == Some(g)
    ensures r.Some? ==> Valid(r.value) && r.value.size == g.size
  {
    if !Complete(e) then Some(g)
    else match Symbol(e.player.value)
      case None => Some(g)
      case Some(p) => Play(g, p, e.sr.value, e.sc.value, e.tr.value, e.tc.value)
  }

  /**
   * utils.py: a missing field is a KeyError (None); an unknown symbol is
   * skipped and changes nothing.
   */
  function StepUtils(g: Game, e: Entry): (r: Option<Game>)
    requires Valid(g)
    ensures !Complete(e) ==> r.None?
    ensures Complete(e) && Symbol(e.player.value).None? ==> r == Some(g)
    ensures r.Some? ==> Valid(r.value) && r.value.size == g.size
  {
    if !Complete(e) then None
    else match Symbol(e.player.value)
      case None => Some(g)
      case Some(p) => Play(g, p, e.sr.value, e.sc.value, e.tr.value, e.tc.value)
  }

  // ------------------------------------------------------ consistency

  /** The winner is exactly what the board shows. */
  ghost predicate WinnerShown(g: Game) {
    Valid(g) &&
    (g.winner == NoWinner <==> !HasLine(g.board, X) && !HasLine(g.board, O)) &&
    (g.winner.Won? ==> HasLine(g.board, g.winner.p))
  }

  /** A winning line is recorded exactly when there is a winner. */
  predicate LineShown(g: Game) {
    g.winner.Won? <==> g.winningLine.Some?
  }

  lemma EmptyHasNoLine(b: Board, p: Player)
    requires Square(b) && forall i, j :: 0 <= i < |b| && 0 <= j < |b| ==> b[i][j] == Empty
    ensures !HasLine(b, p)
  {
    forall l | ValidLine(|b|, l) ensures !Full(b, l, p) {
      assert LineCells(b, l)[0] == Empty;
    }
  }

  lemma PlayKeepsShown(g: Game, p: Player, sr: int, sc: int, tr: int, tc: int)
    requires WinnerShown(g)
    ensures var r := Play(g, p, sr, sc, tr, tc);
      r.Some? ==> WinnerShown(r.value) && (LineShown(g) ==> LineShown(r.value))
  {
  }

  // ------------------------------------------------------------- replay

  /** main.py's reset: empty board, no winner, no winning line, X to move. */
  function ResetMain(g: Game): (r: Game)
    requires Valid(g)
    ensures Valid(r) && r.size == g.size && r.lastMove == g.lastMove
    ensures forall i, j :: 0 <= i < r.size && 0 <= j < r.size ==> r.board[i][j] == Empty
    ensures r.winner == NoWinner && r.winningLine.None? && CurrentPlayer(r) == X
    ensures WinnerShown(r) && LineShown(r)
  {
    var r := g.(board := EmptyBoard(g.size), winner := NoWinner, winningLine := None, playerIndex := 0);
    EmptyHasNoLine(r.board, X);
    EmptyHasNoLine(r.board, O);
    r
  }

  /** utils.py's reset, which keeps the old winning line. */
  function ResetUtils(g: Game): (r: Game)
    requires Valid(g)
    ensures Valid(r) && r.size == g.size && r.lastMove == g.lastMove && r.winningLine == g.winningLine
    ensures forall i, j :: 0 <= i < r.size && 0 <= j < r.size ==> r.board[i][j] == Empty
    ensures r.winner == NoWinner && CurrentPlayer(r) == X
    ensures WinnerShown(r)
  {
    var r := g.(board := EmptyBoard(g.size), winner := NoWinner, playerIndex := 0);
    EmptyHasNoLine(r.board, X);
    EmptyHasNoLine(r.board, O);
    r
  }

  /** The entries applied in order with main.py's step; None once one of them fails. */
  function RunMain(g: Game, es: seq<Entry>): (r: Option<Game>)
    requires Valid(g)
    ensures r.Some? ==> Valid(r.value) && r.value.size == g.size
    decreases |es|
  {
    if |es| == 0 then Some(g)
    else match StepMain(g, es[0])
      case None => None
      case Some(g') => RunMain(g', es[1..])
  }

  function RunUtils(g: Game, es: seq<Entry>): (r: Option<Game>)
    requires Valid(g)
    ensures r.Some? ==> Valid(r.value) && r.value.size == g.size
    decreases |es|
  {
    if |es| == 0 then Some(g)
    else match StepUtils(g, es[0])
      case None => None
      case Some(g') => RunUtils(g', es[1..])
  }

  lemma {:induction false} RunMainSnoc(g: Game, es: seq<Entry>, e: Entry)
    requires Valid(g)
    ensures RunMain(g, es + [e]) == match RunMain(g, es) case None => None case Some(h) => StepMain(h, e)
    decreases |es|
  {
    if |es| == 0 {
      assert es + [e] == [e];
    } else {
      assert (es + [e])[1..] == es[1..] + [e];
      match StepMain(g, es[0])
      case None =>
      case Some(g') => RunMainSnoc(g', es[1..], e);
    }
  }

  lemma {:induction false} RunUtilsSnoc(g: Game, es: seq<Entry>, e: Entry)
    requires Valid(g)
    ensures RunUtils(g, es + [e]) == match RunUtils(g, es) case None => None case Some(h) => StepUtils(h, e)
    decreases |es|
  {
    if |es| == 0 {
      assert es + [e] == [e];
    } else {
      assert (es + [e])[1..] == es[1..] + [e];
      match StepUtils(g, es[0])
      case None =>
      case Some(g') => RunUtilsSnoc(g', es[1..], e);
    }
  }

  lemma {:induction false} RunMainFails(g: Game, es: seq<Entry>, k: nat)
    requires Valid(g) && k <= |es| && RunMain(g, es[..k]).None?
    ensures RunMain(g, es).None?
    decreases k
  {
    assert k > 0;
    match StepMain(g, es[0])
    case None =>
    case Some(g') =>
      assert es[..k][1..] == es[1..][..k - 1];
      RunMainFails(g', es[1..], k - 1);
  }

  lemma {:induction false} RunUtilsFails(g: Game, es: seq<Entry>, k: nat)
    requires Valid(g) && k <= |es| && RunUtils(g, es[..k]).None?
    ensures RunUtils(g, es).None?
    decreases k
  {
    assert k > 0;
    match StepUtils(g, es[0])
    case None =>
    case Some(g') =>
      assert es[..k][1..] == es[1..][..k - 1];
      RunUtilsFails(g', es[1..], k - 1);
  }
  /** One more step of a replay loop that has run the first i entries of `es` to `cur`. */
  lemma RunUtilsNext(g: Game, es: seq<Entry>, i: nat, cur: Game)
    requires Valid(g) && Valid(cur) && i < |es| && RunUtils(g, es[..i]) == Some(cur)
    ensures StepUtils(cur, es[i]).None? ==> RunUtils(g, es).None?
    ensures StepUtils(cur, es[i]).Some? ==> RunUtils(g, es[..i + 1]) == StepUtils(cur, es[i])
  {
    var s := StepUtils(cur, es[i]);
    assert es[..i + 1] == es[..i] + [es[i]];
    RunUtilsSnoc(g, es[..i], es[i]);
    assert RunUtils(g, es[..i + 1]) == s;
    if s.None? {
      RunUtilsFails(g, es, i + 1);
    }
  }


  /** Replaying keeps the winner in step with the board and, in main.py, the winning line in step with the winner. */
  lemma {:induction false} RunMainShown(g: Game, es: seq<Entry>)
    requires WinnerShown(g) && LineShown(g)
    ensures RunMain(g, es).Some? ==> WinnerShown(RunMain(g, es).value) && LineShown(RunMain(g, es).value)
    decreases |es|
  {
    if |es| > 0 {
      var e := es[0];
      if Complete(e) && Symbol(e.player.value).Some? {
        PlayKeepsShown(g, Symbol(e.player.value).value, e.sr.value, e.sc.value, e.tr.value, e.tc.value);
      }
      if StepMain(g, e).Some? {
        RunMainShown(StepMain(g, e).value, es[1..]);
      }
    }
  }

  lemma {:induction false} RunUtilsShown(g: Game, es: seq<Entry>)
    requires WinnerShown(g)
    ensures RunUtils(g, es).Some? ==> WinnerShown(RunUtils(g, es).value)
    decreases |es|
  {
    if |es| > 0 {
      var e := es[0];
      if Complete(e) && Symbol(e.player.value).Some? {
        PlayKeepsShown(g, Symbol(e.player.value).value, e.sr.value, e.sc.value, e.tr.value, e.tc.value);
      }
      if StepUtils(g, e).Some? {
        RunUtilsShown(StepUtils(g, e).value, es[1..]);
      }
    }
  }

  /** How many entries main.py's loop applies: min(target, len(moves)), and none for a negative target. */
  function Applied(target: int, n: nat): (k: nat)
    ensures k <= n && (target >= n ==> k == n) && (0 <= target <= n ==> k == target)
  {
    if target <= 0 then 0 else Min(target, n)
  }

  /** The replay to move `target` as main.py computes it. */
  function ReplayMain(g: Game, moves: seq<Entry>, target: int): (r: Option<Game>)
    requires Valid(g)
    ensures r.Some? ==> Valid(r.value) && r.value.size == g.size
    ensures r.Some? ==> WinnerShown(r.value) && LineShown(r.value)
  {
    RunMainShown(ResetMain(g), moves[..Applied(target, |moves|)]);
    RunMain(ResetMain(g), moves[..Applied(target, |moves|)])
  }

  /** The replay to move `target` as utils.py computes it. */
  function ReplayUtils(g: Game, moves: seq<Entry>, target: int): (r: Option<Game>)
    requires Valid(g) && target <= |moves|
    ensures r.Some? ==> Valid(r.value) && r.value.size == g.size
    ensures r.Some? ==> WinnerShown(r.value)
  {
    RunUtilsShown(ResetUtils(g), moves[..Applied(target, |moves|)]);
    RunUtils(ResetUtils(g), moves[..Applied(target, |moves|)])
  }

  /**
   * _apply_replay_moves_to_index of main.py: the reset, then a loop over
   * range(target) that stops at the end of the moves. None is a replay
   * that failed with an IndexError.
   */
  method ApplyReplayMain(g: Game, moves: seq<Entry>, target: int) returns (r: Option<Game>)
    requires Valid(g)
    ensures r == ReplayMain(g, moves, target)
    ensures target >= |moves| ==> r == ReplayMain(g, moves, |moves|)
  {
    ghost var applied := moves[..Applied(target, |moves|)];
    var start := ResetMain(g);
    var cur := start;
    var i := 0;
    while i < target
      invariant 0 <= i <= |applied|
      invariant Valid(cur) && RunMain(start, applied[..i]) == Some(cur)
      decreases target - i
    {
      if i >= |moves| {
        break;
      }
      var step := StepMain(cur, moves[i]);
      assert applied[i] == moves[i];
      RunMainSnoc(start, applied[..i], moves[i]);
      assert applied[..i + 1] == applied[..i] + [moves[i]];
      if step.None? {
        RunMainFails(start, applied, i + 1);
        return None;
      }
      cur := step.value;
      i := i + 1;
    }
    assert applied[..i] == applied;
    r := Some(cur);
  }

  /**
   * _apply_replay_moves_to_index of utils.py: the reset, then the first
   * `target` moves, indexed without a bound check.
   */
  method ApplyReplayUtils(g: Game, moves: seq<Entry>, target: int) returns (r: Option<Game>)
    requires Valid(g) && target <= |moves|
    ensures r == ReplayUtils(g, moves, target)
  {
    ghost var applied := moves[..Applied(target, |moves|)];
    var start := ResetUtils(g);
    var cur := start;
    var i := 0;
    while i < target
      invariant 0 <= i <= |applied|
      invariant Valid(cur) && RunUtils(start, applied[..i]) == Some(cur)
      decreases target - i
    {
      var step := StepUtils(cur, moves[i]);
      assert applied[i] == moves[i];
      RunUtilsNext(start, applied, i, cur);
      if step.None? {
        return None;
      }
      cur := step.value;
      i := i + 1;
    }
    assert applied[..i] == applied;
    r := Some(cur);
  }

  /**
   * A replay depends on the game it starts from only through its size
   * and last move: the board, winner, line and player come from the
   * recorded moves alone.
   */
  lemma ReplayForgets(g: Game, h: Game, moves: seq<Entry>, target: int)
    requires Valid(g) && Valid(h) && g.size == h.size && g.lastMove == h.lastMove
    ensures ReplayMain(g, moves, target) == ReplayMain(h, moves, target)
  {
    assert ResetMain(g) == ResetMain(h);
  }

  /** utils.py's replay can show a stale winning line without a winner, which main.py's cannot. */
  lemma UtilsKeepsStaleLine(g: Game, moves: seq<Entry>)
    requires Valid(g) && g.winningLine.Some?
    ensures ReplayUtils(g, moves, 0) == Some(ResetUtils(g))
    ensures ReplayUtils(g, moves, 0).value.winner == NoWinner && !LineShown(ReplayUtils(g, moves, 0).value)
    ensures LineShown(ReplayMain(g, moves, 0).value)
  {
    assert moves[..0] == [];
  }

  // ------------------------------------------------------ replay keys

  datatype Key = Right | Left | OtherKey
  datatype Event = KeyDown(key: Key) | OtherEvent

  /** The game shown, the replay index and the replay_finished flag. */
  datatype View = View(game: Game, index: int, finished: bool)

  /** A view whose index is a position in the recording and which is finished only at the end. */
  predicate InRecording(v: View, moves: seq<Entry>) {
    Valid(v.game) && 0 <= v.index <= |moves| && (v.finished ==> v.index == |moves|)
  }

  /** The position of the first key press among the events; |events| when there is none. */
  function FirstKeyAt(events: seq<Event>): (i: nat)
    ensures i <= |events| && (i < |events| ==> events[i].KeyDown?)
    ensures forall j :: 0 <= j < i ==> !events[j].KeyDown?
  {
    if |events| == 0 || events[0].KeyDown? then 0
    else
      var i := FirstKeyAt(events[1..]);
      assert forall j :: 1 <= j < i + 1 ==> events[j] == events[1..][j - 1];
      i + 1
  }

  /** The first key pressed, if any. */
  function FirstKey(events: seq<Event>): Option<Key> {
    var i := FirstKeyAt(events);
    if i == |events| then None else Some(events[i].key)
  }

  /**
   * main.py's replay block for one frame: nothing once the replay is
   * finished; otherwise only the first key press counts. RIGHT replays
   * one more move while any is left and then marks the replay finished
   * at the end; LEFT steps back one move while above 0 and clears the
   * mark.
   */
  function MainReplayKeys(v: View, moves: seq<Entry>, events: seq<Event>): (r: Option<View>)
    requires InRecording(v, moves)
    ensures r.Some? ==> InRecording(r.value, moves)
    ensures v.finished || FirstKey(events).None? ==> r == Some(v)
    ensures r.Some? && r.value.index != v.index ==> Some(r.value.game) == ReplayMain(v.game, moves, r.value.index)
    ensures r.Some? && r.value.index > v.index ==> r.value.index == v.index + 1 && (r.value.finished <==> r.value.index == |moves|)
    ensures r.Some? && r.value.index < v.index ==> r.value.index == v.index - 1 && !r.value.finished
    ensures !v.finished && FirstKey(events) == Some(Right) && v.index == |moves| ==> r == Some(v.(finished := true))
  {
    if v.finished then Some(v)
    else match FirstKey(events)
      case Some(Right) =>
        if v.index < |moves| then
          match ReplayMain(v.game, moves, v.index + 1)
          case None => None
          case Some(g) => Some(View(g, v.index + 1, v.index + 1 == |moves|))
        else Some(v.(finished := true))
      case Some(Left) =>
        if v.index > 0 then
          match ReplayMain(v.game, moves, v.index - 1)
          case None => None
          case Some(g) => Some(View(g, v.index - 1, false))
        else Some(v)
      case _ => Some(v)
  }

  /** One key press as utils.py's handle_replay_keys treats it. */
  function UtilsKey(v: View, moves: seq<Entry>, k: Key): (r: Option<View>)
    requires InRecording(v, moves)
    ensures r.Some? ==> InRecording(r.value, moves)
    ensures r.Some? && r.value.index != v.index ==> Some(r.value.game) == ReplayUtils(v.game, moves, r.value.index)
    ensures r.Some? && r.value.index == v.index ==> r.value == v
    ensures r.Some? && r.value.index > v.index ==>
      (k == Right && r.value.index == v.index + 1 && (r.value.finished <==> r.value.index == |moves|))
    ensures r.Some? && r.value.index < v.index ==> k == Left && r.value.index == v.index - 1 && !r.value.finished
    ensures (k == Right && v.index < |moves|) || (k == Left && v.index > 0) ==> r.None? || r.value.index != v.index
  {
    match k
    case Right =>
      if v.index < |moves| then
        match ReplayUtils(v.game, moves, v.index + 1)
        case None => None
        case Some(g) => Some(View(g, v.index + 1, if v.index + 1 == |moves| then true else v.finished))
      else Some(v)
    case Left =>
      if v.index > 0 then
        match ReplayUtils(v.game, moves, v.index - 1)
        case None => None
        case Some(g) => Some(View(g, v.index - 1, false))
      else Some(v)
    case OtherKey => Some(v)
  }

  /** handle_replay_keys: every key press of the frame, in order. */
  function UtilsReplayKeys(v: View, moves: seq<Entry>, events: seq<Event>): (r: Option<View>)
    requires InRecording(v, moves)
    ensures r.Some? ==> InRecording(r.value, moves)
    ensures r.Some? ==> v.index - |events| <= r.value.index <= v.index + |events|
    decreases |events|
  {
    if |events| == 0 then Some(v)
    else
      var next := if events[0].KeyDown? then UtilsKey(v, moves, events[0].key) else Some(v);
      match next
      case None => None
      case Some(w) => UtilsReplayKeys(w, moves, events[1..])
  }
}
