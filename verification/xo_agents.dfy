/**
 * The two searching agents: AI-Project/AI-Project/basic_agent.py and
 * AI-Project/AI-Project/401243133.py. Both run the same fail-soft
 * alpha-beta over get_all_valid_moves; they differ in the search depth,
 * the terminal scores and the static evaluation. The random numbers the
 * agents draw are parameters.
 */
module XOAgents {
  import opened Wrappers
  import opened XOBoard
  import opened AgentUtils
  import opened XOEval

  /** basic_agent.py and 401243133.py. */
  datatype Agent = Basic | Tuned

  /** MAX_DEPTH of each agent. */
  function MaxDepth(a: Agent): nat {
    if a == Basic then 2 else 3
  }

  /** The score of a position the player has already won, `depth` plies above the horizon. */
  function WinScore(a: Agent, depth: int): int {
    if a == Basic then 1000 + depth else 10000 + 10 * depth
  }

  /** The score of a position the opponent has already won. */
  function LossScore(a: Agent, depth: int): int {
    if a == Basic then -1000 - depth else -100000 - 10 * depth
  }

  /**
   * The static evaluation: basic_agent.py's evaluate; in 401243133.py
   * evaluate3 on a 3x3 board and the weighted evaluate otherwise (the
   * eval_func chosen once per agent_move by the board size, which no
   * move changes).
   */
  function Eval(a: Agent, b: Board, p: Player): int
    requires Square(b)
  {
    if a == Basic || |b| == 3 then LineDiff(b, p) else Evaluate(b, p)
  }

  /** On the game's boards every evaluation lies strictly between the loss and win scores. */
  lemma EvalBounded(a: Agent, b: Board, p: Player)
    requires Square(b)
    ensures 3 <= |b| <= 5 ==> LossScore(a, 0) < Eval(a, b, p) < WinScore(a, 0)
  {
    if 3 <= |b| <= 5 {
      if a == Basic || |b| == 3 {
        assert Eval(a, b, p) == LineDiff(b, p);
      } else {
        EvaluateBounded(b, p);
        assert Eval(a, b, p) == Evaluate(b, p);
      }
    }
  }

  // ------------------------------------------------------ search window

  /** A window bound: float('-inf'), a finite score, or float('inf'). */
  datatype Ext = NegInf | Fin(v: int) | PosInf

  /** x < v */
  predicate Below(x: Ext, v: int) {
    x.NegInf? || (x.Fin? && x.v < v)
  }

  /** v < x */
  predicate Above(x: Ext, v: int) {
    x.PosInf? || (x.Fin? && v < x.v)
  }

  /** x < y; the search goes on while alpha is before beta. */
  predicate Before(x: Ext, y: Ext) {
    match x
    case NegInf => !y.NegInf?
    case Fin(a) => Above(y, a)
    case PosInf => false
  }

  /** max(x, v) */
  function RaiseTo(x: Ext, v: int): (r: Ext)
    ensures r.Fin? || r == x
    ensures !Below(r, v) && (Below(x, v) ==> r == Fin(v))
    ensures (r == x || r == Fin(v)) && !Before(r, x)
    ensures !Below(x, v) ==> r == x
  {
    if Below(x, v) then Fin(v) else x
  }

  /** min(x, v) */
  function LowerTo(x: Ext, v: int): (r: Ext)
    ensures r.Fin? || r == x
    ensures !Above(r, v) && (Above(x, v) ==> r == Fin(v))
    ensures (r == x || r == Fin(v)) && !Before(x, r)
    ensures !Above(x, v) ==> r == x
  {
    if Above(x, v) then Fin(v) else x
  }

  /** Every move of `ms` stays on the board. */
  predicate Playable(b: Board, ms: seq<Move>) {
    forall i :: 0 <= i < |ms| ==>
      0 <= ms[i].sr < |b| && 0 <= ms[i].sc < |b| && 0 <= ms[i].tr < |b| && 0 <= ms[i].tc < |b|
  }

  lemma ValidMovesPlayable(b: Board, p: Player)
    requires Square(b)
    ensures Playable(b, AllValidMoves(b, p))
  {
    var ms := AllValidMoves(b, p);
    forall i | 0 <= i < |ms| ensures InRange(|b|, ms[i].sr, ms[i].sc) && InRange(|b|, ms[i].tr, ms[i].tc) {
      assert ms[i] in ms;
    }
  }

  /** The player whose move it is at a max level or a min level. */
  function Mover(maximizing: bool, p: Player): Player {
    if maximizing then p else Opponent(p)
  }

  // ---------------------------------------------------------- alpha-beta

  /**
   * alpha_beta: a decided board scores the win or loss score, the horizon
   * and a player without moves score the evaluation, and otherwise the
   * moves of the player to move are searched in generator order.
   */
  function AlphaBeta(a: Agent, b: Board, depth: nat, alpha: Ext, beta: Ext, maximizing: bool, p: Player): (v: int)
    requires Square(b)
    ensures 3 <= |b| <= 5 ==> LossScore(a, depth) <= v <= WinScore(a, depth)
    decreases depth, 1, 0
  {
    var w := CheckWinner(b);
    EvalBounded(a, b, p);
    if w == Some(p) then WinScore(a, depth)
    else if w == Some(Opponent(p)) then LossScore(a, depth)
    else if depth == 0 then Eval(a, b, p)
    else
      var ms := AllValidMoves(b, Mover(maximizing, p));
      ValidMovesPlayable(b, Mover(maximizing, p));
      if |ms| == 0 then Eval(a, b, p)
      else Search(a, b, depth - 1, ms, 0, alpha, beta, maximizing, p)
  }

  /**
   * The loop over the moves from index `i` on: a max level keeps the
   * largest child score and raises alpha, a min level the smallest and
   * lowers beta, and the loop stops once beta <= alpha.
   */
  function Search(a: Agent, b: Board, d: nat, ms: seq<Move>, i: nat, alpha: Ext, beta: Ext,
                  maximizing: bool, p: Player): (v: int)
    requires Square(b) && i < |ms| && Playable(b, ms)
    ensures 3 <= |b| <= 5 ==> LossScore(a, d) <= v <= WinScore(a, d)
    decreases d, 3, |ms| - i
  {
    var e := ChildScore(a, b, d, ms, i, alpha, beta, maximizing, p);
    var (alpha', beta') := Narrow(maximizing, alpha, beta, e);
    if i + 1 == |ms| || !Before(alpha', beta') then e
    else
      var rest := Search(a, b, d, ms, i + 1, alpha', beta', maximizing, p);
      if maximizing then Max(e, rest) else Min(e, rest)
  }

  /** The search score, `d` plies deep, of the position after the i-th move. */
  function ChildScore(a: Agent, b: Board, d: nat, ms: seq<Move>, i: nat, alpha: Ext, beta: Ext,
                      maximizing: bool, p: Player): (v: int)
    requires Square(b) && i < |ms| && Playable(b, ms)
    ensures 3 <= |b| <= 5 ==> LossScore(a, d) <= v <= WinScore(a, d)
    decreases d, 2, 0
  {
    AlphaBeta(a, ApplyMove(b, ms[i], Mover(maximizing, p)), d, alpha, beta, !maximizing, p)
  }

  // ------------------------------------------------- reference minimax

  /** Plain minimax over the same game tree, with the same leaves. */
  function Minimax(a: Agent, b: Board, depth: nat, maximizing: bool, p: Player): (v: int)
    requires Square(b)
    decreases depth, 1, 0
  {
    var w := CheckWinner(b);
    if w == Some(p) then WinScore(a, depth)
    else if w == Some(Opponent(p)) then LossScore(a, depth)
    else if depth == 0 then Eval(a, b, p)
    else
      var ms := AllValidMoves(b, Mover(maximizing, p));
      ValidMovesPlayable(b, Mover(maximizing, p));
      if |ms| == 0 then Eval(a, b, p)
      else Best(a, b, depth - 1, ms, 0, maximizing, p)
  }

  /** The minimax value, `d` plies deep, of the position after the i-th move. */
  function ChildValue(a: Agent, b: Board, d: nat, ms: seq<Move>, i: nat, maximizing: bool, p: Player): int
    requires Square(b) && i < |ms| && Playable(b, ms)
    decreases d, 2, 0
  {
    Minimax(a, ApplyMove(b, ms[i], Mover(maximizing, p)), d, !maximizing, p)
  }

  /** The best child value from index `i` on: the largest at a max level, the smallest at a min level. */
  function Best(a: Agent, b: Board, d: nat, ms: seq<Move>, i: nat, maximizing: bool, p: Player): int
    requires Square(b) && i < |ms| && Playable(b, ms)
    decreases d, 3, |ms| - i
  {
    var e := ChildValue(a, b, d, ms, i, maximizing, p);
    if i + 1 == |ms| then e
    else
      var rest := Best(a, b, d, ms, i + 1, maximizing, p);
      if maximizing then Max(e, rest) else Min(e, rest)
  }

  // ------------------------------------------------ fail-soft soundness

  /**
   * The fail-soft guarantee of a search result `v` against the true value
   * `m` in the window (alpha, beta): exact inside the window, an upper
   * bound when it fails low, a lower bound when it fails high.
   */
  predicate FailSoft(v: int, m: int, alpha: Ext, beta: Ext) {
    (Below(alpha, v) && Above(beta, v) ==> v == m) &&
    (!Below(alpha, v) ==> m <= v) &&
    (!Above(beta, v) ==> v <= m)
  }

  lemma {:induction false} AlphaBetaFailSoft(a: Agent, b: Board, depth: nat, alpha: Ext, beta: Ext,
                                             maximizing: bool, p: Player)
    requires Square(b) && Before(alpha, beta)
    ensures FailSoft(AlphaBeta(a, b, depth, alpha, beta, maximizing, p), Minimax(a, b, depth, maximizing, p), alpha, beta)
    decreases depth, 1, 0
  {
    var w := CheckWinner(b);
    if w != Some(p) && w != Some(Opponent(p)) && depth != 0 && |AllValidMoves(b, Mover(maximizing, p))| != 0 {
      DeepFailSoft(a, b, depth - 1, alpha, beta, maximizing, p);
    } else {
      LeafSame(a, b, depth, alpha, beta, maximizing, p);
    }
  }

  /** Where the search stops, both searches score the same leaf. */
  lemma LeafSame(a: Agent, b: Board, depth: nat, alpha: Ext, beta: Ext, maximizing: bool, p: Player)
    requires Square(b)
    requires CheckWinner(b) == Some(p) || CheckWinner(b) == Some(Opponent(p)) || depth == 0 ||
      |AllValidMoves(b, Mover(maximizing, p))| == 0
    ensures AlphaBeta(a, b, depth, alpha, beta, maximizing, p) == Minimax(a, b, depth, maximizing, p)
  {
  }

  /** The case where the search loops over the moves, `d` plies below. */
  lemma {:induction false} DeepFailSoft(a: Agent, b: Board, d: nat, alpha: Ext, beta: Ext, maximizing: bool, p: Player)
    requires Square(b) && Before(alpha, beta) && CheckWinner(b) != Some(p) && CheckWinner(b) != Some(Opponent(p))
    requires |AllValidMoves(b, Mover(maximizing, p))| != 0
    ensures FailSoft(AlphaBeta(a, b, d + 1, alpha, beta, maximizing, p), Minimax(a, b, d + 1, maximizing, p), alpha, beta)
    decreases d, 4, 0
  {
    ValidMovesPlayable(b, Mover(maximizing, p));
    SearchFailSoft(a, b, d, AllValidMoves(b, Mover(maximizing, p)), 0, alpha, beta, maximizing, p);
  }

  lemma {:induction false} SearchFailSoft(a: Agent, b: Board, d: nat, ms: seq<Move>, i: nat, alpha: Ext, beta: Ext,
                                          maximizing: bool, p: Player)
    requires Square(b) && i < |ms| && Playable(b, ms) && Before(alpha, beta)
    ensures FailSoft(Search(a, b, d, ms, i, alpha, beta, maximizing, p), Best(a, b, d, ms, i, maximizing, p), alpha, beta)
    decreases d, 3, |ms| - i
  {
    ChildFailSoft(a, b, d, ms, i, alpha, beta, maximizing, p);
    var e := ChildScore(a, b, d, ms, i, alpha, beta, maximizing, p);
    var me := ChildValue(a, b, d, ms, i, maximizing, p);
    var (alpha', beta') := Narrow(maximizing, alpha, beta, e);
    var last := i + 1 == |ms|;
    var r, mrest := e, me;
    if !last {
      mrest := Best(a, b, d, ms, i + 1, maximizing, p);
      if Before(alpha', beta') {
        SearchFailSoft(a, b, d, ms, i + 1, alpha', beta', maximizing, p);
        r := Search(a, b, d, ms, i + 1, alpha', beta', maximizing, p);
      }
    }
    Assemble(maximizing, e, me, r, mrest, alpha, beta, last);
    Unfold(a, b, d, ms, i, alpha, beta, maximizing, p);
  }

  lemma {:induction false} ChildFailSoft(a: Agent, b: Board, d: nat, ms: seq<Move>, i: nat, alpha: Ext, beta: Ext,
                                         maximizing: bool, p: Player)
    requires Square(b) && i < |ms| && Playable(b, ms) && Before(alpha, beta)
    ensures FailSoft(ChildScore(a, b, d, ms, i, alpha, beta, maximizing, p), ChildValue(a, b, d, ms, i, maximizing, p), alpha, beta)
    decreases d, 2, 0
  {
    AlphaBetaFailSoft(a, ApplyMove(b, ms[i], Mover(maximizing, p)), d, alpha, beta, !maximizing, p);
  }

  lemma Unfold(a: Agent, b: Board, d: nat, ms: seq<Move>, i: nat, alpha: Ext, beta: Ext, maximizing: bool, p: Player)
    requires Square(b) && i < |ms| && Playable(b, ms)
    ensures var e := ChildScore(a, b, d, ms, i, alpha, beta, maximizing, p);
      var w := Narrow(maximizing, alpha, beta, e);
      Search(a, b, d, ms, i, alpha, beta, maximizing, p) ==
        if i + 1 == |ms| || !Before(w.0, w.1) then e
        else if maximizing then Max(e, Search(a, b, d, ms, i + 1, w.0, w.1, maximizing, p))
        else Min(e, Search(a, b, d, ms, i + 1, w.0, w.1, maximizing, p))
    ensures var me := ChildValue(a, b, d, ms, i, maximizing, p);
      Best(a, b, d, ms, i, maximizing, p) ==
        if i + 1 == |ms| then me
        else if maximizing then Max(me, Best(a, b, d, ms, i + 1, maximizing, p))
        else Min(me, Best(a, b, d, ms, i + 1, maximizing, p))
  {
  }

  /** The window after a child scoring `e`: alpha raised at a max level, beta lowered at a min level. */
  function Narrow(maximizing: bool, alpha: Ext, beta: Ext, e: int): (w: (Ext, Ext))
    ensures maximizing ==> w == (RaiseTo(alpha, e), beta)
    ensures !maximizing ==> w == (alpha, LowerTo(beta, e))
  {
    if maximizing then (RaiseTo(alpha, e), beta) else (alpha, LowerTo(beta, e))
  }

  /**
   * One step of the loop, on scores alone: the child's guarantee and,
   * when the loop goes on, the guarantee of the rest in the narrowed
   * window give the guarantee of the whole loop in the original window.
   */
  lemma Assemble(maximizing: bool, e: int, me: int, r: int, mrest: int, alpha: Ext, beta: Ext, last: bool)
    requires Before(alpha, beta) && FailSoft(e, me, alpha, beta)
    requires var w := Narrow(maximizing, alpha, beta, e);
      !last && Before(w.0, w.1) ==> FailSoft(r, mrest, w.0, w.1)
    ensures var w := Narrow(maximizing, alpha, beta, e);
      FailSoft(if last || !Before(w.0, w.1) then e else if maximizing then Max(e, r) else Min(e, r),
               if last then me else if maximizing then Max(me, mrest) else Min(me, mrest),
               alpha, beta)
  {
  }

  /** With the full window (-inf, +inf) alpha-beta returns exactly the minimax value. */
  lemma FullWindow(a: Agent, b: Board, depth: nat, maximizing: bool, p: Player)
    requires Square(b)
    ensures AlphaBeta(a, b, depth, NegInf, PosInf, maximizing, p) == Minimax(a, b, depth, maximizing, p)
  {
    AlphaBetaFailSoft(a, b, depth, NegInf, PosInf, maximizing, p);
  }

  // ---------------------------------------------------------- agent_move

  /** The score agent_move gives a move: the search value of the board after it, opponent to move. */
  function MoveScore(a: Agent, b: Board, m: Move, p: Player): (v: int)
    requires Square(b) && InRange(|b|, m.sr, m.sc) && InRange(|b|, m.tr, m.tc)
    ensures v == Minimax(a, ApplyMove(b, m, p), MaxDepth(a) - 1, false, p)
  {
    FullWindow(a, ApplyMove(b, m, p), MaxDepth(a) - 1, false, p);
    AlphaBeta(a, ApplyMove(b, m, p), MaxDepth(a) - 1, NegInf, PosInf, false, p)
  }

  /** A roll of random.randint(1, 100) lets the move replace the best so far regardless of its score. */
  predicate Override(a: Agent, roll: int, score: int) {
    if a == Basic then roll == 1 else roll == 1 && score > -10
  }

  /** The score of every move of `ms`, in order. */
  function Scores(a: Agent, b: Board, p: Player, ms: seq<Move>): (s: seq<int>)
    requires Square(b) && Playable(b, ms)
    ensures |s| == |ms| && forall k :: 0 <= k < |ms| ==> s[k] == MoveScore(a, b, ms[k], p)
  {
    seq(|ms|, k requires 0 <= k < |ms| => MoveScore(a, b, ms[k], p))
  }

  /**
   * The loop of agent_move from move `i` on, `scores[i]` being the score
   * of move i and `best` the best score and move so far (None while
   * best_score is -inf); `roll(i)` is the random number drawn for move i.
   */
  function Choose(a: Agent, ms: seq<Move>, scores: seq<int>, roll: nat -> int, i: nat,
                  best: Option<(int, Move)>): (r: Option<(int, Move)>)
    requires |scores| == |ms| && i <= |ms|
    ensures r.Some? ==> r.value.1 in ms || r == best
    ensures r.None? <==> best.None? && i == |ms|
    ensures r.Some? && r != best ==> exists k :: i <= k < |ms| && r.value == (scores[k], ms[k])
    decreases |ms| - i
  {
    if i == |ms| then best
    else
      var score := scores[i];
      var best' := if best.None? || score > best.value.0 || Override(a, roll(i), score) then Some((score, ms[i])) else best;
      Choose(a, ms, scores, roll, i + 1, best')
  }

  /** The number of marks on the board (moves_played of 401243133.py). */
  function Marks(b: Board): nat {
    BoardMs(b)[Mark(X)] + BoardMs(b)[Mark(O)]
  }

  /**
   * agent_move: (0, 0, 0, 0) when there is no valid move; 401243133.py
   * plays move `pick` of the generated list on a 5x5 board with at most
   * two marks; otherwise the best-scoring move, which a roll of 1 may
   * replace by a later one.
   */
  function AgentMove(a: Agent, b: Board, p: Player, roll: nat -> int, pick: nat): (m: Move)
    requires Square(b)
    ensures m == Move(0, 0, 0, 0) <==> |AllValidMoves(b, p)| == 0
    ensures |AllValidMoves(b, p)| > 0 ==> m in AllValidMoves(b, p)
  {
    var ms := AllValidMoves(b, p);
    ValidMovesPlayable(b, p);
    assert Move(0, 0, 0, 0) !in ms;
    if |ms| == 0 then Move(0, 0, 0, 0)
    else if a == Tuned && Marks(b) <= 2 && |b| == 5 then ms[pick % |ms|]
    else Choose(a, ms, Scores(a, b, p, ms), roll, 0, None).value.1
  }

  /** Without an override the chosen score is the largest score of the moves. */
  lemma {:induction false} ChooseBest(a: Agent, ms: seq<Move>, scores: seq<int>, roll: nat -> int, i: nat,
                                      best: Option<(int, Move)>)
    requires |scores| == |ms| && i <= |ms|
    requires forall k :: i <= k < |ms| ==> !Override(a, roll(k), scores[k])
    ensures var r := Choose(a, ms, scores, roll, i, best);
      r.Some? ==> forall k :: i <= k < |ms| ==> scores[k] <= r.value.0
    ensures var r := Choose(a, ms, scores, roll, i, best);
      best.Some? ==> best.value.0 <= r.value.0
    decreases |ms| - i
  {
    if i < |ms| {
      var score := scores[i];
      var best' := if best.None? || score > best.value.0 || Override(a, roll(i), score) then Some((score, ms[i])) else best;
      ChooseBest(a, ms, scores, roll, i + 1, best');
    }
  }

  /** Without an override the loop picks a move of the largest score. */
  lemma ChosenIndex(a: Agent, ms: seq<Move>, scores: seq<int>, roll: nat -> int) returns (j: int)
    requires |scores| == |ms| > 0
    requires forall k :: 0 <= k < |ms| ==> !Override(a, roll(k), scores[k])
    ensures 0 <= j < |ms| && Choose(a, ms, scores, roll, 0, None) == Some((scores[j], ms[j]))
    ensures forall k :: 0 <= k < |ms| ==> scores[k] <= scores[j]
  {
    ChooseBest(a, ms, scores, roll, 0, None);
    j :| 0 <= j < |ms| && Choose(a, ms, scores, roll, 0, None).value == (scores[j], ms[j]);
  }

  /**
   * When no roll overrides, agent_move returns a move whose score, which
   * is its minimax value, is the largest among all valid moves.
   */
  lemma AgentMoveMaximal(a: Agent, b: Board, p: Player, roll: nat -> int, pick: nat)
    requires Square(b) && |AllValidMoves(b, p)| > 0
    requires !(a == Tuned && Marks(b) <= 2 && |b| == 5)
    requires forall k :: 0 <= k < |AllValidMoves(b, p)| ==>
      !Override(a, roll(k), MoveScore(a, b, AllValidMoves(b, p)[k], p))
    ensures forall k :: 0 <= k < |AllValidMoves(b, p)| ==>
      MoveScore(a, b, AllValidMoves(b, p)[k], p) <= MoveScore(a, b, AgentMove(a, b, p, roll, pick), p)
  {
    var ms := AllValidMoves(b, p);
    ValidMovesPlayable(b, p);
    var scores := Scores(a, b, p, ms);
    var j := ChosenIndex(a, ms, scores, roll);
    assert AgentMove(a, b, p, roll, pick) == ms[j];
  }
}
