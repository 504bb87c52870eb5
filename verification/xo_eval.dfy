/**
 * The static evaluation helpers of the two agents:
 * AI-Project/AI-Project/basic_agent.py (max_contiguous, evaluate) and
 * AI-Project/AI-Project/401243133.py (max_contiguous, center_density,
 * count_metrics, evaluate, evaluate3). The two max_contiguous functions
 * are the same code and are modelled once; basic evaluate and evaluate3
 * are the same formula and are modelled once as LineDiff.
 */
module XOEval {
  import opened Wrappers
  import opened XOBoard

  // ------------------------------------------------------ longest runs

  /** `len` consecutive copies of `x` start at index `i` of `s`. */
  ghost predicate IsRun(s: seq<Cell>, x: Cell, i: int, len: int) {
    0 <= i && 0 <= len && i + len <= |s| && forall k :: i <= k < i + len ==> s[k] == x
  }

  /**
   * The scan of one line: `count` is the length of the run of `x` ending
   * just before index `i` and `best` the longest count seen so far.
   */
  function Scan(s: seq<Cell>, x: Cell, i: nat, count: nat, best: nat): nat
    requires i <= |s|
    decreases |s| - i
  {
    if i == |s| then best
    else
      var count' := if s[i] == x then count + 1 else 0;
      Scan(s, x, i + 1, count', Max(best, count'))
  }

  lemma {:induction false} ScanIsLongest(s: seq<Cell>, x: Cell, i: nat, count: nat, best: nat, j0: int)
    requires i <= |s| && count <= i
    requires IsRun(s, x, i - count, count) && (i - count == 0 || s[i - count - 1] != x)
    requires count <= best && IsRun(s, x, j0, best) && j0 + best <= i
    requires forall j, len :: IsRun(s, x, j, len) && j + len <= i ==> len <= best
    ensures Scan(s, x, i, count, best) <= |s|
    ensures exists j :: IsRun(s, x, j, Scan(s, x, i, count, best))
    ensures forall j, len :: IsRun(s, x, j, len) ==> len <= Scan(s, x, i, count, best)
    decreases |s| - i
  {
    if i < |s| {
      var count' := if s[i] == x then count + 1 else 0;
      var best' := Max(best, count');
      forall j, len | IsRun(s, x, j, len) && j + len <= i + 1
        ensures len <= best'
      {
        if j + len == i + 1 && len > 0 {
          assert s[i] == x;
        }
      }
      var j1 := if best' == best then j0 else i + 1 - count';
      ScanIsLongest(s, x, i + 1, count', best', j1);
    }
  }

  /** The longest run of `x` in `s`. */
  function LongestRun(s: seq<Cell>, x: Cell): (r: nat)
    ensures r <= |s|
    ensures exists j :: IsRun(s, x, j, r)
    ensures forall j, len :: IsRun(s, x, j, len) ==> len <= r
  {
    ScanIsLongest(s, x, 0, 0, 0, 0);
    Scan(s, x, 0, 0, 0)
  }

  /** The largest longest run over the lines of `ls`. */
  function MaxRunOver(b: Board, x: Cell, ls: seq<Line>): (r: nat)
    requires Square(b) && forall l :: l in ls ==> ValidLine(|b|, l)
    ensures r <= |b|
    ensures forall l :: l in ls ==> LongestRun(LineCells(b, l), x) <= r
    ensures r == 0 || exists l :: l in ls && LongestRun(LineCells(b, l), x) == r
  {
    if |ls| == 0 then 0
    else
      var rest := MaxRunOver(b, x, ls[1..]);
      assert forall l :: l in ls[1..] ==> l in ls;
      Max(LongestRun(LineCells(b, ls[0]), x), rest)
  }

  /**
   * max_contiguous: the longest run of the symbol along any row, column,
   * the main diagonal or the anti-diagonal.
   */
  function MaxContiguous(b: Board, x: Cell): (r: nat)
    requires Square(b)
    ensures r <= |b|
    ensures forall l, j, len :: ValidLine(|b|, l) && IsRun(LineCells(b, l), x, j, len) ==> len <= r
    ensures exists l, j :: ValidLine(|b|, l) && IsRun(LineCells(b, l), x, j, r)
  {
    var ls := GameLines(|b|);
    var r := MaxRunOver(b, x, ls);
    assert exists l, j :: ValidLine(|b|, l) && IsRun(LineCells(b, l), x, j, r) by {
      if r == 0 {
        assert IsRun(LineCells(b, Row(0)), x, 0, 0);
      } else {
        var l :| l in ls && LongestRun(LineCells(b, l), x) == r;
        var j :| IsRun(LineCells(b, l), x, j, r);
      }
    }
    forall l, j, len | ValidLine(|b|, l) && IsRun(LineCells(b, l), x, j, len)
      ensures len <= r
    {
      assert l in ls;
    }
    r
  }

  /**
   * evaluate3 of 401243133.py and evaluate of basic_agent.py: the player's
   * longest line minus the opponent's.
   */
  function LineDiff(b: Board, p: Player): (v: int)
    requires Square(b)
    ensures -|b| <= v <= |b|
  {
    MaxContiguous(b, Mark(p)) - MaxContiguous(b, Mark(Opponent(p)))
  }

  lemma LineDiffAntisymmetric(b: Board, p: Player)
    requires Square(b)
    ensures LineDiff(b, Opponent(p)) == -LineDiff(b, p)
  {
    assert Opponent(Opponent(p)) == p;
  }

  // ---------------------------------------------------- center density

  /** No cell is farther than N from the centre, and less than N when N is odd. */
  lemma DistanceBound(n: int, r: int, c: int)
    requires 0 <= r < n && 0 <= c < n
    ensures Abs(r - n / 2) + Abs(c - n / 2) <= n
    ensures n % 2 == 1 ==> Abs(r - n / 2) + Abs(c - n / 2) < n
  {
  }

  lemma MulSucc(n: int, k: int)
    ensures n * (k + 1) == n * k + n
  {
  }

  lemma MulSuccLeft(k: int, w: int)
    ensures (k + 1) * w == k * w + w
  {
  }

  lemma MulAdd(n: int, a: int, b: int)
    ensures n * (a + b) == n * a + n * b
  {
  }

  lemma CountCons(row: seq<Cell>, c: int, x: Cell)
    requires 0 <= c < |row|
    ensures multiset(row[c..])[x] == multiset(row[c + 1..])[x] + (if row[c] == x then 1 else 0)
  {
    assert row[c..] == [row[c]] + row[c + 1..];
  }

  /** The row's contribution from column `c` on: N minus the Manhattan distance to the centre for each cell holding x. */
  function RowSum(row: seq<Cell>, n: int, r: int, x: Cell, c: nat): int
    requires c <= |row|
    decreases |row| - c
  {
    if c == |row| then 0 else Adds(n, r, c, row[c], x) + RowSum(row, n, r, x, c + 1)
  }

  /** A row's density lies between its count of the symbol (odd N) and N times that count. */
  lemma {:induction false} RowDensity(row: seq<Cell>, n: int, r: int, x: Cell, c: nat)
    requires c <= |row| && 0 <= r < n && |row| == n
    ensures 0 <= RowSum(row, n, r, x, c) <= n * multiset(row[c..])[x]
    ensures n % 2 == 1 ==> RowSum(row, n, r, x, c) >= multiset(row[c..])[x]
    decreases |row| - c
  {
    if c < |row| {
      DistanceBound(n, r, c);
      RowDensity(row, n, r, x, c + 1);
      CountCons(row, c, x);
      MulSucc(n, multiset(row[c + 1..])[x]);
    }
  }

  lemma BoardMsSuffix(b: Board, r: int, x: Cell)
    requires 0 <= r < |b|
    ensures BoardMs(b[r..])[x] == multiset(b[r])[x] + BoardMs(b[r + 1..])[x]
  {
    assert b[r..][1..] == b[r + 1..];
  }

  /** The density of the rows from `r` on. */
  function RowsSum(b: Board, x: Cell, r: nat): int
    requires r <= |b|
    decreases |b| - r
  {
    if r == |b| then 0 else RowSum(b[r], |b|, r, x, 0) + RowsSum(b, x, r + 1)
  }

  /** The same bounds for the rows from `r` on. */
  lemma {:induction false} RowsDensity(b: Board, x: Cell, r: nat)
    requires Square(b) && r <= |b|
    ensures 0 <= RowsSum(b, x, r) <= |b| * BoardMs(b[r..])[x]
    ensures |b| % 2 == 1 ==> RowsSum(b, x, r) >= BoardMs(b[r..])[x]
    decreases |b| - r
  {
    if r < |b| {
      RowDensity(b[r], |b|, r, x, 0);
      RowsDensity(b, x, r + 1);
      BoardMsSuffix(b, r, x);
      MulAdd(|b|, multiset(b[r])[x], BoardMs(b[r + 1..])[x]);
      assert b[r][0..] == b[r];
    }
  }

  /**
   * center_density: every cell holding the symbol scores N minus its
   * Manhattan distance to the centre cell (N // 2, N // 2). Each cell adds
   * between 0 and N, and at least 1 when N is odd.
   */
  function CenterDensity(b: Board, x: Cell): (d: int)
    requires Square(b)
    ensures 0 <= d <= |b| * BoardMs(b)[x]
    ensures |b| % 2 == 1 ==> d >= BoardMs(b)[x]
    ensures BoardMs(b)[x] == 0 ==> d == 0
  {
    assert b[0..] == b;
    RowsDensity(b, x, 0);
    RowsSum(b, x, 0)
  }

  // ------------------------------------------------------ line metrics

  /** Per-line tallies of count_metrics. */
  datatype Metrics = Metrics(threats: int, forks: int, disruption: int)

  /** What one line adds to each tally: 1 when it is of that kind. */
  function LineMetrics(b: Board, p: Player, l: Line): (m: Metrics)
    requires Square(b) && ValidLine(|b|, l)
    ensures m.threats + m.forks <= 1 && 0 <= m.disruption <= 1
  {
    Metrics(
      if IsKind(b, p, l, Threat) then 1 else 0,
      if IsKind(b, p, l, Fork) then 1 else 0,
      if IsKind(b, p, l, Disrupt) then 1 else 0)
  }

  function MetricsOver(b: Board, p: Player, ls: seq<Line>): (m: Metrics)
    requires Square(b) && forall l :: l in ls ==> ValidLine(|b|, l)
    ensures 0 <= m.threats && 0 <= m.forks && 0 <= m.disruption
    ensures m.threats + m.forks <= |ls| && m.disruption <= |ls|
  {
    if |ls| == 0 then Metrics(0, 0, 0)
    else
      var here := LineMetrics(b, p, ls[0]);
      var rest := MetricsOver(b, p, ls[1..]);
      Metrics(rest.threats + here.threats, rest.forks + here.forks, rest.disruption + here.disruption)
  }

  /**
   * count_metrics over the 2N+2 lines: threats are lines holding N-1 of
   * the symbol, forks lines holding N-2, disruptions lines holding both
   * symbols. No line is both a threat and a fork.
   */
  function CountMetrics(b: Board, p: Player): (m: Metrics)
    requires Square(b)
    ensures 0 <= m.threats && 0 <= m.forks && 0 <= m.disruption
    ensures m.threats + m.forks <= 2 * |b| + 2 && m.disruption <= 2 * |b| + 2
    ensures m.threats == |Where(b, p, GameLines(|b|), Threat)|
    ensures m.forks == |Where(b, p, GameLines(|b|), Fork)|
    ensures m.disruption == |Where(b, p, GameLines(|b|), Disrupt)|
  {
    MetricsTally(b, p, GameLines(|b|), Threat);
    MetricsTally(b, p, GameLines(|b|), Fork);
    MetricsTally(b, p, GameLines(|b|), Disrupt);
    MetricsOver(b, p, GameLines(|b|))
  }

  /** The three things count_metrics tallies. */
  datatype Kind = Threat | Fork | Disrupt

  /** A line holding N-1 of the symbol, N-2 of it, or both symbols. */
  predicate IsKind(b: Board, p: Player, l: Line, k: Kind)
    requires Square(b) && ValidLine(|b|, l)
  {
    var ms := multiset(LineCells(b, l));
    match k
    case Threat => ms[Mark(p)] == |b| - 1
    case Fork => ms[Mark(p)] == |b| - 2
    case Disrupt => Mark(p) in ms && Mark(Opponent(p)) in ms
  }

  /** The lines of `ls` of kind k. */
  ghost function Where(b: Board, p: Player, ls: seq<Line>, k: Kind): set<Line>
    requires Square(b) && forall l :: l in ls ==> ValidLine(|b|, l)
  {
    set l | l in ls && IsKind(b, p, l, k)
  }

  function Tally(m: Metrics, k: Kind): int {
    match k
    case Threat => m.threats
    case Fork => m.forks
    case Disrupt => m.disruption
  }

  /** Over distinct lines each tally is the number of lines of its kind. */
  lemma {:induction false} MetricsTally(b: Board, p: Player, ls: seq<Line>, k: Kind)
    requires Square(b) && (forall l :: l in ls ==> ValidLine(|b|, l)) && NoDup(ls)
    ensures Tally(MetricsOver(b, p, ls), k) == |Where(b, p, ls, k)|
  {
    if |ls| == 0 {
      assert Where(b, p, ls, k) == {};
    } else {
      var t := ls[1..];
      assert ls == [ls[0]] + t;
      assert NoDup(t) by {
        forall i, j | 0 <= i < j < |t| ensures t[i] != t[j] {
          assert t[i] == ls[i + 1] && t[j] == ls[j + 1];
        }
      }
      assert ls[0] !in t by {
        forall i | 0 <= i < |t| ensures t[i] != ls[0] {
          assert t[i] == ls[i + 1];
        }
      }
      MetricsTally(b, p, t, k);
      TallyHead(b, p, ls, k);
      WhereHead(b, p, ls, k);
    }
  }

  lemma TallyHead(b: Board, p: Player, ls: seq<Line>, k: Kind)
    requires Square(b) && (forall l :: l in ls ==> ValidLine(|b|, l)) && |ls| > 0
    ensures forall l :: l in ls[1..] ==> ValidLine(|b|, l)
    ensures Tally(MetricsOver(b, p, ls), k) == Tally(MetricsOver(b, p, ls[1..]), k) + (if IsKind(b, p, ls[0], k) then 1 else 0)
  {
    assert forall l :: l in ls[1..] ==> l in ls;
  }

  lemma WhereHead(b: Board, p: Player, ls: seq<Line>, k: Kind)
    requires Square(b) && (forall l :: l in ls ==> ValidLine(|b|, l)) && |ls| > 0 && ls[0] !in ls[1..]
    ensures forall l :: l in ls[1..] ==> ValidLine(|b|, l)
    ensures |Where(b, p, ls, k)| == |Where(b, p, ls[1..], k)| + (if IsKind(b, p, ls[0], k) then 1 else 0)
  {
    var w, t := Where(b, p, ls, k), Where(b, p, ls[1..], k);
    var keep := IsKind(b, p, ls[0], k);
    forall l ensures l in w <==> l in t || (l == ls[0] && keep) {
      assert l in ls <==> l == ls[0] || l in ls[1..];
    }
    CardHead(w, t, ls[0], keep);
  }

  lemma CardHead<T>(w: set<T>, t: set<T>, x: T, keep: bool)
    requires x !in t && forall y :: y in w <==> y in t || (y == x && keep)
    ensures |w| == |t| + (if keep then 1 else 0)
  {
    if keep {
      assert w == t + {x};
    } else {
      assert w == t;
    }
  }

  // ------------------------------------------------- density, cell by cell

  /** What a cell holding y adds to the density of x at (r, c): N minus its distance to the centre, or nothing. */
  function Adds(n: int, r: int, c: int, y: Cell, x: Cell): int {
    if y == x then n - (Abs(r - n / 2) + Abs(c - n / 2)) else 0
  }

  lemma {:induction false} RowDensityWrite(row: seq<Cell>, n: int, r: int, x: Cell, c0: nat, c: int, y: Cell)
    requires c0 <= |row| && 0 <= r < n && |row| == n && 0 <= c < n
    ensures RowSum(row[c := y], n, r, x, c0) ==
      RowSum(row, n, r, x, c0) + (if c0 <= c then Adds(n, r, c, y, x) - Adds(n, r, c, row[c], x) else 0)
    decreases |row| - c0
  {
    if c0 < |row| {
      var row' := row[c := y];
      RowDensityWrite(row, n, r, x, c0 + 1, c, y);
      assert RowSum(row', n, r, x, c0) == Adds(n, r, c0, row'[c0], x) + RowSum(row', n, r, x, c0 + 1);
      assert RowSum(row, n, r, x, c0) == Adds(n, r, c0, row[c0], x) + RowSum(row, n, r, x, c0 + 1);
    }
  }

  lemma WriteSquare(b: Board, r: int, c: int, y: Cell)
    requires Square(b) && 0 <= r < |b| && 0 <= c < |b|
    ensures Square(b[r := b[r][c := y]])
  {
    var b' := b[r := b[r][c := y]];
    forall i | 0 <= i < |b'| ensures |b'[i]| == |b'| {
    }
  }

  lemma {:induction false} RowsDensityWrite(b: Board, x: Cell, r0: nat, r: int, c: int, y: Cell)
    requires Square(b) && r0 <= |b| && 0 <= r < |b| && 0 <= c < |b|
    ensures Square(b[r := b[r][c := y]])
    ensures RowsSum(b[r := b[r][c := y]], x, r0) ==
      RowsSum(b, x, r0) + (if r0 <= r then Adds(|b|, r, c, y, x) - Adds(|b|, r, c, b[r][c], x) else 0)
    decreases |b| - r0
  {
    WriteSquare(b, r, c, y);
    var b' := b[r := b[r][c := y]];
    if r0 < |b| {
      RowsDensityWrite(b, x, r0 + 1, r, c, y);
      assert RowsSum(b', x, r0) == RowSum(b'[r0], |b|, r0, x, 0) + RowsSum(b', x, r0 + 1);
      assert RowsSum(b, x, r0) == RowSum(b[r0], |b|, r0, x, 0) + RowsSum(b, x, r0 + 1);
      if r0 == r {
        RowDensityWrite(b[r], |b|, r, x, 0, c, y);
      } else {
        assert b'[r0] == b[r0];
      }
    }
  }

  /**
   * Writing y over the cell (r, c) changes the density by what y adds
   * there minus what the old content added: the density is the sum, over
   * the cells holding the symbol, of N minus their distance to the centre.
   */
  lemma DensityWrite(b: Board, x: Cell, r: int, c: int, y: Cell)
    requires Square(b) && 0 <= r < |b| && 0 <= c < |b|
    ensures Square(b[r := b[r][c := y]])
    ensures CenterDensity(b[r := b[r][c := y]], x) == CenterDensity(b, x) + Adds(|b|, r, c, y, x) - Adds(|b|, r, c, b[r][c], x)
  {
    RowsDensityWrite(b, x, 0, r, c, y);
    assert b[0..] == b;
    assert b[r := b[r][c := y]][0..] == b[r := b[r][c := y]];
  }

  // ------------------------------------------------- colour symmetry

  /** The cell with X and O exchanged. */
  function SwapCell(y: Cell): Cell {
    match y
    case Empty => Empty
    case Mark(q) => Mark(Opponent(q))
  }

  /** The board with X and O exchanged. */
  function Swap(b: Board): (s: Board)
    ensures |s| == |b| && forall i :: 0 <= i < |b| ==> |s[i]| == |b[i]|
    ensures forall i, j :: 0 <= i < |b| && 0 <= j < |b[i]| ==> s[i][j] == SwapCell(b[i][j])
  {
    seq(|b|, i requires 0 <= i < |b| => seq(|b[i]|, j requires 0 <= j < |b[i]| => SwapCell(b[i][j])))
  }

  lemma SwapSquare(b: Board)
    requires Square(b)
    ensures Square(Swap(b))
  {
  }

  lemma SwapSame(y: Cell, x: Cell)
    ensures SwapCell(y) == SwapCell(x) <==> y == x
  {
    if y.Mark? && x.Mark? {
      assert Opponent(Opponent(y.p)) == y.p && Opponent(Opponent(x.p)) == x.p;
    }
  }

  lemma {:induction false} ScanSame(s: seq<Cell>, t: seq<Cell>, x: Cell, y: Cell, i: nat, count: nat, best: nat)
    requires |s| == |t| && i <= |s| && forall k :: 0 <= k < |s| ==> (s[k] == x <==> t[k] == y)
    ensures Scan(s, x, i, count, best) == Scan(t, y, i, count, best)
    decreases |s| - i
  {
    if i < |s| {
      var count' := if s[i] == x then count + 1 else 0;
      ScanSame(s, t, x, y, i + 1, count', Max(best, count'));
    }
  }

  lemma {:induction false} CountSame(s: seq<Cell>, t: seq<Cell>, x: Cell, y: Cell)
    requires |s| == |t| && forall k :: 0 <= k < |s| ==> (s[k] == x <==> t[k] == y)
    ensures multiset(s)[x] == multiset(t)[y]
  {
    if |s| > 0 {
      assert s == [s[0]] + s[1..] && t == [t[0]] + t[1..];
      CountSame(s[1..], t[1..], x, y);
    }
  }

  /** The cells of a line of the swapped board are the line's cells swapped. */
  lemma SwapLine(b: Board, l: Line, x: Cell)
    requires Square(b) && ValidLine(|b|, l)
    ensures Square(Swap(b))
    ensures forall k :: 0 <= k < |b| ==> (LineCells(b, l)[k] == x <==> LineCells(Swap(b), l)[k] == SwapCell(x))
  {
    forall k | 0 <= k < |b| ensures LineCells(b, l)[k] == x <==> LineCells(Swap(b), l)[k] == SwapCell(x) {
      SwapSame(LineCells(b, l)[k], x);
    }
  }

  lemma {:induction false} MaxRunSwap(b: Board, x: Cell, ls: seq<Line>)
    requires Square(b) && forall l :: l in ls ==> ValidLine(|b|, l)
    ensures Square(Swap(b)) && MaxRunOver(Swap(b), SwapCell(x), ls) == MaxRunOver(b, x, ls)
  {
    SwapSquare(b);
    if |ls| > 0 {
      assert forall l :: l in ls[1..] ==> l in ls;
      MaxRunSwap(b, x, ls[1..]);
      SwapLine(b, ls[0], x);
      ScanSame(LineCells(b, ls[0]), LineCells(Swap(b), ls[0]), x, SwapCell(x), 0, 0, 0);
    }
  }

  lemma {:induction false} MetricsSwap(b: Board, p: Player, ls: seq<Line>)
    requires Square(b) && forall l :: l in ls ==> ValidLine(|b|, l)
    ensures Square(Swap(b)) && MetricsOver(Swap(b), Opponent(p), ls) == MetricsOver(b, p, ls)
  {
    SwapSquare(b);
    if |ls| > 0 {
      assert forall l :: l in ls[1..] ==> l in ls;
      MetricsSwap(b, p, ls[1..]);
      LineMetricsSwap(b, p, ls[0]);
      var m, m' := MetricsOver(b, p, ls), MetricsOver(Swap(b), Opponent(p), ls);
      assert m.threats == m'.threats && m.forks == m'.forks && m.disruption == m'.disruption;
    }
  }

  lemma LineMetricsSwap(b: Board, p: Player, l: Line)
    requires Square(b) && ValidLine(|b|, l)
    ensures Square(Swap(b)) && LineMetrics(Swap(b), Opponent(p), l) == LineMetrics(b, p, l)
  {
    LineCountSwap(b, p, l);
    assert Opponent(Opponent(p)) == p;
  }

  /** A line of the swapped board holds as many of the other mark as the line held of p's, and the reverse. */
  lemma LineCountSwap(b: Board, p: Player, l: Line)
    requires Square(b) && ValidLine(|b|, l)
    ensures Square(Swap(b))
    ensures multiset(LineCells(Swap(b), l))[Mark(Opponent(p))] == multiset(LineCells(b, l))[Mark(p)]
    ensures multiset(LineCells(Swap(b), l))[Mark(p)] == multiset(LineCells(b, l))[Mark(Opponent(p))]
  {
    var s, t := LineCells(b, l), LineCells(Swap(b), l);
    SwapLine(b, l, Mark(p));
    SwapLine(b, l, Mark(Opponent(p)));
    assert Opponent(Opponent(p)) == p;
    CountSame(s, t, Mark(p), Mark(Opponent(p)));
    CountSame(s, t, Mark(Opponent(p)), Mark(p));
  }

  lemma {:induction false} RowDensitySwap(row: seq<Cell>, n: int, r: int, x: Cell, c0: nat)
    requires c0 <= |row| && 0 <= r < n && |row| == n
    ensures RowSum(seq(|row|, j requires 0 <= j < |row| => SwapCell(row[j])), n, r, SwapCell(x), c0) == RowSum(row, n, r, x, c0)
    decreases |row| - c0
  {
    if c0 < |row| {
      RowDensitySwap(row, n, r, x, c0 + 1);
      SwapSame(row[c0], x);
    }
  }

  lemma {:induction false} RowsDensitySwap(b: Board, x: Cell, r0: nat)
    requires Square(b) && r0 <= |b|
    ensures Square(Swap(b)) && RowsSum(Swap(b), SwapCell(x), r0) == RowsSum(b, x, r0)
    decreases |b| - r0
  {
    SwapSquare(b);
    if r0 < |b| {
      RowsDensitySwap(b, x, r0 + 1);
      RowDensitySwap(b[r0], |b|, r0, x, 0);
      assert Swap(b)[r0] == seq(|b[r0]|, j requires 0 <= j < |b[r0]| => SwapCell(b[r0][j]));
    }
  }

  /**
   * The evaluation does not depend on which symbol is which: exchanging
   * X and O on the board and evaluating for the other player gives the
   * same score.
   */
  lemma EvaluateSwap(b: Board, p: Player)
    requires Square(b)
    ensures Square(Swap(b)) && Evaluate(Swap(b), Opponent(p)) == Evaluate(b, p)
  {
    var o := Opponent(p);
    assert Opponent(o) == p;
    PartsSwap(b, p);
    PartsSwap(b, o);
  }

  /** Each ingredient of the evaluation for p on the board is that for the other player on the swapped board. */
  lemma PartsSwap(b: Board, p: Player)
    requires Square(b)
    ensures Square(Swap(b))
    ensures MaxContiguous(Swap(b), Mark(Opponent(p))) == MaxContiguous(b, Mark(p))
    ensures CountMetrics(Swap(b), Opponent(p)) == CountMetrics(b, p)
    ensures CenterDensity(Swap(b), Mark(Opponent(p))) == CenterDensity(b, Mark(p))
  {
    MaxRunSwap(b, Mark(p), GameLines(|b|));
    MetricsSwap(b, p, GameLines(|b|));
    RowsDensitySwap(b, Mark(p), 0);
    assert b[0..] == b && Swap(b)[0..] == Swap(b);
  }

  /** The default weights of 401243133.py's evaluate. */
  const MaxLineWeight := 30
  const ThreatWeight := 100
  const CenterWeight := 2
  const ForkWeight := 20
  const DisruptWeight := 5

  /**
   * evaluate of 401243133.py with its default weights: the opponent's
   * longest line, threats and forks weigh three times the player's own.
   */
  function Evaluate(b: Board, p: Player): int
    requires Square(b)
  {
    var o := Opponent(p);
    var mp, mo := CountMetrics(b, p), CountMetrics(b, o);
    MaxLineWeight * (MaxContiguous(b, Mark(p)) - 3 * MaxContiguous(b, Mark(o))) +
    ThreatWeight * (mp.threats - 3 * mo.threats) +
    CenterWeight * (CenterDensity(b, Mark(p)) - CenterDensity(b, Mark(o))) +
    ForkWeight * (mp.forks - 3 * mo.forks) +
    DisruptWeight * (mp.disruption - mo.disruption)
  }

  lemma {:induction false} RowCountAtMost(row: seq<Cell>, x: Cell)
    ensures multiset(row)[x] <= |row|
  {
    if |row| > 0 {
      assert row == [row[0]] + row[1..];
      RowCountAtMost(row[1..], x);
    }
  }

  /** A symbol occupies at most all |b| * w cells of a board of width w. */
  lemma {:induction false} CountAtMost(b: Board, w: int, x: Cell)
    requires forall i :: 0 <= i < |b| ==> |b[i]| == w
    ensures BoardMs(b)[x] <= |b| * w
  {
    if |b| > 0 {
      RowCountAtMost(b[0], x);
      CountAtMost(b[1..], w, x);
      var k := |b| - 1;
      assert |b[1..]| == k;
      MulSuccLeft(k, w);
      assert BoardMs(b)[x] == multiset(b[0])[x] + BoardMs(b[1..])[x];
    }
  }

  lemma DensityAtMost(b: Board, x: Cell)
    requires Square(b) && |b| <= 5
    ensures CenterDensity(b, x) <= 125
  {
    var n := |b|;
    var k := BoardMs(b)[x];
    CountAtMost(b, n, x);
    assert CenterDensity(b, x) <= n * k;
    MulLe(n, 5, k);
    MulLe(n, 5, n);
  }

  lemma MulLe(a: int, b: int, c: int)
    requires 0 <= a <= b && 0 <= c
    ensures a * c <= b * c
  {
  }

  /**
   * On boards of size 3..5 the weighted evaluation lies in [-5080, 1900]:
   * strictly between the loss score (at most -100000) and the win score
   * (at least 10000) of alpha_beta, so a decided position always outranks
   * every evaluated one.
   */
  lemma EvaluateBounded(b: Board, p: Player)
    requires Square(b) && 3 <= |b| <= 5
    ensures -5080 <= Evaluate(b, p) <= 1900
  {
    DensityAtMost(b, Mark(p));
    DensityAtMost(b, Mark(Opponent(p)));
  }
}
