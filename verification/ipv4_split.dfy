/**
 * Counting the ways to cut a string of decimal digits into the four parts of
 * a dotted IPv4 address (2/1.py).
 *
 * A part is accepted by `Check`, which is exactly the `dec-octet` rule of
 * section 3.2.2 of RFC 3986: a decimal number from 0 to 255 written without
 * leading zeros.
 */
module Ipv4Split {

  import opened Wrappers

  predicate IsDigit(c: char) {
    '0' <= c <= '9'
  }

  predicate AllDigits(s: string) {
    forall i :: 0 <= i < |s| ==> IsDigit(s[i])
  }

  function DigitValue(c: char): nat
    requires IsDigit(c)
  {
    (c as int) - ('0' as int)
  }

  /** The value Python's `int` gives a string of decimal digits. */
  function Value(s: string): nat
    requires AllDigits(s)
  {
    if |s| == 0 then 0 else Value(s[..|s| - 1]) * 10 + DigitValue(s[|s| - 1])
  }

  /** The `dec-octet` production of section 3.2.2 of RFC 3986, alternative by alternative. */
  predicate DecOctet(s: string) {
    || (|s| == 1 && IsDigit(s[0]))
    || (|s| == 2 && '1' <= s[0] <= '9' && IsDigit(s[1]))
    || (|s| == 3 && s[0] == '1' && IsDigit(s[1]) && IsDigit(s[2]))
    || (|s| == 3 && s[0] == '2' && '0' <= s[1] <= '4' && IsDigit(s[2]))
    || (|s| == 3 && s[0] == '2' && s[1] == '5' && '0' <= s[2] <= '5')
  }

  /** Python's `int` would raise on an empty or non-digit part; `Count` never passes one. */
  function Check(st: string): (ok: bool)
    requires |st| > 0 && AllDigits(st)
    ensures ok <==> DecOctet(st)
  {
    CheckIsDecOctet(st);
    if |st| > 1 && st[0] == '0' then false
    else if Value(st) >= 256 then false
    else true
  }

  lemma ValueOfPrefix(s: string, k: nat)
    requires AllDigits(s) && 0 < k <= |s|
    ensures AllDigits(s[..k]) && AllDigits(s[..k - 1])
    ensures Value(s[..k]) == Value(s[..k - 1]) * 10 + DigitValue(s[k - 1])
  {
    assert s[..k][..k - 1] == s[..k - 1];
  }

  /** A digit string of length at least two that does not start with '0' is at least 10^(|s|-1). */
  lemma {:induction false} ValueLowerBound(s: string)
    requires AllDigits(s) && |s| >= 2 && s[0] != '0'
    ensures Value(s) >= Pow10(|s| - 1)
  {
    ValueOfPrefix(s, |s|);
    if |s| == 2 {
      ValueOfPrefix(s, 1);
      assert s[..0] == [];
    } else {
      var t := s[..|s| - 1];
      assert t[0] == s[0];
      ValueLowerBound(t);
    }
  }

  function Pow10(k: nat): nat {
    if k == 0 then 1 else 10 * Pow10(k - 1)
  }

  lemma {:induction false} Pow10AtLeast(k: nat)
    requires k >= 3
    ensures Pow10(k) >= 1000
  {
    if k > 3 {
      Pow10AtLeast(k - 1);
    }
  }

  lemma ValueOfThree(st: string)
    requires AllDigits(st) && |st| == 3
    ensures Value(st) == 100 * DigitValue(st[0]) + 10 * DigitValue(st[1]) + DigitValue(st[2])
  {
    ValueOfPrefix(st, 3);
    ValueOfPrefix(st, 2);
    ValueOfPrefix(st, 1);
    assert st[..0] == [];
    assert st[..3] == st;
  }

  lemma ThreeDigitsBelow256(a: char, b: char, c: char)
    requires IsDigit(a) && IsDigit(b) && IsDigit(c)
    ensures 100 * DigitValue(a) + 10 * DigitValue(b) + DigitValue(c) < 256 <==>
      (a == '0' || a == '1' || (a == '2' && ('0' <= b <= '4' || (b == '5' && '0' <= c <= '5'))))
  {
  }

  lemma CheckIsDecOctet(st: string)
    requires |st| > 0 && AllDigits(st)
    ensures (!(|st| > 1 && st[0] == '0') && Value(st) < 256) <==> DecOctet(st)
  {
    if |st| == 1 {
      ValueOfPrefix(st, 1);
      assert st[..0] == [];
      assert st[..1] == st;
    } else if |st| == 2 {
      ValueOfPrefix(st, 2);
      ValueOfPrefix(st, 1);
      assert st[..0] == [];
      assert st[..2] == st;
    } else if |st| == 3 {
      ValueOfThree(st);
      ThreeDigitsBelow256(st[0], st[1], st[2]);
    } else if st[0] != '0' {
      ValueLowerBound(st);
      Pow10AtLeast(|st| - 1);
    }
  }

  /** The cut positions `(i, j, k)` splitting `st` into `st[..i]`, `st[i..j]`, `st[j..k]`, `st[k..]`. */
  ghost predicate IsCut(st: string, c: (int, int, int))
    requires AllDigits(st)
  {
    var (i, j, k) := c;
    && 1 <= i <= 3 && i + 1 <= j <= i + 3 && j + 1 <= k <= j + 3 && k < |st|
    && DecOctet(st[..i]) && DecOctet(st[i..j]) && DecOctet(st[j..k]) && DecOctet(st[k..])
  }

  /** Every cut position with parts of the lengths the loops try: 1..3, 1..3, 1..3 and the rest. */
  ghost function Box(): set<(int, int, int)> {
    set i, j, k | 1 <= i <= 3 && i + 1 <= j <= i + 3 && j + 1 <= k <= j + 3 :: (i, j, k)
  }

  /** Every cut whose four parts are all `dec-octet`s. */
  ghost function Cuts(st: string): set<(int, int, int)>
    requires AllDigits(st)
  {
    set c | c in Box() && IsCut(st, c)
  }

  ghost predicate Below(c: (int, int, int), i: int, j: int, k: int) {
    c.0 < i || (c.0 == i && (c.1 < j || (c.1 == j && c.2 < k)))
  }

  /** The cuts that precede `(i, j, k)` in the loops' lexicographic order. */
  ghost function Processed(st: string, i: int, j: int, k: int): set<(int, int, int)>
    requires AllDigits(st)
  {
    set c | c in Cuts(st) && Below(c, i, j, k)
  }

  /** Moving the position `(i, j, k)` past cuts that are not in `Cuts` leaves `Processed` unchanged. */
  lemma ProcessedSame(st: string, i: int, j: int, k: int, i': int, j': int, k': int)
    requires AllDigits(st)
    requires forall c :: c in Cuts(st) ==> (Below(c, i, j, k) <==> Below(c, i', j', k'))
    ensures Processed(st, i, j, k) == Processed(st, i', j', k')
  {
  }

  lemma ProcessedStep(st: string, i: int, j: int, k: int)
    requires AllDigits(st) && (i, j, k) in Cuts(st)
    ensures Processed(st, i, j, k + 1) == Processed(st, i, j, k) + {(i, j, k)}
    ensures (i, j, k) !in Processed(st, i, j, k)
  {
  }

  lemma SecondStart(st: string, i: int)
    requires AllDigits(st)
    ensures Processed(st, i, i + 1, 0) == Processed(st, i, 0, 0)
  {
    ProcessedSame(st, i, i + 1, 0, i, 0, 0);
  }

  lemma ThirdStart(st: string, i: int, j: int)
    requires AllDigits(st)
    ensures Processed(st, i, j, j + 1) == Processed(st, i, j, 0)
  {
    ProcessedSame(st, i, j, j + 1, i, j, 0);
  }

  lemma ThirdEnd(st: string, i: int, j: int, k: int)
    requires AllDigits(st) && j + 1 <= k && k >= Min(j + 4, |st|)
    ensures Processed(st, i, j + 1, 0) == Processed(st, i, j, k)
  {
    ProcessedSame(st, i, j + 1, 0, i, j, k);
  }

  lemma SecondEnd(st: string, i: int, j: int)
    requires AllDigits(st) && i + 1 <= j && j >= Min(i + 4, |st| - 1)
    ensures Processed(st, i + 1, 0, 0) == Processed(st, i, j, 0)
  {
    ProcessedSame(st, i + 1, 0, 0, i, j, 0);
  }

  lemma FirstEnd(st: string, i: int)
    requires AllDigits(st) && 1 <= i && i >= Min(4, |st| - 2)
    ensures Cuts(st) == Processed(st, i, 0, 0)
  {
    ProcessedSame(st, 4, 0, 0, i, 0, 0);
    assert Cuts(st) == Processed(st, 4, 0, 0);
  }

  lemma CutsAreDecOctets(st: string)
    requires AllDigits(st)
    ensures forall c :: c in Cuts(st) ==> DecOctet(st[..c.0]) && DecOctet(st[c.0..c.1]) && DecOctet(st[c.1..c.2]) && DecOctet(st[c.2..])
  {
  }

  // ------------------------------------------------------------- tallies

  /** The cuts `(i, j, k')` with `k <= k' < min(j + 4, |st|)`: what the inner loop has still to count. */
  ghost function ThirdLeft(st: string, i: int, j: int, k: int): nat
    requires AllDigits(st)
    decreases j + 4 - k
  {
    if k >= Min(j + 4, |st|) then 0
    else (if IsCut(st, (i, j, k)) then 1 else 0) + ThirdLeft(st, i, j, k + 1)
  }

  /** The cuts `(i, j', k)` with `j <= j' < min(i + 4, |st| - 1)`: what the middle loop has still to count. */
  ghost function SecondLeft(st: string, i: int, j: int): nat
    requires AllDigits(st)
    decreases i + 4 - j
  {
    if j >= Min(i + 4, |st| - 1) then 0
    else ThirdLeft(st, i, j, j + 1) + SecondLeft(st, i, j + 1)
  }

  /** The cuts `(i', j, k)` with `i <= i' < min(4, |st| - 2)`: what the outer loop has still to count. */
  ghost function FirstLeft(st: string, i: int): nat
    requires AllDigits(st)
    decreases 4 - i
  {
    if i >= Min(4, |st| - 2) then 0
    else SecondLeft(st, i, i + 1) + FirstLeft(st, i + 1)
  }

  /** The inner tally from `k` on is the number of cuts between `(i, j, k)` and `(i, j + 1, 0)`. */
  lemma {:induction false} ThirdLeftCounts(st: string, i: int, j: int, k: int)
    requires AllDigits(st) && 1 <= i < j && j + 1 <= k <= j + 4
    ensures |Processed(st, i, j, k)| + ThirdLeft(st, i, j, k) == |Processed(st, i, j + 1, 0)|
    decreases j + 4 - k
  {
    if k >= Min(j + 4, |st|) {
      ThirdEnd(st, i, j, k);
    } else {
      ProcessedNext(st, i, j, k);
      ThirdLeftCounts(st, i, j, k + 1);
    }
  }

  /** Moving past `(i, j, k)` adds it to the processed cuts exactly when it is a cut. */
  lemma ProcessedNext(st: string, i: int, j: int, k: int)
    requires AllDigits(st) && 1 <= i < j < k < |st|
    ensures |Processed(st, i, j, k + 1)| == |Processed(st, i, j, k)| + (if IsCut(st, (i, j, k)) then 1 else 0)
  {
    if IsCut(st, (i, j, k)) {
      assert (i, j, k) in Box();
      ProcessedStep(st, i, j, k);
    } else {
      ProcessedSkip(st, i, j, k);
    }
  }

  lemma ProcessedSkip(st: string, i: int, j: int, k: int)
    requires AllDigits(st) && (i, j, k) !in Cuts(st)
    ensures Processed(st, i, j, k + 1) == Processed(st, i, j, k)
  {
    ProcessedSame(st, i, j, k + 1, i, j, k);
  }

  /** The middle tally from `j` on is the number of cuts between `(i, j, 0)` and `(i + 1, 0, 0)`. */
  lemma {:induction false} SecondLeftCounts(st: string, i: int, j: int)
    requires AllDigits(st) && 1 <= i && i + 1 <= j <= i + 4
    ensures |Processed(st, i, j, 0)| + SecondLeft(st, i, j) == |Processed(st, i + 1, 0, 0)|
    decreases i + 4 - j
  {
    if j >= Min(i + 4, |st| - 1) {
      SecondEnd(st, i, j);
    } else {
      SecondStep(st, i, j);
      SecondLeftCounts(st, i, j + 1);
    }
  }

  /** One round of the middle loop moves past every cut `(i, j, k)`. */
  lemma SecondStep(st: string, i: int, j: int)
    requires AllDigits(st) && 1 <= i < j
    ensures |Processed(st, i, j + 1, 0)| == |Processed(st, i, j, 0)| + ThirdLeft(st, i, j, j + 1)
  {
    ThirdStart(st, i, j);
    ThirdLeftCounts(st, i, j, j + 1);
  }

  /** The outer tally from `i` on is the number of cuts from `(i, 0, 0)` on. */
  lemma {:induction false} FirstLeftCounts(st: string, i: int)
    requires AllDigits(st) && 1 <= i <= 4
    ensures |Processed(st, i, 0, 0)| + FirstLeft(st, i) == |Cuts(st)|
    decreases 4 - i
  {
    if i >= Min(4, |st| - 2) {
      FirstEnd(st, i);
    } else {
      FirstStep(st, i);
      FirstLeftCounts(st, i + 1);
    }
  }

  /** One round of the outer loop moves past every cut `(i, j, k)`. */
  lemma FirstStep(st: string, i: int)
    requires AllDigits(st) && 1 <= i
    ensures |Processed(st, i + 1, 0, 0)| == |Processed(st, i, 0, 0)| + SecondLeft(st, i, i + 1)
  {
    SecondStart(st, i);
    SecondLeftCounts(st, i, i + 1);
  }

  /** No cut has a rejected second part. */
  lemma {:induction false} ThirdLeftRejected(st: string, i: int, j: int, k: int)
    requires AllDigits(st) && 0 <= i < j <= |st| && !DecOctet(st[i..j])
    ensures ThirdLeft(st, i, j, k) == 0
    decreases j + 4 - k
  {
    if k < Min(j + 4, |st|) {
      assert !IsCut(st, (i, j, k));
      ThirdLeftRejected(st, i, j, k + 1);
    }
  }

  /** No cut has a rejected first part. */
  lemma {:induction false} SecondLeftRejected(st: string, i: int, j: int)
    requires AllDigits(st) && 1 <= i <= |st| && !DecOctet(st[..i])
    ensures SecondLeft(st, i, j) == 0
    decreases i + 4 - j
  {
    if j < Min(i + 4, |st| - 1) {
      FirstRejectedThird(st, i, j, j + 1);
      SecondLeftRejected(st, i, j + 1);
    }
  }

  /** No cut has a rejected first part, whatever its second. */
  lemma {:induction false} FirstRejectedThird(st: string, i: int, j: int, k: int)
    requires AllDigits(st) && 1 <= i <= |st| && !DecOctet(st[..i])
    ensures ThirdLeft(st, i, j, k) == 0
    decreases j + 4 - k
  {
    if k < Min(j + 4, |st|) {
      assert !IsCut(st, (i, j, k));
      FirstRejectedThird(st, i, j, k + 1);
    }
  }

  /** Before the outer loop nothing has been counted. */
  lemma NoneBeforeStart(st: string)
    requires AllDigits(st)
    ensures |Processed(st, 1, 0, 0)| == 0
  {
    assert forall c :: c in Box() ==> !Below(c, 1, 0, 0);
  }

  // --------------------------------------------------------------- loops

  /**
   * The outer loop of `count` over the length `i` of the first part: the result is
   * the number of cuts whose four parts are all `dec-octet`s, so at most 3 * 3 * 3,
   * and none for fewer than four digits.
   */
  method Count(st: string) returns (ans: nat)
    requires AllDigits(st)
    ensures ans == |Cuts(st)|
    ensures forall c :: c in Cuts(st) ==> DecOctet(st[..c.0]) && DecOctet(st[c.0..c.1]) && DecOctet(st[c.1..c.2]) && DecOctet(st[c.2..])
    ensures ans <= 27
    ensures |st| < 4 ==> ans == 0
  {
    var n := |st|;
    ans := 0;
    var i := 1;
    while i < Min(4, n - 2)
      invariant 1 <= i <= 4
      invariant ans + FirstLeft(st, i) == FirstLeft(st, 1)
      invariant ans <= 9 * (i - 1)
    {
      var m := CountFirst(st, i);
      ans := ans + m;
      i := i + 1;
    }
    AllCounted(st);
    CutsAreDecOctets(st);
  }

  /** The outer tally from the start is the number of cuts. */
  lemma AllCounted(st: string)
    requires AllDigits(st)
    ensures FirstLeft(st, 1) == |Cuts(st)|
  {
    FirstLeftCounts(st, 1);
    NoneBeforeStart(st);
  }

  /** The body of the outer loop: the middle loop runs only for an accepted first part `st[..i]`. */
  method CountFirst(st: string, i: int) returns (m: nat)
    requires AllDigits(st) && 1 <= i <= 3 && i < |st| - 2
    ensures m == SecondLeft(st, i, i + 1)
    ensures m <= 9
  {
    var first := st[..i];
    if !Check(first) {
      SecondLeftRejected(st, i, i + 1);
      m := 0;
    } else {
      m := CountSecond(st, i);
    }
  }

  /** The middle loop of `count`, over the end `j` of the second part, for an accepted first part `st[..i]`. */
  method CountSecond(st: string, i: int) returns (m: nat)
    requires AllDigits(st) && 1 <= i <= 3 && i < |st| - 2 && Check(st[..i])
    ensures m == SecondLeft(st, i, i + 1)
    ensures m <= 9
  {
    var n := |st|;
    m := 0;
    var j := i + 1;
    while j < Min(i + 4, n - 1)
      invariant i + 1 <= j <= i + 4
      invariant m + SecondLeft(st, i, j) == SecondLeft(st, i, i + 1)
      invariant m <= 3 * (j - i - 1)
    {
      var m' := CountRound(st, i, j);
      m := m + m';
      j := j + 1;
    }
  }

  /** The body of the middle loop: the third loop runs only for an accepted second part `st[i..j]`. */
  method CountRound(st: string, i: int, j: int) returns (m: nat)
    requires AllDigits(st) && 1 <= i <= 3 && i + 1 <= j <= i + 3 && j < |st| - 1 && Check(st[..i])
    ensures m == ThirdLeft(st, i, j, j + 1)
    ensures m <= 3
  {
    var second := st[i..j];
    if !Check(second) {
      ThirdLeftRejected(st, i, j, j + 1);
      m := 0;
    } else {
      m := CountThird(st, i, j);
    }
  }

  /** The inner loop of `count`, over the end `k` of the third part, for accepted parts `st[..i]` and `st[i..j]`. */
  method CountThird(st: string, i: int, j: int) returns (m: nat)
    requires AllDigits(st) && 1 <= i <= 3 && i + 1 <= j <= i + 3 && j < |st| - 1
    requires Check(st[..i]) && Check(st[i..j])
    ensures m == ThirdLeft(st, i, j, j + 1)
    ensures m <= 3
  {
    var n := |st|;
    m := 0;
    var k := j + 1;
    while k < Min(j + 4, n)
      invariant j + 1 <= k <= j + 4
      invariant m + ThirdLeft(st, i, j, k) == ThirdLeft(st, i, j, j + 1)
      invariant m <= k - j - 1
    {
      var c := CountCut(st, i, j, k);
      m := m + c;
      k := k + 1;
    }
  }

  /** The body of the inner loop: one exactly when the last two parts `st[j..k]` and `st[k..]` are accepted too. */
  method CountCut(st: string, i: int, j: int, k: int) returns (c: nat)
    requires AllDigits(st)
    requires 1 <= i <= 3 && i + 1 <= j <= i + 3 && j + 1 <= k <= j + 3 && k < |st|
    requires Check(st[..i]) && Check(st[i..j])
    ensures c <= 1
    ensures c == 1 <==> IsCut(st, (i, j, k))
  {
    var third := st[j..k];
    var fourth := st[k..];
    if Check(third) && Check(fourth) {
      c := 1;
    } else {
      assert !IsCut(st, (i, j, k));
      c := 0;
    }
  }
}
