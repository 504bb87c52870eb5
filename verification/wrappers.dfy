/** Small failure-compatible datatypes shared by every component. */
module Wrappers {

  datatype Option<+T> = None | Some(value: T)

  function Min(a: int, b: int): int {
    if a < b then a else b
  }

  function Max(a: int, b: int): int {
    if a < b then b else a
  }

  function Abs(a: int): nat {
    if a < 0 then -a else a
  }

  /** Some element of a non-empty set: Python's iteration over a set or dict, order unspecified. */
  method Pick<T>(s: set<T>) returns (x: T)
    requires s != {}
    ensures x in s
  {
    x :| x in s;
  }

  /** One more element taken from the untouched part of A. */
  lemma TakeStep<T>(A: set<T>, done: set<T>, c: T)
    requires done <= A && c in A - done
    ensures done + {c} <= A && A - (done + {c}) == (A - done) - {c}
  {
  }

  lemma TakeAll<T>(A: set<T>, done: set<T>)
    requires done <= A && A - done == {}
    ensures done == A
  {
    forall x | x in A ensures x in done {
      assert x !in A - done;
    }
  }

  /** No element occurs twice. */
  predicate NoDup<T(==)>(s: seq<T>) {
    forall i, j :: 0 <= i < j < |s| ==> s[i] != s[j]
  }

  lemma NoDupConcat<T>(a: seq<T>, b: seq<T>)
    requires NoDup(a) && NoDup(b)
    requires forall x :: x in a ==> x !in b
    ensures NoDup(a + b)
  {
    forall i, j | 0 <= i < j < |a + b|
      ensures (a + b)[i] != (a + b)[j]
    {
      if j >= |a| && i < |a| {
        assert (a + b)[i] in a && (a + b)[j] in b;
      }
    }
  }

  /** The elements of `s` other than `x`, in order. */
  function Remove<T(==,!new)>(s: seq<T>, x: T): (r: seq<T>)
    ensures forall y :: y in r <==> y in s && y != x
  {
    if |s| == 0 then []
    else (if s[0] == x then [] else [s[0]]) + Remove(s[1..], x)
  }

  /** The first occurrence of every element of `s`, in order. */
  function Dedup<T(==,!new)>(s: seq<T>): (r: seq<T>)
    ensures forall y :: y in r <==> y in s
    ensures NoDup(r)
  {
    if |s| == 0 then []
    else
      var t := Dedup(s[..|s| - 1]);
      assert s == s[..|s| - 1] + [s[|s| - 1]];
      if s[|s| - 1] in t then t else NoDupConcat(t, [s[|s| - 1]]); t + [s[|s| - 1]]
  }

  /** Chaining two exchanges: whatever `c` gives up for `y`, `r` gains. */
  lemma MsTransfer<T>(r: multiset<T>, b: multiset<T>, c: multiset<T>, c': multiset<T>,
                      y: multiset<T>, x: multiset<T>)
    requires r + c == b + c'
    requires c' + y == c + x
    ensures r + y == b + x
  {
    forall z ensures (r + y)[z] == (b + x)[z] {
      assert (r + c)[z] == (b + c')[z];
      assert (c' + y)[z] == (c + x)[z];
    }
  }

  /** Moving one element across a block of a sequence keeps its multiset. */
  lemma MsSplice<T>(a: seq<T>, mid: seq<T>, c: seq<T>, x: T, y: T)
    ensures multiset(a + [x] + mid + c) + multiset{y} == multiset(a + mid + [y] + c) + multiset{x}
  {
  }

  /** Two balanced equations add up. */
  lemma MsRegroup<T>(r0: multiset<T>, a: multiset<T>, e: multiset<T>, c: multiset<T>,
                     m0: multiset<T>, b: multiset<T>, f: multiset<T>, d: multiset<T>)
    requires a + c == b + d
    requires r0 + e == m0 + f
    ensures (r0 + a) + (e + c) == (m0 + b) + (f + d)
  {
    forall z ensures ((r0 + a) + (e + c))[z] == ((m0 + b) + (f + d))[z] {
      assert (a + c)[z] == (b + d)[z];
      assert (r0 + e)[z] == (m0 + f)[z];
    }
  }

  /** The count of `z` after trading `y` away for `x`. */
  lemma MsExchange<T>(a: multiset<T>, b: multiset<T>, y: T, x: T, z: T)
    requires a + multiset{y} == b + multiset{x}
    ensures a[z] + (if z == y then 1 else 0) == b[z] + (if z == x then 1 else 0)
  {
    assert (a + multiset{y})[z] == (b + multiset{x})[z];
  }
}
