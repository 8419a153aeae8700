/** Sums of integer and real sequences, and the pointwise facts about them
    that the width allocator's budget proofs rest on. */
module Sums {

  function SumInt(s: seq<int>): (total: int)
  {
    if s == [] then 0 else SumInt(s[..|s| - 1]) + s[|s| - 1]
  }

  function SumReal(s: seq<real>): (total: real)
  {
    if s == [] then 0.0 else SumReal(s[..|s| - 1]) + s[|s| - 1]
  }

  /** A sum whose terms are pointwise the sum of two others is their sum. */
  lemma {:induction false} SumIntAdd(a: seq<int>, b: seq<int>, c: seq<int>)
    requires |a| == |b| == |c|
    requires forall i :: 0 <= i < |c| ==> c[i] == a[i] + b[i]
    ensures SumInt(c) == SumInt(a) + SumInt(b)
  {
    if c != [] {
      var k := |c| - 1;
      SumIntAdd(a[..k], b[..k], c[..k]);
    }
  }

  lemma {:induction false} SumRealAdd(a: seq<real>, b: seq<real>, c: seq<real>)
    requires |a| == |b| == |c|
    requires forall i :: 0 <= i < |c| ==> c[i] == a[i] + b[i]
    ensures SumReal(c) == SumReal(a) + SumReal(b)
  {
    if c != [] {
      var k := |c| - 1;
      SumRealAdd(a[..k], b[..k], c[..k]);
    }
  }

  /** Sums are monotone in their terms. */
  lemma {:induction false} SumRealLe(a: seq<real>, b: seq<real>)
    requires |a| == |b|
    requires forall i :: 0 <= i < |a| ==> a[i] <= b[i]
    ensures SumReal(a) <= SumReal(b)
  {
    if a != [] {
      var k := |a| - 1;
      SumRealLe(a[..k], b[..k]);
    }
  }

  /** Scaling every term scales the sum. */
  lemma {:induction false} SumRealScale(x: real, a: seq<real>, b: seq<real>)
    requires |a| == |b|
    requires forall i :: 0 <= i < |a| ==> b[i] == x * a[i]
    ensures SumReal(b) == x * SumReal(a)
  {
    if a != [] {
      var k := |a| - 1;
      SumRealScale(x, a[..k], b[..k]);
    }
  }

  /** A sum of non-negative terms is at least each of its terms. */
  lemma {:induction false} SumRealBoundsTerm(a: seq<real>, j: int)
    requires forall i :: 0 <= i < |a| ==> a[i] >= 0.0
    requires 0 <= j < |a|
    ensures SumReal(a) >= a[j]
    ensures SumReal(a) >= 0.0
  {
    var k := |a| - 1;
    SumRealNonNegative(a[..k]);
    if j < k {
      SumRealBoundsTerm(a[..k], j);
    }
  }

  lemma {:induction false} SumRealNonNegative(a: seq<real>)
    requires forall i :: 0 <= i < |a| ==> a[i] >= 0.0
    ensures SumReal(a) >= 0.0
  {
    if a != [] {
      SumRealNonNegative(a[..|a| - 1]);
    }
  }

  /** Summing after the cast to `real` agrees with casting the integer sum. */
  lemma {:induction false} SumIntAsReal(a: seq<int>, b: seq<real>)
    requires |a| == |b|
    requires forall i :: 0 <= i < |a| ==> b[i] == a[i] as real
    ensures SumReal(b) == SumInt(a) as real
  {
    if a != [] {
      var k := |a| - 1;
      SumIntAsReal(a[..k], b[..k]);
    }
  }

  /** A sum of zeroes is zero. */
  lemma {:induction false} SumIntZero(a: seq<int>)
    requires forall i :: 0 <= i < |a| ==> a[i] == 0
    ensures SumInt(a) == 0
  {
    if a != [] {
      SumIntZero(a[..|a| - 1]);
    }
  }

  lemma {:induction false} SumRealZero(a: seq<real>)
    requires forall i :: 0 <= i < |a| ==> a[i] == 0.0
    ensures SumReal(a) == 0.0
  {
    if a != [] {
      SumRealZero(a[..|a| - 1]);
    }
  }

  lemma {:induction false} SumIntNonNegative(a: seq<int>)
    requires forall i :: 0 <= i < |a| ==> a[i] >= 0
    ensures SumInt(a) >= 0
  {
    if a != [] {
      SumIntNonNegative(a[..|a| - 1]);
    }
  }

  /** A sum of non-negative integers is at least each of its terms. */
  lemma {:induction false} SumIntBoundsTerm(a: seq<int>, j: int)
    requires forall i :: 0 <= i < |a| ==> a[i] >= 0
    requires 0 <= j < |a|
    ensures SumInt(a) >= a[j]
  {
    var k := |a| - 1;
    SumIntNonNegative(a[..k]);
    if j < k {
      SumIntBoundsTerm(a[..k], j);
    }
  }

  lemma SumIntOfThree(a: int, b: int, c: int)
    ensures SumInt([a, b, c]) == a + b + c
  {
    assert [a][..0] == [];
    assert SumInt([a]) == a;
    assert [a, b][..1] == [a];
    assert SumInt([a, b]) == a + b;
    assert [a, b, c][..2] == [a, b];
  }

  lemma SumRealOfThree(a: real, b: real, c: real)
    ensures SumReal([a, b, c]) == a + b + c
  {
    assert [a][..0] == [];
    assert SumReal([a]) == a;
    assert [a, b][..1] == [a];
    assert SumReal([a, b]) == a + b;
    assert [a, b, c][..2] == [a, b];
  }
}
