/**
 Finite sums of a natural-number weight over a sequence.

 Every count the error-matching rule takes (how many detail records are
 error-info records, how many of them carry a given reason, how many
 matching pairs two detail lists form) is such a sum. The sum is defined
 by peeling off the LAST element, which is the order in which a loop over
 a growing prefix extends it.
 */
module Sums {

  /** The sum of `f` over the elements of `s`, counting repeated elements repeatedly. */
  function Sum<T>(s: seq<T>, f: T -> nat): nat
  {
    if |s| == 0 then 0 else Sum(s[..|s| - 1], f) + f(s[|s| - 1])
  }

  /** Extending a prefix by one element adds that element's weight. */
  lemma SumPrefix<T>(s: seq<T>, i: nat, f: T -> nat)
    requires i < |s|
    ensures Sum(s[..i + 1], f) == Sum(s[..i], f) + f(s[i])
  {
    assert s[..i + 1][..i] == s[..i];
  }

  /** The sum over one element and over two elements. */
  lemma SumShort<T>(a: T, b: T, f: T -> nat)
    ensures Sum([a], f) == f(a)
    ensures Sum([a, b], f) == f(a) + f(b)
  {
  }

  /** The sum over a concatenation is the sum of the sums. */
  lemma {:induction false} SumConcat<T>(a: seq<T>, b: seq<T>, f: T -> nat)
    ensures Sum(a + b, f) == Sum(a, f) + Sum(b, f)
  {
    if |b| == 0 {
      assert a + b == a;
    } else {
      var b' := b[..|b| - 1];
      assert (a + b)[..|a + b| - 1] == a + b';
      assert (a + b)[|a + b| - 1] == b[|b| - 1];
      SumConcat(a, b', f);
    }
  }

  /** Splitting the sum around position `i`. */
  lemma SumSplit<T>(s: seq<T>, i: nat, f: T -> nat)
    requires i < |s|
    ensures Sum(s, f) == Sum(s[..i], f) + f(s[i]) + Sum(s[i + 1..], f)
  {
    assert s == s[..i] + [s[i]] + s[i + 1..];
    SumConcat(s[..i] + [s[i]], s[i + 1..], f);
    SumConcat(s[..i], [s[i]], f);
    assert [s[i]][..0] == [];
  }

  /** The sum does not depend on the order of the elements: any two
      sequences with the same multiset of elements have the same sum. */
  lemma {:induction false} SumPermutation<T>(a: seq<T>, b: seq<T>, f: T -> nat)
    requires multiset(a) == multiset(b)
    ensures Sum(a, f) == Sum(b, f)
    decreases |a|
  {
    assert |a| == |multiset(a)| == |multiset(b)| == |b|;
    if |a| != 0 {
      var x := a[|a| - 1];
      var a' := a[..|a| - 1];
      assert a == a' + [x];
      assert x in multiset(b);
      var j :| 0 <= j < |b| && b[j] == x;
      var b' := b[..j] + b[j + 1..];
      assert b == b[..j] + [x] + b[j + 1..];
      assert multiset(a') == multiset(a) - multiset{x};
      assert multiset(b') == multiset(b) - multiset{x};
      SumPermutation(a', b', f);
      SumSplit(b, j, f);
      SumConcat(b[..j], b[j + 1..], f);
    }
  }

  /** Two sums are equal when the weights agree position by position,
      even over different sequences and different weight functions. */
  lemma {:induction false} SumIndexwise<T, U>(a: seq<T>, f: T -> nat, b: seq<U>, g: U -> nat)
    requires |a| == |b|
    requires forall i :: 0 <= i < |a| ==> f(a[i]) == g(b[i])
    ensures Sum(a, f) == Sum(b, g)
  {
    if |a| != 0 {
      var n := |a| - 1;
      assert forall i :: 0 <= i < n ==> a[..n][i] == a[i] && b[..n][i] == b[i];
      SumIndexwise(a[..n], f, b[..n], g);
    }
  }

  /** A weight that dominates another position by position gives a sum at
      least as large, and the two sums are equal exactly when the weights
      agree at every position. */
  lemma {:induction false} SumDominates<T>(s: seq<T>, f: T -> nat, g: T -> nat)
    requires forall i :: 0 <= i < |s| ==> g(s[i]) <= f(s[i])
    ensures Sum(s, g) <= Sum(s, f)
    ensures Sum(s, g) == Sum(s, f) <==> forall i :: 0 <= i < |s| ==> g(s[i]) == f(s[i])
  {
    if |s| != 0 {
      var n := |s| - 1;
      assert forall i :: 0 <= i < n ==> s[..n][i] == s[i];
      SumDominates(s[..n], f, g);
    }
  }

  /** A weight that vanishes everywhere sums to zero. */
  lemma {:induction false} SumZero<T>(s: seq<T>, f: T -> nat)
    requires forall i :: 0 <= i < |s| ==> f(s[i]) == 0
    ensures Sum(s, f) == 0
  {
    if |s| != 0 {
      var n := |s| - 1;
      assert forall i :: 0 <= i < n ==> s[..n][i] == s[i];
      SumZero(s[..n], f);
    }
  }

  /** When only position `i` has a non-zero weight, the sum is that weight. */
  lemma SumSingle<T>(s: seq<T>, i: nat, f: T -> nat)
    requires i < |s|
    requires forall j :: 0 <= j < |s| && j != i ==> f(s[j]) == 0
    ensures Sum(s, f) == f(s[i])
  {
    SumSplit(s, i, f);
    assert forall j :: 0 <= j < i ==> s[..i][j] == s[j];
    SumZero(s[..i], f);
    var rest := s[i + 1..];
    assert forall j :: 0 <= j < |rest| ==> rest[j] == s[i + 1 + j];
    SumZero(rest, f);
  }

  /** Two distinct positions both contribute to the sum. */
  lemma SumPair<T>(s: seq<T>, i: nat, j: nat, f: T -> nat)
    requires i < j < |s|
    ensures Sum(s, f) >= f(s[i]) + f(s[j])
  {
    SumSplit(s, j, f);
    SumSplit(s[..j], i, f);
  }
}
