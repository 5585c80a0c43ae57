/** Sequences: mapping to sequences, overwriting, and adding up. */
module Sequences {

  /** No element occurs twice. */
  predicate Distinct<T(==)>(s: seq<T>) {
    forall i, j :: 0 <= i < j < |s| ==> s[i] != s[j]
  }

  lemma Assoc<T>(a: seq<T>, b: seq<T>, c: seq<T>)
    ensures a + b + c == a + (b + c)
  {
  }

  /** Equal concatenations whose first parts have the same length have equal parts. */
  lemma SameStart<T>(a: seq<T>, x: seq<T>, b: seq<T>, y: seq<T>)
    requires a + x == b + y && |a| == |b|
    ensures a == b && x == y
  {
    assert (a + x)[..|a|] == a && (b + y)[..|a|] == b && (a + x)[|a|..] == x && (b + y)[|a|..] == y;
  }

  /** Prefixes that agree, and the elements after them, make longer prefixes that agree. */
  lemma LongerPrefix<T>(a: seq<T>, b: seq<T>, k: nat)
    requires k < |a| && k < |b| && a[..k] == b[..k] && a[k] == b[k]
    ensures a[..k + 1] == b[..k + 1]
  {
    assert a[..k + 1] == a[..k] + [a[k]] && b[..k + 1] == b[..k] + [b[k]];
  }

  lemma SubSlice<T>(s: seq<T>, p: nat, n: nat, i: nat, j: nat)
    requires i <= j <= n && p + n <= |s|
    ensures s[p..p + n][i..j] == s[p + i..p + j]
  {
    var a, b := s[p..p + n][i..j], s[p + i..p + j];
    forall k | 0 <= k < j - i ensures a[k] == b[k] {
      assert a[k] == s[p..p + n][i + k] == s[p + i + k] == b[k];
    }
  }

  /** The concatenation of the images of the elements. */
  function FlatMap<A, B>(f: A -> seq<B>, xs: seq<A>): seq<B> {
    if xs == [] then [] else f(xs[0]) + FlatMap(f, xs[1..])
  }

  function Map<A, B>(f: A -> B, xs: seq<A>): (ys: seq<B>)
    ensures |ys| == |xs|
    ensures forall i :: 0 <= i < |xs| ==> ys[i] == f(xs[i])
  {
    if xs == [] then [] else [f(xs[0])] + Map(f, xs[1..])
  }

  lemma {:induction false} FlatMapConcat<A, B>(f: A -> seq<B>, xs: seq<A>, ys: seq<A>)
    ensures FlatMap(f, xs + ys) == FlatMap(f, xs) + FlatMap(f, ys)
  {
    if xs == [] {
      assert xs + ys == ys;
    } else {
      FlatMapConcat(f, xs[1..], ys);
      assert (xs + ys)[1..] == xs[1..] + ys;
      Assoc(f(xs[0]), FlatMap(f, xs[1..]), FlatMap(f, ys));
    }
  }

  lemma FlatMapAppend<A, B>(f: A -> seq<B>, xs: seq<A>, x: A)
    ensures FlatMap(f, xs + [x]) == FlatMap(f, xs) + f(x)
  {
    FlatMapConcat(f, xs, [x]);
    assert [x][1..] == [];
    assert FlatMap(f, [x]) == f(x) + FlatMap(f, []);
  }

  /** Overwrites the elements from `p` on. */
  function Patch<T>(s: seq<T>, p: nat, data: seq<T>): (r: seq<T>)
    requires p + |data| <= |s|
    ensures |r| == |s|
    ensures r[p..p + |data|] == data
    ensures forall i :: 0 <= i < |s| && !(p <= i < p + |data|) ==> r[i] == s[i]
  {
    s[..p] + data + s[p + |data|..]
  }

  /** Overwriting a part of the same length. */
  lemma PatchMiddle<T>(a: seq<T>, b: seq<T>, c: seq<T>, data: seq<T>)
    requires |data| == |b|
    ensures Patch(a + b + c, |a|, data) == a + data + c
  {
    var s := a + b + c;
    assert s[..|a|] == a && s[|a| + |data|..] == c;
  }

  /** The sum of a measure over a sequence. */
  function Sum<T>(f: T -> nat, s: seq<T>): nat {
    if s == [] then 0 else Sum(f, s[..|s| - 1]) + f(s[|s| - 1])
  }

  lemma SumNext<T>(f: T -> nat, s: seq<T>, i: nat)
    requires i < |s|
    ensures Sum(f, s[..i + 1]) == Sum(f, s[..i]) + f(s[i])
  {
    assert s[..i + 1][..i] == s[..i];
  }

  lemma {:induction false} SumConcat<T>(f: T -> nat, a: seq<T>, b: seq<T>)
    ensures Sum(f, a + b) == Sum(f, a) + Sum(f, b)
    decreases |b|
  {
    if b == [] {
      assert a + b == a;
    } else {
      SumConcat(f, a, b[..|b| - 1]);
      assert (a + b)[..|a + b| - 1] == a + b[..|b| - 1];
    }
  }

  lemma SumWithout<T>(f: T -> nat, s: seq<T>, i: nat)
    requires i < |s|
    ensures Sum(f, s) == Sum(f, s[..i] + s[i + 1..]) + f(s[i])
  {
    SumNext(f, s, i);
    SumConcat(f, s[..i], s[i + 1..]);
    SumConcat(f, s[..i + 1], s[i + 1..]);
    assert s == s[..i + 1] + s[i + 1..];
  }

  lemma MultisetWithout<T>(s: seq<T>, i: nat)
    requires i < |s|
    ensures multiset(s) == multiset(s[..i] + s[i + 1..]) + multiset{s[i]}
  {
    assert s == s[..i] + ([s[i]] + s[i + 1..]);
  }

  lemma SameRest<T>(m: multiset<T>, n: multiset<T>, v: T)
    requires m + multiset{v} == n + multiset{v}
    ensures m == n
  {
    assert (m + multiset{v}) - multiset{v} == m && (n + multiset{v}) - multiset{v} == n;
  }

  /** A sum does not depend on the order of the sequence. */
  lemma {:induction false} SumOfPermutation<T>(f: T -> nat, a: seq<T>, b: seq<T>)
    requires multiset(a) == multiset(b)
    ensures Sum(f, a) == Sum(f, b)
    decreases |a|
  {
    if a == [] {
      assert |b| == |multiset(b)| == 0;
    } else {
      var n := |a| - 1;
      assert a[n] in multiset(b);
      var i :| 0 <= i < |b| && b[i] == a[n];
      var shorter, rest := a[..n] + a[n + 1..], b[..i] + b[i + 1..];
      MultisetWithout(a, n);
      MultisetWithout(b, i);
      SameRest(multiset(shorter), multiset(rest), a[n]);
      SumWithout(f, a, n);
      SumWithout(f, b, i);
      SumOfPermutation(f, shorter, rest);
    }
  }
}
