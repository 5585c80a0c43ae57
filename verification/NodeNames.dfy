/**
 How a list node renames what is appended to it: one pass over the names already
 there, moving to the next numbered name each time the current one is met.
 */
module NodeNames {
  import opened Decimal
  import opened Sequences

  /** The j-th name tried for a node called `base`: base, base (#2), base (#3)... */
  function Candidate(base: string, j: nat): string {
    if j <= 1 then base else base + Suffix(j)
  }

  function Suffix(j: nat): string {
    " (#" + Dec(j) + ")"
  }

  /** The pass, for any way `c` of making candidates: `j` numbers the current one. */
  function Scan(c: (string, nat) -> string, names: seq<string>, base: string, j: nat): (k: nat)
    ensures k >= j
  {
    if names == [] then j
    else if names[0] == c(base, j) then Scan(c, names[1..], base, j + 1)
    else Scan(c, names[1..], base, j)
  }

  /** The name under which a node called `base` is appended after `names`. */
  function NewName(names: seq<string>, base: string): string {
    Candidate(base, Scan(Candidate, names, base, 1))
  }

  /** A name that is not taken is kept. */
  lemma {:induction false} UnusedNameIsKept(names: seq<string>, base: string)
    requires base !in names
    ensures Scan(Candidate, names, base, 1) == 1 && NewName(names, base) == base
  {
    if names != [] {
      assert base !in names[1..];
      UnusedNameIsKept(names[1..], base);
    }
  }

  //////////////////////////////////////////////////////////////////////////////
  // One append, after any names
  //////////////////////////////////////////////////////////////////////////////

  /** Positions of the first `count` candidates, in order. */
  ghost predicate Chain(c: (string, nat) -> string, names: seq<string>, base: string, ps: seq<nat>) {
    && (forall i :: 0 <= i < |ps| ==> ps[i] < |names| && names[ps[i]] == c(base, i + 1))
    && (forall i, j :: 0 <= i < j < |ps| ==> ps[i] < ps[j])
  }

  /** A chain in `names[..at]` whose next candidate does not occur after its last link. */
  ghost predicate ChainUpTo(c: (string, nat) -> string, names: seq<string>, base: string, at: nat, ps: seq<nat>) {
    && at <= |names| && Chain(c, names, base, ps)
    && (ps != [] ==> ps[|ps| - 1] < at)
    && forall i :: (if ps == [] then 0 else ps[|ps| - 1] + 1) <= i < at ==> names[i] != c(base, |ps| + 1)
  }

  lemma ChainExtend(c: (string, nat) -> string, names: seq<string>, base: string, at: nat, ps: seq<nat>)
    requires ChainUpTo(c, names, base, at, ps) && at < |names| && names[at] == c(base, |ps| + 1)
    ensures ChainUpTo(c, names, base, at + 1, ps + [at])
  {
    var qs := ps + [at];
    assert forall i :: 0 <= i < |ps| ==> qs[i] == ps[i] <= ps[|ps| - 1];
  }

  /** The pass finds a chain, and stops at a candidate that does not come after its last link. */
  lemma {:induction false} ScanChain(c: (string, nat) -> string, names: seq<string>, base: string, at: nat, ps: seq<nat>) returns (qs: seq<nat>)
    requires ChainUpTo(c, names, base, at, ps)
    ensures ChainUpTo(c, names, base, |names|, qs) && |qs| + 1 == Scan(c, names[at..], base, |ps| + 1)
    decreases |names| - at
  {
    if at == |names| {
      qs := ps;
    } else {
      assert names[at..][0] == names[at] && names[at..][1..] == names[at + 1..];
      if names[at] == c(base, |ps| + 1) {
        ChainExtend(c, names, base, at, ps);
        qs := ScanChain(c, names, base, at + 1, ps + [at]);
      } else {
        qs := ScanChain(c, names, base, at + 1, ps);
      }
    }
  }

  ghost predicate HasCandidates(c: (string, nat) -> string, names: seq<string>, base: string, j: nat) {
    forall i: nat :: 1 <= i <= j ==> c(base, i) in names
  }

  /** Candidates 1 to j are present, and candidate j+1 stands before candidate j. */
  ghost predicate OutOfOrder(c: (string, nat) -> string, names: seq<string>, base: string, j: nat, p: nat, q: nat) {
    && j >= 1 && HasCandidates(c, names, base, j)
    && p < |names| && names[p] == c(base, j)
    && q < |names| && names[q] == c(base, j + 1)
    && q <= p
  }

  /** Candidates that are present, as long as all earlier ones are, come in increasing order. */
  ghost predicate CandidatesInOrder(c: (string, nat) -> string, names: seq<string>, base: string) {
    forall j: nat, p: nat, q: nat :: !OutOfOrder(c, names, base, j, p, q)
  }

  /** A chain cannot be continued backwards: then the order is broken at its end. */
  lemma CollisionIsOutOfOrder(c: (string, nat) -> string, names: seq<string>, base: string, qs: seq<nat>)
    requires ChainUpTo(c, names, base, |names|, qs) && c(base, |qs| + 1) in names
    ensures !CandidatesInOrder(c, names, base)
  {
    var q :| 0 <= q < |names| && names[q] == c(base, |qs| + 1);
    var j := |qs|;
    forall i: nat | 1 <= i <= j ensures c(base, i) in names {
      assert names[qs[i - 1]] == c(base, i);
    }
    assert OutOfOrder(c, names, base, j, qs[j - 1], q);
  }

  lemma AbsentCandidate(c: (string, nat) -> string, names: seq<string>, base: string, j: nat, f: nat)
    requires HasCandidates(c, names, base, j) && f >= 1 && c(base, f) !in names
    ensures j < f
  {
  }

  lemma FreshNameIsInOrder(c: (string, nat) -> string, names: seq<string>, base: string, qs: seq<nat>)
    requires Distinct(names) && Chain(c, names, base, qs) && c(base, |qs| + 1) !in names
    ensures CandidatesInOrder(c, names, base)
  {
    forall j: nat, p: nat, q: nat ensures !OutOfOrder(c, names, base, j, p, q) {
      if j >= 1 && HasCandidates(c, names, base, j) && p < |names| && names[p] == c(base, j)
         && q < |names| && names[q] == c(base, j + 1) {
        AbsentCandidate(c, names, base, j, |qs| + 1);
        assert names[qs[j - 1]] == c(base, j) && names[qs[j]] == c(base, j + 1);
        assert p == qs[j - 1] && q == qs[j];
      }
    }
  }

  /** Appending to distinct names keeps them distinct exactly when the candidates already
      present come in order. */
  lemma AppendKeepsDistinctExactly(names: seq<string>, base: string)
    requires Distinct(names)
    ensures Distinct(names + [NewName(names, base)]) <==> CandidatesInOrder(Candidate, names, base)
  {
    ScanCollidesExactly(Candidate, names, base);
    DistinctAppend(names, NewName(names, base));
  }

  lemma ScanCollidesExactly(c: (string, nat) -> string, names: seq<string>, base: string)
    requires Distinct(names)
    ensures c(base, Scan(c, names, base, 1)) !in names <==> CandidatesInOrder(c, names, base)
  {
    assert names[0..] == names;
    var qs := ScanChain(c, names, base, 0, []);
    if c(base, |qs| + 1) in names {
      CollisionIsOutOfOrder(c, names, base, qs);
    } else {
      FreshNameIsInOrder(c, names, base, qs);
    }
  }

  lemma DistinctAppend(names: seq<string>, name: string)
    requires Distinct(names)
    ensures Distinct(names + [name]) <==> name !in names
  {
    var all := names + [name];
    if name in names {
      var q :| 0 <= q < |names| && names[q] == name;
      assert all[q] == all[|names|];
    } else {
      forall i, j | 0 <= i < j < |all| ensures all[i] != all[j] {
        if j == |names| { assert all[i] in names; }
      }
    }
  }

  /** Appending "B" twice after an unrelated "B (#2)" gives that name to two nodes. */
  lemma RenamingCanCollide()
    ensures
      var names := ["B (#2)", "B"];
      Distinct(names) && !Distinct(names + [NewName(names, "B")])
  {
    var names := ["B (#2)", "B"];
    assert Dec(2) == "2";
    assert Suffix(2) == " (#2)";
    assert Candidate("B", 2) == "B (#2)";
    assert names[1..] == ["B"] && ["B"][1..] == [];
    assert Scan(Candidate, [], "B", 2) == 2;
    assert Scan(Candidate, ["B"], "B", 1) == 2;
    assert Scan(Candidate, names, "B", 1) == 2;
    assert (names + ["B (#2)"])[0] == (names + ["B (#2)"])[2];
  }

  //////////////////////////////////////////////////////////////////////////////
  // Whole runs
  //////////////////////////////////////////////////////////////////////////////

  ghost predicate IsNumbered(name: string, base: string, j: nat) {
    j >= 2 && name == base + Suffix(j)
  }

  /** A name that does not itself end in a number added by renaming. */
  ghost predicate IsPlain(name: string) {
    forall base: string, j: nat :: !IsNumbered(name, base, j)
  }

  ghost predicate AllPlain(bases: seq<string>) {
    forall i :: 0 <= i < |bases| ==> IsPlain(bases[i])
  }

  /** How many of the first `n` bases are `base`. */
  function Occurrences(bases: seq<string>, n: nat, base: string): nat
    requires n <= |bases|
  {
    if n == 0 then 0 else Occurrences(bases, n - 1, base) + if bases[n - 1] == base then 1 else 0
  }

  /** The names after appending nodes called `bases`, in turn, to an empty list. */
  function AppendNames(bases: seq<string>): (names: seq<string>)
    ensures |names| == |bases|
  {
    if bases == [] then []
    else
      var before := AppendNames(bases[..|bases| - 1]);
      before + [NewName(before, bases[|bases| - 1])]
  }

  lemma SuffixInjective(a: string, j: nat, b: string, k: nat)
    requires a + Suffix(j) == b + Suffix(k)
    ensures a == b && j == k
  {
    var s := a + Suffix(j);
    if |Dec(j)| == |Dec(k)| {
      assert |a| == |b|;
      assert s[..|a|] == a && s[..|b|] == b;
      assert s[|a| + 3..|s| - 1] == Dec(j);
      assert s[|b| + 3..|s| - 1] == Dec(k);
      DecInjective(j, k);
    } else {
      LongerNumber(a, j, b, k);
      LongerNumber(b, k, a, j);
    }
  }

  lemma SuffixDigit(b: string, k: nat, i: nat)
    requires |b| + 3 <= i < |b| + 3 + |Dec(k)|
    ensures |b + Suffix(k)| == |b| + 4 + |Dec(k)| && IsDigit((b + Suffix(k))[i])
  {
    assert (b + Suffix(k))[i] == Suffix(k)[i - |b|] == Dec(k)[i - |b| - 3];
  }

  lemma LongerNumber(a: string, j: nat, b: string, k: nat)
    requires a + Suffix(j) == b + Suffix(k)
    ensures |Dec(j)| >= |Dec(k)|
  {
    var s := a + Suffix(j);
    // The `#` before the shorter number would be a digit of the longer one.
    assert s[|a| + 2] == '#' && |s| == |a| + 4 + |Dec(j)|;
    forall i | |b| + 3 <= i < |b| + 3 + |Dec(k)| ensures IsDigit(s[i]) {
      SuffixDigit(b, k, i);
    }
  }

  lemma CandidateInjective(a: string, j: nat, b: string, k: nat)
    requires IsPlain(a) && IsPlain(b) && j >= 1 && k >= 1 && Candidate(a, j) == Candidate(b, k)
    ensures a == b && j == k
  {
    assert j >= 2 ==> IsNumbered(Candidate(a, j), a, j);
    assert k >= 2 ==> IsNumbered(Candidate(b, k), b, k);
    if j >= 2 && k >= 2 {
      SuffixInjective(a, j, b, k);
    }
  }

  /** Plain bases and ranks can be told from the candidates. */
  ghost predicate Separates(c: (string, nat) -> string) {
    forall a: string, b: string, j: nat, k: nat ::
      IsPlain(a) && IsPlain(b) && j >= 1 && k >= 1 && c(a, j) == c(b, k) ==> a == b && j == k
  }

  lemma CandidateSeparates()
    ensures Separates(Candidate)
  {
    forall a: string, b: string, j: nat, k: nat
      | IsPlain(a) && IsPlain(b) && j >= 1 && k >= 1 && Candidate(a, j) == Candidate(b, k)
      ensures a == b && j == k
    {
      CandidateInjective(a, j, b, k);
    }
  }

  /** After the run, each node bears its base's candidate, numbered by its rank among its namesakes. */
  ghost predicate Numbered(c: (string, nat) -> string, bases: seq<string>, names: seq<string>) {
    && |names| == |bases|
    && forall i {:trigger names[i]} :: 0 <= i < |names| ==> names[i] == c(bases[i], Occurrences(bases, i, bases[i]) + 1)
  }

  /** The pass over names numbered in this way meets every earlier namesake in turn. */
  lemma {:induction false} ScanNumbered(c: (string, nat) -> string, bases: seq<string>, names: seq<string>, base: string, at: nat)
    requires Separates(c) && Numbered(c, bases, names) && IsPlain(base) && AllPlain(bases) && at <= |bases|
    ensures Scan(c, names[at..], base, Occurrences(bases, at, base) + 1) == Occurrences(bases, |bases|, base) + 1
    decreases |bases| - at
  {
    if at == |bases| {
      assert names[at..] == [];
    } else {
      assert names[at..][0] == names[at] && names[at..][1..] == names[at + 1..];
      ScanNumbered(c, bases, names, base, at + 1);
    }
  }

  lemma {:induction false} OccurrencesGrow(bases: seq<string>, i: nat, j: nat, base: string)
    requires i <= j <= |bases|
    ensures Occurrences(bases, i, base) <= Occurrences(bases, j, base)
    ensures i < j && bases[i] == base ==> Occurrences(bases, i, base) < Occurrences(bases, j, base)
    decreases j - i
  {
    if i < j {
      OccurrencesGrow(bases, i, j - 1, base);
    }
  }

  lemma {:induction false} OccurrencesOfPrefix(bases: seq<string>, more: seq<string>, n: nat, base: string)
    requires n <= |bases|
    ensures Occurrences(bases + more, n, base) == Occurrences(bases, n, base)
  {
    if n > 0 {
      OccurrencesOfPrefix(bases, more, n - 1, base);
    }
  }

  lemma NumberedIsDistinct(c: (string, nat) -> string, bases: seq<string>, names: seq<string>)
    requires Separates(c) && Numbered(c, bases, names) && AllPlain(bases)
    ensures Distinct(names)
  {
    forall i, j | 0 <= i < j < |names| ensures names[i] != names[j] {
      OccurrencesGrow(bases, i, j, bases[i]);
    }
  }

  lemma NumberedAppend(c: (string, nat) -> string, bases: seq<string>, names: seq<string>, base: string)
    requires Separates(c) && Numbered(c, bases, names) && AllPlain(bases) && IsPlain(base)
    ensures Numbered(c, bases + [base], names + [c(base, Scan(c, names, base, 1))])
  {
    ScanNumbered(c, bases, names, base, 0);
    assert names[0..] == names;
    var all, allNames := bases + [base], names + [c(base, Scan(c, names, base, 1))];
    forall i | 0 <= i < |all| ensures allNames[i] == c(all[i], Occurrences(all, i, all[i]) + 1) {
      OccurrencesOfPrefix(bases, [base], i, all[i]);
      if i < |bases| {
        assert allNames[i] == names[i];
      }
    }
  }

  /** Over any run of appends of nodes with plain names, the names stay distinct, and the nodes
      called B are named B, B (#2), B (#3)... in order. */
  lemma {:induction false} RunsKeepNamesDistinct(bases: seq<string>)
    requires AllPlain(bases)
    ensures Numbered(Candidate, bases, AppendNames(bases)) && Distinct(AppendNames(bases))
  {
    CandidateSeparates();
    if bases != [] {
      var n := |bases| - 1;
      RunsKeepNamesDistinct(bases[..n]);
      NumberedAppend(Candidate, bases[..n], AppendNames(bases[..n]), bases[n]);
      assert bases[..n] + [bases[n]] == bases;
    }
    NumberedIsDistinct(Candidate, bases, AppendNames(bases));
  }
}
