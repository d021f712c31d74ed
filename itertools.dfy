/**
  The two iterator adapters of the `itertools` crate that the solvers use,
  stated as functions on sequences that produce the candidates in the same
  order as the library does:
  - `combinations(k)`: every k-element subsequence, in lexicographic order of
    the index tuples;
  - `combinations_with_replacement(k)`: every non-decreasing index tuple of
    length k, in lexicographic order.
 */
module Itertools {

  /** Prefixes every sequence of `cs` with `x`, keeping their order. */
  function PrependAll<T>(x: T, cs: seq<seq<T>>): seq<seq<T>>
  {
    seq(|cs|, i requires 0 <= i < |cs| => [x] + cs[i])
  }

  /** Position `j` of the first block of `PrependAll(x, head) + tail`. */
  lemma AtHead<T>(x: T, head: seq<seq<T>>, tail: seq<seq<T>>, j: nat)
    requires j < |head|
    ensures j < |PrependAll(x, head) + tail| && (PrependAll(x, head) + tail)[j] == [x] + head[j]
  {
  }

  /** Position `j` of the second block of `PrependAll(x, head) + tail`. */
  lemma AtTail<T>(x: T, head: seq<seq<T>>, tail: seq<seq<T>>, j: nat)
    requires j < |tail|
    ensures |head| + j < |PrependAll(x, head) + tail| && (PrependAll(x, head) + tail)[|head| + j] == tail[j]
  {
  }

  /** `c` is obtained from `s` by deleting elements (order kept). */
  predicate IsSubsequence<T(==)>(c: seq<T>, s: seq<T>)
    decreases |s|
  {
    if c == [] then true
    else if s == [] then false
    else (c[0] == s[0] && IsSubsequence(c[1..], s[1..])) || IsSubsequence(c, s[1..])
  }

  /** `s.iter().combinations(k)`. */
  function Combinations<T>(s: seq<T>, k: nat): (r: seq<seq<T>>)
    ensures forall i :: 0 <= i < |r| ==> |r[i]| == k
    decreases |s|
  {
    if k == 0 then [[]]
    else if |s| < k then []
    else PrependAll(s[0], Combinations(s[1..], k - 1)) + Combinations(s[1..], k)
  }

  /** The combinations that take `s[0]`, then those that skip it. */
  lemma CombinationsUnfold<T>(s: seq<T>, k: nat)
    requires 1 <= k <= |s|
    ensures Combinations(s, k) == PrependAll(s[0], Combinations(s[1..], k - 1)) + Combinations(s[1..], k)
  {
  }

  /** The binomial coefficient, by Pascal's rule. */
  function Binomial(n: nat, k: nat): nat
  {
    if k == 0 then 1
    else if n < k then 0
    else Binomial(n - 1, k - 1) + Binomial(n - 1, k)
  }

  /** There are C(|s|, k) combinations. */
  lemma {:induction false} CombinationsCount<T>(s: seq<T>, k: nat)
    ensures |Combinations(s, k)| == Binomial(|s|, k)
    decreases |s|
  {
    if k != 0 && |s| >= k {
      CombinationsUnfold(s, k);
      CombinationsCount(s[1..], k - 1);
      CombinationsCount(s[1..], k);
    }
  }

  /** A subsequence is never longer than the sequence it is taken from. */
  lemma {:induction false} SubsequenceLength<T>(c: seq<T>, s: seq<T>)
    requires IsSubsequence(c, s)
    ensures |c| <= |s|
    decreases |s|
  {
    if c != [] {
      if c[0] == s[0] && IsSubsequence(c[1..], s[1..]) {
        SubsequenceLength(c[1..], s[1..]);
      } else {
        SubsequenceLength(c, s[1..]);
      }
    }
  }

  /** A combination is exactly a subsequence of length k. */
  lemma CombinationsAreSubsequences<T>(s: seq<T>, k: nat, c: seq<T>)
    ensures c in Combinations(s, k) <==> |c| == k && IsSubsequence(c, s)
  {
    if c in Combinations(s, k) {
      var j :| 0 <= j < |Combinations(s, k)| && Combinations(s, k)[j] == c;
      CombinationSound(s, k, j);
    }
    if |c| == k && IsSubsequence(c, s) {
      var j := CombinationIndex(s, k, c);
    }
  }

  /** Every combination is a subsequence. */
  lemma {:induction false} CombinationSound<T>(s: seq<T>, k: nat, j: nat)
    requires j < |Combinations(s, k)|
    ensures IsSubsequence(Combinations(s, k)[j], s)
    decreases |s|
  {
    if k != 0 {
      CombinationsUnfold(s, k);
      var head := Combinations(s[1..], k - 1);
      var tail := Combinations(s[1..], k);
      if j < |head| {
        CombinationSound(s[1..], k - 1, j);
        AtHead(s[0], head, tail, j);
        TakeFirstSound(s, head[j]);
      } else {
        CombinationSound(s[1..], k, j - |head|);
        AtTail(s[0], head, tail, j - |head|);
        SkipFirstSound(s, tail[j - |head|]);
      }
    }
  }

  /** Putting the first element in front of a subsequence of the rest. */
  lemma TakeFirstSound<T>(s: seq<T>, c: seq<T>)
    requires s != [] && IsSubsequence(c, s[1..])
    ensures IsSubsequence([s[0]] + c, s)
  {
    assert ([s[0]] + c)[1..] == c;
  }

  /** A subsequence of the rest is a subsequence of the whole. */
  lemma SkipFirstSound<T>(s: seq<T>, c: seq<T>)
    requires s != [] && IsSubsequence(c, s[1..])
    ensures IsSubsequence(c, s)
  {
  }

  /** Where a subsequence of length k sits among the combinations. */
  lemma {:induction false} CombinationIndex<T>(s: seq<T>, k: nat, c: seq<T>) returns (j: nat)
    requires |c| == k && IsSubsequence(c, s)
    ensures j < |Combinations(s, k)| && Combinations(s, k)[j] == c
    decreases |s|
  {
    if k == 0 {
      j := 0;
      assert Combinations(s, k)[0] == c;
    } else {
      SubsequenceLength(c, s);
      if c[0] == s[0] && IsSubsequence(c[1..], s[1..]) {
        var j' := CombinationIndex(s[1..], k - 1, c[1..]);
        j := TakeFirst(s, k, c, j');
      } else {
        var j' := CombinationIndex(s[1..], k, c);
        j := SkipFirst(s, k, c, j');
      }
    }
  }

  /** A combination of the rest with the first element put in front. */
  lemma TakeFirst<T>(s: seq<T>, k: nat, c: seq<T>, j': nat) returns (j: nat)
    requires 1 <= k <= |s| && |c| == k && c[0] == s[0]
    requires j' < |Combinations(s[1..], k - 1)| && Combinations(s[1..], k - 1)[j'] == c[1..]
    ensures j < |Combinations(s, k)| && Combinations(s, k)[j] == c
  {
    CombinationsUnfold(s, k);
    AtHead(s[0], Combinations(s[1..], k - 1), Combinations(s[1..], k), j');
    j := j';
    assert c == [s[0]] + c[1..];
  }

  /** A combination of the rest, which skips the first element. */
  lemma SkipFirst<T>(s: seq<T>, k: nat, c: seq<T>, j': nat) returns (j: nat)
    requires 1 <= k <= |s|
    requires j' < |Combinations(s[1..], k)| && Combinations(s[1..], k)[j'] == c
    ensures j < |Combinations(s, k)| && Combinations(s, k)[j] == c
  {
    CombinationsUnfold(s, k);
    AtTail(s[0], Combinations(s[1..], k - 1), Combinations(s[1..], k), j');
    j := |Combinations(s[1..], k - 1)| + j';
  }

  /** A subsequence takes every element at most as often as the sequence has it. */
  lemma {:induction false} SubsequenceMultiset<T>(c: seq<T>, s: seq<T>)
    requires IsSubsequence(c, s)
    ensures multiset(c) <= multiset(s)
    decreases |s|
  {
    if c != [] {
      assert s == [s[0]] + s[1..];
      if c[0] == s[0] && IsSubsequence(c[1..], s[1..]) {
        SubsequenceMultiset(c[1..], s[1..]);
        assert c == [c[0]] + c[1..];
      } else {
        SubsequenceMultiset(c, s[1..]);
      }
    }
  }

  /** `s.iter().combinations_with_replacement(k)`: sequences of length k drawn from `s`. */
  function CombinationsWithReplacement<T>(s: seq<T>, k: nat): (r: seq<seq<T>>)
    ensures forall i :: 0 <= i < |r| ==> |r[i]| == k && forall x :: x in r[i] ==> x in s
    decreases |s| + k
  {
    if k == 0 then [[]]
    else if s == [] then []
    else PrependAll(s[0], CombinationsWithReplacement(s, k - 1)) + CombinationsWithReplacement(s[1..], k)
  }

  /** The combinations that start with `s[0]`, then those without it. */
  lemma CombinationsWithReplacementUnfold<T>(s: seq<T>, k: nat)
    requires k >= 1 && s != []
    ensures CombinationsWithReplacement(s, k)
         == PrependAll(s[0], CombinationsWithReplacement(s, k - 1)) + CombinationsWithReplacement(s[1..], k)
  {
  }

  /** There is nothing to choose from an empty sequence. */
  lemma CombinationsWithReplacementOfEmpty<T>(k: nat)
    requires k >= 1
    ensures CombinationsWithReplacement<T>([], k) == []
  {
  }

  /** Every element of the bag `m` occurs in `s`: clearing the elements of `s` from `m` one by one leaves nothing. */
  predicate DrawnFrom<T>(m: multiset<T>, s: seq<T>)
    decreases |s|
  {
    if s == [] then |m| == 0 else DrawnFrom(m[s[0] := 0], s[1..])
  }

  /** `DrawnFrom` says what its name says. */
  lemma {:induction false} DrawnFromElements<T>(m: multiset<T>, s: seq<T>)
    ensures DrawnFrom(m, s) <==> forall x :: x in m ==> x in s
    decreases |s|
  {
    if s != [] {
      var m' := m[s[0] := 0];
      DrawnFromElements(m', s[1..]);
      if forall x :: x in m ==> x in s {
        forall x | x in m' ensures x in s[1..] {
          var i :| 0 <= i < |s| && s[i] == x;
          assert i != 0;
          assert s[1..][i - 1] == x;
        }
      }
      if forall x :: x in m' ==> x in s[1..] {
        forall x | x in m ensures x in s {
          if x != s[0] {
            assert x in m';
          }
        }
      }
    }
  }

  /**
    Every bag of k elements drawn from `s` is enumerated, in some order:
    this is what lets a search over combinations with replacement stand for
    a search over all sequences when only the multiset matters.
   */
  lemma CombinationsWithReplacementComplete<T>(s: seq<T>, k: nat, m: multiset<T>)
    requires |m| == k
    requires DrawnFrom(m, s)
    ensures exists c :: c in CombinationsWithReplacement(s, k) && multiset(c) == m
  {
    var j := CombinationWithReplacementIndex(s, k, m);
    assert CombinationsWithReplacement(s, k)[j] in CombinationsWithReplacement(s, k);
  }

  /** Where a combination with replacement holding the bag `m` sits. */
  lemma {:induction false} CombinationWithReplacementIndex<T>(s: seq<T>, k: nat, m: multiset<T>) returns (j: nat)
    requires |m| == k
    requires DrawnFrom(m, s)
    ensures j < |CombinationsWithReplacement(s, k)| && multiset(CombinationsWithReplacement(s, k)[j]) == m
    decreases |s| + k
  {
    if k == 0 {
      j := 0;
      assert CombinationsWithReplacement(s, 0)[0] == [];
    } else {
      assert s != [];
      if s[0] in m {
        RemoveFirst(m, s);
        var j' := CombinationWithReplacementIndex(s, k - 1, m - multiset{s[0]});
        j := TakeHead(s, k, m, j');
      } else {
        assert m[s[0] := 0] == m;
        var j' := CombinationWithReplacementIndex(s[1..], k, m);
        j := SkipHead(s, k, m, j');
      }
    }
  }

  /** Taking one copy of the first element out of a bag drawn from `s`. */
  lemma RemoveFirst<T>(m: multiset<T>, s: seq<T>)
    requires s != [] && s[0] in m && DrawnFrom(m, s)
    ensures |m - multiset{s[0]}| == |m| - 1
    ensures DrawnFrom(m - multiset{s[0]}, s)
  {
    assert (m - multiset{s[0]})[s[0] := 0] == m[s[0] := 0];
  }

  /** A combination for `k - 1` with `s[0]` put in front. */
  lemma TakeHead<T>(s: seq<T>, k: nat, m: multiset<T>, j': nat) returns (j: nat)
    requires k >= 1 && s != [] && s[0] in m
    requires j' < |CombinationsWithReplacement(s, k - 1)|
    requires multiset(CombinationsWithReplacement(s, k - 1)[j']) == m - multiset{s[0]}
    ensures j < |CombinationsWithReplacement(s, k)| && multiset(CombinationsWithReplacement(s, k)[j]) == m
  {
    var head := CombinationsWithReplacement(s, k - 1);
    CombinationsWithReplacementUnfold(s, k);
    AtHead(s[0], head, CombinationsWithReplacement(s[1..], k), j');
    j := j';
    assert multiset([s[0]] + head[j]) == multiset([s[0]]) + multiset(head[j]);
  }

  /** A combination of the rest of `s`. */
  lemma SkipHead<T>(s: seq<T>, k: nat, m: multiset<T>, j': nat) returns (j: nat)
    requires k >= 1 && s != []
    requires j' < |CombinationsWithReplacement(s[1..], k)|
    requires multiset(CombinationsWithReplacement(s[1..], k)[j']) == m
    ensures j < |CombinationsWithReplacement(s, k)| && multiset(CombinationsWithReplacement(s, k)[j]) == m
  {
    var head := CombinationsWithReplacement(s, k - 1);
    CombinationsWithReplacementUnfold(s, k);
    AtTail(s[0], head, CombinationsWithReplacement(s[1..], k), j');
    j := |head| + j';
  }
}
