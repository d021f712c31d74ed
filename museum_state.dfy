/**
  The search state of the museum zone optimizer (`museum_solver/src/lib.rs`,
  `SolveState`): the members still free, kept in the canonical order of the
  derived `Ord` of `MemberInfo`, and the zones still to staff.
 */
module MuseumState {
  import opened MuseumCost
  import opened Itertools

  // ---------------------------------------------------------------------
  // The derived order of `MemberInfo`: `name` first, then `attr`, whose own
  // derived order compares `time`, `value`, `popularity` in that order.
  // `String` compares its bytes; UTF-8 keeps the order of code points, so
  // comparing the characters gives the same answer.
  // ---------------------------------------------------------------------

  /** Lexicographic `<` on strings. */
  predicate StringLess(a: string, b: string)
    decreases |a|
  {
    if a == [] then b != []
    else if b == [] then false
    else a[0] < b[0] || (a[0] == b[0] && StringLess(a[1..], b[1..]))
  }

  /** Exactly one of `a < b`, `a == b`, `b < a` holds. */
  lemma {:induction false} StringTrichotomy(a: string, b: string)
    ensures a == b || StringLess(a, b) || StringLess(b, a)
    ensures !(StringLess(a, b) && StringLess(b, a))
    decreases |a|
  {
    if a != [] && b != [] {
      StringTrichotomy(a[1..], b[1..]);
      if a[0] == b[0] && a[1..] == b[1..] {
        assert a == [a[0]] + a[1..] && b == [b[0]] + b[1..];
      }
    }
  }

  /** The string order is transitive. */
  lemma {:induction false} StringTransitive(a: string, b: string, c: string)
    requires StringLess(a, b) && StringLess(b, c)
    ensures StringLess(a, c)
    decreases |a|
  {
    if a != [] && a[0] == b[0] && b[0] == c[0] {
      StringTransitive(a[1..], b[1..], c[1..]);
    }
  }

  /** Lexicographic `<` on attributes. */
  predicate AttributeLess(a: Attribute, b: Attribute)
  {
    a.time < b.time
    || (a.time == b.time && a.value < b.value)
    || (a.time == b.time && a.value == b.value && a.popularity < b.popularity)
  }

  /** `MemberInfo`'s derived `<`. */
  predicate MemberLess(a: Member, b: Member)
  {
    StringLess(a.name, b.name) || (a.name == b.name && AttributeLess(a.attr, b.attr))
  }

  /** `MemberInfo`'s derived `<=`. */
  predicate MemberLessEq(a: Member, b: Member)
  {
    a == b || MemberLess(a, b)
  }

  /** The member order is a total order. */
  lemma MemberOrderIsTotal(a: Member, b: Member, c: Member)
    ensures MemberLessEq(a, b) || MemberLessEq(b, a)
    ensures MemberLessEq(a, b) && MemberLessEq(b, a) ==> a == b
    ensures MemberLessEq(a, b) && MemberLessEq(b, c) ==> MemberLessEq(a, c)
  {
    StringTrichotomy(a.name, b.name);
    StringTrichotomy(b.name, c.name);
    StringTrichotomy(a.name, c.name);
    if StringLess(a.name, b.name) && StringLess(b.name, c.name) {
      StringTransitive(a.name, b.name, c.name);
    }
  }

  // ---------------------------------------------------------------------
  // `.sorted()`: the result is ordered and a permutation of the input.
  // With a total order there is only one such sequence, so which sorting
  // algorithm the library runs does not matter; an insertion sort stands
  // for it.
  // ---------------------------------------------------------------------

  predicate Sorted(s: seq<Member>)
  {
    forall i, j :: 0 <= i < j < |s| ==> MemberLessEq(s[i], s[j])
  }

  /** Puts `x` in front of the first element it does not exceed. */
  function Insert(x: Member, s: seq<Member>): seq<Member>
  {
    if s == [] then [x]
    else if MemberLessEq(x, s[0]) then [x] + s
    else [s[0]] + Insert(x, s[1..])
  }

  /** Inserting adds one copy of `x` and nothing else. */
  lemma {:induction false} InsertCount(x: Member, s: seq<Member>)
    ensures multiset(Insert(x, s)) == multiset(s) + multiset{x}
    decreases |s|
  {
    if s != [] && !MemberLessEq(x, s[0]) {
      InsertCount(x, s[1..]);
      assert s == [s[0]] + s[1..];
    }
  }

  /** Inserting into an ordered sequence keeps it ordered and adds one copy of `x`. */
  lemma {:induction false} InsertSorted(x: Member, s: seq<Member>)
    requires Sorted(s)
    ensures Sorted(Insert(x, s))
    ensures multiset(Insert(x, s)) == multiset(s) + multiset{x}
    decreases |s|
  {
    InsertCount(x, s);
    if s != [] {
      if MemberLessEq(x, s[0]) {
        InsertFront(x, s);
      } else {
        var t := s[1..];
        MemberOrderIsTotal(x, s[0], s[0]);
        SortedTail(s);
        InsertSorted(x, t);
        InsertCount(x, t);
        assert forall j :: 0 <= j < |t| ==> MemberLessEq(s[0], t[j]) by {
          forall j | 0 <= j < |t| ensures MemberLessEq(s[0], t[j]) {
            assert t[j] == s[j + 1];
          }
        }
        InsertBehind(s[0], Insert(x, t), t, x);
      }
    }
  }

  /** `x <= s[0]` comes before everything in the ordered `s`. */
  lemma InsertFront(x: Member, s: seq<Member>)
    requires Sorted(s) && s != [] && MemberLessEq(x, s[0])
    ensures Sorted([x] + s)
  {
    forall j | 0 < j < |[x] + s| ensures MemberLessEq(x, ([x] + s)[j]) {
      MemberOrderIsTotal(x, s[0], s[j - 1]);
    }
  }

  /** `y`, no larger than what `rest` is made of, goes in front of it. */
  lemma InsertBehind(y: Member, rest: seq<Member>, t: seq<Member>, x: Member)
    requires Sorted(rest) && multiset(rest) == multiset(t) + multiset{x}
    requires forall j :: 0 <= j < |t| ==> MemberLessEq(y, t[j])
    requires MemberLessEq(y, x)
    ensures Sorted([y] + rest)
  {
    forall j | 0 < j < |[y] + rest| ensures MemberLessEq(y, ([y] + rest)[j]) {
      var z := rest[j - 1];
      assert z in multiset(rest);
      if z != x {
        assert z in multiset(t);
        var k :| 0 <= k < |t| && t[k] == z;
      }
    }
  }

  /** `members.sorted()`. */
  function Sort(s: seq<Member>): seq<Member>
  {
    if s == [] then [] else Insert(s[0], Sort(s[1..]))
  }

  /** The sorted sequence is ordered and a permutation of the input. */
  lemma {:induction false} SortSorted(s: seq<Member>)
    ensures Sorted(Sort(s))
    ensures multiset(Sort(s)) == multiset(s)
  {
    if s != [] {
      SortSorted(s[1..]);
      InsertSorted(s[0], Sort(s[1..]));
      assert s == [s[0]] + s[1..];
    }
  }

  /** The first element of an ordered sequence is its least. */
  lemma HeadIsLeast(s: seq<Member>, x: Member)
    requires Sorted(s) && x in multiset(s)
    ensures MemberLessEq(s[0], x)
  {
    var i :| 0 <= i < |s| && s[i] == x;
    if i != 0 {
      assert MemberLessEq(s[0], s[i]);
    }
  }

  /** Dropping the first element keeps the order and takes one copy of it out. */
  lemma SortedTail(s: seq<Member>)
    requires Sorted(s) && s != []
    ensures Sorted(s[1..])
    ensures multiset(s[1..]) == multiset(s) - multiset{s[0]}
  {
    var t := s[1..];
    assert s == [s[0]] + t;
    forall i, j | 0 <= i < j < |t| ensures MemberLessEq(t[i], t[j]) {
      assert t[i] == s[i + 1] && t[j] == s[j + 1];
    }
  }

  /** Two ordered permutations of each other start with the same member. */
  lemma SameHead(a: seq<Member>, b: seq<Member>)
    requires Sorted(a) && Sorted(b) && multiset(a) == multiset(b) && a != []
    ensures b != [] && a[0] == b[0]
  {
    assert a[0] in multiset(b);
    assert b != [];
    assert b[0] in multiset(a);
    HeadIsLeast(a, b[0]);
    HeadIsLeast(b, a[0]);
    MemberOrderIsTotal(a[0], b[0], b[0]);
  }

  /** Two ordered permutations of each other are equal: the sorted order is canonical. */
  lemma {:induction false} SortedUnique(a: seq<Member>, b: seq<Member>)
    requires Sorted(a) && Sorted(b) && multiset(a) == multiset(b)
    ensures a == b
    decreases |a|
  {
    if a == [] {
      assert |b| == |multiset(b)| == 0;
    } else {
      SameHead(a, b);
      SortedTail(a);
      SortedTail(b);
      SortedUnique(a[1..], b[1..]);
      assert a == [a[0]] + a[1..] && b == [b[0]] + b[1..];
    }
  }

  /** Sorting forgets the order the members came in. */
  lemma SortIsCanonical(a: seq<Member>, b: seq<Member>)
    requires multiset(a) == multiset(b)
    ensures Sort(a) == Sort(b)
  {
    SortSorted(a);
    SortSorted(b);
    SortedUnique(Sort(a), Sort(b));
  }

  // ---------------------------------------------------------------------
  // Removing the chosen members.
  // ---------------------------------------------------------------------

  /** `members.iter().filter(|it| !chosen.contains(it))`. */
  function Without(members: seq<Member>, chosen: seq<Member>): seq<Member>
  {
    if members == [] then []
    else if members[0] in chosen then Without(members[1..], chosen)
    else [members[0]] + Without(members[1..], chosen)
  }

  /** The filter keeps every copy of an unchosen member and no copy of a chosen one. */
  lemma {:induction false} WithoutCounts(members: seq<Member>, chosen: seq<Member>)
    ensures forall x :: multiset(Without(members, chosen))[x] == if x in chosen then 0 else multiset(members)[x]
    decreases |members|
  {
    if members != [] {
      WithoutCounts(members[1..], chosen);
      assert members == [members[0]] + members[1..];
    }
  }

  /** No member occurs twice. */
  predicate Distinct(members: seq<Member>)
  {
    forall x :: x in members ==> multiset(members)[x] == 1
  }

  /**
    Removing a choice of distinct members that each occur once removes
    exactly as many members as were chosen.
   */
  lemma WithoutCount(members: seq<Member>, chosen: seq<Member>)
    requires multiset(chosen) <= multiset(members)
    requires forall x :: x in chosen ==> multiset(members)[x] == 1 && multiset(chosen)[x] == 1
    ensures multiset(Without(members, chosen)) == multiset(members) - multiset(chosen)
    ensures |Without(members, chosen)| == |members| - |chosen|
  {
    var w := Without(members, chosen);
    WithoutCounts(members, chosen);
    forall x ensures multiset(w)[x] == (multiset(members) - multiset(chosen))[x] {
      if x !in chosen {
        assert multiset(chosen)[x] == 0;
      }
    }
    assert multiset(w) == multiset(members) - multiset(chosen);
    assert multiset(members) == multiset(w) + multiset(chosen);
    assert |multiset(members)| == |multiset(w)| + |multiset(chosen)|;
  }

  // ---------------------------------------------------------------------
  // `SolveState`.
  // ---------------------------------------------------------------------

  /** `SolveState`: structural equality is the memo key. */
  datatype State = State(members: seq<Member>, zones: seq<Zone>)

  /** `can_next`: at least six members and two zones are left. */
  predicate CanNext(s: State)
  {
    |s.members| >= 6 && |s.zones| >= 2
  }

  /** `current_zone`: the first zone still to staff. */
  function CurrentZone(s: State): (z: Zone)
    requires s.zones != []
    ensures z in s.zones
  {
    s.zones[0]
  }

  /** `member_combinations`: every 3-subsequence of the members, in index order. */
  function MemberCombinations(s: State): (r: seq<seq<Member>>)
    ensures forall i :: 0 <= i < |r| ==> |r[i]| == 3
  {
    Combinations(s.members, 3)
  }

  /** The combinations are exactly the subsequences of three members. */
  lemma MemberCombinationsAreTriples(s: State, c: seq<Member>)
    ensures c in MemberCombinations(s) <==> |c| == 3 && IsSubsequence(c, s.members)
  {
    CombinationsAreSubsequences(s.members, 3, c);
  }

  /**
    `next(chosen)`: the members that equal no chosen one, in canonical
    order, and the zones after the first.
   */
  function Next(s: State, chosen: seq<Member>): (r: State)
    ensures Sorted(r.members)
    ensures multiset(r.members) == multiset(Without(s.members, chosen))
    ensures forall x :: x in r.members <==> x in s.members && x !in chosen
    ensures s.zones != [] ==> r.zones == s.zones[1..]
  {
    SortSorted(Without(s.members, chosen));
    WithoutCounts(s.members, chosen);
    SortedWithoutMembers(s.members, chosen);
    State(Sort(Without(s.members, chosen)), if s.zones == [] then [] else s.zones[1..])
  }

  /** A member is left after removing and sorting iff it was there and was not chosen. */
  lemma SortedWithoutMembers(members: seq<Member>, chosen: seq<Member>)
    ensures forall x :: x in Sort(Without(members, chosen)) <==> x in members && x !in chosen
  {
    var sorted := Sort(Without(members, chosen));
    SortSorted(Without(members, chosen));
    WithoutCounts(members, chosen);
    forall x ensures x in sorted <==> x in members && x !in chosen {
      assert x in sorted <==> x in multiset(sorted);
      assert x in members <==> x in multiset(members);
    }
  }

  /** Two states with the same free members, in any order, and the same zones lead to the same next state. */
  lemma NextIsCanonical(s: State, t: State, chosen: seq<Member>)
    requires multiset(s.members) == multiset(t.members) && s.zones == t.zones
    ensures Next(s, chosen) == Next(t, chosen)
  {
    var a, b := Without(s.members, chosen), Without(t.members, chosen);
    WithoutCounts(s.members, chosen);
    WithoutCounts(t.members, chosen);
    assert multiset(a) == multiset(b);
    SortIsCanonical(a, b);
  }

  /**
    Taking a combination of distinct members removes exactly three of them and
    leaves the rest distinct; the next state has one zone fewer.
   */
  lemma NextOfCombination(s: State, chosen: seq<Member>)
    requires Distinct(s.members) && s.zones != []
    requires chosen in MemberCombinations(s)
    ensures |Next(s, chosen).members| == |s.members| - 3
    ensures Distinct(Next(s, chosen).members)
    ensures |Next(s, chosen).zones| == |s.zones| - 1
  {
    MemberCombinationsAreTriples(s, chosen);
    SubsequenceMultiset(chosen, s.members);
    forall x | x in chosen ensures multiset(s.members)[x] == 1 && multiset(chosen)[x] == 1 {
      assert x in multiset(chosen);
    }
    WithoutCount(s.members, chosen);
    var r := Next(s, chosen);
    assert |r.members| == |multiset(r.members)| == |Without(s.members, chosen)|;
  }

  /** A combination's members are distinct when the state's are. */
  lemma CombinationIsDistinct(s: State, chosen: seq<Member>)
    requires Distinct(s.members)
    requires chosen in MemberCombinations(s)
    ensures Distinct(chosen)
    ensures forall x :: x in chosen ==> x in s.members
  {
    MemberCombinationsAreTriples(s, chosen);
    SubsequenceMultiset(chosen, s.members);
    forall x | x in chosen ensures x in s.members {
      assert x in multiset(chosen);
    }
  }
}
